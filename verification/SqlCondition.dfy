/**
  SQL conditions as the database reads them: NOT binds tighter than AND, AND tighter than OR, and the
  placeholders of the text take the arguments from left to right.
 */
module SqlCondition {
  import opened Common
  import opened CelFilter

  datatype Token = LP | RP | AND | OR | NOT | Text(leaf: string)

  datatype Cond = Leaf(leaf: string) | Not(c: Cond) | And(l: Cond, r: Cond) | Or(l: Cond, r: Cond)

  datatype Parsed = Fail | Done(cond: Cond, rest: seq<Token>)

  function ParseOr(ts: seq<Token>): (p: Parsed)
    ensures p.Done? ==> |p.rest| < |ts|
    decreases |ts|, 3
  {
    var l := ParseAnd(ts);
    if l.Fail? || l.rest == [] || l.rest[0] != OR then l
    else
      var r := ParseOr(l.rest[1..]);
      if r.Fail? then Fail else Done(Or(l.cond, r.cond), r.rest)
  }

  function ParseAnd(ts: seq<Token>): (p: Parsed)
    ensures p.Done? ==> |p.rest| < |ts|
    decreases |ts|, 2
  {
    var l := ParseNot(ts);
    if l.Fail? || l.rest == [] || l.rest[0] != AND then l
    else
      var r := ParseAnd(l.rest[1..]);
      if r.Fail? then Fail else Done(And(l.cond, r.cond), r.rest)
  }

  function ParseNot(ts: seq<Token>): (p: Parsed)
    ensures p.Done? ==> |p.rest| < |ts|
    decreases |ts|, 1
  {
    if ts != [] && ts[0] == NOT then
      var c := ParseNot(ts[1..]);
      if c.Fail? then Fail else Done(Not(c.cond), c.rest)
    else ParsePrimary(ts)
  }

  function ParsePrimary(ts: seq<Token>): (p: Parsed)
    ensures p.Done? ==> |p.rest| < |ts|
    decreases |ts|, 0
  {
    if ts == [] then Fail
    else
      match ts[0]
      case Text(s) => Done(Leaf(s), ts[1..])
      case LP =>
        var c := ParseOr(ts[1..]);
        if c.Fail? || c.rest == [] || c.rest[0] != RP then Fail else Done(c.cond, c.rest[1..])
      case _ => Fail
  }

  /** The condition that a whole text is, if it is one. */
  function Read(ts: seq<Token>): Option<Cond> {
    var p := ParseOr(ts);
    if p.Done? && p.rest == [] then Some(p.cond) else None
  }

  // ---------------------------------------------------------------------------------------------
  // Placeholders and meaning
  // ---------------------------------------------------------------------------------------------

  /** The placeholders of a text. */
  function Holes(s: string): nat {
    if s == "" then 0 else (if s[0] == '?' then 1 else 0) + Holes(s[1..])
  }

  function CondHoles(c: Cond): nat {
    match c
    case Leaf(s) => Holes(s)
    case Not(d) => CondHoles(d)
    case And(l, r) => CondHoles(l) + CondHoles(r)
    case Or(l, r) => CondHoles(l) + CondHoles(r)
  }

  /**
    Whether a condition holds, given what each leaf text means with the arguments that its placeholders
    take. Each operand of AND and OR takes its arguments after those of the operand before it.
   */
  function Holds(c: Cond, args: seq<Value>, sql: (string, seq<Value>) -> bool): bool
    requires |args| == CondHoles(c)
  {
    match c
    case Leaf(s) => sql(s, args)
    case Not(d) => !Holds(d, args, sql)
    case And(l, r) => Holds(l, args[..CondHoles(l)], sql) && Holds(r, args[CondHoles(l)..], sql)
    case Or(l, r) => Holds(l, args[..CondHoles(l)], sql) || Holds(r, args[CondHoles(l)..], sql)
  }

  lemma {:induction false} HolesJoin(a: string, b: string)
    ensures Holes(a + b) == Holes(a) + Holes(b)
    decreases |a|
  {
    if a == "" {
      assert a + b == b;
    } else {
      assert (a + b)[1..] == a[1..] + b;
      HolesJoin(a[1..], b);
    }
  }

  lemma {:induction false} NoHoles(a: string)
    requires '?' !in a
    ensures Holes(a) == 0
    decreases |a|
  {
    if a != "" { NoHoles(a[1..]); }
  }

  // ---------------------------------------------------------------------------------------------
  // From text to tokens
  // ---------------------------------------------------------------------------------------------

  predicate Starts(s: string, p: string) {
    p <= s
  }

  /** Where a leaf must end: at the end, before a closing parenthesis or before a connective. */
  predicate Ends(s: string) {
    s == "" || s[0] == ')' || Starts(s, " AND ") || Starts(s, " OR ")
  }

  function Deeper(ch: char, depth: nat): nat {
    if ch == '(' then depth + 1 else if ch == ')' && depth > 0 then depth - 1 else depth
  }

  /** The length of the leaf at the start of a text; parentheses inside it are its own. */
  function LeafLength(s: string, depth: nat): (n: nat)
    ensures n <= |s|
  {
    if s == "" || (depth == 0 && Ends(s)) then 0 else 1 + LeafLength(s[1..], Deeper(s[0], depth))
  }

  function Lex(s: string): seq<Token>
    decreases |s|
  {
    if s == "" then []
    else if s[0] == '(' then [LP] + Lex(s[1..])
    else if s[0] == ')' then [RP] + Lex(s[1..])
    else if Starts(s, " AND ") then [AND] + Lex(s[5..])
    else if Starts(s, " OR ") then [OR] + Lex(s[4..])
    else if Starts(s, "NOT ") then [NOT] + Lex(s[4..])
    else
      var n := LeafLength(s, 0);
      [Text(s[..n])] + Lex(s[n..])
  }

  function Spelled(t: Token): string {
    match t
    case LP => "("
    case RP => ")"
    case AND => " AND "
    case OR => " OR "
    case NOT => "NOT "
    case Text(s) => s
  }

  function Render(ts: seq<Token>): string {
    if ts == [] then "" else Spelled(ts[0]) + Render(ts[1..])
  }

  lemma {:induction false} RenderJoin(a: seq<Token>, b: seq<Token>)
    ensures Render(a + b) == Render(a) + Render(b)
    decreases |a|
  {
    if a == [] {
      assert a + b == b;
    } else {
      assert (a + b)[1..] == a[1..] + b;
      RenderJoin(a[1..], b);
    }
  }

  /**
    The depth after a piece of a leaf, or none if the leaf would be cut short in it: by a closing
    parenthesis or, outside parentheses, by a blank that may start a connective.
   */
  function Walk(s: string, depth: nat): Option<nat> {
    if s == "" then Some(depth)
    else if depth == 0 && (s[0] == ')' || (s[0] == ' ' && (|s| == 1 || s[1] == 'A' || s[1] == 'O'))) then None
    else Walk(s[1..], Deeper(s[0], depth))
  }

  lemma {:induction false} WalkJoin(a: string, b: string, depth: nat)
    requires Walk(a, depth).Some?
    ensures Walk(a + b, depth) == Walk(b, Walk(a, depth).value)
    decreases |a|
  {
    if a == "" {
      assert a + b == b;
    } else {
      assert (a + b)[1..] == a[1..] + b;
      WalkJoin(a[1..], b, Deeper(a[0], depth));
    }
  }

  predicate Wordy(s: string) {
    forall i :: 0 <= i < |s| ==> s[i] != '(' && s[i] != ')' && s[i] != ' '
  }

  lemma {:induction false} WalkWord(s: string, depth: nat)
    requires Wordy(s)
    ensures Walk(s, depth) == Some(depth)
    decreases |s|
  {
    if s != "" { WalkWord(s[1..], depth); }
  }

  lemma {:induction false} WalkInside(s: string, depth: nat)
    requires depth > 0 && '(' !in s && ')' !in s
    ensures Walk(s, depth) == Some(depth)
    decreases |s|
  {
    if s != "" { WalkInside(s[1..], depth); }
  }

  lemma {:induction false} LeafLengthIs(s: string, rest: string, depth: nat)
    requires Walk(s, depth) == Some(0) && Ends(rest)
    ensures LeafLength(s + rest, depth) == |s|
    decreases |s|
  {
    if s == "" {
      assert s + rest == rest;
    } else {
      assert (s + rest)[1..] == s[1..] + rest && (s + rest)[0] == s[0];
      LeafLengthIs(s[1..], rest, Deeper(s[0], depth));
      if depth == 0 && s[0] == ' ' { assert (s + rest)[1] == s[1]; }
    }
  }

  /** A leaf text that the lexer takes in one piece. */
  predicate Whole(s: string) {
    s != "" && s[0] != '(' && s[0] != 'N' && s[0] != ' ' && Walk(s, 0) == Some(0)
  }

  /** Each leaf is whole, and followed by the end, a closing parenthesis or a connective. */
  predicate Spaced(ts: seq<Token>) {
    ts == [] || ((ts[0].Text? ==> Whole(ts[0].leaf) && Closing(ts[1..])) && Spaced(ts[1..]))
  }

  predicate Closing(ts: seq<Token>) {
    ts == [] || ts[0] == RP || ts[0] == AND || ts[0] == OR
  }

  lemma ClosingEnds(ts: seq<Token>)
    requires Closing(ts)
    ensures Ends(Render(ts))
  {
  }

  lemma LexSymbol(t: Token, rest: string)
    requires !t.Text?
    ensures Lex(Spelled(t) + rest) == [t] + Lex(rest)
  {
    var s := Spelled(t) + rest;
    assert s[|Spelled(t)|..] == rest && s[0] == Spelled(t)[0];
    assert Starts(s, Spelled(t));
    if t == OR { assert s[1] == 'O'; }
  }

  lemma LexLeaf(leaf: string, rest: string)
    requires Whole(leaf) && Ends(rest)
    ensures Lex(leaf + rest) == [Text(leaf)] + Lex(rest)
  {
    var s := leaf + rest;
    assert s[0] == leaf[0] && s[..|leaf|] == leaf && s[|leaf|..] == rest;
    LeafLengthIs(leaf, rest, 0);
  }

  /** Lexing undoes rendering. */
  lemma {:induction false} LexRender(ts: seq<Token>)
    requires Spaced(ts)
    ensures Lex(Render(ts)) == ts
    decreases |ts|
  {
    if ts != [] {
      var rest := ts[1..];
      LexRender(rest);
      if ts[0].Text? {
        ClosingEnds(rest);
        LexLeaf(ts[0].leaf, Render(rest));
      } else {
        LexSymbol(ts[0], Render(rest));
      }
    }
  }

  lemma {:induction false} SpacedJoin(a: seq<Token>, b: seq<Token>)
    requires Spaced(a) && Spaced(b) && (Closing(b) || a == [] || !a[|a| - 1].Text?)
    ensures Spaced(a + b)
    decreases |a|
  {
    if a == [] {
      assert a + b == b;
    } else {
      assert (a + b)[1..] == a[1..] + b;
      SpacedJoin(a[1..], b);
    }
  }
}
