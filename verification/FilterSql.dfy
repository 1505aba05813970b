/**
  The compiler from filter expressions to SQLite conditions (pkg/metastore/filters/sqlite.go). The text
  it writes reads as the expression means, and the arguments it pushes fit the placeholders, exactly for
  the expressions that are `Supported`.
 */
module FilterSql {
  import opened Common
  import opened CelFilter
  import opened FilterMeaning
  import opened SqlCondition

  datatype Output = Bad | Out(tokens: seq<Token>, args: seq<Value>)

  function LeafTokens(text: string): seq<Token> {
    if text == "" then [] else [Text(text)]
  }

  function LeafOut(leaf: LeafSql): Output {
    if leaf.Refused? then Bad else Out(LeafTokens(leaf.text), leaf.args)
  }

  /** n copies of a leaf with OR between them. */
  function Ors(text: string, n: nat): seq<Token> {
    if n == 0 then [] else if n == 1 then LeafTokens(text) else LeafTokens(text) + [OR] + Ors(text, n - 1)
  }

  function Patterns(vs: seq<Value>): seq<Value> {
    seq(|vs|, i requires 0 <= i < |vs| => ElementPattern(vs[i]))
  }

  function InOut(args: seq<Expr>): Output
    requires |args| == 2
  {
    if args[1].Ident? then
      if args[1].name in COLUMNS_LIST && args[0].Const? then LeafOut(ElementLeaf(args[1].name, args[0].value)) else Bad
    else if !args[0].Ident? || args[0].name !in COLUMNS_LIST || !args[1].ListOf? then Bad
    else
      var values := ConstValues(Elements(args[1]));
      if values.None? then Bad
      else
        var text, n := GetSQL(ContainsElement, args[0].name, ""), |values.value|;
        Out(ListTokens(text, n), Patterns(values.value))
  }

  function ListTokens(text: string, n: nat): seq<Token> {
    if n == 1 then LeafTokens(text) else [LP] + Ors(text, n) + [RP]
  }

  /** What an expression adds to the buffer and to the arguments. */
  function Compiled(e: Expr, now: int, sizeable: set<string>): Output {
    match e
    case Call(fn, target, args) =>
      if fn == "_||_" || fn == "_&&_" then
        if |args| != 2 then Bad
        else
          var l, r := Compiled(args[0], now, sizeable), Compiled(args[1], now, sizeable);
          if l.Bad? || r.Bad? then Bad
          else Out([LP] + (l.tokens + [if fn == "_||_" then OR else AND] + r.tokens) + [RP], l.args + r.args)
      else if fn == "!_" then
        if |args| != 1 then Bad
        else
          var c := Compiled(args[0], now, sizeable);
          if c.Bad? then Bad else Out([NOT, LP] + c.tokens + [RP], c.args)
      else if fn in COMPARISONS then
        if |args| != 2 then Bad else LeafOut(CompareLeaf(fn, args, now, sizeable))
      else if fn == "@in" then
        if |args| != 2 then Bad else InOut(args)
      else if fn == "contains" then
        if |args| != 1 then Bad else LeafOut(ContainsLeaf(target, args))
      else Out([], [])
    case Ident(id) => LeafOut(IdentLeaf(id))
    case _ => Out([], [])
  }

  // ---------------------------------------------------------------------------------------------
  // Leaves
  // ---------------------------------------------------------------------------------------------

  lemma NamesWordy(c: Column)
    ensures Wordy(ColumnName(c)) && '?' !in ColumnName(c)
  {
  }

  /** Text that keeps its parentheses, at any depth from `depth` on, and has no placeholder. */
  predicate Steady(s: string, depth: nat) {
    Walk(s, depth) == Some(depth) && Holes(s) == 0
  }

  lemma SteadyJoin(a: string, b: string, depth: nat)
    requires Steady(a, depth) && Steady(b, depth)
    ensures Steady(a + b, depth)
  {
    WalkJoin(a, b, depth);
    HolesJoin(a, b);
  }

  lemma SteadyCall(f: string, args: string, depth: nat)
    requires Wordy(f) && '?' !in f && Steady(args, depth + 1)
    ensures Steady(CallText(f, args), depth)
  {
    var inner := "(" + args + ")";
    assert CallText(f, args) == f + inner && inner[1..] == args + ")";
    WalkWord(f, depth);
    NoHoles(f);
    WalkJoin(args, ")", depth + 1);
    HolesJoin(args, ")");
    NoHoles(")");
    assert Walk(")", depth + 1) == Walk("", depth);
    WalkJoin(f, inner, depth);
    HolesJoin(f, inner);
  }

  lemma SteadyInside(s: string, depth: nat)
    requires depth > 0 && '(' !in s && ')' !in s && '?' !in s
    ensures Steady(s, depth)
  {
    WalkInside(s, depth);
    NoHoles(s);
  }

  lemma SteadyJson(c: Column, depth: nat)
    ensures Steady(JsonValue(c), depth)
  {
    NamesWordy(c);
    SteadyInside(ColumnName(c) + ", '$." + c.jsonkey + "'", depth + 1);
    SteadyCall("JSON_EXTRACT", ColumnName(c) + ", '$." + c.jsonkey + "'", depth);
  }

  lemma SteadyOr(c: Column, other: string, depth: nat)
    requires Steady(other, depth + 1)
    ensures Steady(JsonOr(c, other), depth)
  {
    SteadyJson(c, depth + 1);
    SteadyInside(", ", depth + 1);
    SteadyJoin(", ", other, depth + 1);
    SteadyJoin(JsonValue(c), ", " + other, depth + 1);
    SteadyCall("COALESCE", JsonValue(c) + (", " + other), depth);
  }

  lemma SteadyArray()
    ensures Steady(CallText("JSON_ARRAY", ""), 2)
  {
    assert Steady("", 3);
    SteadyCall("JSON_ARRAY", "", 2);
  }

  lemma SteadyLength(c: Column, other: string)
    requires Steady(other, 2)
    ensures Steady(CallText("JSON_ARRAY_LENGTH", JsonOr(c, other)), 0)
  {
    SteadyOr(c, other, 1);
    SteadyCall("JSON_ARRAY_LENGTH", JsonOr(c, other), 0);
  }

  lemma SteadyName(c: Column)
    ensures Steady(ColumnName(c), 0)
  {
    NamesWordy(c);
    WalkWord(ColumnName(c), 0);
    NoHoles(ColumnName(c));
  }

  lemma LeftWhole(template: Template, c: Column)
    requires LeftSide(template, c) != ""
    ensures Whole(LeftSide(template, c)) && Holes(LeftSide(template, c)) == 0
  {
    SteadyName(c);
    SteadyJson(c, 0);
    SteadyInside("false", 1);
    SteadyOr(c, "false", 0);
    SteadyArray();
    SteadyLength(c, CallText("JSON_ARRAY", ""));
  }

  /** The left side of a leaf with " word end" after it. */
  lemma LeafWhole(left: string, word: string, end: string)
    requires Whole(left) && Holes(left) == 0 && word != "" && Wordy(word) && word[0] != 'A' && word[0] != 'O' && '?' !in word
    requires end == "?" || end == "TRUE"
    ensures Whole(left + " " + word + " " + end)
    ensures Holes(left + " " + word + " " + end) == if end == "?" then 1 else 0
  {
    var mid, tail := " " + word, " " + end;
    assert left + " " + word + " " + end == left + (mid + tail);
    assert mid[1..] == word && tail[1..] == end;
    WalkWord(word, 0);
    WalkWord(end, 0);
    WalkJoin(mid, tail, 0);
    WalkJoin(left, mid + tail, 0);
    HolesJoin(left, mid + tail);
    HolesJoin(mid, tail);
    NoHoles(mid);
    HolesJoin(" ", end);
    assert Holes("?") == 1 + Holes("");
    if end == "TRUE" { NoHoles(tail); }
  }

  /** Every template of every column is one leaf for the lexer, with a placeholder where one belongs. */
  lemma SqlWhole(template: Template, c: Column, op: string)
    requires LeftSide(template, c) != "" && (template in {ContentCompare, BooleanCompare} ==> OperatorWord(op))
    ensures Whole(ColumnSQL(template, c, op))
    ensures Holes(ColumnSQL(template, c, op)) == if template in {TimestampField, BooleanCheck, ArrayLength} then 0 else 1
  {
    var left := LeftSide(template, c);
    LeftWhole(template, c);
    if template == BooleanCheck {
      LeafWhole(left, "IS", "TRUE");
      assert left + " IS TRUE" == left + " " + "IS" + " " + "TRUE";
    } else if template in {ContentLike, ContainsElement} {
      LeafWhole(left, "LIKE", "?");
      assert left + " LIKE ?" == left + " " + "LIKE" + " " + "?";
    } else if template in {ContentCompare, BooleanCompare} {
      LeafWhole(left, op, "?");
      assert left + (" " + op + " ?") == left + " " + op + " " + "?";
    } else {
      assert left + "" == left;
    }
  }

  predicate OperatorWord(op: string) {
    op != "" && Wordy(op) && op[0] != 'A' && op[0] != 'O' && '?' !in op
  }

  lemma OperatorsAreWords(fn: string)
    ensures OperatorWord(OperatorOf(fn))
  {
  }

  lemma BoolColumns(id: string)
    requires IsBool(id)
    ensures ColumnOf(id).value.jsonkey == "" <==> id == "is_group"
  {
  }

  lemma TimeColumns(id: string)
    requires id in COLUMNS_TIME
    ensures ColumnOf(id).Some? && ColumnOf(id).value.jsonkey == ""
  {
  }

  lemma ListColumns(id: string)
    requires id in COLUMNS_LIST
    ensures ColumnOf(id).Some? && ColumnOf(id).value.jsonkey != ""
  {
  }

  /** One piece of text with as many placeholders as arguments, unless there is no text at all. */
  predicate GoodLeaf(leaf: LeafSql) {
    leaf.Accepted? && leaf.text != "" ==> Whole(leaf.text) && Holes(leaf.text) == |leaf.args|
  }

  lemma CompareGood(fn: string, args: seq<Expr>, now: int, sizeable: set<string>)
    requires |args| == 2 && sizeable <= COLUMNS_LIST
    ensures var leaf := CompareLeaf(fn, args, now, sizeable);
            GoodLeaf(leaf) && (leaf.Accepted? ==> (leaf.text == "" <==> args[0] == Ident("is_group")))
  {
    var leaf, op := CompareLeaf(fn, args, now, sizeable), OperatorOf(fn);
    OperatorsAreWords(fn);
    if leaf.Accepted? {
      if args[0].Call? {
        var id := args[0].args[0].name;
        ListColumns(id);
        SideOperator(ArrayLength, ColumnOf(id).value, op);
      } else {
        var id := args[0].name;
        if id in COLUMNS_TIME {
          TimeColumns(id);
          SideOperator(TimestampField, ColumnOf(id).value, op);
        } else if IsBool(id) {
          BoolColumns(id);
          if id != "is_group" { SqlWhole(BooleanCompare, ColumnOf(id).value, op); }
        } else {
          SqlWhole(ContentCompare, ColumnOf(id).value, op);
        }
      }
    }
  }

  lemma SideOperator(template: Template, c: Column, op: string)
    requires LeftSide(template, c) != "" && template in {ArrayLength, TimestampField} && OperatorWord(op)
    ensures Whole(ColumnSQL(template, c, "") + " " + op + " ?") && Holes(ColumnSQL(template, c, "") + " " + op + " ?") == 1
  {
    var left := ColumnSQL(template, c, "");
    SqlWhole(template, c, "");
    LeafWhole(left, op, "?");
    assert left + " " + op + " ?" == left + " " + op + " " + "?";
  }

  lemma ContainsGood(target: Expr, args: seq<Expr>)
    requires |args| == 1
    ensures var leaf := ContainsLeaf(target, args); GoodLeaf(leaf) && (leaf.Accepted? ==> leaf.text != "")
  {
    if ContainsLeaf(target, args).Accepted? { SqlWhole(ContentLike, ColumnOf(target.name).value, ""); }
  }

  lemma ElementGood(id: string, v: Value)
    requires id in COLUMNS_LIST
    ensures GoodLeaf(ElementLeaf(id, v)) && ElementLeaf(id, v).text != ""
  {
    ListColumns(id);
    SqlWhole(ContainsElement, ColumnOf(id).value, "");
  }

  lemma IdentGood(id: string)
    ensures GoodLeaf(IdentLeaf(id)) && (IdentLeaf(id).Accepted? ==> (IdentLeaf(id).text == "" <==> id == "is_group"))
  {
    if IsBool(id) {
      BoolColumns(id);
      if id != "is_group" { SqlWhole(BooleanCheck, ColumnOf(id).value, ""); }
    }
  }

  // ---------------------------------------------------------------------------------------------
  // Reading the tokens back
  // ---------------------------------------------------------------------------------------------

  function OrTree(text: string, n: nat): Cond {
    if n <= 1 then Leaf(text) else Or(Leaf(text), OrTree(text, n - 1))
  }

  /** The condition that the text of an expression is. */
  function Tree(e: Expr, now: int, sizeable: set<string>): Cond {
    match e
    case Call(fn, target, args) =>
      if fn == "_||_" && |args| == 2 then Or(Tree(args[0], now, sizeable), Tree(args[1], now, sizeable))
      else if fn == "_&&_" && |args| == 2 then And(Tree(args[0], now, sizeable), Tree(args[1], now, sizeable))
      else if fn == "!_" && |args| == 1 then Not(Tree(args[0], now, sizeable))
      else if fn in COMPARISONS && |args| == 2 then LeafTree(CompareLeaf(fn, args, now, sizeable))
      else if fn == "@in" && |args| == 2 then InTree(args)
      else if fn == "contains" && |args| == 1 then LeafTree(ContainsLeaf(target, args))
      else Leaf("")
    case Ident(id) => LeafTree(IdentLeaf(id))
    case _ => Leaf("")
  }

  function LeafTree(leaf: LeafSql): Cond {
    if leaf.Accepted? then Leaf(leaf.text) else Leaf("")
  }

  /** What stands between two parentheses is read on its own. */
  lemma ParseParens(ts: seq<Token>, p: Parsed, rest: seq<Token>)
    requires ParseOr(ts + ([RP] + rest)) == p && (p.Done? ==> p.rest == [RP] + rest)
    ensures ParseNot([LP] + ts + [RP] + rest) == if p.Fail? then Fail else Done(p.cond, rest)
  {
    var all := [LP] + ts + [RP] + rest;
    assert all[1..] == ts + ([RP] + rest);
  }

  /** A unit before a closing parenthesis is a whole operand. */
  lemma ParseAlone(ts: seq<Token>, p: Parsed, rest: seq<Token>)
    requires ParseNot(ts + ([RP] + rest)) == p && (p.Done? ==> p.rest == [RP] + rest)
    ensures ParseAnd(ts + ([RP] + rest)) == ParseOr(ts + ([RP] + rest)) == p
  {
  }

  lemma ParseBinary(l: seq<Token>, op: Token, r: seq<Token>, rest: seq<Token>, pl: Parsed, pr: Parsed)
    requires op == AND || op == OR
    requires var after := [op] + (r + ([RP] + rest)); ParseNot(l + after) == pl && (pl.Done? ==> pl.rest == after)
    requires ParseNot(r + ([RP] + rest)) == pr && (pr.Done? ==> pr.rest == [RP] + rest)
    ensures ParseNot([LP] + (l + [op] + r) + [RP] + rest)
         == if pl.Fail? || pr.Fail? then Fail
            else Done(if op == AND then And(pl.cond, pr.cond) else Or(pl.cond, pr.cond), rest)
  {
    var after, inner := [op] + (r + ([RP] + rest)), l + [op] + r;
    assert inner + ([RP] + rest) == l + after && after[1..] == r + ([RP] + rest);
    ParseAlone(r, pr, rest);
    var p := if pl.Fail? || pr.Fail? then Fail
             else Done(if op == AND then And(pl.cond, pr.cond) else Or(pl.cond, pr.cond), [RP] + rest);
    assert ParseOr(l + after) == p;
    ParseParens(inner, p, rest);
  }

  lemma {:induction false} ParseOrs(text: string, n: nat, rest: seq<Token>)
    requires text != "" && n > 0
    ensures ParseOr(Ors(text, n) + ([RP] + rest)) == Done(OrTree(text, n), [RP] + rest)
    decreases n
  {
    var all := Ors(text, n) + ([RP] + rest);
    if n == 1 {
      assert all[1..] == [RP] + rest;
    } else {
      var more := Ors(text, n - 1) + ([RP] + rest);
      assert all == [Text(text), OR] + more && all[1..] == [OR] + more && all[1..][1..] == more;
      assert ParseAnd(all) == ParseNot(all) == Done(Leaf(text), all[1..]);
      ParseOrs(text, n - 1, rest);
    }
  }

  lemma NothingToRead(rest: seq<Token>)
    requires Closing(rest)
    ensures ParseNot(rest) == ParseAnd(rest) == ParseOr(rest) == Fail
  {
  }

  lemma ParseNegated(ts: seq<Token>, p: Parsed, rest: seq<Token>)
    requires ParseNot(ts + ([RP] + rest)) == p && (p.Done? ==> p.rest == [RP] + rest)
    ensures ParseNot([NOT, LP] + ts + [RP] + rest) == if p.Fail? then Fail else Done(Not(p.cond), rest)
  {
    var all := [NOT, LP] + ts + [RP] + rest;
    ParseAlone(ts, p, rest);
    ParseParens(ts, p, rest);
    assert all[1..] == [LP] + ts + [RP] + rest;
  }

  /** A leaf is read as itself; without a text there is nothing to read. */
  lemma ParseLeaf(text: string, rest: seq<Token>)
    requires Closing(rest)
    ensures ParseNot(LeafTokens(text) + rest) == if text == "" then Fail else Done(Leaf(text), rest)
  {
    var all := LeafTokens(text) + rest;
    if text == "" {
      assert all == rest;
    } else {
      assert all[1..] == rest;
    }
  }

  lemma ParseList(text: string, n: nat, rest: seq<Token>)
    requires text != "" && Closing(rest)
    ensures ParseNot(ListTokens(text, n) + rest) == if n == 0 then Fail else Done(OrTree(text, n), rest)
  {
    if n == 1 {
      ParseLeaf(text, rest);
    } else if n == 0 {
      NothingToRead([RP] + rest);
      assert [] + ([RP] + rest) == [RP] + rest;
      ParseParens([], Fail, rest);
    } else {
      ParseOrs(text, n, rest);
      ParseParens(Ors(text, n), Done(OrTree(text, n), [RP] + rest), rest);
    }
  }

  function InTree(args: seq<Expr>): Cond
    requires |args| == 2
  {
    if args[1].Ident? then Leaf(GetSQL(ContainsElement, args[1].name, ""))
    else if args[0].Ident? then OrTree(GetSQL(ContainsElement, args[0].name, ""), |Elements(args[1])|)
    else Leaf("")
  }

  lemma ParseIn(args: seq<Expr>, rest: seq<Token>)
    requires |args| == 2 && InOut(args).Out? && Closing(rest)
    ensures ParseNot(InOut(args).tokens + rest)
         == if args[1].Ident? || Elements(args[1]) != [] then Done(InTree(args), rest) else Fail
  {
    if args[1].Ident? {
      ElementGood(args[1].name, args[0].value);
      ParseLeaf(GetSQL(ContainsElement, args[1].name, ""), rest);
    } else {
      ElementGood(args[0].name, Int(0));
      ValuesCount(Elements(args[1]));
      ParseList(GetSQL(ContainsElement, args[0].name, ""), |Elements(args[1])|, rest);
    }
  }

  lemma {:induction false} ValuesCount(es: seq<Expr>)
    requires ConstValues(es).Some?
    ensures |ConstValues(es).value| == |es|
    ensures forall i :: 0 <= i < |es| ==> es[i].Const? && ConstValues(es).value[i] == es[i].value
    decreases |es|
  {
    if es != [] { ValuesCount(es[1..]); }
  }

  /** In any place where an operand may stand, a supported expression is read as its tree, any other fails. */
  ghost predicate Parses(e: Expr, now: int, sizeable: set<string>, rest: seq<Token>) {
    Compiled(e, now, sizeable).Out? && Closing(rest) ==>
      ParseNot(Compiled(e, now, sizeable).tokens + rest) == if Supported(e) then Done(Tree(e, now, sizeable), rest) else Fail
  }

  lemma ParsesBinary(e: Expr, now: int, sizeable: set<string>, rest: seq<Token>)
    requires e.Call? && (e.fn == "_||_" || e.fn == "_&&_")
    requires forall a, more :: a in e.args ==> Parses(a, now, sizeable, more)
    ensures Parses(e, now, sizeable, rest)
  {
    if Compiled(e, now, sizeable).Out? && Closing(rest) {
      var a, b, op := e.args[0], e.args[1], if e.fn == "_||_" then OR else AND;
      var l, r := Compiled(a, now, sizeable).tokens, Compiled(b, now, sizeable).tokens;
      var after := [op] + (r + ([RP] + rest));
      assert Parses(a, now, sizeable, after) && Parses(b, now, sizeable, [RP] + rest);
      ParseBinary(l, op, r, rest, ParseNot(l + after), ParseNot(r + ([RP] + rest)));
    }
  }

  lemma ParsesNot(e: Expr, now: int, sizeable: set<string>, rest: seq<Token>)
    requires e.Call? && e.fn == "!_"
    requires forall a, more :: a in e.args ==> Parses(a, now, sizeable, more)
    ensures Parses(e, now, sizeable, rest)
  {
    if Compiled(e, now, sizeable).Out? && Closing(rest) {
      var c := Compiled(e.args[0], now, sizeable).tokens;
      assert Parses(e.args[0], now, sizeable, [RP] + rest);
      ParseNegated(c, ParseNot(c + ([RP] + rest)), rest);
    }
  }

  lemma ParsesLeaf(e: Expr, now: int, sizeable: set<string>, rest: seq<Token>)
    requires sizeable <= COLUMNS_LIST && (e.Call? ==> e.fn !in {"_||_", "_&&_", "!_"})
    ensures Parses(e, now, sizeable, rest)
  {
    if Compiled(e, now, sizeable).Out? && Closing(rest) {
      match e
      case Call(fn, target, args) =>
        if fn in COMPARISONS {
          CompareGood(fn, args, now, sizeable);
          ParseLeaf(CompareLeaf(fn, args, now, sizeable).text, rest);
        } else if fn == "@in" {
          ParseIn(args, rest);
        } else if fn == "contains" {
          ContainsGood(target, args);
          ParseLeaf(ContainsLeaf(target, args).text, rest);
        } else {
          ParseLeaf("", rest);
        }
      case Ident(id) =>
        IdentGood(id);
        ParseLeaf(IdentLeaf(id).text, rest);
      case _ =>
        ParseLeaf("", rest);
    }
  }

  lemma {:induction false} ParseCompiled(e: Expr, now: int, sizeable: set<string>, rest: seq<Token>)
    requires sizeable <= COLUMNS_LIST
    ensures Parses(e, now, sizeable, rest)
    decreases e
  {
    if e.Call? {
      forall a, more | a in e.args ensures Parses(a, now, sizeable, more) {
        ParseCompiled(a, now, sizeable, more);
      }
    }
    if e.Call? && (e.fn == "_||_" || e.fn == "_&&_") {
      ParsesBinary(e, now, sizeable, rest);
    } else if e.Call? && e.fn == "!_" {
      ParsesNot(e, now, sizeable, rest);
    } else {
      ParsesLeaf(e, now, sizeable, rest);
    }
  }

  // ---------------------------------------------------------------------------------------------
  // The text
  // ---------------------------------------------------------------------------------------------

  /** The tokens stay apart in the text, and its placeholders are as many as the arguments. */
  ghost predicate Written(e: Expr, now: int, sizeable: set<string>) {
    var out := Compiled(e, now, sizeable);
    out.Out? ==> Spaced(out.tokens) && (Supported(e) ==> Holes(Render(out.tokens)) == |out.args|)
  }

  lemma LeafWritten(leaf: LeafSql)
    requires leaf.Accepted? && GoodLeaf(leaf)
    ensures Spaced(LeafTokens(leaf.text)) && Render(LeafTokens(leaf.text)) == leaf.text
  {
  }

  lemma SymbolSpaced(t: Token)
    requires !t.Text?
    ensures Spaced([t]) && Render([t]) == Spelled(t) && Holes(Render([t])) == 0
  {
    assert Render([t]) == Spelled(t) + Render([]);
    NoHoles(Spelled(t));
  }

  /** Two texts one after the other. */
  lemma TextJoin(a: seq<Token>, b: seq<Token>)
    requires Spaced(a) && Spaced(b) && (Closing(b) || a == [] || !a[|a| - 1].Text?)
    ensures Spaced(a + b) && Holes(Render(a + b)) == Holes(Render(a)) + Holes(Render(b))
  {
    SpacedJoin(a, b);
    RenderJoin(a, b);
    HolesJoin(Render(a), Render(b));
  }

  lemma {:induction false} OrsWritten(text: string, n: nat)
    requires Whole(text) && Holes(text) == 1
    ensures Spaced(Ors(text, n)) && Holes(Render(Ors(text, n))) == n
    decreases n
  {
    LeafWritten(Accepted(text, [Int(0)]));
    if n > 1 {
      OrsWritten(text, n - 1);
      SymbolSpaced(OR);
      TextJoin([OR], Ors(text, n - 1));
      TextJoin([Text(text)], [OR] + Ors(text, n - 1));
      assert Ors(text, n) == [Text(text)] + ([OR] + Ors(text, n - 1));
    }
  }

  lemma ParensWritten(ts: seq<Token>)
    requires Spaced(ts)
    ensures Spaced([LP] + ts + [RP]) && Holes(Render([LP] + ts + [RP])) == Holes(Render(ts))
  {
    SymbolSpaced(LP);
    SymbolSpaced(RP);
    TextJoin([LP], ts);
    TextJoin([LP] + ts, [RP]);
  }

  lemma BinaryWritten(l: seq<Token>, op: Token, r: seq<Token>)
    requires Spaced(l) && Spaced(r) && (op == AND || op == OR)
    ensures Spaced([LP] + (l + [op] + r) + [RP])
    ensures Holes(Render([LP] + (l + [op] + r) + [RP])) == Holes(Render(l)) + Holes(Render(r))
  {
    SymbolSpaced(op);
    TextJoin(l, [op]);
    TextJoin(l + [op], r);
    ParensWritten(l + [op] + r);
  }

  lemma NotWritten(ts: seq<Token>)
    requires Spaced(ts)
    ensures Spaced([NOT, LP] + ts + [RP]) && Holes(Render([NOT, LP] + ts + [RP])) == Holes(Render(ts))
  {
    ParensWritten(ts);
    SymbolSpaced(NOT);
    TextJoin([NOT], [LP] + ts + [RP]);
    assert [NOT] + ([LP] + ts + [RP]) == [NOT, LP] + ts + [RP];
  }

  lemma InWritten(args: seq<Expr>)
    requires |args| == 2 && InOut(args).Out?
    ensures Spaced(InOut(args).tokens) && Holes(Render(InOut(args).tokens)) == |InOut(args).args|
  {
    if args[1].Ident? {
      ElementGood(args[1].name, args[0].value);
      LeafWritten(ElementLeaf(args[1].name, args[0].value));
    } else {
      var leaf, n := ElementLeaf(args[0].name, Int(0)), |ConstValues(Elements(args[1])).value|;
      ElementGood(args[0].name, Int(0));
      LeafWritten(leaf);
      OrsWritten(leaf.text, n);
      ParensWritten(Ors(leaf.text, n));
    }
  }

  lemma LeavesWritten(e: Expr, now: int, sizeable: set<string>)
    requires sizeable <= COLUMNS_LIST && (e.Call? ==> e.fn !in {"_||_", "_&&_", "!_"})
    ensures Written(e, now, sizeable)
  {
    if Compiled(e, now, sizeable).Out? {
      match e
      case Call(fn, target, args) =>
        if fn in COMPARISONS {
          CompareGood(fn, args, now, sizeable);
          LeafWritten(CompareLeaf(fn, args, now, sizeable));
        } else if fn == "@in" {
          InWritten(args);
        } else if fn == "contains" {
          ContainsGood(target, args);
          LeafWritten(ContainsLeaf(target, args));
        }
      case Ident(id) =>
        IdentGood(id);
        LeafWritten(IdentLeaf(id));
      case _ =>
    }
  }

  lemma {:induction false} TextWritten(e: Expr, now: int, sizeable: set<string>)
    requires sizeable <= COLUMNS_LIST
    ensures Written(e, now, sizeable)
    decreases e
  {
    if e.Call? && (e.fn == "_||_" || e.fn == "_&&_") {
      if |e.args| == 2 {
        TextWritten(e.args[0], now, sizeable);
        TextWritten(e.args[1], now, sizeable);
        var l, r := Compiled(e.args[0], now, sizeable), Compiled(e.args[1], now, sizeable);
        if l.Out? && r.Out? { BinaryWritten(l.tokens, if e.fn == "_||_" then OR else AND, r.tokens); }
      }
    } else if e.Call? && e.fn == "!_" {
      if |e.args| == 1 {
        TextWritten(e.args[0], now, sizeable);
        if Compiled(e.args[0], now, sizeable).Out? { NotWritten(Compiled(e.args[0], now, sizeable).tokens); }
      }
    } else {
      LeavesWritten(e, now, sizeable);
    }
  }

  // ---------------------------------------------------------------------------------------------
  // Arguments
  // ---------------------------------------------------------------------------------------------

  const TWO_64 := 0x1_0000_0000_0000_0000

  lemma WrapShift(x: int, k: int)
    ensures Wrap64(x + k * TWO_64) == Wrap64(x)
  {
  }

  /** Two integers with the same 64 bits differ by a multiple of 2^64. */
  lemma SameBits(a: int, b: int) returns (k: int)
    requires Wrap64(a) == Wrap64(b)
    ensures a == b + k * TWO_64
  {
    k := (a + 0x8000_0000_0000_0000) / TWO_64 - (b + 0x8000_0000_0000_0000) / TWO_64;
  }

  lemma WrapIff(x: int)
    ensures In64(Wrap64(x)) && (Wrap64(x) == x <==> In64(x))
  {
  }

  lemma WrapProduct(a: int, k: int, b: int, l: int)
    ensures Wrap64((a + k * TWO_64) * (b + l * TWO_64)) == Wrap64(a * b)
  {
    var m := a * l + k * b + k * l * TWO_64;
    assert (a + k * TWO_64) * (b + l * TWO_64) == a * b + m * TWO_64;
    WrapShift(a * b, m);
  }

  /** Arithmetic in 64 bits gives the bits of the exact result. */
  lemma ArithExact(fn: string, a: int, b: int, x: int, y: int)
    requires fn in {"_-_", "_*_", "_+_"} && Wrap64(a) == Wrap64(x) && Wrap64(b) == Wrap64(y)
    ensures Arith(fn, a, b) == Wrap64(if fn == "_-_" then x - y else if fn == "_*_" then x * y else x + y)
  {
    var k := SameBits(a, x);
    var l := SameBits(b, y);
    WrapProduct(x, k, y, l);
    WrapShift(x - y, k - l);
    WrapShift(x + y, k + l);
  }

  lemma WrapTwice(x: int)
    ensures Wrap64(Wrap64(x)) == Wrap64(x)
  {
  }

  /** GetExprValue finds a value exactly where CEL has one, of the same kind, and with the same 64 bits. */
  lemma {:induction false} ArgumentBits(e: Expr, now: int)
    ensures ExprValue(e, now).Some? && ExprValue(e, now).value.Int? <==> CelInt(e, now).Some?
    ensures CelInt(e, now).Some? ==> Wrap64(ExprValue(e, now).value.i) == Wrap64(CelInt(e, now).value)
    ensures e.Call? && e.fn != "now" && CelInt(e, now).Some? ==> ExprValue(e, now).value.i == Wrap64(CelInt(e, now).value)
    ensures !e.Const? && ExprValue(e, now).Some? ==> ExprValue(e, now).value.Int?
    decreases e
  {
    if e.Call? && e.fn != "now" && |e.args| == 2 {
      ArgumentBits(e.args[0], now);
      ArgumentBits(e.args[1], now);
      if ExprValue(e, now).Some? {
        var a, b := ExprValue(e.args[0], now).value.i, ExprValue(e.args[1], now).value.i;
        var x, y := CelInt(e.args[0], now).value, CelInt(e.args[1], now).value;
        ArithExact(e.fn, a, b, x, y);
        WrapTwice(if e.fn == "_-_" then x - y else if e.fn == "_*_" then x * y else x + y);
      }
    }
  }

  /** The argument that the compiler pushes is the value that the expression stands for. */
  lemma ArgumentIsValue(e: Expr, now: int)
    ensures ExprValue(e, now) == CelValue(e, now)
  {
    ArgumentBits(e, now);
    if CelInt(e, now).Some? { WrapIff(CelInt(e, now).value); }
  }

  const LEAST_64 := -0x8000_0000_0000_0000
  const MOST_64 := 0x7FFF_FFFF_FFFF_FFFF

  /** The 64 bits are the end of the range past which the exact value lies, so that no cell is on the other side. */
  predicate PastTheEnd(fn: string, x: int) {
    || (fn in {"_<_", "_>=_"} && x < LEAST_64 && Wrap64(x) == LEAST_64)
    || (fn in {"_>_", "_<=_"} && x > MOST_64 && Wrap64(x) == MOST_64)
  }

  /**
    An argument that does not fit in 64 bits is another one in the machine, and there is a cell for which
    the condition is then not what CEL says, but for orderings that no cell could tell apart.
   */
  lemma OverflowIff(fn: string, x: int)
    requires fn in COMPARISONS
    ensures (forall a :: In64(a) ==> ComparedAlike(fn, a, x)) <==> In64(x) || PastTheEnd(fn, x)
  {
    WrapIff(x);
    assert In64(Wrap64(x)) && In64(LEAST_64) && In64(MOST_64);
    if forall a :: In64(a) ==> ComparedAlike(fn, a, x) {
      assert ComparedAlike(fn, Wrap64(x), x) && ComparedAlike(fn, LEAST_64, x) && ComparedAlike(fn, MOST_64, x);
    }
  }

  /** A cell compares with the exact value as with its 64 bits. */
  predicate ComparedAlike(fn: string, a: int, x: int) {
    CelCompares(fn, Int(a), Int(x)) == CelCompares(fn, Int(a), Int(Wrap64(x)))
  }

  // ---------------------------------------------------------------------------------------------
  // What is accepted
  // ---------------------------------------------------------------------------------------------

  lemma {:induction false} ConstValuesIff(es: seq<Expr>)
    ensures ConstValues(es).Some? <==> forall e <- es :: e.Const?
    decreases |es|
  {
    if es != [] {
      ConstValuesIff(es[1..]);
      assert es == [es[0]] + es[1..];
    }
  }

  lemma TimesAreIntegers(id: string)
    requires id in COLUMNS_TIME
    ensures ColumnOf(id).Some? && ColumnOf(id).value.valtype == IntType
  {
  }

  lemma ComparedIff(fn: string, args: seq<Expr>, now: int, sizeable: set<string>)
    requires |args| == 2 && fn in COMPARISONS
    ensures CompareLeaf(fn, args, now, sizeable).Accepted? <==> WellCompared(fn, args[0], args[1], now, sizeable)
  {
    ArgumentIsValue(args[1], now);
    assert OperatorOf(fn) in {"=", "!="} <==> fn in {"_==_", "_!=_"};
    if args[0].Ident? && args[0].name in COLUMNS_TIME { TimesAreIntegers(args[0].name); }
  }

  /** The compiler refuses exactly the expressions that are not well typed. */
  lemma {:induction false} AcceptedIff(e: Expr, now: int, sizeable: set<string>)
    ensures Compiled(e, now, sizeable).Out? <==> WellTyped(e, now, sizeable)
    decreases e
  {
    if e.Call? {
      if e.fn in {"_||_", "_&&_"} && |e.args| == 2 {
        AcceptedIff(e.args[0], now, sizeable);
        AcceptedIff(e.args[1], now, sizeable);
      } else if e.fn == "!_" && |e.args| == 1 {
        AcceptedIff(e.args[0], now, sizeable);
      } else if e.fn in COMPARISONS && |e.args| == 2 {
        ComparedIff(e.fn, e.args, now, sizeable);
      } else if e.fn == "@in" && |e.args| == 2 {
        ConstValuesIff(Elements(e.args[1]));
      }
    }
  }

  // ---------------------------------------------------------------------------------------------
  // Meaning
  // ---------------------------------------------------------------------------------------------

  /** The tree takes all the arguments and means what the expression means. */
  ghost predicate Agrees(e: Expr, now: int, sizeable: set<string>, sql: (string, seq<Value>) -> bool, w: Record) {
    var out, tree := Compiled(e, now, sizeable), Tree(e, now, sizeable);
    out.Out? && Supported(e) ==>
      CondHoles(tree) == |out.args| && Holds(tree, out.args, sql) == Means(e, now, w)
  }

  lemma {:induction false} OrTreeHolds(text: string, args: seq<Value>, sql: (string, seq<Value>) -> bool)
    requires Holes(text) == 1 && args != []
    ensures CondHoles(OrTree(text, |args|)) == |args|
    ensures Holds(OrTree(text, |args|), args, sql) == exists v <- args :: sql(text, [v])
    decreases |args|
  {
    if |args| > 1 {
      OrTreeHolds(text, args[1..], sql);
      assert args[..1] == [args[0]] && args == [args[0]] + args[1..];
    } else {
      assert args == [args[0]];
    }
  }

  /** A comparison of a column, or of the length of a list. */
  lemma CompareAgrees(fn: string, args: seq<Expr>, now: int, sizeable: set<string>, sql: (string, seq<Value>) -> bool, w: Record)
    requires |args| == 2 && fn in COMPARISONS && args[0] != Ident("is_group") && sizeable <= COLUMNS_LIST && Faithful(sql, w)
    ensures var leaf := CompareLeaf(fn, args, now, sizeable);
            leaf.Accepted? ==> sql(leaf.text, leaf.args) == CompareMeans(fn, args, now, w)
  {
    var leaf, op, value := CompareLeaf(fn, args, now, sizeable), OperatorOf(fn), ExprValue(args[1], now);
    ArgumentIsValue(args[1], now);
    if leaf.Accepted? {
      if args[0].Call? {
        var id := args[0].args[0].name;
        ListColumns(id);
        OperatorMeans(fn, w.Length(ColumnOf(id).value), value.value);
        assert SaysColumn(sql, w, ColumnOf(id).value, op, value.value);
      } else {
        var id := args[0].name;
        OperatorMeans(fn, w.Cell(ColumnOf(id).value), value.value);
        assert SaysColumn(sql, w, ColumnOf(id).value, op, value.value);
        if id in COLUMNS_TIME { TimeColumns(id); } else if IsBool(id) { BoolColumns(id); }
      }
    }
  }

  lemma ContainsAgrees(target: Expr, args: seq<Expr>, sql: (string, seq<Value>) -> bool, w: Record)
    requires |args| == 1 && Faithful(sql, w)
    ensures var leaf := ContainsLeaf(target, args);
            leaf.Accepted? ==> sql(leaf.text, leaf.args) == ContainsMeans(target, args, w)
  {
    if ContainsLeaf(target, args).Accepted? {
      assert SaysPattern(sql, w, ColumnOf(target.name).value, args[0].value);
    }
  }

  lemma ElementAgrees(id: string, v: Value, sql: (string, seq<Value>) -> bool, w: Record)
    requires id in COLUMNS_LIST && Faithful(sql, w)
    ensures sql(GetSQL(ContainsElement, id, ""), [ElementPattern(v)]) == HasMeans(id, Const(v), w)
  {
    ListColumns(id);
    assert SaysPattern(sql, w, ColumnOf(id).value, v);
  }

  lemma IdentAgrees(id: string, sql: (string, seq<Value>) -> bool, w: Record)
    requires id != "is_group" && Faithful(sql, w)
    ensures IdentLeaf(id).Accepted? ==> sql(IdentLeaf(id).text, []) == IdentMeans(id, w)
  {
    if IsBool(id) {
      BoolColumns(id);
      assert SaysPattern(sql, w, ColumnOf(id).value, Bool(true));
    }
  }

  lemma ListAgrees(id: string, es: seq<Expr>, sql: (string, seq<Value>) -> bool, w: Record)
    requires id in COLUMNS_LIST && ConstValues(es).Some? && Faithful(sql, w)
    ensures (exists v <- Patterns(ConstValues(es).value) :: sql(GetSQL(ContainsElement, id, ""), [v]))
        <==> exists e <- es :: HasMeans(id, e, w)
  {
    var text, vs := GetSQL(ContainsElement, id, ""), Patterns(ConstValues(es).value);
    ValuesCount(es);
    forall i | 0 <= i < |es| ensures sql(text, [vs[i]]) == HasMeans(id, es[i], w) {
      ElementAgrees(id, es[i].value, sql, w);
    }
    if v :| v in vs && sql(text, [v]) {
      var i :| 0 <= i < |vs| && vs[i] == v;
      assert es[i] in es && HasMeans(id, es[i], w);
    }
    if e :| e in es && HasMeans(id, e, w) {
      var i :| 0 <= i < |es| && es[i] == e;
      assert vs[i] in vs && sql(text, [vs[i]]);
    }
  }

  lemma InAgrees(args: seq<Expr>, sql: (string, seq<Value>) -> bool, w: Record)
    requires |args| == 2 && InOut(args).Out? && (args[1].Ident? || Elements(args[1]) != []) && Faithful(sql, w)
    ensures CondHoles(InTree(args)) == |InOut(args).args|
    ensures Holds(InTree(args), InOut(args).args, sql) == Means(Call("@in", Absent, args), 0, w)
  {
    if args[1].Ident? {
      ElementGood(args[1].name, args[0].value);
      ElementAgrees(args[1].name, args[0].value, sql, w);
    } else {
      ElementGood(args[0].name, Int(0));
      ValuesCount(Elements(args[1]));
      OrTreeHolds(GetSQL(ContainsElement, args[0].name, ""), InOut(args).args, sql);
      ListAgrees(args[0].name, Elements(args[1]), sql, w);
    }
  }

  lemma LeafAgrees(e: Expr, now: int, sizeable: set<string>, sql: (string, seq<Value>) -> bool, w: Record)
    requires sizeable <= COLUMNS_LIST && (e.Call? ==> e.fn !in {"_||_", "_&&_", "!_"}) && Faithful(sql, w)
    ensures Agrees(e, now, sizeable, sql, w)
  {
    if Compiled(e, now, sizeable).Out? && Supported(e) {
      match e
      case Call(fn, target, args) =>
        if fn in COMPARISONS {
          CompareGood(fn, args, now, sizeable);
          CompareAgrees(fn, args, now, sizeable, sql, w);
        } else if fn == "@in" {
          InAgrees(args, sql, w);
        } else if fn == "contains" {
          ContainsGood(target, args);
          ContainsAgrees(target, args, sql, w);
        }
      case Ident(id) =>
        IdentGood(id);
        IdentAgrees(id, sql, w);
      case _ =>
    }
  }

  lemma BinaryAgrees(e: Expr, now: int, sizeable: set<string>, sql: (string, seq<Value>) -> bool, w: Record)
    requires e.Call? && (e.fn == "_||_" || e.fn == "_&&_")
    requires |e.args| == 2 ==> Agrees(e.args[0], now, sizeable, sql, w) && Agrees(e.args[1], now, sizeable, sql, w)
    ensures Agrees(e, now, sizeable, sql, w)
  {
    if Compiled(e, now, sizeable).Out? {
      var l, r := Compiled(e.args[0], now, sizeable).args, Compiled(e.args[1], now, sizeable).args;
      assert (l + r)[..|l|] == l && (l + r)[|l|..] == r;
    }
  }

  lemma {:induction false} TreeAgrees(e: Expr, now: int, sizeable: set<string>, sql: (string, seq<Value>) -> bool, w: Record)
    requires sizeable <= COLUMNS_LIST && Faithful(sql, w)
    ensures Agrees(e, now, sizeable, sql, w)
    decreases e
  {
    if e.Call? && (e.fn == "_||_" || e.fn == "_&&_") {
      if |e.args| == 2 {
        TreeAgrees(e.args[0], now, sizeable, sql, w);
        TreeAgrees(e.args[1], now, sizeable, sql, w);
      }
      BinaryAgrees(e, now, sizeable, sql, w);
    } else if e.Call? && e.fn == "!_" {
      if |e.args| == 1 { TreeAgrees(e.args[0], now, sizeable, sql, w); }
    } else {
      LeafAgrees(e, now, sizeable, sql, w);
    }
  }
}
