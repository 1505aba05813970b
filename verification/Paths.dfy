/**
  Entry names and URIs (pkg/core/core.go), and the Go string and path functions that are applied to
  them.
 */
module Paths {

  const FILE_NAME_MAX_LENGTH := 255

  predicate ValidName(n: string) {
    0 < |n| <= FILE_NAME_MAX_LENGTH && '/' !in n && n != "." && n != ".."
  }

  predicate ValidNames(cs: seq<string>) {
    forall i :: 0 <= i < |cs| ==> ValidName(cs[i])
  }

  // ---------------------------------------------------------------------------------------------
  // Go functions
  // ---------------------------------------------------------------------------------------------

  /** The number of characters before the first '/', or the length if there is none. */
  function FirstSlash(s: string): (i: nat)
    ensures i <= |s| && '/' !in s[..i]
    ensures i < |s| ==> s[i] == '/'
  {
    if s == "" || s[0] == '/' then 0 else 1 + FirstSlash(s[1..])
  }

  /** strings.Split(s, "/") */
  function Split(s: string): seq<string> {
    var i := FirstSlash(s);
    if i == |s| then [s] else [s[..i]] + Split(s[i + 1..])
  }

  /** The index of the last '/', or -1. */
  function LastSlash(s: string): (i: int)
    ensures -1 <= i < |s|
    ensures 0 <= i ==> s[i] == '/'
    ensures '/' !in s[i + 1..]
  {
    if s == "" then -1 else if s[|s| - 1] == '/' then |s| - 1 else LastSlash(s[..|s| - 1])
  }

  /** strings.HasPrefix */
  predicate HasPrefix(s: string, prefix: string) {
    prefix <= s
  }

  predicate Rooted(s: string) {
    s != "" && s[0] == '/'
  }

  predicate Trailing(s: string) {
    s != "" && s[|s| - 1] == '/'
  }

  /** What the walk of path.Clean leaves of the pieces of a path. */
  function Reduced(parts: seq<string>, rooted: bool): seq<string> {
    if parts == [] then []
    else
      var done, p := Reduced(parts[..|parts| - 1], rooted), parts[|parts| - 1];
      if p == "." then done
      else if p != ".." then done + [p]
      else if done != [] && done[|done| - 1] != ".." then done[..|done| - 1]
      else if rooted then done else done + [p]
  }

  /** path.Clean */
  function Cleaned(s: string): string {
    var cs := Reduced(Parts(s), Rooted(s));
    if Rooted(s) then Uri(cs) else if cs == [] then "." else Relative(cs)
  }

  /** path.Dir */
  function Dir(s: string): string {
    Cleaned(s[..LastSlash(s) + 1])
  }

  function Trimmed(s: string): string {
    if Trailing(s) then Trimmed(s[..|s| - 1]) else s
  }

  /** path.Base */
  function Base(s: string): string {
    var t := Trimmed(s);
    var n := t[LastSlash(t) + 1..];
    if s == "" then "." else if n == "" then "/" else n
  }

  /** path.Join of two elements. */
  function Join(dir: string, name: string): string {
    if dir == "" && name == "" then "" else if dir == "" then Cleaned(name)
    else if name == "" then Cleaned(dir) else Cleaned(dir + "/" + name)
  }

  // ---------------------------------------------------------------------------------------------
  // URIs as lists of names
  // ---------------------------------------------------------------------------------------------

  function Joined(cs: seq<string>): string {
    if cs == [] then "" else Joined(cs[..|cs| - 1]) + "/" + cs[|cs| - 1]
  }

  /** The clean URI of an entry. */
  function Uri(cs: seq<string>): string {
    if cs == [] then "/" else Joined(cs)
  }

  /** The same without the slash in front. */
  function Relative(cs: seq<string>): string {
    if cs == [] then "" else if |cs| == 1 then cs[0] else Relative(cs[..|cs| - 1]) + "/" + cs[|cs| - 1]
  }

  ghost predicate Clean(uri: string) {
    exists cs :: ValidNames(cs) && uri == Uri(cs)
  }

  lemma {:induction false} SplitConcat(a: string, b: string)
    ensures Split(a + "/" + b) == Split(a) + Split(b)
    decreases |a|
  {
    var s, i := a + "/" + b, FirstSlash(a);
    FirstSlashUnique(s, i);
    assert s[..i] == a[..i];
    if i == |a| {
      assert s[i + 1..] == b && a[..i] == a;
    } else {
      assert s[i + 1..] == a[i + 1..] + "/" + b;
      SplitConcat(a[i + 1..], b);
    }
  }

  lemma {:induction false} FirstSlashUnique(s: string, i: nat)
    requires i < |s| && s[i] == '/' && '/' !in s[..i]
    ensures FirstSlash(s) == i
  {
    if i > 0 {
      assert s[..i][0] == s[0] && s[1..][..i - 1] == s[..i][1..];
      FirstSlashUnique(s[1..], i - 1);
    }
  }

  lemma {:induction false} NoSlash(n: string)
    requires '/' !in n
    ensures FirstSlash(n) == |n|
  {
    if n != "" {
      assert n[0] in n;
      NoSlash(n[1..]);
    }
  }

  lemma {:induction false} SplitJoined(cs: seq<string>)
    requires ValidNames(cs)
    ensures Split(Joined(cs)) == [""] + cs
    decreases |cs|
  {
    if cs != [] {
      var init, n := cs[..|cs| - 1], cs[|cs| - 1];
      SplitJoined(init);
      SplitConcat(Joined(init), n);
      NoSlash(n);
      assert [""] + cs == [""] + init + [n];
    }
  }

  /** What a walk along the pieces of a path sees: the non-empty ones. */
  function NonEmpty(parts: seq<string>): seq<string> {
    if parts == [] then []
    else if parts[0] == "" then NonEmpty(parts[1..])
    else [parts[0]] + NonEmpty(parts[1..])
  }

  lemma {:induction false} NonEmptyNames(cs: seq<string>)
    requires ValidNames(cs)
    ensures NonEmpty(cs) == cs
  {
    if cs != [] { NonEmptyNames(cs[1..]); }
  }

  lemma {:induction false} NonEmptyAppend(a: seq<string>, b: seq<string>)
    ensures NonEmpty(a + b) == NonEmpty(a) + NonEmpty(b)
  {
    if a == [] {
      assert a + b == b;
    } else {
      assert (a + b)[1..] == a[1..] + b;
      NonEmptyAppend(a[1..], b);
    }
  }

  lemma PartsOfUri(cs: seq<string>)
    requires ValidNames(cs)
    ensures Parts(Uri(cs)) == cs
  {
    if cs == [] {
      SplitConcat("", "");
      assert "" + "/" + "" == "/";
      assert Split("/") == ["", ""];
      assert NonEmpty(["", ""][1..][1..]) == [];
    } else {
      SplitJoined(cs);
      assert ([""] + cs)[1..] == cs;
      NonEmptyNames(cs);
    }
  }

  lemma UriInjective(a: seq<string>, b: seq<string>)
    requires ValidNames(a) && ValidNames(b)
    ensures Uri(a) == Uri(b) <==> a == b
  {
    PartsOfUri(a);
    PartsOfUri(b);
  }

  lemma {:induction false} LastSlashUnique(s: string, i: nat)
    requires i < |s| && s[i] == '/' && '/' !in s[i + 1..]
    ensures LastSlash(s) == i
  {
    var k := |s| - 1;
    if i < k {
      assert s[k] == s[i + 1..][k - i - 1];
      assert s[..k][i + 1..] == s[i + 1..][..k - i - 1];
      LastSlashUnique(s[..k], i);
    }
  }

  lemma JoinedShape(cs: seq<string>)
    requires ValidNames(cs)
    ensures (cs == [] ==> Joined(cs) == "") && (cs != [] ==> |Joined(cs)| > 1)
  {
    if cs != [] { assert ValidName(cs[|cs| - 1]); }
  }

  lemma {:induction false} JoinedConcat(a: seq<string>, b: seq<string>)
    ensures Joined(a + b) == Joined(a) + Joined(b)
    decreases |b|
  {
    if b == [] {
      assert a + b == a;
    } else {
      var init := b[..|b| - 1];
      JoinedConcat(a, init);
      assert (a + b)[..|a + b| - 1] == a + init;
      assert Joined(a + b) == Joined(a) + Joined(init) + "/" + b[|b| - 1];
      assert Joined(a) + Joined(init) + "/" + b[|b| - 1] == Joined(a) + (Joined(init) + "/" + b[|b| - 1]);
    }
  }

  /** Joined of a list that starts with `n`. */
  lemma {:induction false} JoinedHead(cs: seq<string>)
    requires cs != []
    ensures Joined(cs) == "/" + cs[0] + Joined(cs[1..])
  {
    JoinedConcat([cs[0]], cs[1..]);
    assert [cs[0]] + cs[1..] == cs;
    assert Joined([cs[0]]) == Joined([]) + "/" + cs[0];
  }

  lemma DropHead<T>(h: T, a: seq<T>, b: seq<T>, c: seq<T>)
    requires [h] + a == [h] + b + c
    ensures a == b + c
  {
    assert a == ([h] + a)[1..];
    assert b + c == ([h] + b + c)[1..];
  }

  lemma DescendantOfPrefix(p: seq<string>, t: seq<string>)
    requires ValidNames(p) && ValidNames(t) && Joined(t) + "/" <= Joined(p)
    ensures t < p
  {
    var a, s := Joined(t) + "/", Joined(p);
    var w := s[|a|..];
    assert s == a + w;
    SplitConcat(Joined(t), w);
    SplitJoined(t);
    SplitJoined(p);
    DropHead("", p, t, Split(w));
  }

  lemma PrefixOfDescendant(p: seq<string>, t: seq<string>)
    requires t < p
    ensures Joined(t) + "/" <= Joined(p)
  {
    var rest := p[|t|..];
    assert t + rest == p;
    JoinedConcat(t, rest);
    JoinedHead(rest);
    Regroup(Joined(t), "/", rest[0], Joined(rest[1..]));
  }

  lemma Regroup(a: string, b: string, c: string, d: string)
    ensures a + b <= a + (b + c + d)
  {
    assert a + (b + c + d) == (a + b) + (c + d);
  }

  /**
    The cycle test of a rename, strings.HasPrefix(newParentURI, targetURI + "/"), on clean URIs: it
    holds exactly when the new parent is a strict descendant of the target.
   */
  lemma PrefixIsDescendant(p: seq<string>, t: seq<string>)
    requires ValidNames(p) && ValidNames(t) && t != []
    ensures HasPrefix(Uri(p), Uri(t) + "/") <==> t < p
  {
    JoinedShape(t);
    if p != [] && HasPrefix(Uri(p), Uri(t) + "/") {
      DescendantOfPrefix(p, t);
    }
    if t < p {
      PrefixOfDescendant(p, t);
    }
  }

  /** The names along a clean URI. */
  function Parts(uri: string): seq<string> {
    NonEmpty(Split(uri))
  }

  // ---------------------------------------------------------------------------------------------
  // The Go functions on paths whose pieces are names
  // ---------------------------------------------------------------------------------------------

  lemma PartsConcat(a: string, b: string)
    ensures Parts(a + "/" + b) == Parts(a) + Parts(b)
  {
    SplitConcat(a, b);
    NonEmptyAppend(Split(a), Split(b));
  }

  lemma PartsNoSlash(n: string)
    requires '/' !in n
    ensures Parts(n) == if n == "" then [] else [n]
  {
    NoSlash(n);
    assert Split(n) == [n];
    assert [n][1..] == [];
    assert NonEmpty([n]) == (if n == "" then NonEmpty([n][1..]) else [n] + NonEmpty([n][1..]));
  }

  lemma PartsOfDir(up: string)
    ensures Parts(up + "/") == Parts(up)
  {
    assert up + "/" + "" == up + "/";
    PartsConcat(up, "");
    PartsNoSlash("");
  }

  lemma PartsBoth(up: string, n: string)
    ensures Parts(up + "/" + n) == Parts(up + "/") + Parts(n)
  {
    PartsConcat(up, n);
    PartsOfDir(up);
  }

  lemma Divided(s: string, i: nat)
    requires i < |s| && s[i] == '/'
    ensures s[..i] + "/" == s[..i + 1] && s[..i] + "/" + s[i + 1..] == s
  {
  }

  lemma PartsDivided(s: string, i: nat)
    requires i < |s| && s[i] == '/'
    ensures Parts(s) == Parts(s[..i + 1]) + Parts(s[i + 1..])
  {
    Divided(s, i);
    PartsBoth(s[..i], s[i + 1..]);
  }

  lemma PartsUndivided(s: string)
    ensures Parts(s) == Parts(s[..0]) + Parts(s[0..])
  {
    PartsNoSlash(s[..0]);
    assert s[0..] == s;
  }

  /** A path divided at its last slash. */
  lemma PartsAtLast(s: string)
    ensures Parts(s) == Parts(s[..LastSlash(s) + 1]) + Parts(s[LastSlash(s) + 1..])
  {
    if LastSlash(s) >= 0 {
      PartsDivided(s, LastSlash(s));
    } else {
      PartsUndivided(s);
    }
  }

  lemma {:induction false} LastIsSlash(s: string)
    ensures LastSlash(s) == |s| - 1 <==> s == "" || Trailing(s)
  {
    if s != "" && !Trailing(s) {
      var t := s[..|s| - 1];
      assert LastSlash(s) == LastSlash(t) < |t|;
    }
  }

  lemma {:induction false} ReducedNames(cs: seq<string>, rooted: bool)
    requires ValidNames(cs)
    ensures Reduced(cs, rooted) == cs
    decreases |cs|
  {
    if cs != [] { ReducedNames(cs[..|cs| - 1], rooted); }
  }

  lemma {:induction false} RelativeParts(cs: seq<string>)
    requires ValidNames(cs) && cs != []
    ensures Parts(Relative(cs)) == cs && !Rooted(Relative(cs)) && !Trailing(Relative(cs)) && Relative(cs) != ""
    decreases |cs|
  {
    var n := cs[|cs| - 1];
    assert n[0] in n && n[|n| - 1] in n;
    PartsNoSlash(n);
    if |cs| > 1 {
      var up := cs[..|cs| - 1];
      RelativeParts(up);
      PartsConcat(Relative(up), n);
      assert Relative(cs) == Relative(up) + "/" + n;
    }
  }

  lemma UriShape(cs: seq<string>)
    requires ValidNames(cs)
    ensures Parts(Uri(cs)) == cs && Rooted(Uri(cs)) && (cs != [] ==> !Trailing(Uri(cs)))
  {
    PartsOfUri(cs);
    if cs != [] {
      var n := cs[|cs| - 1];
      assert n[|n| - 1] in n;
      JoinedRooted(cs);
    }
  }

  lemma {:induction false} JoinedRooted(cs: seq<string>)
    requires cs != []
    ensures Rooted(Joined(cs))
    decreases |cs|
  {
    if |cs| > 1 { JoinedRooted(cs[..|cs| - 1]); }
  }

  /** Cleaning such a path. */
  lemma CleanedNames(s: string)
    requires ValidNames(Parts(s))
    ensures Rooted(s) ==> Cleaned(s) == Uri(Parts(s))
    ensures !Rooted(s) && Parts(s) == [] ==> Cleaned(s) == "."
    ensures !Rooted(s) && Parts(s) != [] ==> Cleaned(s) == Relative(Parts(s))
    ensures Rooted(s) || Parts(s) != [] ==> Parts(Cleaned(s)) == Parts(s) && Rooted(Cleaned(s)) == Rooted(s)
    ensures Parts(s) != [] ==> !Trailing(Cleaned(s))
  {
    var cs := Parts(s);
    ReducedNames(cs, Rooted(s));
    if Rooted(s) {
      UriShape(cs);
    } else if cs != [] {
      RelativeParts(cs);
    }
  }

  /** The parent of such a path: the path itself, if it ends with a slash. */
  lemma DirNames(s: string)
    requires ValidNames(Parts(s)) && Parts(s) != []
    ensures Trailing(s) ==> Parts(Dir(s)) == Parts(s)
    ensures !Trailing(s) && !Rooted(s) && |Parts(s)| == 1 ==> Dir(s) == "."
    ensures !Trailing(s) && (Rooted(s) || |Parts(s)| > 1) ==>
              Parts(Dir(s)) == Parts(s)[..|Parts(s)| - 1] && (Rooted(s) ==> Dir(s) == Uri(Parts(s)[..|Parts(s)| - 1]))
  {
    var dir, n := s[..LastSlash(s) + 1], s[LastSlash(s) + 1..];
    PartsAtLast(s);
    PartsNoSlash("");
    PartsNoSlash(n);
    LastIsSlash(s);
    assert s != "";
    assert Trailing(s) ==> Parts(dir) == Parts(s);
    assert !Trailing(s) ==> Parts(dir) == Parts(s)[..|Parts(s)| - 1];
    assert ValidNames(Parts(dir));
    CleanedNames(dir);
    if Rooted(s) { assert '/' in s[LastSlash(s) + 1..] || LastSlash(s) >= 0; }
    assert Rooted(s) ==> Rooted(dir);
    assert !Rooted(s) ==> !Rooted(dir);
  }

  lemma {:induction false} TrimmedParts(s: string)
    ensures Parts(Trimmed(s)) == Parts(s) && !Trailing(Trimmed(s))
    decreases |s|
  {
    if Trailing(s) {
      var t := s[..|s| - 1];
      TrimmedParts(t);
      assert s == t + "/";
      PartsOfDir(t);
    }
  }

  lemma {:induction false} LastOf(t: string)
    requires Parts(t) != [] && !Trailing(t)
    ensures t != "" && t[LastSlash(t) + 1..] == Parts(t)[|Parts(t)| - 1] != ""
  {
    var n := t[LastSlash(t) + 1..];
    PartsAtLast(t);
    PartsNoSlash("");
    PartsNoSlash(n);
    LastIsSlash(t);
  }

  /** The last piece of a path, however many slashes follow it. */
  lemma {:induction false} BaseIsLast(s: string)
    requires Parts(s) != []
    ensures Base(s) == Parts(s)[|Parts(s)| - 1]
  {
    TrimmedParts(s);
    LastOf(Trimmed(s));
    PartsNoSlash("");
  }

  lemma JoinNames(s: string, n: string)
    requires ValidNames(Parts(s)) && s != "" && ValidName(n)
    ensures Parts(Join(s, n)) == Parts(s) + [n] && Rooted(Join(s, n)) == Rooted(s) && !Trailing(Join(s, n))
    ensures Rooted(s) ==> Join(s, n) == Uri(Parts(s) + [n])
  {
    var t := s + "/" + n;
    PartsConcat(s, n);
    PartsNoSlash(n);
    assert Rooted(t) == Rooted(s);
    CleanedNames(t);
  }

  /** A clean URI has no two slashes in a row. */
  lemma {:induction false} NoDoubleSlash(cs: seq<string>, i: nat)
    requires ValidNames(cs)
    ensures i + 1 < |Uri(cs)| ==> !(Uri(cs)[i] == '/' && Uri(cs)[i + 1] == '/')
    decreases |cs|
  {
    if cs != [] {
      var up, n := cs[..|cs| - 1], cs[|cs| - 1];
      var s := Joined(up);
      assert Uri(cs) == s + "/" + n && n[0] in n;
      NoDoubleSlash(up, i);
      if up != [] { UriShape(up); }
      if i > |s| && i < |Uri(cs)| { assert Uri(cs)[i] == n[i - |s| - 1] && n[i - |s| - 1] in n; }
    }
  }

  lemma UriParts(cs: seq<string>, n: string)
    requires ValidNames(cs) && ValidName(n)
    ensures Join(Uri(cs), n) == Uri(cs + [n])
  {
    UriShape(cs);
    JoinNames(Uri(cs), n);
  }

  lemma LastPart(cs: seq<string>)
    requires ValidNames(cs) && cs != []
    ensures Base(Uri(cs)) == cs[|cs| - 1] && Dir(Uri(cs)) == Uri(cs[..|cs| - 1]) && Uri(cs) != "/"
  {
    UriShape(cs);
    BaseIsLast(Uri(cs));
    DirNames(Uri(cs));
  }

  /** slices.Reverse */
  function Reversed<T>(s: seq<T>): seq<T> {
    if s == [] then [] else [s[|s| - 1]] + Reversed(s[..|s| - 1])
  }

  lemma ReversedSnoc<T>(s: seq<T>, x: T)
    ensures Reversed(s + [x]) == [x] + Reversed(s)
  {
    assert (s + [x])[..|s|] == s;
  }

  /** path.Join of "/" and names. */
  function JoinAll(names: seq<string>): string {
    if names == [] then "/" else Join(JoinAll(names[..|names| - 1]), names[|names| - 1])
  }

  lemma {:induction false} JoinAllIsUri(names: seq<string>)
    requires ValidNames(names)
    ensures JoinAll(names) == Uri(names)
    decreases |names|
  {
    if names != [] {
      var up, n := names[..|names| - 1], names[|names| - 1];
      assert names == up + [n];
      JoinAllIsUri(up);
      assert Join(Uri(up), n) == Uri(up + [n]) by { UriParts(up, n); }
    }
  }
}
