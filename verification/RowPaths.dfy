/** Child rows addressed by the path they are at, and what removing the rows of a subtree leaves. */
module RowPaths {
  import opened Common
  import opened Paths
  import opened EntryTables
  import opened TreeInvariant

  /** The path of a row below a namespace root. */
  ghost function KeyPath(entries: Entries, rows: Rows, depth: Depths, k: Key): seq<string>
    requires Shaped(entries, rows, depth) && k in rows && k.parent != ROOT_ID
  {
    assert GoodRow(entries, rows, depth, k);
    PathOf(entries, rows, depth, k.parent) + [k.name]
  }

  /** The row is at path `top` or below it. */
  ghost predicate Under(entries: Entries, rows: Rows, depth: Depths, ns: string, top: seq<string>, k: Key)
    requires Shaped(entries, rows, depth) && k in rows
  {
    k.ns == ns && k.parent != ROOT_ID && top <= KeyPath(entries, rows, depth, k)
  }

  /** The rows that are left when everything at and below `top` is removed. */
  ghost function Pruned(entries: Entries, rows: Rows, depth: Depths, ns: string, top: seq<string>): Rows
    requires Shaped(entries, rows, depth)
  {
    map k | k in rows && !Under(entries, rows, depth, ns, top, k) :: rows[k]
  }

  /** The rows that are left when everything below `top`, but not `top` itself, is removed. */
  ghost function Emptied(entries: Entries, rows: Rows, depth: Depths, ns: string, top: seq<string>): Rows
    requires Shaped(entries, rows, depth) && Resolve(rows, ns, top).Some?
  {
    map k | k in rows && (!Under(entries, rows, depth, ns, top, k) || k == LastKey(rows, ns, top)) :: rows[k]
  }

  /** A resolved path is the path of its last row. */
  lemma KeyPathOfLast(entries: Entries, rows: Rows, depth: Depths, ns: string, cs: seq<string>)
    requires Shaped(entries, rows, depth) && cs != [] && Resolve(rows, ns, cs).Some?
    ensures var k := LastKey(rows, ns, cs);
            k in rows && k.parent != ROOT_ID && KeyPath(entries, rows, depth, k) == cs
  {
    ResolvedRow(entries, rows, depth, ns, cs);
    PathIsOnly(entries, rows, depth, ns, cs[..|cs| - 1], LastKey(rows, ns, cs).parent);
  }

  /** And a row is reached by its path. */
  lemma KeyPathResolves(entries: Entries, rows: Rows, depth: Depths, k: Key)
    requires Shaped(entries, rows, depth) && k in rows && k.parent != ROOT_ID
    ensures Resolve(rows, k.ns, KeyPath(entries, rows, depth, k)) == Some(rows[k].child)
    ensures ValidNames(KeyPath(entries, rows, depth, k))
  {
    assert GoodRow(entries, rows, depth, k);
    PathResolves(entries, rows, depth, k.parent);
    ResolveChild(rows, k.ns, PathOf(entries, rows, depth, k.parent), k.name);
  }

  lemma {:induction false} ResolvePrefix(rows: Rows, ns: string, cs: seq<string>, m: nat)
    requires m <= |cs| && Resolve(rows, ns, cs).Some?
    ensures Resolve(rows, ns, cs[..m]).Some?
    decreases |cs|
  {
    if m < |cs| {
      ResolvePrefix(rows, ns, cs[..|cs| - 1], m);
      assert cs[..|cs| - 1][..m] == cs[..m];
    } else {
      assert cs[..m] == cs;
    }
  }

  ghost predicate SubRows(less: Rows, rows: Rows) {
    forall k :: k in less ==> k in rows && less[k] == rows[k]
  }

  lemma {:induction false} ResolveMore(less: Rows, rows: Rows, ns: string, cs: seq<string>)
    requires SubRows(less, rows) && Resolve(less, ns, cs).Some?
    ensures Resolve(rows, ns, cs) == Resolve(less, ns, cs)
    decreases |cs|
  {
    if cs != [] { ResolveMore(less, rows, ns, cs[..|cs| - 1]); }
  }

  /** Rows that stay keep their path. */
  lemma KeyPathStays(entries: Entries, rows: Rows, entries': Entries, less: Rows, depth: Depths, k: Key)
    requires Shaped(entries, rows, depth) && Shaped(entries', less, depth)
    requires SameKinds(entries, entries') && SubRows(less, rows) && k in less && k.parent != ROOT_ID
    ensures KeyPath(entries', less, depth, k) == KeyPath(entries, rows, depth, k)
  {
    assert GoodRow(entries, rows, depth, k) && GoodRow(entries', less, depth, k);
    PathResolves(entries', less, depth, k.parent);
    var up := PathOf(entries', less, depth, k.parent);
    ResolveMore(less, rows, k.ns, up);
    PathIsOnly(entries, rows, depth, k.ns, up, k.parent);
  }

  /** A path survives if the rows on it do. */
  lemma {:induction false} ResolveStays(less: Rows, rows: Rows, ns: string, cs: seq<string>)
    requires SubRows(less, rows) && Resolve(rows, ns, cs).Some?
    requires forall m :: 0 <= m <= |cs| && Resolve(rows, ns, cs[..m]).Some? ==> LastKey(rows, ns, cs[..m]) in less
    ensures Resolve(less, ns, cs) == Resolve(rows, ns, cs)
    decreases |cs|
  {
    assert cs[..|cs|] == cs;
    if cs != [] {
      var up := cs[..|cs| - 1];
      forall m | 0 <= m <= |up| && Resolve(rows, ns, up[..m]).Some? ensures LastKey(rows, ns, up[..m]) in less {
        assert up[..m] == cs[..m];
      }
      ResolveStays(less, rows, ns, up);
    }
  }

  /** The depth of a group is given by its path, so paths of linked groups are bounded. */
  lemma {:induction false} DepthOfPath(entries: Entries, rows: Rows, depth: Depths, g: int)
    requires Shaped(entries, rows, depth) && LinkedGroup(entries, rows, g)
    ensures g in depth && depth[g] == depth[ROOT_ID] + 1 + |PathOf(entries, rows, depth, g)|
    decreases if g in depth then depth[g] else 0
  {
    var k := RowOf(rows, g);
    assert GoodRow(entries, rows, depth, k);
    if k.parent != ROOT_ID { DepthOfPath(entries, rows, depth, k.parent); }
  }

  ghost function MaxOf(s: set<nat>): nat {
    if s == {} then 0
    else
      var x :| x in s;
      var rest := MaxOf(s - {x});
      if x > rest then x else rest
  }

  lemma {:induction false} MaxOfBounds(s: set<nat>, y: nat)
    requires y in s
    ensures y <= MaxOf(s)
  {
    var x :| x in s && MaxOf(s) == (var rest := MaxOf(s - {x}); if x > rest then x else rest);
    if x != y { MaxOfBounds(s - {x}, y); }
  }

  // ---------------------------------------------------------------------------------------------
  // Removing a subtree, child by child
  // ---------------------------------------------------------------------------------------------

  ghost predicate UnderSome(entries: Entries, rows: Rows, depth: Depths, ns: string, top: seq<string>, names: seq<string>, k: Key)
    requires Shaped(entries, rows, depth) && k in rows
  {
    exists n :: n in names && Under(entries, rows, depth, ns, top + [n], k)
  }

  /** The rows that are left when everything below `top` that starts with one of the names is removed. */
  ghost function PrunedSome(entries: Entries, rows: Rows, depth: Depths, ns: string, top: seq<string>, names: seq<string>): Rows
    requires Shaped(entries, rows, depth)
  {
    map k | k in rows && !UnderSome(entries, rows, depth, ns, top, names, k) :: rows[k]
  }

  lemma PruneNext(entries: Entries, rows: Rows, entries': Entries, less: Rows, depth: Depths, ns: string,
                  top: seq<string>, names: seq<string>, n: string)
    requires Shaped(entries, rows, depth) && Shaped(entries', less, depth) && SameKinds(entries, entries')
    requires less == PrunedSome(entries, rows, depth, ns, top, names)
    ensures Pruned(entries', less, depth, ns, top + [n]) == PrunedSome(entries, rows, depth, ns, top, names + [n])
  {
    forall k | k in less
      ensures Under(entries', less, depth, ns, top + [n], k) <==> Under(entries, rows, depth, ns, top + [n], k)
    {
      if k.parent != ROOT_ID { KeyPathStays(entries, rows, entries', less, depth, k); }
    }
    forall k | k in rows
      ensures UnderSome(entries, rows, depth, ns, top, names + [n], k) <==>
              UnderSome(entries, rows, depth, ns, top, names, k) || Under(entries, rows, depth, ns, top + [n], k)
    {
      assert forall m :: m in names + [n] <==> m in names || m == n;
    }
  }

  /** A row on the way to child `n` is not below another child. */
  lemma OnPath(entries: Entries, rows: Rows, depth: Depths, ns: string, top: seq<string>, names: seq<string>, n: string, m: nat)
    requires Shaped(entries, rows, depth) && n !in names
    requires m <= |top| + 1 && Resolve(rows, ns, (top + [n])[..m]).Some?
    ensures LastKey(rows, ns, (top + [n])[..m]) in PrunedSome(entries, rows, depth, ns, top, names)
  {
    var cs := (top + [n])[..m];
    var k := LastKey(rows, ns, cs);
    ResolvedRow(entries, rows, depth, ns, cs);
    if cs != [] {
      KeyPathOfLast(entries, rows, depth, ns, cs);
      forall a | a in names ensures !Under(entries, rows, depth, ns, top + [a], k) {
        assert (top + [a])[|top|] == a;
        assert |top| < m ==> cs[|top|] == n;
      }
    }
  }

  lemma ChildStays(entries: Entries, rows: Rows, depth: Depths, ns: string, top: seq<string>, names: seq<string>, n: string)
    requires Shaped(entries, rows, depth) && n !in names && Resolve(rows, ns, top + [n]).Some?
    ensures Resolve(PrunedSome(entries, rows, depth, ns, top, names), ns, top + [n]).Some?
  {
    var less := PrunedSome(entries, rows, depth, ns, top, names);
    forall m | 0 <= m <= |top| + 1 && Resolve(rows, ns, (top + [n])[..m]).Some?
      ensures LastKey(rows, ns, (top + [n])[..m]) in less
    {
      OnPath(entries, rows, depth, ns, top, names, n, m);
    }
    ResolveStays(less, rows, ns, top + [n]);
  }

  /** A row below the top lies below one of the top's children. */
  lemma UnderChild(entries: Entries, rows: Rows, depth: Depths, ns: string, top: seq<string>, target: int, k: Key)
    requires Shaped(entries, rows, depth) && Resolve(rows, ns, top) == Some(target) && top != []
    requires k in rows && Under(entries, rows, depth, ns, top, k) && k != LastKey(rows, ns, top)
    ensures exists n :: Key(ns, target, n) in rows && Under(entries, rows, depth, ns, top + [n], k)
  {
    assert GoodRow(entries, rows, depth, k);
    var cs := KeyPath(entries, rows, depth, k);
    KeyPathResolves(entries, rows, depth, k);
    PathResolves(entries, rows, depth, k.parent);
    assert cs[..|cs| - 1] == PathOf(entries, rows, depth, k.parent);
    assert k == LastKey(rows, ns, cs);
    assert |cs| == |top| ==> cs == top;
    var n := cs[|top|];
    assert cs[..|top| + 1] == top + [n];
    ResolvePrefix(rows, ns, cs, |top| + 1);
    ResolveChild(rows, ns, top, n);
    assert Key(ns, target, n) in rows && Under(entries, rows, depth, ns, top + [n], k);
  }

  /** The child row `n` of the top is at path top + [n]. */
  lemma ChildUnder(entries: Entries, rows: Rows, depth: Depths, ns: string, top: seq<string>, target: int, n: string)
    requires Shaped(entries, rows, depth) && Resolve(rows, ns, top) == Some(target) && Key(ns, target, n) in rows
    ensures Under(entries, rows, depth, ns, top + [n], Key(ns, target, n))
  {
    ResolveChild(rows, ns, top, n);
    KeyPathOfLast(entries, rows, depth, ns, top + [n]);
  }

  /** Once all children are gone, dropping the top's own row completes the removal. */
  lemma PruneTop(entries: Entries, rows: Rows, depth: Depths, ns: string, top: seq<string>, names: seq<string>, target: int)
    requires Shaped(entries, rows, depth) && Resolve(rows, ns, top) == Some(target) && top != []
    requires forall n :: n in names <==> Key(ns, target, n) in rows
    ensures var less, own := PrunedSome(entries, rows, depth, ns, top, names), LastKey(rows, ns, top);
            && own in less && less[own].child == target
            && (forall k :: k in less ==> k.ns == ns ==> k.parent != target)
            && less - {own} == Pruned(entries, rows, depth, ns, top)
            && less == Emptied(entries, rows, depth, ns, top)
  {
    var less, own := PrunedSome(entries, rows, depth, ns, top, names), LastKey(rows, ns, top);
    KeyPathOfLast(entries, rows, depth, ns, top);
    forall k | k in rows
      ensures Under(entries, rows, depth, ns, top, k) <==> k == own || UnderSome(entries, rows, depth, ns, top, names, k)
    {
      if Under(entries, rows, depth, ns, top, k) && k != own {
        UnderChild(entries, rows, depth, ns, top, target, k);
      }
    }
    forall k | k in less && k.ns == ns ensures k.parent != target {
      if k.parent == target { ChildUnder(entries, rows, depth, ns, top, target, k.name); }
    }
    forall n ensures !Under(entries, rows, depth, ns, top + [n], own) {
    }
  }
}
