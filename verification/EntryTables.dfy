/**
  The two tables of the entry tree (pkg/metastore/sql.go): entries with link counts and versions, and
  child rows keyed by namespace, parent and name. This module says when the tables are well formed:
  link counts are right, groups form a tree below the file system root, names are names.
 */
module EntryTables {
  import opened Common
  import opened Paths

  const ROOT_ID := 1

  datatype Entry = Entry(ns: string, name: string, isGroup: bool, refCount: int, version: int)

  datatype Key = Key(ns: string, parent: int, name: string)

  datatype Row = Row(child: int, isGroup: bool)

  type Entries = map<int, Entry>

  type Rows = map<Key, Row>

  // ---------------------------------------------------------------------------------------------
  // Link counts
  // ---------------------------------------------------------------------------------------------

  ghost function RowsTo(rows: Rows, e: int): set<Key> {
    set k | k in rows && rows[k].child == e
  }

  ghost function SubGroupRows(rows: Rows, e: int): set<Key> {
    set k | k in rows && k.parent == e && rows[k].isGroup
  }

  ghost predicate Linked(rows: Rows, e: int) {
    RowsTo(rows, e) != {}
  }

  /** The links of an entry: rows that name it, rows of its subgroups, and "." of a linked group. */
  ghost function LinkCount(rows: Rows, e: int, isGroup: bool): nat {
    |RowsTo(rows, e)| + |SubGroupRows(rows, e)|
    + (if e == ROOT_ID then 1 else 0)
    + (if isGroup && (e == ROOT_ID || Linked(rows, e)) then 1 else 0)
  }

  lemma AddRow(rows: Rows, k: Key, row: Row, e: int)
    requires k !in rows
    ensures |RowsTo(rows[k := row], e)| == |RowsTo(rows, e)| + (if row.child == e then 1 else 0)
  {
    var after := rows[k := row];
    if row.child == e {
      assert RowsTo(after, e) == RowsTo(rows, e) + {k};
    } else {
      assert RowsTo(after, e) == RowsTo(rows, e);
    }
  }

  lemma AddSubGroupRow(rows: Rows, k: Key, row: Row, e: int)
    requires k !in rows
    ensures |SubGroupRows(rows[k := row], e)| == |SubGroupRows(rows, e)| + (if k.parent == e && row.isGroup then 1 else 0)
  {
    var after := rows[k := row];
    if k.parent == e && row.isGroup {
      assert SubGroupRows(after, e) == SubGroupRows(rows, e) + {k};
    } else {
      assert SubGroupRows(after, e) == SubGroupRows(rows, e);
    }
  }

  // ---------------------------------------------------------------------------------------------
  // Well-formed tables
  // ---------------------------------------------------------------------------------------------

  /** Distance from the file system root, for every linked group. */
  type Depths = map<int, nat>

  ghost predicate GoodRow(entries: Entries, rows: Rows, depth: Depths, k: Key)
    requires k in rows
  {
    var c := rows[k].child;
    && k.parent in entries && entries[k.parent].isGroup && k.parent in depth
    && c in entries && c != ROOT_ID && entries[c].ns == k.ns && entries[c].isGroup == rows[k].isGroup
    && (k.parent == ROOT_ID ==> k.name == k.ns && rows[k].isGroup)
    && (k.parent != ROOT_ID ==> ValidName(k.name) && entries[k.parent].ns == k.ns && Linked(rows, k.parent))
    && (rows[k].isGroup ==> c in depth && depth[c] == depth[k.parent] + 1 && RowsTo(rows, c) == {k})
  }

  /** Names are names, parents are linked groups, groups are not hard linked and hang below the root. */
  ghost predicate Shaped(entries: Entries, rows: Rows, depth: Depths) {
    && 0 !in entries && ROOT_ID in entries && entries[ROOT_ID].isGroup && ROOT_ID in depth
    && forall k {:trigger GoodRow(entries, rows, depth, k)} :: k in rows ==> GoodRow(entries, rows, depth, k)
  }

  ghost predicate CountedAt(entries: Entries, rows: Rows, e: int)
    requires e in entries
  {
    entries[e].refCount == LinkCount(rows, e, entries[e].isGroup)
  }

  ghost predicate Counted(entries: Entries, rows: Rows) {
    forall e {:trigger CountedAt(entries, rows, e)} :: e in entries ==> CountedAt(entries, rows, e)
  }

  /** Everything that every run keeps. */
  ghost predicate WellFormed(entries: Entries, rows: Rows, depth: Depths) {
    Shaped(entries, rows, depth) && Counted(entries, rows)
  }

  /** What one more row adds to the links of an entry: the row itself, and "." of a group it links first. */
  lemma AddCount(rows: Rows, k: Key, row: Row, e: int, isGroup: bool)
    requires k !in rows
    ensures LinkCount(rows[k := row], e, isGroup) == LinkCount(rows, e, isGroup)
              + (if row.child == e then 1 else 0)
              + (if k.parent == e && row.isGroup then 1 else 0)
              + (if row.child == e && isGroup && e != ROOT_ID && RowsTo(rows, e) == {} then 1 else 0)
  {
    AddRow(rows, k, row, e);
    AddSubGroupRow(rows, k, row, e);
  }

  lemma DropCount(rows: Rows, k: Key, e: int, isGroup: bool)
    requires k in rows
    ensures LinkCount(rows - {k}, e, isGroup) == LinkCount(rows, e, isGroup)
              - (if rows[k].child == e then 1 else 0)
              - (if k.parent == e && rows[k].isGroup then 1 else 0)
              - (if rows[k].child == e && isGroup && e != ROOT_ID && RowsTo(rows, e) == {k} then 1 else 0)
  {
    var less := rows - {k};
    assert less[k := rows[k]] == rows;
    AddCount(less, k, rows[k], e, isGroup);
    if rows[k].child == e {
      assert RowsTo(rows, e) == RowsTo(less, e) + {k};
    }
  }

  /** The orphan scan, refCount == 0, selects the entries that no row names, and only those. */
  lemma ZeroCountIff(entries: Entries, rows: Rows, depth: Depths, e: int)
    requires WellFormed(entries, rows, depth) && e in entries
    ensures entries[e].refCount == 0 <==> e != ROOT_ID && !Linked(rows, e)
  {
    assert CountedAt(entries, rows, e);
    if e != ROOT_ID && !Linked(rows, e) {
      forall k | k in rows ensures k.parent != e {
        assert GoodRow(entries, rows, depth, k);
      }
      assert SubGroupRows(rows, e) == {};
    }
  }

  /** The link count of a file is the number of rows that name it, however many hard links there are. */
  lemma FileCountIsLinks(entries: Entries, rows: Rows, depth: Depths, e: int)
    requires WellFormed(entries, rows, depth) && e in entries && !entries[e].isGroup
    ensures entries[e].refCount == |RowsTo(rows, e)|
  {
    assert CountedAt(entries, rows, e);
    forall k | k in rows ensures k.parent != e {
      assert GoodRow(entries, rows, depth, k);
    }
    assert SubGroupRows(rows, e) == {};
  }

  // ---------------------------------------------------------------------------------------------
  // Paths
  // ---------------------------------------------------------------------------------------------

  /** The entry at a path below the root of a namespace, by the rows alone. */
  function Resolve(rows: Rows, ns: string, cs: seq<string>): Option<int> {
    if cs == [] then
      if Key(ns, ROOT_ID, ns) in rows then Some(rows[Key(ns, ROOT_ID, ns)].child) else None
    else
      match Resolve(rows, ns, cs[..|cs| - 1])
      case None => None
      case Some(p) =>
        var k := Key(ns, p, cs[|cs| - 1]);
        if k in rows then Some(rows[k].child) else None
  }

  /** The entry at any path: empty pieces count for nothing, but no path other than "/" may have only those. */
  function At(rows: Rows, ns: string, path: string): Option<int> {
    if Parts(path) == [] && path != "/" then None else Resolve(rows, ns, Parts(path))
  }

  /** The row by which a path reaches its entry. */
  function LastKey(rows: Rows, ns: string, cs: seq<string>): Key
    requires Resolve(rows, ns, cs).Some?
  {
    if cs == [] then Key(ns, ROOT_ID, ns)
    else Key(ns, Resolve(rows, ns, cs[..|cs| - 1]).value, cs[|cs| - 1])
  }

  /** One name further down. */
  lemma ResolveChild(rows: Rows, ns: string, cs: seq<string>, n: string)
    requires Resolve(rows, ns, cs).Some?
    ensures var k := Key(ns, Resolve(rows, ns, cs).value, n);
            && Resolve(rows, ns, cs + [n]) == (if k in rows then Some(rows[k].child) else None)
            && (k in rows ==> LastKey(rows, ns, cs + [n]) == k)
  {
    var next := cs + [n];
    assert next[..|next| - 1] == cs && next[|next| - 1] == n;
  }

  lemma ResolvedRow(entries: Entries, rows: Rows, depth: Depths, ns: string, cs: seq<string>)
    requires Shaped(entries, rows, depth) && Resolve(rows, ns, cs).Some?
    ensures var k := LastKey(rows, ns, cs);
            && k in rows && rows[k].child == Resolve(rows, ns, cs).value && GoodRow(entries, rows, depth, k)
            && k.ns == ns && (k.parent == ROOT_ID <==> cs == []) && Linked(rows, rows[k].child)
  {
    var k := LastKey(rows, ns, cs);
    assert GoodRow(entries, rows, depth, k) && k in RowsTo(rows, rows[k].child);
    if cs != [] {
      ResolvedRow(entries, rows, depth, ns, cs[..|cs| - 1]);
    }
  }

  /** The only row of a linked group. */
  ghost function RowOf(rows: Rows, g: int): (k: Key)
    requires Linked(rows, g)
    ensures k in rows && rows[k].child == g
  {
    var k :| k in RowsTo(rows, g);
    k
  }

  ghost predicate LinkedGroup(entries: Entries, rows: Rows, g: int) {
    g in entries && entries[g].isGroup && g != ROOT_ID && Linked(rows, g)
  }

  /** The names on the way down to a linked group. */
  ghost function PathOf(entries: Entries, rows: Rows, depth: Depths, g: int): seq<string>
    requires Shaped(entries, rows, depth) && LinkedGroup(entries, rows, g)
    decreases if g in depth then depth[g] else 0
  {
    var k := RowOf(rows, g);
    assert GoodRow(entries, rows, depth, k);
    if k.parent == ROOT_ID then [] else PathOf(entries, rows, depth, k.parent) + [k.name]
  }

  /** Every linked group reaches its namespace root, and the path found going up leads back down. */
  lemma {:induction false} PathResolves(entries: Entries, rows: Rows, depth: Depths, g: int)
    requires Shaped(entries, rows, depth) && LinkedGroup(entries, rows, g)
    ensures Resolve(rows, entries[g].ns, PathOf(entries, rows, depth, g)) == Some(g)
    ensures ValidNames(PathOf(entries, rows, depth, g))
    decreases if g in depth then depth[g] else 0
  {
    var k := RowOf(rows, g);
    assert GoodRow(entries, rows, depth, k);
    if k.parent != ROOT_ID {
      PathResolves(entries, rows, depth, k.parent);
      ResolveChild(rows, k.ns, PathOf(entries, rows, depth, k.parent), k.name);
    }
  }

  /** A group has one path. */
  lemma {:induction false} PathIsOnly(entries: Entries, rows: Rows, depth: Depths, ns: string, cs: seq<string>, g: int)
    requires Shaped(entries, rows, depth) && LinkedGroup(entries, rows, g)
    requires Resolve(rows, ns, cs) == Some(g)
    ensures cs == PathOf(entries, rows, depth, g) && entries[g].ns == ns
    decreases |cs|
  {
    ResolvedRow(entries, rows, depth, ns, cs);
    var k := LastKey(rows, ns, cs);
    assert RowOf(rows, g) in RowsTo(rows, g);
    if cs != [] {
      PathIsOnly(entries, rows, depth, ns, cs[..|cs| - 1], k.parent);
    }
  }
}
