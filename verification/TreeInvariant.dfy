/** Each transaction of the metadata store keeps the tables well formed. */
module TreeInvariant {
  import opened Common
  import opened Paths
  import opened EntryTables
  import opened MetaStore

  /** Where a child row may be added: under a namespace root's parent, or under a linked group. */
  ghost predicate GoodParent(entries: Entries, rows: Rows, ns: string, parent: int, name: string, isGroup: bool) {
    && parent in entries && entries[parent].isGroup
    && (parent == ROOT_ID ==> name == ns && isGroup)
    && (parent != ROOT_ID ==> ValidName(name) && entries[parent].ns == ns && Linked(rows, parent))
  }

  lemma ParentHasDepth(entries: Entries, rows: Rows, depth: Depths, ns: string, parent: int, name: string, isGroup: bool)
    requires Shaped(entries, rows, depth) && GoodParent(entries, rows, ns, parent, name, isGroup)
    ensures parent in depth
  {
    if parent != ROOT_ID {
      assert GoodRow(entries, rows, depth, RowOf(rows, parent));
    }
  }

  /** Entry rows may be added and written back, but an entry stays what and where it is. */
  ghost predicate SameKinds(entries: Entries, entries': Entries) {
    forall e :: e in entries ==> e in entries' && entries'[e].ns == entries[e].ns && entries'[e].isGroup == entries[e].isGroup
  }

  ghost predicate SameDepths(entries: Entries, depth: Depths, depth': Depths) {
    forall e :: e in entries && e in depth ==> e in depth' && depth'[e] == depth[e]
  }

  lemma StaysLinked(rows: Rows, n: Key, row: Row, e: int)
    requires n !in rows && Linked(rows, e)
    ensures Linked(rows[n := row], e)
  {
    assert RowOf(rows, e) in RowsTo(rows[n := row], e);
  }

  /** A row may be added where it is good, provided groups are not linked twice. */
  lemma AddKeepsShape(entries: Entries, rows: Rows, depth: Depths, entries': Entries, depth': Depths, n: Key, row: Row)
    requires Shaped(entries, rows, depth) && SameKinds(entries, entries') && SameDepths(entries, depth, depth')
    requires 0 !in entries' && n !in rows && GoodRow(entries', rows[n := row], depth', n)
    ensures Shaped(entries', rows[n := row], depth')
  {
    var rows' := rows[n := row];
    forall k | k in rows' && k != n ensures GoodRow(entries', rows', depth', k) {
      assert GoodRow(entries, rows, depth, k);
      if k.parent != ROOT_ID { StaysLinked(rows, n, row, k.parent); }
      if rows[k].isGroup {
        assert k in RowsTo(rows', rows[k].child);
        assert RowsTo(rows', rows[k].child) == RowsTo(rows, rows[k].child);
      }
    }
  }

  /** A row may be dropped if the entry it names is no parent. */
  lemma DropKeepsShape(entries: Entries, rows: Rows, depth: Depths, entries': Entries, n: Key)
    requires Shaped(entries, rows, depth) && SameKinds(entries, entries') && 0 !in entries' && n in rows
    requires forall k :: k in rows ==> k.parent != rows[n].child
    ensures Shaped(entries', rows - {n}, depth)
  {
    var rows' := rows - {n};
    forall k | k in rows' ensures GoodRow(entries', rows', depth, k) {
      assert GoodRow(entries, rows, depth, k);
      if k.parent != ROOT_ID {
        assert RowOf(rows, k.parent) in RowsTo(rows', k.parent);
      }
      if rows[k].isGroup {
        assert n !in RowsTo(rows, rows[k].child);
        assert RowsTo(rows', rows[k].child) == RowsTo(rows, rows[k].child);
      }
    }
  }

  // ---------------------------------------------------------------------------------------------
  // Create
  // ---------------------------------------------------------------------------------------------

  ghost predicate CreateStep(entries: Entries, rows: Rows, ns: string, parent: int, id: int, e: Entry,
                             entries': Entries, rows': Rows)
  {
    && GoodParent(entries, rows, ns, parent, e.name, e.isGroup)
    && id != 0 && id !in entries && e.ns == ns && Key(ns, parent, e.name) !in rows
    && e.refCount == (if e.isGroup then 2 else 1)
    && rows' == rows[Key(ns, parent, e.name) := Row(id, e.isGroup)]
    && entries' == Touch(entries[id := e], parent, if e.isGroup then 1 else 0)
  }

  /** The depth of a new group. */
  ghost function AddDepth(depth: Depths, parent: int, id: int, isGroup: bool): Depths {
    if isGroup && parent in depth then depth[id := depth[parent] + 1] else depth
  }

  lemma Unused(entries: Entries, rows: Rows, depth: Depths, id: int)
    requires Shaped(entries, rows, depth) && id !in entries
    ensures RowsTo(rows, id) == {} && SubGroupRows(rows, id) == {}
  {
    forall k | k in rows ensures rows[k].child != id && k.parent != id {
      assert GoodRow(entries, rows, depth, k);
    }
  }

  lemma CreateKeepsShape(entries: Entries, rows: Rows, depth: Depths, ns: string, parent: int, id: int, e: Entry,
                         entries': Entries, rows': Rows)
    requires Shaped(entries, rows, depth) && CreateStep(entries, rows, ns, parent, id, e, entries', rows')
    ensures Shaped(entries', rows', AddDepth(depth, parent, id, e.isGroup))
  {
    var n, row, depth' := Key(ns, parent, e.name), Row(id, e.isGroup), AddDepth(depth, parent, id, e.isGroup);
    ParentHasDepth(entries, rows, depth, ns, parent, e.name, e.isGroup);
    Unused(entries, rows, depth, id);
    if parent != ROOT_ID { StaysLinked(rows, n, row, parent); }
    assert RowsTo(rows', id) == {n};
    assert GoodRow(entries', rows', depth', n);
    AddKeepsShape(entries, rows, depth, entries', depth', n, row);
  }

  lemma CreateKeepsCount(entries: Entries, rows: Rows, depth: Depths, ns: string, parent: int, id: int, e: Entry,
                         entries': Entries, rows': Rows)
    requires WellFormed(entries, rows, depth) && CreateStep(entries, rows, ns, parent, id, e, entries', rows')
    ensures Counted(entries', rows')
  {
    Unused(entries, rows, depth, id);
    forall x | x in entries' ensures CountedAt(entries', rows', x) {
      AddCount(rows, Key(ns, parent, e.name), Row(id, e.isGroup), x, entries'[x].isGroup);
      if x != id { assert CountedAt(entries, rows, x); }
    }
  }

  // ---------------------------------------------------------------------------------------------
  // Hard link
  // ---------------------------------------------------------------------------------------------

  ghost predicate MirrorStep(entries: Entries, rows: Rows, ns: string, parent: int, id: int, name: string,
                             entries': Entries, rows': Rows)
  {
    && id in entries && !entries[id].isGroup && entries[id].ns == ns
    && parent != ROOT_ID && GoodParent(entries, rows, ns, parent, name, false) && Key(ns, parent, name) !in rows
    && rows' == rows[Key(ns, parent, name) := Row(id, false)]
    && entries' == Touch(Touch(entries, id, 1), parent, 0)
  }

  lemma MirrorKeepsShape(entries: Entries, rows: Rows, depth: Depths, ns: string, parent: int, id: int, name: string,
                         entries': Entries, rows': Rows)
    requires Shaped(entries, rows, depth) && MirrorStep(entries, rows, ns, parent, id, name, entries', rows')
    ensures Shaped(entries', rows', depth)
  {
    var n, row := Key(ns, parent, name), Row(id, false);
    ParentHasDepth(entries, rows, depth, ns, parent, name, false);
    StaysLinked(rows, n, row, parent);
    assert GoodRow(entries', rows', depth, n);
    AddKeepsShape(entries, rows, depth, entries', depth, n, row);
  }

  lemma MirrorKeepsCount(entries: Entries, rows: Rows, ns: string, parent: int, id: int, name: string,
                         entries': Entries, rows': Rows)
    requires Counted(entries, rows) && MirrorStep(entries, rows, ns, parent, id, name, entries', rows')
    ensures Counted(entries', rows')
  {
    forall x | x in entries' ensures CountedAt(entries', rows', x) {
      AddCount(rows, Key(ns, parent, name), Row(id, false), x, entries'[x].isGroup);
      assert CountedAt(entries, rows, x);
    }
  }

  // ---------------------------------------------------------------------------------------------
  // Remove
  // ---------------------------------------------------------------------------------------------

  /** Removing a file row or an empty group. */
  ghost predicate RemoveStep(entries: Entries, rows: Rows, ns: string, parent: int, id: int, name: string,
                             entries': Entries, rows': Rows)
  {
    && CanRemove(entries, rows, ns, parent, id, name)
    && parent != ROOT_ID && parent != id
    && rows' == rows - {Key(ns, parent, name)}
    && entries' == AfterRemove(entries, parent, id)
  }

  lemma RemoveKeepsShape(entries: Entries, rows: Rows, depth: Depths, ns: string, parent: int, id: int, name: string,
                         entries': Entries, rows': Rows)
    requires Shaped(entries, rows, depth) && RemoveStep(entries, rows, ns, parent, id, name, entries', rows')
    ensures Shaped(entries', rows', depth)
  {
    var n := Key(ns, parent, name);
    assert GoodRow(entries, rows, depth, n);
    forall k | k in rows ensures k.parent != id {
      assert GoodRow(entries, rows, depth, k);
      assert k.parent == id ==> k in ChildRows(rows, ns, id);
    }
    DropKeepsShape(entries, rows, depth, entries', n);
  }

  /** A removed entry had the links it loses, so the clamp of a negative count is never reached. */
  lemma RemoveNotBelowZero(entries: Entries, rows: Rows, depth: Depths, ns: string, parent: int, id: int, name: string)
    requires WellFormed(entries, rows, depth) && CanRemove(entries, rows, ns, parent, id, name)
    ensures entries[id].refCount >= if entries[id].isGroup then 2 else 1
    ensures entries[id].isGroup ==> RowsTo(rows, id) == {Key(ns, parent, name)}
  {
    var n := Key(ns, parent, name);
    assert GoodRow(entries, rows, depth, n) && CountedAt(entries, rows, id);
    assert n in RowsTo(rows, id);
  }

  lemma RemoveKeepsCount(entries: Entries, rows: Rows, depth: Depths, ns: string, parent: int, id: int, name: string,
                         entries': Entries, rows': Rows)
    requires WellFormed(entries, rows, depth) && RemoveStep(entries, rows, ns, parent, id, name, entries', rows')
    ensures Counted(entries', rows')
  {
    assert GoodRow(entries, rows, depth, Key(ns, parent, name));
    RemoveNotBelowZero(entries, rows, depth, ns, parent, id, name);
    forall x | x in entries' ensures CountedAt(entries', rows', x) {
      DropCount(rows, Key(ns, parent, name), x, entries'[x].isGroup);
      assert CountedAt(entries, rows, x);
    }
  }

  // ---------------------------------------------------------------------------------------------
  // Rename
  // ---------------------------------------------------------------------------------------------

  /** What a rename does to the rows. */
  ghost predicate MoveRow(entries: Entries, rows: Rows, mv: Rename, rows': Rows) {
    var k, l := mv.OldKey(), mv.NewKey();
    && k != l && k in rows && rows[k].child == mv.target && l !in rows
    && mv.target in entries
    && mv.oldParent != ROOT_ID && mv.newParent != ROOT_ID
    && GoodParent(entries, rows, mv.ns, mv.newParent, mv.newName, entries[mv.target].isGroup)
    && rows' == (rows - {k})[l := rows[k]]
  }

  ghost predicate MoveStep(entries: Entries, rows: Rows, mv: Rename, entries': Entries, rows': Rows) {
    && MoveRow(entries, rows, mv, rows')
    && CanMove(entries, rows, mv)
    && entries' == AfterMove(entries, mv)
  }

  /** `g` is the group at path `top`, or inside it. */
  ghost predicate Inside(entries: Entries, rows: Rows, depth: Depths, ns: string, top: seq<string>, g: int)
    requires Shaped(entries, rows, depth)
  {
    LinkedGroup(entries, rows, g) && entries[g].ns == ns && top <= PathOf(entries, rows, depth, g)
  }

  /** The depths after moving the group at path `top` to just below a group of depth `d`. */
  ghost function MovedDepths(entries: Entries, rows: Rows, depth: Depths, ns: string, top: seq<string>, d: nat): Depths
    requires Shaped(entries, rows, depth)
  {
    map g | g in depth ::
      if Inside(entries, rows, depth, ns, top, g)
      then d + 1 + |PathOf(entries, rows, depth, g)| - |top| else depth[g]
  }

  /** A group row leads from inside to inside and from outside to outside, except to the top. */
  lemma InsideStep(entries: Entries, rows: Rows, depth: Depths, ns: string, top: seq<string>, k: Key)
    requires Shaped(entries, rows, depth) && k in rows && rows[k].isGroup
    requires top != [] && Resolve(rows, ns, top) != Some(rows[k].child)
    ensures Inside(entries, rows, depth, ns, top, rows[k].child) <==> Inside(entries, rows, depth, ns, top, k.parent)
    ensures Inside(entries, rows, depth, ns, top, rows[k].child) ==>
              |PathOf(entries, rows, depth, rows[k].child)| == |PathOf(entries, rows, depth, k.parent)| + 1
  {
    var c := rows[k].child;
    assert GoodRow(entries, rows, depth, k);
    assert RowOf(rows, c) in RowsTo(rows, c);
    PathResolves(entries, rows, depth, c);
    if k.parent != ROOT_ID && entries[c].ns == ns {
      var up := PathOf(entries, rows, depth, k.parent);
      assert PathOf(entries, rows, depth, c) == up + [k.name];
      assert top <= up + [k.name] && top != up + [k.name] ==> top <= up;
    }
  }

  lemma MoveStaysLinked(entries: Entries, rows: Rows, mv: Rename, rows': Rows, e: int)
    requires MoveRow(entries, rows, mv, rows')
    requires Linked(rows, e)
    ensures Linked(rows', e)
  {
    var k, w := mv.OldKey(), RowOf(rows, e);
    assert (if w == k then mv.NewKey() else w) in RowsTo(rows', e);
  }

  /** The rows of a group other than the moved one are what they were. */
  lemma MoveKeepsRowsTo(entries: Entries, rows: Rows, mv: Rename, rows': Rows, e: int)
    requires MoveRow(entries, rows, mv, rows')
    requires e != mv.target
    ensures RowsTo(rows', e) == RowsTo(rows, e)
  {
  }

  lemma MoveRowsToTarget(entries: Entries, rows: Rows, mv: Rename, rows': Rows)
    requires MoveRow(entries, rows, mv, rows')
    requires RowsTo(rows, mv.target) == {mv.OldKey()}
    ensures RowsTo(rows', mv.target) == {mv.NewKey()}
  {
    forall m | m in RowsTo(rows', mv.target) ensures m == mv.NewKey() {
      assert m != mv.NewKey() ==> m in RowsTo(rows, mv.target);
    }
  }

  ghost predicate MoveGroupStep(entries: Entries, rows: Rows, depth: Depths, mv: Rename, entries': Entries, rows': Rows, top: seq<string>) {
    && Shaped(entries, rows, depth) && SameKinds(entries, entries') && 0 !in entries'
    && MoveRow(entries, rows, mv, rows')
    && LinkedGroup(entries, rows, mv.target) && mv.newParent in depth
    && top == PathOf(entries, rows, depth, mv.target)
    && !Inside(entries, rows, depth, mv.ns, top, mv.newParent)
  }

  /** A group row other than the moved one still goes one level down. */
  lemma MovedDepthStep(entries: Entries, rows: Rows, depth: Depths, ns: string, top: seq<string>, target: int, d: nat, m: Key)
    requires Shaped(entries, rows, depth) && m in rows && rows[m].isGroup && rows[m].child != target
    requires Resolve(rows, ns, top) == Some(target) && top != []
    ensures var depth' := MovedDepths(entries, rows, depth, ns, top, d);
            m.parent in depth' && rows[m].child in depth' && depth'[rows[m].child] == depth'[m.parent] + 1
  {
    assert GoodRow(entries, rows, depth, m);
    InsideStep(entries, rows, depth, ns, top, m);
  }

  lemma MoveGoodRow(entries: Entries, rows: Rows, depth: Depths, mv: Rename, entries': Entries, rows': Rows, top: seq<string>, m: Key)
    requires MoveGroupStep(entries, rows, depth, mv, entries', rows', top)
    requires m in rows && m != mv.OldKey()
    ensures m in rows' && GoodRow(entries', rows', MovedDepths(entries, rows, depth, mv.ns, top, depth[mv.newParent]), m)
  {
    assert GoodRow(entries, rows, depth, m) && GoodRow(entries, rows, depth, mv.OldKey());
    if m.parent != ROOT_ID {
      MoveStaysLinked(entries, rows, mv, rows', m.parent);
    }
    if rows[m].isGroup {
      assert m in RowsTo(rows, rows[m].child);
      MoveKeepsRowsTo(entries, rows, mv, rows', rows[m].child);
      PathResolves(entries, rows, depth, mv.target);
      TopNotEmpty(entries, rows, depth, mv.ns, mv.target, mv.oldParent, mv.oldName);
      MovedDepthStep(entries, rows, depth, mv.ns, top, mv.target, depth[mv.newParent], m);
    }
  }

  lemma TopNotEmpty(entries: Entries, rows: Rows, depth: Depths, ns: string, target: int, parent: int, name: string)
    requires Shaped(entries, rows, depth) && LinkedGroup(entries, rows, target)
    requires Key(ns, parent, name) in rows && rows[Key(ns, parent, name)].child == target && parent != ROOT_ID
    ensures PathOf(entries, rows, depth, target) != [] && entries[target].ns == ns
  {
    assert GoodRow(entries, rows, depth, Key(ns, parent, name));
    assert RowOf(rows, target) in RowsTo(rows, target);
  }

  /** Moving a group that does not contain its new parent keeps the groups a tree. */
  lemma MoveGroupKeepsShape(entries: Entries, rows: Rows, depth: Depths, mv: Rename, entries': Entries, rows': Rows, top: seq<string>)
    requires MoveGroupStep(entries, rows, depth, mv, entries', rows', top)
    ensures Shaped(entries', rows', MovedDepths(entries, rows, depth, mv.ns, top, depth[mv.newParent]))
  {
    var k, l, depth' := mv.OldKey(), mv.NewKey(),
                        MovedDepths(entries, rows, depth, mv.ns, top, depth[mv.newParent]);
    assert GoodRow(entries, rows, depth, k);
    TopNotEmpty(entries, rows, depth, mv.ns, mv.target, mv.oldParent, mv.oldName);
    MoveStaysLinked(entries, rows, mv, rows', mv.newParent);
    MoveRowsToTarget(entries, rows, mv, rows');
    assert GoodRow(entries', rows', depth', l);
    forall m | m in rows' ensures GoodRow(entries', rows', depth', m) {
      if m != l {
        MoveGoodRow(entries, rows, depth, mv, entries', rows', top, m);
      }
    }
  }

  lemma MoveFileKeepsShape(entries: Entries, rows: Rows, depth: Depths, mv: Rename, entries': Entries, rows': Rows)
    requires Shaped(entries, rows, depth) && SameKinds(entries, entries') && 0 !in entries'
    requires MoveRow(entries, rows, mv, rows')
    requires !entries[mv.target].isGroup
    ensures Shaped(entries', rows', depth)
  {
    var k, l := mv.OldKey(), mv.NewKey();
    assert GoodRow(entries, rows, depth, k);
    forall m | m in rows ensures m.parent != mv.target {
      assert GoodRow(entries, rows, depth, m);
    }
    DropKeepsShape(entries, rows, depth, entries, k);
    ParentHasDepth(entries, rows, depth, mv.ns, mv.newParent, mv.newName, false);
    MoveStaysLinked(entries, rows, mv, rows', mv.newParent);
    assert GoodRow(entries', rows', depth, l);
    AddKeepsShape(entries, rows - {k}, depth, entries', depth, l, rows[k]);
  }

  /** Moving keeps the link counts right, even of a group into itself. */
  lemma MoveKeepsCount(entries: Entries, rows: Rows, depth: Depths, mv: Rename, entries': Entries, rows': Rows)
    requires WellFormed(entries, rows, depth)
    requires MoveStep(entries, rows, mv, entries', rows')
    ensures Counted(entries', rows')
  {
    var k, l := mv.OldKey(), mv.NewKey();
    var less := rows - {k};
    assert GoodRow(entries, rows, depth, k);
    if entries[mv.target].isGroup {
      assert RowsTo(less, mv.target) == RowsTo(rows, mv.target) - {k} == {};
    }
    forall x | x in entries' ensures CountedAt(entries', rows', x) {
      DropCount(rows, k, x, entries[x].isGroup);
      AddCount(less, l, rows[k], x, entries[x].isGroup);
      assert CountedAt(entries, rows, x);
    }
  }
}
