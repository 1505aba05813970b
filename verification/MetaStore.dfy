/**
  The transactions on the entry tables (pkg/metastore/sql.go). Each reads rows, changes copies and
  writes them back; when it fails, nothing is written.
 */
module MetaStore {
  import opened Paths
  import opened EntryTables

  datatype Error = NotFound | IsExist | NotEmpty | NameTooLong | Unsupported | IsGroup | NoGroup | Descendant | Conflict

  datatype Result<+T> = Ok(value: T) | Err(error: Error)

  // ---------------------------------------------------------------------------------------------
  // Versions
  // ---------------------------------------------------------------------------------------------

  const MAX_INT64 := 0x7FFF_FFFF_FFFF_FFFF

  /** int64 addition of one, which wraps around. */
  function Increment64(v: int): int {
    if v == MAX_INT64 then -MAX_INT64 - 1 else v + 1
  }

  function NextVersion(v: int): int {
    if Increment64(v) < 0 then 1024 else Increment64(v)
  }

  /** An entry row written back with its link count changed by `d`. */
  function Touched(e: Entry, d: int): Entry {
    e.(refCount := e.refCount + d, version := NextVersion(e.version))
  }

  function Touch(entries: Entries, id: int, d: int): Entries
    requires id in entries
  {
    entries[id := Touched(entries[id], d)]
  }

  /** The version after n writes. */
  function Bumped(v: int, n: nat): int {
    if n == 0 then v else NextVersion(Bumped(v, n - 1))
  }

  /** Short of the wrap every write raises the version by one. */
  lemma {:induction false} BumpedRises(v: int, n: nat)
    requires 0 <= v && v + n <= MAX_INT64
    ensures Bumped(v, n) == v + n
  {
    if n > 0 { BumpedRises(v, n - 1); }
  }

  /** What n writes of a transaction leave of an entry, up to its link count. */
  ghost predicate WrittenBack(e: Entry, e': Entry, n: nat) {
    && e'.version == Bumped(e.version, n)
    && e'.ns == e.ns && e'.name == e.name && e'.isGroup == e.isGroup
    && (n == 0 ==> e' == e)
  }

  /** A transaction writes the entries in `writes`, as often as they occur there, and no other ones. */
  ghost predicate Wrote(before: Entries, after: Entries, writes: multiset<int>) {
    after.Keys == before.Keys && forall e :: e in before ==> WrittenBack(before[e], after[e], writes[e])
  }

  function WithName(entries: Entries, id: int, name: string): Entries
    requires id in entries
  {
    entries[id := entries[id].(name := name)]
  }

  /** One more entry written back. */
  lemma WritesOne(before: Entries, after: Entries, writes: multiset<int>, id: int, e: Entry)
    requires Wrote(before, after, writes) && id in after && WrittenBack(after[id], e, 1)
    ensures Wrote(before, after[id := e], writes + multiset{id})
  {
    assert Bumped(after[id].version, 1) == NextVersion(Bumped(after[id].version, 0));
    forall i | i in before ensures WrittenBack(before[i], after[id := e][i], (writes + multiset{id})[i]) {
      assert WrittenBack(before[i], after[i], writes[i]);
    }
  }

  lemma TouchedWritten(e: Entry, d: int)
    ensures WrittenBack(e, Touched(e, d), 1)
  {
    assert Bumped(e.version, 1) == NextVersion(Bumped(e.version, 0));
  }

  lemma TouchWrites(before: Entries, after: Entries, writes: multiset<int>, id: int, d: int)
    requires Wrote(before, after, writes) && id in after
    ensures Wrote(before, Touch(after, id, d), writes + multiset{id})
  {
    TouchedWritten(after[id], d);
    WritesOne(before, after, writes, id, Touched(after[id], d));
  }

  lemma RemoveWrites(entries: Entries, parent: int, id: int)
    requires parent in entries && id in entries && parent != id
    ensures Wrote(entries, AfterRemove(entries, parent, id), multiset{parent, id})
  {
    var d := if entries[id].isGroup then -1 else 0;
    assert Wrote(entries, entries, multiset{});
    TouchWrites(entries, entries, multiset{}, parent, d);
    TouchedWritten(entries[id], 0);
    var e := AfterRemove(entries, parent, id)[id];
    WritesOne(entries, Touch(entries, parent, d), multiset{} + multiset{parent}, id, e);
    assert multiset{} + multiset{parent} + multiset{id} == multiset{parent, id};
  }

  lemma MirrorWrites(entries: Entries, id: int, newParent: int)
    requires id in entries && newParent in entries
    ensures Wrote(entries, Touch(Touch(entries, id, 1), newParent, 0), multiset{id, newParent})
  {
    assert Wrote(entries, entries, multiset{});
    TouchWrites(entries, entries, multiset{}, id, 1);
    TouchWrites(entries, Touch(entries, id, 1), multiset{} + multiset{id}, newParent, 0);
    assert multiset{} + multiset{id} + multiset{newParent} == multiset{id, newParent};
  }

  /** The target gets its new name; it and the parents that change get a new version, all else stays. */
  lemma MoveIsWritten(entries: Entries, rows: Rows, mv: Rename)
    requires CanMove(entries, rows, mv)
    ensures Moved(entries, rows, mv, AfterMove(entries, mv), AfterMoveRows(rows, mv))
  {
    var renamed := WithName(entries, mv.target, mv.newName);
    var w := multiset{} + multiset{mv.target};
    assert Wrote(renamed, renamed, multiset{});
    TouchWrites(renamed, renamed, multiset{}, mv.target, 0);
    var named := Touch(renamed, mv.target, 0);
    if mv.OldKey() == mv.NewKey() {
      assert MoveWrites(entries, mv) == w;
    } else if entries[mv.target].isGroup && mv.oldParent != mv.newParent {
      TouchWrites(renamed, named, w, mv.newParent, 1);
      TouchWrites(renamed, Touch(named, mv.newParent, 1), w + multiset{mv.newParent}, mv.oldParent, -1);
      assert MoveWrites(entries, mv) == w + multiset{mv.newParent} + multiset{mv.oldParent};
    } else {
      TouchWrites(renamed, named, w, mv.oldParent, 0);
      assert MoveWrites(entries, mv) == w + multiset{mv.oldParent};
    }
  }

  class SqlMetaStore {
    var entries: Entries
    var rows: Rows

    /** A store that holds the file system root only. */
    constructor (root: Entry)
      ensures entries == map[ROOT_ID := root] && rows == map[]
    {
      entries := map[ROOT_ID := root];
      rows := map[];
    }

    method FindEntry(ns: string, parent: int, name: string) returns (r: Result<int>)
      ensures r == if Key(ns, parent, name) in rows then Ok(rows[Key(ns, parent, name)].child) else Err(NotFound)
    {
      var k := Key(ns, parent, name);
      if k !in rows {
        return Err(NotFound);
      }
      return Ok(rows[k].child);
    }

    method GetEntry(ns: string, id: int) returns (r: Result<Entry>)
      ensures r == if id in entries && entries[id].ns == ns then Ok(entries[id]) else Err(NotFound)
    {
      if id !in entries || entries[id].ns != ns {
        return Err(NotFound);
      }
      return Ok(entries[id]);
    }

    /** The names in a group, in whatever order the table yields them. */
    method ListChildren(ns: string, parent: int) returns (names: seq<string>)
      ensures forall n :: n in names <==> Key(ns, parent, n) in rows
      ensures forall i, j :: 0 <= i < j < |names| ==> names[i] != names[j]
    {
      names := [];
      var left := ChildRows(rows, ns, parent);
      while left != {}
        invariant left <= ChildRows(rows, ns, parent)
        invariant forall n :: n in names <==> Key(ns, parent, n) in ChildRows(rows, ns, parent) - left
        invariant forall i, j :: 0 <= i < j < |names| ==> names[i] != names[j]
      {
        var k :| k in left;
        names := names + [k.name];
        left := left - {k};
      }
    }

    /** The root of the file system is created with parent 0 and gets no row. */
    method CreateEntry(ns: string, parent: int, id: int, newEntry: Entry) returns (r: Result<()>)
      modifies this
      ensures r.Ok? <==> CanCreate(old(entries), old(rows), ns, parent, id, newEntry.name)
      ensures r.Ok? ==>
              && rows == (if parent == 0 || parent == id then old(rows)
                          else old(rows)[Key(ns, parent, newEntry.name) := Row(id, newEntry.isGroup)])
              && entries == (var created := old(entries)[id := newEntry.(ns := ns)];
                             if parent == 0 then created
                             else Touch(created, parent, if newEntry.isGroup then 1 else 0))
      ensures r.Ok? ==> Wrote(old(entries)[id := newEntry.(ns := ns)], entries, if parent == 0 then multiset{} else multiset{parent})
      ensures r.Err? ==> entries == old(entries) && rows == old(rows)
    {
      if id in entries {
        return Err(IsExist);
      }
      var newEntries, newRows := entries[id := newEntry.(ns := ns)], rows;
      if parent != 0 && parent != id {
        var k := Key(ns, parent, newEntry.name);
        if k in rows {
          return Err(IsExist);
        }
        newRows := rows[k := Row(id, newEntry.isGroup)];
      }
      ghost var created := newEntries;
      assert Wrote(created, created, multiset{});
      if parent == 0 {
        entries, rows := newEntries, newRows;
        return Ok(());
      }
      if parent !in newEntries {
        return Err(NotFound);
      }
      var parentMod := newEntries[parent];
      if newEntry.isGroup {
        parentMod := parentMod.(refCount := parentMod.refCount + 1);
      }
      TouchWrites(created, created, multiset{}, parent, if newEntry.isGroup then 1 else 0);
      newEntries := newEntries[parent := parentMod.(version := NextVersion(parentMod.version))];
      entries, rows := newEntries, newRows;
      return Ok(());
    }

    /** An entry that is its own parent is written twice from one version, which the version check refuses. */
    method RemoveEntry(ns: string, parent: int, id: int, name: string) returns (r: Result<()>)
      modifies this
      ensures r.Ok? <==> CanRemove(old(entries), old(rows), ns, parent, id, name)
      ensures r.Ok? ==>
              && rows == old(rows) - {Key(ns, parent, name)}
              && entries == AfterRemove(old(entries), parent, id)
              && Wrote(old(entries), entries, multiset{parent, id})
      ensures r.Err? ==> entries == old(entries) && rows == old(rows)
    {
      if id !in entries || entries[id].ns != ns {
        return Err(NotFound);
      }
      var entryMod := entries[id];
      var entryRef := entryMod.refCount;
      var k := Key(ns, parent, name);
      if k !in rows || rows[k].child != id {
        return Err(NotFound);
      }
      if parent !in entries || entries[parent].ns != ns {
        return Err(NotFound);
      }
      var parentMod := entries[parent];
      if entryMod.isGroup {
        if ChildRows(rows, ns, id) != {} {
          return Err(NotEmpty);
        }
        parentMod := parentMod.(refCount := parentMod.refCount - 1);
        entryRef := entryRef - 1;
      }
      var newEntries := entries[parent := parentMod.(version := NextVersion(parentMod.version))];
      entryRef := entryRef - 1;
      if entryRef < 0 {
        entryRef := 0;
      }
      if newEntries[id].version != entryMod.version {
        return Err(Conflict);
      }
      RemoveWrites(entries, parent, id);
      newEntries := newEntries[id := entryMod.(refCount := entryRef, version := NextVersion(entryMod.version))];
      entries, rows := newEntries, rows - {k};
      return Ok(());
    }

    method MirrorEntry(ns: string, id: int, newName: string, newParent: int) returns (r: Result<()>)
      modifies this
      ensures r.Ok? <==>
              && Key(ns, newParent, newName) !in old(rows)
              && id in old(entries) && old(entries)[id].ns == ns
              && newParent in old(entries) && old(entries)[newParent].ns == ns
      ensures r.Ok? ==>
              && rows == old(rows)[Key(ns, newParent, newName) := Row(id, old(entries)[id].isGroup)]
              && entries == Touch(Touch(old(entries), id, 1), newParent, 0)
              && Wrote(old(entries), entries, multiset{id, newParent})
      ensures r.Err? ==> entries == old(entries) && rows == old(rows)
    {
      var k := Key(ns, newParent, newName);
      if k in rows && rows[k].child == id {
        return Err(IsExist);
      }
      if id !in entries || entries[id].ns != ns {
        return Err(NotFound);
      }
      var newEntries := Touch(entries, id, 1);
      if newParent !in entries || entries[newParent].ns != ns {
        return Err(NotFound);
      }
      newEntries := Touch(newEntries, newParent, 0);
      if k in rows {
        return Err(IsExist);
      }
      MirrorWrites(entries, id, newParent);
      entries, rows := newEntries, rows[k := Row(id, entries[id].isGroup)];
      return Ok(());
    }

    method ChangeEntryParent(ns: string, target: int, oldParent: int, newParent: int, oldName: string, newName: string)
      returns (r: Result<()>)
      modifies this
      ensures var name := if newName == "" then oldName else newName;
              var mv := Rename(ns, target, oldParent, newParent, oldName, name);
              && (r.Ok? <==> CanMove(old(entries), old(rows), mv))
              && (r.Ok? ==> Moved(old(entries), old(rows), mv, entries, rows))
      ensures r.Err? ==> entries == old(entries) && rows == old(rows)
    {
      var newName := if newName == "" then oldName else newName;
      var k := Key(ns, oldParent, oldName);
      if k !in rows || rows[k].child != target {
        return Err(NotFound);
      }
      if target !in entries || entries[target].ns != ns {
        return Err(NotFound);
      }
      var newEntries := Touch(WithName(entries, target, newName), target, 0);
      if oldParent == newParent && oldName == newName {
        assert (rows - {k})[k := rows[k]] == rows;
        MoveIsWritten(entries, rows, Rename(ns, target, oldParent, newParent, oldName, newName));
        entries := newEntries;
        return Ok(());
      }
      var newRows := rows - {k};
      var l := Key(ns, newParent, newName);
      if l in newRows {
        return Err(IsExist);
      }
      newRows := newRows[l := rows[k]];
      var written := WriteParents(newEntries, ns, entries[target].isGroup, oldParent, newParent);
      if written.Err? {
        return Err(written.error);
      }
      MoveIsWritten(entries, rows, Rename(ns, target, oldParent, newParent, oldName, newName));
      entries, rows := written.value, newRows;
      return Ok(());
    }

    /** The end of ChangeEntryParent, which writes the parents. */
    static method WriteParents(entries: Entries, ns: string, isGroup: bool, oldParent: int, newParent: int)
      returns (r: Result<Entries>)
      ensures r.Ok? <==> InSpace(entries, ns, oldParent) && (isGroup && oldParent != newParent ==> InSpace(entries, ns, newParent))
      ensures r.Ok? ==> r.value == if isGroup && oldParent != newParent then Touch(Touch(entries, newParent, 1), oldParent, -1)
                                   else Touch(entries, oldParent, 0)
      ensures r.Err? ==> r.error == NotFound
    {
      if oldParent !in entries || entries[oldParent].ns != ns {
        return Err(NotFound);
      }
      var newEntries, srcParent := entries, entries[oldParent];
      if isGroup && oldParent != newParent {
        if newParent !in entries || entries[newParent].ns != ns {
          return Err(NotFound);
        }
        newEntries := Touch(newEntries, newParent, 1);
        srcParent := srcParent.(refCount := srcParent.refCount - 1);
      }
      return Ok(newEntries[oldParent := srcParent.(version := NextVersion(srcParent.version))]);
    }
  }

  predicate InSpace(entries: Entries, ns: string, id: int) {
    id in entries && entries[id].ns == ns
  }

  /** The tables after a move, and what it has written. */
  ghost predicate Moved(entries: Entries, rows: Rows, mv: Rename, entries': Entries, rows': Rows)
    requires CanMove(entries, rows, mv)
  {
    && rows' == AfterMoveRows(rows, mv) && entries' == AfterMove(entries, mv)
    && Wrote(WithName(entries, mv.target, mv.newName), entries', MoveWrites(entries, mv))
  }

  predicate CanCreate(entries: Entries, rows: Rows, ns: string, parent: int, id: int, name: string) {
    && id !in entries
    && (parent != 0 ==> (parent in entries && Key(ns, parent, name) !in rows) || parent == id)
  }

  function ChildRows(rows: Rows, ns: string, parent: int): set<Key> {
    set k | k in rows && k.ns == ns && k.parent == parent
  }

  predicate CanRemove(entries: Entries, rows: Rows, ns: string, parent: int, id: int, name: string) {
    && id in entries && entries[id].ns == ns
    && Key(ns, parent, name) in rows && rows[Key(ns, parent, name)].child == id
    && parent in entries && entries[parent].ns == ns && parent != id
    && (entries[id].isGroup ==> ChildRows(rows, ns, id) == {})
  }

  function AfterRemove(entries: Entries, parent: int, id: int): Entries
    requires parent in entries && id in entries
  {
    var g := entries[id].isGroup;
    var left := entries[id].refCount - (if g then 2 else 1);
    var touched := Touch(entries, parent, if g then -1 else 0);
    touched[id := entries[id].(refCount := if left < 0 then 0 else left, version := NextVersion(entries[id].version))]
  }

  /** A row that moves: the child it names, and its parent and name before and after. */
  datatype Rename = Rename(ns: string, target: int, oldParent: int, newParent: int, oldName: string, newName: string) {

    function OldKey(): Key {
      Key(ns, oldParent, oldName)
    }

    function NewKey(): Key {
      Key(ns, newParent, newName)
    }
  }

  predicate CanMove(entries: Entries, rows: Rows, mv: Rename) {
    var k, l := mv.OldKey(), mv.NewKey();
    && k in rows && rows[k].child == mv.target
    && mv.target in entries && entries[mv.target].ns == mv.ns
    && (k != l ==>
          && l !in rows
          && mv.oldParent in entries && entries[mv.oldParent].ns == mv.ns
          && (entries[mv.target].isGroup && mv.oldParent != mv.newParent ==>
                mv.newParent in entries && entries[mv.newParent].ns == mv.ns))
  }

  /** The target, the old parent unless nothing moves, and the new parent if a group changes its parent. */
  function MoveWrites(entries: Entries, mv: Rename): multiset<int>
    requires mv.target in entries
  {
    if mv.OldKey() == mv.NewKey() then multiset{mv.target}
    else if entries[mv.target].isGroup && mv.oldParent != mv.newParent then multiset{mv.target, mv.oldParent, mv.newParent}
    else multiset{mv.target, mv.oldParent}
  }

  function AfterMoveRows(rows: Rows, mv: Rename): Rows
    requires mv.OldKey() in rows
  {
    (rows - {mv.OldKey()})[mv.NewKey() := rows[mv.OldKey()]]
  }

  function AfterMove(entries: Entries, mv: Rename): Entries
    requires mv.target in entries
    requires (mv.oldParent == mv.newParent && mv.oldName == mv.newName) || mv.oldParent in entries
    requires entries[mv.target].isGroup && mv.oldParent != mv.newParent ==> mv.newParent in entries
  {
    var named := Touch(WithName(entries, mv.target, mv.newName), mv.target, 0);
    if mv.oldParent == mv.newParent && mv.oldName == mv.newName then named
    else if entries[mv.target].isGroup && mv.oldParent != mv.newParent then Touch(Touch(named, mv.newParent, 1), mv.oldParent, -1)
    else Touch(named, mv.oldParent, 0)
  }
}
