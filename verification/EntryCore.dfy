/**
  The operations on the entry tree (pkg/core/core.go) over the metadata store, with the child cache
  (pkg/core/cache.go), which may lose any of its entries at any time.
 */
module EntryCore {
  import opened Common
  import opened Paths
  import opened EntryTables
  import opened MetaStore
  import opened TreeInvariant
  import opened RowPaths

  /** Every cached child is a current child row. */
  ghost predicate Coherent(cache: map<Key, int>, rows: Rows) {
    forall k :: k in cache ==> k in rows && cache[k] == rows[k].child
  }

  /** The entry that a path led to carries this name. */
  predicate NameIs(entries: Entries, id: Option<int>, name: string) {
    id.Some? && id.value in entries && entries[id.value].name == name
  }

  class Core {
    const store: SqlMetaStore
    var cache: map<Key, int>
    ghost var depth: Depths

    /** FSRoot on an empty store: the root group has "." and a virtual link. */
    constructor ()
      ensures Valid() && fresh(store) && store.rows == map[]
    {
      store := new SqlMetaStore(Entry("default", "root", true, 2, 1));
      cache := map[];
      depth := map[ROOT_ID := 0];
      new;
      forall e | e in store.entries ensures CountedAt(store.entries, store.rows, e) {
        assert RowsTo(map[], e) == {} && SubGroupRows(map[], e) == {};
      }
    }

    ghost predicate Valid()
      reads this, store
    {
      WellFormed(store.entries, store.rows, depth) && Coherent(cache, store.rows)
    }

    // -------------------------------------------------------------------------------------------
    // Lookup
    // -------------------------------------------------------------------------------------------

    /** A lookup through the cache is a lookup in the table. */
    method FindEntry(ns: string, parent: int, name: string) returns (r: Result<int>)
      requires Valid()
      modifies this`cache
      ensures Valid()
      ensures r == if Key(ns, parent, name) in store.rows then Ok(store.rows[Key(ns, parent, name)].child) else Err(NotFound)
    {
      var evicted: set<Key> := *;
      cache := cache - evicted;
      var k := Key(ns, parent, name);
      if k in cache {
        return Ok(cache[k]);
      }
      r := store.FindEntry(ns, parent, name);
      if r.Ok? {
        cache := cache[k := r.value];
      }
    }

    method GetEntry(ns: string, id: int) returns (r: Result<Entry>)
      requires Valid()
      ensures r == if id in store.entries && store.entries[id].ns == ns && store.entries[id].refCount != 0
                   then Ok(store.entries[id]) else Err(NotFound)
    {
      r := store.GetEntry(ns, id);
      if r.Ok? && r.value.refCount == 0 {
        return Err(NotFound);
      }
    }

    method NamespaceRoot(ns: string) returns (r: Result<int>)
      requires Valid()
      ensures r == match Resolve(store.rows, ns, []) case Some(g) => Ok(g) case None => Err(NotFound)
    {
      r := store.FindEntry(ns, ROOT_ID, ns);
      if r.Err? {
        return;
      }
      var k := Key(ns, ROOT_ID, ns);
      assert GoodRow(store.entries, store.rows, depth, k);
      var en := store.GetEntry(ns, r.value);
      if en.Err? {
        return Err(NotFound);
      }
    }

    /** One step of a walk: the length check, the lookup and the fetch of the entry. */
    method Descend(ns: string, parent: int, name: string, ghost up: seq<string>) returns (r: Result<int>)
      requires Valid() && Resolve(store.rows, ns, up) == Some(parent)
      modifies this`cache
      ensures Valid()
      ensures match r case Ok(c) => Resolve(store.rows, ns, up + [name]) == Some(c)
                      case Err(_) => Resolve(store.rows, ns, up + [name]) == None
    {
      ghost var cs := up + [name];
      ResolveChild(store.rows, ns, up, name);
      if |name| > FILE_NAME_MAX_LENGTH {
        LongName(store.entries, store.rows, depth, ns, cs);
        return Err(NameTooLong);
      }
      r := FindEntry(ns, parent, name);
      if r.Ok? {
        ResolvedIsLive(store.entries, store.rows, depth, ns, cs);
        var en := GetEntry(ns, r.value);
        if en.Err? {
          return Err(NotFound);
        }
      }
    }

    /**
      GetEntryByPath: for every path, the walk through the cache finds what the rows say. The result
      is the parent and the entry.
     */
    method GetEntryByPath(ns: string, path: string) returns (r: Result<(int, int)>)
      requires Valid()
      modifies this`cache
      ensures Valid()
      ensures var cs := Parts(path);
              && (r.Ok? <==> At(store.rows, ns, path).Some?)
              && (r.Ok? ==>
                    && r.value.1 == At(store.rows, ns, path).value
                    && Some(r.value.0) == Resolve(store.rows, ns, if cs == [] then [] else cs[..|cs| - 1]))
    {
      var root := NamespaceRoot(ns);
      if root.Err? {
        NotBeyond(store.rows, ns, Parts(path), []);
        return Err(root.error);
      }
      if path == "/" {
        PartsOfUri([]);
        return Ok((root.value, root.value));
      }
      r := Walk(ns, Split(path), root.value);
    }

    /** The loop of GetEntryByPath. */
    method Walk(ns: string, entries: seq<string>, root: int) returns (r: Result<(int, int)>)
      requires Valid() && Resolve(store.rows, ns, []) == Some(root)
      modifies this`cache
      ensures Valid()
      ensures var cs := NonEmpty(entries);
              && (r.Ok? <==> cs != [] && Resolve(store.rows, ns, cs).Some?)
              && (r.Ok? ==>
                    && Some(r.value.1) == Resolve(store.rows, ns, cs)
                    && Some(r.value.0) == Resolve(store.rows, ns, cs[..|cs| - 1]))
    {
      var parent, crt := root, None;
      ghost var done := [];
      WalkStarts(store.rows, ns, entries, root);
      for i := 0 to |entries|
        invariant Valid() && WalkedTo(store.rows, ns, entries, i, done, parent, crt)
      {
        var failed;
        failed, parent, crt, done := Advance(ns, entries, i, parent, crt, done);
        if failed.Some? {
          return Err(failed.value);
        }
      }
      WalkEnds(store.rows, ns, entries, done, parent, crt);
      if crt.None? {
        return Err(NotFound);
      }
      return Ok((parent, crt.value));
    }

    /** One turn of that loop. */
    method Advance(ns: string, entries: seq<string>, i: nat, before: int, crt: Option<int>, ghost done: seq<string>)
      returns (failed: Option<Error>, parent: int, next: Option<int>, ghost more: seq<string>)
      requires Valid() && i < |entries| && WalkedTo(store.rows, ns, entries, i, done, before, crt)
      modifies this`cache
      ensures Valid()
      ensures failed.None? ==> WalkedTo(store.rows, ns, entries, i + 1, more, parent, next)
      ensures failed.Some? ==> Resolve(store.rows, ns, NonEmpty(entries)).None?
    {
      NextPart(entries, i, done, NonEmpty(entries));
      if entries[i] == "" {
        return None, before, crt, done;
      }
      parent := if crt.Some? then crt.value else before;
      more := done + [entries[i]];
      assert more[..|done|] == done;
      var child := Descend(ns, parent, entries[i], done);
      if child.Err? {
        NotBeyond(store.rows, ns, NonEmpty(entries), more);
        return Some(child.error), parent, None, more;
      }
      return None, parent, Some(child.value), more;
    }

    /** GetEntryByPath of the clean URI of a list of names. */
    method Lookup(ns: string, uri: string, ghost cs: seq<string>) returns (r: Result<(int, int)>)
      requires Valid() && ValidNames(cs) && uri == Uri(cs)
      modifies this`cache
      ensures Valid()
      ensures r.Ok? <==> Resolve(store.rows, ns, cs).Some?
      ensures r.Ok? ==> Some(r.value.1) == Resolve(store.rows, ns, cs) && r.value.1 in store.entries
      ensures r.Ok? ==> Some(r.value.0) == Resolve(store.rows, ns, if cs == [] then [] else cs[..|cs| - 1])
    {
      PartsOfUri(cs);
      r := GetEntryByPath(ns, uri);
      if r.Ok? {
        ResolvedIsLive(store.entries, store.rows, depth, ns, cs);
      }
    }

    // -------------------------------------------------------------------------------------------
    // Create and hard link
    // -------------------------------------------------------------------------------------------

    /**
      CreateEntry. The code tests neither that the parent is a group nor that the name is one; the tables
      stay well formed when both are so, and only then (`CreateKeepsTreeIff`).
     */
    method CreateEntry(ns: string, parentURI: string, name: string, isGroup: bool, id: int) returns (r: Result<()>)
      requires Valid() && id != 0
      modifies this, store
      ensures r.Err? || (IsGroupAt(old(store.entries), old(store.rows), ns, Parts(parentURI)) && ValidName(name)) ==> Valid()
      ensures Coherent(cache, store.rows)
      ensures var parent := At(old(store.rows), ns, parentURI);
              && (r.Ok? <==>
                    && parent.Some? && |name| <= FILE_NAME_MAX_LENGTH && id !in old(store.entries)
                    && Key(ns, parent.value, name) !in old(store.rows))
              && (r.Ok? ==>
                    && store.rows == old(store.rows)[Key(ns, parent.value, name) := Row(id, isGroup)]
                    && SameKinds(old(store.entries), store.entries)
                    && store.entries.Keys == old(store.entries).Keys + {id}
                    && store.entries[id].isGroup == isGroup && store.entries[id].ns == ns
                    && Wrote(old(store.entries)[id := Entry(ns, name, isGroup, if isGroup then 2 else 1, 1)], store.entries,
                             multiset{parent.value}))
      ensures r.Err? ==> store.rows == old(store.rows) && store.entries == old(store.entries)
    {
      var at := GetEntryByPath(ns, parentURI);
      if at.Err? {
        return Err(at.error);
      }
      ghost var cs := Parts(parentURI);
      ResolvedIsLive(store.entries, store.rows, depth, ns, cs);
      var parent := at.value.1;
      var existed := store.FindEntry(ns, parent, name);
      if existed.Ok? {
        return Err(IsExist);
      }
      if |name| > FILE_NAME_MAX_LENGTH {
        return Err(NameTooLong);
      }
      ghost var entries, rows := store.entries, store.rows;
      var entry := Entry(ns, name, isGroup, if isGroup then 2 else 1, 1);
      ResolvedRow(entries, rows, depth, ns, cs);
      r := store.CreateEntry(ns, parent, id, entry);
      if r.Ok? && entries[parent].isGroup && ValidName(name) {
        CreateKeepsShape(entries, rows, depth, ns, parent, id, entry, store.entries, store.rows);
        CreateKeepsCount(entries, rows, depth, ns, parent, id, entry, store.entries, store.rows);
        depth := AddDepth(depth, parent, id, isGroup);
      }
    }

    /** MirrorEntry. The given name is not checked (`MirrorKeepsTreeIff`). */
    method MirrorEntry(ns: string, srcURI: string, dstParentURI: string, attrName: string) returns (r: Result<()>)
      requires Valid()
      modifies this, store
      ensures r.Err? || attrName == "" || ValidName(attrName) ==> Valid()
      ensures Coherent(cache, store.rows) && depth == old(depth)
      ensures SameKinds(old(store.entries), store.entries) && store.entries.Keys == old(store.entries).Keys
      ensures var cs := Parts(srcURI);
              var name := if attrName != "" || cs == [] then attrName else cs[|cs| - 1];
              var after := Mirrored(old(store.entries), old(store.rows), ns, srcURI, dstParentURI, name);
              (r.Ok? <==> after.Some?) && (r.Ok? ==> store.rows == after.value)
      ensures r.Ok? ==>
                var src, dst := At(old(store.rows), ns, srcURI), At(old(store.rows), ns, dstParentURI);
                src.Some? && dst.Some? && Wrote(old(store.entries), store.entries, multiset{src.value, dst.value})
      ensures r.Err? ==> store.rows == old(store.rows) && store.entries == old(store.entries)
    {
      ghost var entries, rows := store.entries, store.rows;
      var at := GetEntryByPath(ns, srcURI);
      if at.Err? {
        return Err(at.error);
      }
      var src := at.value.1;
      ghost var cs, ds := Parts(srcURI), Parts(dstParentURI);
      assert src in entries && entries[src].ns == ns && (cs == [] ==> entries[src].isGroup) by {
        ResolvedRow(entries, rows, depth, ns, cs);
      }
      if store.entries[src].isGroup {
        return Err(IsGroup);
      }
      at := GetEntryByPath(ns, dstParentURI);
      if at.Err? {
        return Err(at.error);
      }
      var dstParent := at.value.1;
      assert dstParent in entries && dstParent != ROOT_ID && entries[dstParent].ns == ns && Linked(rows, dstParent) by {
        ResolvedRow(entries, rows, depth, ns, ds);
      }
      if !store.entries[dstParent].isGroup {
        return Err(NoGroup);
      }
      ResolvedNames(entries, rows, depth, ns, cs);
      var name := attrName;
      if attrName == "" {
        name := LastName(srcURI);
      }
      r := Link(ns, src, dstParent, name);
    }

    static method LastName(uri: string) returns (name: string)
      requires Parts(uri) != []
      ensures name == Parts(uri)[|Parts(uri)| - 1]
    {
      BaseIsLast(uri);
      name := Base(uri);
    }

    /** The end of MirrorEntry: the transaction. */
    method Link(ns: string, src: int, dstParent: int, name: string) returns (r: Result<()>)
      requires Valid()
      requires src in store.entries && !store.entries[src].isGroup && store.entries[src].ns == ns
      requires dstParent != ROOT_ID && dstParent in store.entries && store.entries[dstParent].isGroup
      requires store.entries[dstParent].ns == ns && Linked(store.rows, dstParent)
      modifies store
      ensures r.Err? || ValidName(name) ==> Valid()
      ensures Coherent(cache, store.rows)
      ensures r.Ok? <==> Key(ns, dstParent, name) !in old(store.rows)
      ensures r.Ok? ==>
              && store.rows == old(store.rows)[Key(ns, dstParent, name) := Row(src, false)]
              && SameKinds(old(store.entries), store.entries) && store.entries.Keys == old(store.entries).Keys
              && Wrote(old(store.entries), store.entries, multiset{src, dstParent})
      ensures r.Err? ==> store.rows == old(store.rows) && store.entries == old(store.entries)
    {
      ghost var entries, rows := store.entries, store.rows;
      r := store.MirrorEntry(ns, src, name, dstParent);
      if r.Ok? && ValidName(name) {
        MirrorKeepsShape(entries, rows, depth, ns, dstParent, src, name, store.entries, store.rows);
        MirrorKeepsCount(entries, rows, ns, dstParent, src, name, store.entries, store.rows);
      }
    }

    // -------------------------------------------------------------------------------------------
    // Remove
    // -------------------------------------------------------------------------------------------

    ghost function Bound(): nat
      reads this
    {
      MaxOf(depth.Values)
    }

    /**
      RemoveEntry. On success exactly the rows at and below the path are gone; link counts follow, since
      the tables stay well formed. With `deleteAll` every entry can be removed, however deep, unless the
      code misses its parent: it takes a path that ends with a slash for its own parent, and then removes
      all that is below before it fails.
     */
    method RemoveEntry(ns: string, uri: string, deleteAll: bool) returns (r: Result<()>)
      requires Valid()
      modifies this, store
      ensures Valid() && depth == old(depth)
      ensures SameKinds(old(store.entries), store.entries) && store.entries.Keys == old(store.entries).Keys
      ensures r.Ok? <==> Removable(old(store.rows), ns, uri, deleteAll) && ParentSeen(uri)
      ensures r.Ok? ==> store.rows == Pruned(old(store.entries), old(store.rows), old(depth), ns, Parts(uri))
      ensures r.Err? && !(Removable(old(store.rows), ns, uri, deleteAll) && Trailing(uri)) ==>
                store.rows == old(store.rows) && store.entries == old(store.entries)
      ensures r.Err? && Removable(old(store.rows), ns, uri, deleteAll) && Trailing(uri) ==>
                store.rows == Emptied(old(store.entries), old(store.rows), old(depth), ns, Parts(uri))
      decreases Bound() + 1 - |Parts(uri)|
    {
      ghost var entries, rows, cs := store.entries, store.rows, Parts(uri);
      if uri == "/" {
        return Err(Unsupported);
      }
      var at := GetEntryByPath(ns, uri);
      if at.Err? {
        return Err(at.error);
      }
      var target := at.value.1;
      ResolvedNames(entries, rows, depth, ns, cs);
      DirNames(uri);
      at := GetEntryByPath(ns, Dir(uri));
      ParentFound(entries, rows, depth, ns, uri);
      if at.Err? {
        return Err(at.error);
      }
      r := RemoveAt(ns, uri, deleteAll, at.value.1, target);
    }

    /** RemoveEntry once the target, and what the code takes for its parent, are found. */
    method RemoveAt(ns: string, uri: string, deleteAll: bool, parent: int, target: int) returns (r: Result<()>)
      requires Valid() && Parts(uri) != [] && ValidNames(Parts(uri)) && Resolve(store.rows, ns, Parts(uri)) == Some(target)
      requires if Trailing(uri) then parent == target
               else ParentSeen(uri) && Resolve(store.rows, ns, Parts(uri)[..|Parts(uri)| - 1]) == Some(parent)
      modifies this, store
      ensures Valid() && depth == old(depth)
      ensures SameKinds(old(store.entries), store.entries) && store.entries.Keys == old(store.entries).Keys
      ensures r.Ok? <==> (deleteAll || Childless(old(store.rows), ns, target)) && !Trailing(uri)
      ensures r.Ok? ==> store.rows == Pruned(old(store.entries), old(store.rows), old(depth), ns, Parts(uri))
      ensures r.Err? && !deleteAll && !Childless(old(store.rows), ns, target) ==>
                store.rows == old(store.rows) && store.entries == old(store.entries)
      ensures r.Err? && (deleteAll || Childless(old(store.rows), ns, target)) ==>
                store.rows == Emptied(old(store.entries), old(store.rows), old(depth), ns, Parts(uri))
      decreases Bound() + 1 - |Parts(uri)|, 1
    {
      ghost var entries, rows, cs := store.entries, store.rows, Parts(uri);
      ResolvedRow(entries, rows, depth, ns, cs);
      ResolvedRow(entries, rows, depth, ns, cs[..|cs| - 1]);
      ghost var names := [];
      if store.entries[target].isGroup {
        var children := store.ListChildren(ns, target);
        names := children;
        if |children| > 0 && !deleteAll {
          assert Key(ns, target, children[0]) in rows;
          return Err(NotEmpty);
        }
        DepthBound(entries, rows, depth, ns, cs, target);
        r := RemoveChildren(ns, uri, children, target);
      } else {
        NoChildren(entries, rows, depth, ns, target);
        PruneNone(entries, rows, depth, ns, cs);
      }
      PruneTop(entries, rows, depth, ns, cs, names, target);
      var name := LastName(uri);
      r := Unlink(ns, parent, target, name);
    }

    /** The loop of RemoveEntry over the children it listed. */
    method RemoveChildren(ns: string, uri: string, children: seq<string>, ghost target: int) returns (r: Result<()>)
      requires Valid() && Parts(uri) != [] && ValidNames(Parts(uri)) && Resolve(store.rows, ns, Parts(uri)) == Some(target)
      requires forall n :: n in children ==> Key(ns, target, n) in store.rows
      requires forall i, j :: 0 <= i < j < |children| ==> children[i] != children[j]
      requires |Parts(uri)| < Bound()
      modifies this, store
      ensures Valid() && depth == old(depth) && r.Ok?
      ensures SameKinds(old(store.entries), store.entries) && store.entries.Keys == old(store.entries).Keys
      ensures store.rows == PrunedSome(old(store.entries), old(store.rows), old(depth), ns, Parts(uri), children)
      decreases Bound() + 1 - |Parts(uri)|, 0
    {
      ghost var entries, rows, cs := store.entries, store.rows, Parts(uri);
      PruneNone(entries, rows, depth, ns, cs);
      r := Ok(());
      for i := 0 to |children|
        invariant Valid() && depth == old(depth) && r.Ok?
        invariant SameKinds(entries, store.entries) && store.entries.Keys == entries.Keys
        invariant store.rows == PrunedSome(entries, rows, depth, ns, cs, children[..i])
      {
        NextChild(entries, rows, store.entries, store.rows, depth, ns, uri, children, i, target);
        r := RemoveEntry(ns, Join(uri, children[i]), true);
        if r.Err? {
          return;
        }
      }
      assert children[..|children|] == children;
    }

    /** The end of RemoveEntry: the transaction, and the cached child forgotten. */
    method Unlink(ns: string, parent: int, target: int, name: string) returns (r: Result<()>)
      requires Valid() && parent != ROOT_ID
      modifies this, store
      ensures Valid() && depth == old(depth)
      ensures SameKinds(old(store.entries), store.entries) && store.entries.Keys == old(store.entries).Keys
      ensures r.Ok? <==> CanRemove(old(store.entries), old(store.rows), ns, parent, target, name)
      ensures r.Ok? ==>
              && store.rows == old(store.rows) - {Key(ns, parent, name)}
              && Wrote(old(store.entries), store.entries, multiset{parent, target})
      ensures r.Err? ==> store.rows == old(store.rows) && store.entries == old(store.entries)
    {
      if CanRemove(store.entries, store.rows, ns, parent, target, name) {
        RemoveKeepsShape(store.entries, store.rows, depth, ns, parent, target, name,
                         AfterRemove(store.entries, parent, target), store.rows - {Key(ns, parent, name)});
        RemoveKeepsCount(store.entries, store.rows, depth, ns, parent, target, name,
                         AfterRemove(store.entries, parent, target), store.rows - {Key(ns, parent, name)});
      }
      r := store.RemoveEntry(ns, parent, target, name);
      if r.Ok? {
        cache := cache - {Key(ns, parent, name)};
      }
    }

    // -------------------------------------------------------------------------------------------
    // Rename
    // -------------------------------------------------------------------------------------------

    /** The end of ChangeEntryParent: the transaction, and the cached child forgotten. */
    method Move(mv: Rename, ghost cs: seq<string>, ghost ps: seq<string>) returns (r: Result<()>)
      requires Valid() && Between(store.rows, mv, cs, ps) && mv.newName != "" && mv.NewKey() !in store.rows
      modifies this, store
      ensures !(cs <= ps) && IsGroupAt(old(store.entries), old(store.rows), mv.ns, ps) && ValidName(mv.newName) ==> Valid()
      ensures Coherent(cache, store.rows) && r.Ok?
      ensures SameKinds(old(store.entries), store.entries) && store.entries.Keys == old(store.entries).Keys
      ensures store.rows == AfterMoveRows(old(store.rows), mv)
      ensures mv.target in old(store.entries)
      ensures Wrote(WithName(old(store.entries), mv.target, mv.newName), store.entries, MoveWrites(old(store.entries), mv))
    {
      ghost var entries, rows := store.entries, store.rows;
      RenameRuns(entries, rows, depth, mv, cs, ps);
      AfterMoveKinds(entries, mv);
      r := store.ChangeEntryParent(mv.ns, mv.target, mv.oldParent, mv.newParent, mv.oldName, mv.newName);
      depth := MoveDepths(entries, rows, depth, mv, cs, ps);
      cache := cache - {mv.OldKey()};
    }

    /**
      ChangeEntryParent. The prefix test on the URIs is the descendant test, so a rename that passes it
      keeps the groups a tree, unless the new parent is a file or the target itself, which it lets through
      (`RenameKeepsTreeIff`). Nor is the new name checked.
     */
    method ChangeEntryParent(ns: string, targetURI: string, newParentURI: string, attrName: string, replace: bool, exchange: bool,
                             ghost cs: seq<string>, ghost ps: seq<string>)
      returns (r: Result<()>)
      requires Valid() && ValidNames(cs) && targetURI == Uri(cs) && ValidNames(ps) && newParentURI == Uri(ps)
      modifies this, store
      ensures r.Err? || SafeRename(old(store.entries), old(store.rows), ns, cs, ps, attrName) ==> Valid()
      ensures Coherent(cache, store.rows)
      ensures SameKinds(old(store.entries), store.entries) && store.entries.Keys == old(store.entries).Keys
      ensures var after := Renamed(old(store.entries), old(store.rows), ns, cs, ps, attrName, replace, exchange);
              (r.Ok? <==> after.Some?) && (r.Ok? ==> store.rows == after.value)
      ensures r.Ok? ==>
                var newName := if attrName == "" then cs[|cs| - 1] else attrName;
                if newName == cs[|cs| - 1] && cs[..|cs| - 1] == ps then store.entries == old(store.entries)
                else NameIs(store.entries, Resolve(old(store.rows), ns, cs), newName)
      ensures r.Err? ==> store.rows == old(store.rows) && store.entries == old(store.entries)
    {
      if targetURI == "/" {
        UriInjective(cs, []);
        return Err(Unsupported);
      }
      ghost var entries, rows := store.entries, store.rows;
      var oldParentURI, oldName := Dir(targetURI), Base(targetURI);
      assert oldName == cs[|cs| - 1] && (oldParentURI == newParentURI <==> cs[..|cs| - 1] == ps) by {
        LastPart(cs);
        UriInjective(cs[..|cs| - 1], ps);
      }
      var newName := if attrName == "" then oldName else attrName;
      if oldName == newName && oldParentURI == newParentURI {
        return Ok(());
      }
      r := RenameTo(ns, targetURI, newParentURI, oldName, newName, replace, exchange, cs, ps);
    }

    /** ChangeEntryParent past its test for a rename to the same place. */
    method RenameTo(ns: string, targetURI: string, newParentURI: string, oldName: string, newName: string,
                    replace: bool, exchange: bool, ghost cs: seq<string>, ghost ps: seq<string>)
      returns (r: Result<()>)
      requires Valid() && ValidNames(cs) && targetURI == Uri(cs) && ValidNames(ps) && newParentURI == Uri(ps)
      requires newName != ""
      requires cs != [] && oldName == cs[|cs| - 1] && !(oldName == newName && cs[..|cs| - 1] == ps)
      modifies this, store
      ensures r.Err? || SafeRename(old(store.entries), old(store.rows), ns, cs, ps, newName) ==> Valid()
      ensures Coherent(cache, store.rows)
      ensures SameKinds(old(store.entries), store.entries) && store.entries.Keys == old(store.entries).Keys
      ensures var after := RenamedTo(old(store.entries), old(store.rows), ns, cs, ps, newName, replace, exchange);
              (r.Ok? <==> after.Some?) && (r.Ok? ==> store.rows == after.value)
      ensures r.Ok? ==> NameIs(store.entries, Resolve(old(store.rows), ns, cs), newName)
      ensures r.Err? ==> store.rows == old(store.rows) && store.entries == old(store.entries)
    {
      var at := Lookup(ns, targetURI, cs);
      if at.Err? {
        return Err(at.error);
      }
      var oldParent, target := at.value.0, at.value.1;
      at := Lookup(ns, newParentURI, ps);
      if at.Err? {
        return Err(at.error);
      }
      var newParent := at.value.1;
      assert HasPrefix(newParentURI, targetURI + "/") <==> cs < ps by {
        PrefixIsDescendant(ps, cs);
      }
      if store.entries[target].isGroup && HasPrefix(newParentURI, targetURI + "/") {
        return Err(Descendant);
      }
      r := Relocate(ns, newParentURI, target, oldParent, newParent, oldName, newName, replace, exchange, cs, ps);
    }

    /** ChangeEntryParent after its tests on names and URIs. */
    method Relocate(ns: string, newParentURI: string, target: int, oldParent: int, newParent: int, oldName: string, newName: string,
                    replace: bool, exchange: bool, ghost cs: seq<string>, ghost ps: seq<string>)
      returns (r: Result<()>)
      requires Valid() && ValidNames(ps) && newParentURI == Uri(ps) && newName != ""
      requires Between(store.rows, Rename(ns, target, oldParent, newParent, oldName, newName), cs, ps) && target in store.entries
      requires !(cs[|cs| - 1] == newName && cs[..|cs| - 1] == ps)
      requires store.entries[target].isGroup ==> !(cs < ps)
      modifies this, store
      ensures r.Err? || SafeRename(old(store.entries), old(store.rows), ns, cs, ps, newName) ==> Valid()
      ensures Coherent(cache, store.rows)
      ensures SameKinds(old(store.entries), store.entries) && store.entries.Keys == old(store.entries).Keys
      ensures var after := Replaced(old(store.rows), ns, Key(ns, oldParent, oldName), Key(ns, newParent, newName), replace, exchange);
              (r.Ok? <==> after.Some?) && (r.Ok? ==> store.rows == after.value)
      ensures r.Ok? ==> store.entries[target].name == newName
      ensures r.Err? ==> store.rows == old(store.rows) && store.entries == old(store.entries)
    {
      ghost var entries, rows := store.entries, store.rows;
      ResolvedRow(entries, rows, depth, ns, cs);
      if cs != ps { TargetOutside(entries, rows, depth, ns, cs, ps, target, newParent); }
      KeysDiffer(entries, rows, depth, ns, cs, ps, newParent, newName);
      r := ClearWay(ns, newParentURI, newParent, newName, replace, exchange, cs, ps);
      if r.Err? {
        return;
      }
      ghost var named := WithName(store.entries, target, newName);
      r := Move(Rename(ns, target, oldParent, newParent, oldName, newName), cs, ps);
      assert named[target].name == newName;
    }

    /** The part of ChangeEntryParent that deals with an entry at the new place. */
    method ClearWay(ns: string, newParentURI: string, newParent: int, newName: string, replace: bool, exchange: bool,
                    ghost cs: seq<string>, ghost ps: seq<string>)
      returns (r: Result<()>)
      requires Valid() && ValidNames(ps) && newParentURI == Uri(ps)
      requires Resolve(store.rows, ns, ps) == Some(newParent) && Resolve(store.rows, ns, cs).Some?
      requires LastKey(store.rows, ns, cs) != Key(ns, newParent, newName)
      modifies this, store
      ensures Valid() && depth == old(depth)
      ensures SameKinds(old(store.entries), store.entries) && store.entries.Keys == old(store.entries).Keys
      ensures r.Err? <==> InTheWay(old(store.rows), ns, Key(ns, newParent, newName), replace, exchange)
      ensures r.Err? ==> store.rows == old(store.rows) && store.entries == old(store.entries)
      ensures r.Ok? ==>
              && store.rows == old(store.rows) - {Key(ns, newParent, newName)}
              && Resolve(store.rows, ns, ps) == Some(newParent)
              && Resolve(store.rows, ns, cs) == Resolve(old(store.rows), ns, cs)
              && LastKey(store.rows, ns, cs) == LastKey(old(store.rows), ns, cs)
    {
      ghost var entries, rows := store.entries, store.rows;
      var exist := store.FindEntry(ns, newParent, newName);
      if exist.Err? {
        return Ok(());
      }
      ExistingName(entries, rows, depth, ns, ps, newParent, newName);
      var children := store.ListChildren(ns, exist.value);
      if |children| > 0 {
        assert Key(ns, exist.value, children[0]) in ChildRows(rows, ns, exist.value);
        return Err(IsExist);
      }
      assert forall k :: k in ChildRows(rows, ns, exist.value) ==> Key(ns, exist.value, k.name) in rows;
      if !replace {
        return Err(IsExist);
      }
      if exchange {
        return Err(Unsupported);
      }
      r := Overwrite(ns, newParentURI, newParent, newName, ps);
      OverwriteKeepsPath(entries, rows, store.rows, depth, ns, cs, ps, newParent, newName, cs);
      OverwriteKeepsPath(entries, rows, store.rows, depth, ns, cs, ps, newParent, newName, ps);
    }

    /** The entry in the way of a rename, a file or an empty group, is removed. */
    method Overwrite(ns: string, newParentURI: string, ghost newParent: int, newName: string, ghost ps: seq<string>)
      returns (r: Result<()>)
      requires Valid() && ValidNames(ps) && newParentURI == Uri(ps) && Resolve(store.rows, ns, ps) == Some(newParent)
      requires Key(ns, newParent, newName) in store.rows && ValidName(newName)
      requires ChildRows(store.rows, ns, store.rows[Key(ns, newParent, newName)].child) == {}
      modifies this, store
      ensures Valid() && depth == old(depth) && r.Ok?
      ensures SameKinds(old(store.entries), store.entries) && store.entries.Keys == old(store.entries).Keys
      ensures store.rows == old(store.rows) - {Key(ns, newParent, newName)}
    {
      ghost var entries, rows, top := store.entries, store.rows, ps + [newName];
      ResolveChild(rows, ns, ps, newName);
      UriParts(ps, newName);
      UriShape(top);
      UriInjective(top, []);
      ghost var e := rows[Key(ns, newParent, newName)].child;
      assert forall n :: Key(ns, e, n) in rows ==> Key(ns, e, n) in ChildRows(rows, ns, e);
      PruneNone(entries, rows, depth, ns, top);
      PruneTop(entries, rows, depth, ns, top, [], e);
      r := RemoveEntry(ns, Join(newParentURI, newName), false);
    }

    // -------------------------------------------------------------------------------------------
    // Namespaces
    // -------------------------------------------------------------------------------------------

    /** CreateNamespace: a root group for the namespace, with its two built-in groups. */
    method CreateNamespace(ns: string, rootId: int, inboxId: int, fridayId: int) returns (r: Result<()>)
      requires Valid() && rootId != 0 && inboxId != 0 && fridayId != 0
      modifies this, store
      ensures Valid() && SameKinds(old(store.entries), store.entries) && SubRows(old(store.rows), store.rows)
      ensures r.Ok? <==> Resolve(old(store.rows), ns, []).Some? || Unused3(old(store.entries), rootId, inboxId, fridayId)
      ensures r.Ok? ==> store.rows == if Resolve(old(store.rows), ns, []).Some? then old(store.rows)
                                      else WithNamespace(old(store.rows), ns, rootId, inboxId, fridayId)
    {
      var existing := NamespaceRoot(ns);
      if existing.Ok? {
        return Ok(());
      }
      r := CreateRoot(ns, rootId);
      if r.Err? {
        return;
      }
      r := CreateBuiltIn(ns, rootId, inboxId, fridayId);
    }

    /** The root group of a namespace that has none. */
    method CreateRoot(ns: string, rootId: int) returns (r: Result<()>)
      requires Valid() && rootId != 0 && Resolve(store.rows, ns, []).None?
      modifies this, store
      ensures Valid() && SameKinds(old(store.entries), store.entries) && SubRows(old(store.rows), store.rows)
      ensures r.Ok? <==> rootId !in old(store.entries)
      ensures r.Ok? ==>
              && Resolve(store.rows, ns, []) == Some(rootId) && IsGroupAt(store.entries, store.rows, ns, [])
              && Childless(store.rows, ns, rootId) && store.entries.Keys == old(store.entries).Keys + {rootId}
              && store.rows == old(store.rows)[Key(ns, ROOT_ID, ns) := Row(rootId, true)]
              && Wrote(old(store.entries)[rootId := Entry(ns, ns, true, 2, 1)], store.entries, multiset{ROOT_ID})
    {
      ghost var entries, rows := store.entries, store.rows;
      var nsRoot := Entry(ns, ns, true, 2, 1);
      r := store.CreateEntry(ns, ROOT_ID, rootId, nsRoot);
      if r.Ok? {
        CreateKeepsShape(entries, rows, depth, ns, ROOT_ID, rootId, nsRoot, store.entries, store.rows);
        CreateKeepsCount(entries, rows, depth, ns, ROOT_ID, rootId, nsRoot, store.entries, store.rows);
        forall k | k in rows ensures k.parent != rootId {
          assert GoodRow(entries, rows, depth, k);
        }
        depth := AddDepth(depth, ROOT_ID, rootId, true);
      }
    }

    /** A group in the root group of a namespace. */
    method CreateInRoot(ns: string, rootId: int, name: string, id: int) returns (r: Result<()>)
      requires Valid() && id != 0 && ValidName(name) && |name| <= FILE_NAME_MAX_LENGTH
      requires Resolve(store.rows, ns, []) == Some(rootId) && IsGroupAt(store.entries, store.rows, ns, [])
      modifies this, store
      ensures Valid() && SameKinds(old(store.entries), store.entries) && SubRows(old(store.rows), store.rows)
      ensures r.Ok? <==> id !in old(store.entries) && Key(ns, rootId, name) !in old(store.rows)
      ensures r.Ok? ==>
              && store.rows == old(store.rows)[Key(ns, rootId, name) := Row(id, true)]
              && store.entries.Keys == old(store.entries).Keys + {id}
              && Resolve(store.rows, ns, []) == Some(rootId) && IsGroupAt(store.entries, store.rows, ns, [])
    {
      UriShape([]);
      ghost var rows := store.rows;
      r := CreateEntry(ns, "/", name, true, id);
      if r.Ok? { ResolveMore(rows, store.rows, ns, []); }
    }

    method CreateBuiltIn(ns: string, rootId: int, inboxId: int, fridayId: int) returns (r: Result<()>)
      requires Valid() && inboxId != 0 && fridayId != 0 && Childless(store.rows, ns, rootId)
      requires Resolve(store.rows, ns, []) == Some(rootId) && IsGroupAt(store.entries, store.rows, ns, [])
      modifies this, store
      ensures Valid() && SameKinds(old(store.entries), store.entries) && SubRows(old(store.rows), store.rows)
      ensures r.Ok? <==> inboxId !in old(store.entries) && fridayId !in old(store.entries) && inboxId != fridayId
      ensures r.Ok? ==>
              store.rows == old(store.rows)[Key(ns, rootId, ".inbox") := Row(inboxId, true)][Key(ns, rootId, ".friday") := Row(fridayId, true)]
    {
      r := CreateInRoot(ns, rootId, ".inbox", inboxId);
      if r.Ok? {
        r := CreateInRoot(ns, rootId, ".friday", fridayId);
      }
    }

    // -------------------------------------------------------------------------------------------
    // The path of an entry
    // -------------------------------------------------------------------------------------------

    /**
      ProbableEntryPath (pkg/core/fs.go): whichever row is chosen where an entry has several, the walk up
      ends, and the path it prints leads back to the entry.
     */
    method ProbableEntryPath(ns: string, en: int) returns (r: Result<string>)
      requires Valid() && en in store.entries && store.entries[en].ns == ns && en != ROOT_ID
      ensures Linked(store.rows, en) ==> r.Ok? && Clean(r.value) && Resolve(store.rows, ns, Parts(r.value)) == Some(en)
      ensures !Linked(store.rows, en) ==> r.Ok? ==> r.value == "/"
    {
      var root := NamespaceRoot(ns);
      if root.Err? {
        if Linked(store.rows, en) { RootExists(store.entries, store.rows, depth, en); }
        return Err(root.error);
      }
      var crt, parts := en, [];
      while crt != root.value
        invariant crt in store.entries && store.entries[crt].ns == ns && crt != ROOT_ID
        invariant Linked(store.rows, en) <==> Linked(store.rows, crt)
        invariant !Linked(store.rows, en) ==> parts == []
        invariant ValidNames(Reversed(parts)) && Descent(store.rows, ns, crt, Reversed(parts)) == Some(en)
        decreases Level(store.entries, depth, crt)
      {
        var refs := set k | k in store.rows && store.rows[k].child == crt && k.ns == ns;
        if Linked(store.rows, crt) {
          assert GoodRow(store.entries, store.rows, depth, RowOf(store.rows, crt));
          assert RowOf(store.rows, crt) in refs;
        }
        if refs == {} {
          break;
        }
        var ref :| ref in refs;
        StepUp(store.entries, store.rows, depth, ns, root.value, crt, ref, parts, en);
        crt := ref.parent;
        parts := parts + [ref.name];
      }
      ghost var cs := Reversed(parts);
      if Linked(store.rows, en) {
        DescentFrom(store.rows, ns, [], crt, cs);
        assert [] + cs == cs;
      }
      JoinAllIsUri(cs);
      PartsOfUri(cs);
      r := Ok(JoinAll(Reversed(parts)));
    }
  }

  /** Three different ids that no entry has. */
  predicate Unused3(entries: Entries, a: int, b: int, c: int) {
    a !in entries && b !in entries && c !in entries && a != b && a != c && b != c
  }

  /** A namespace and its two built-in groups. */
  function WithNamespace(rows: Rows, ns: string, root: int, inbox: int, friday: int): Rows {
    rows[Key(ns, ROOT_ID, ns) := Row(root, true)]
        [Key(ns, root, ".inbox") := Row(inbox, true)][Key(ns, root, ".friday") := Row(friday, true)]
  }

  /** The entry reached from `p` along `cs`. */
  function Descent(rows: Rows, ns: string, p: int, cs: seq<string>): Option<int>
    decreases |cs|
  {
    if cs == [] then Some(p)
    else if Key(ns, p, cs[0]) in rows then Descent(rows, ns, rows[Key(ns, p, cs[0])].child, cs[1..])
    else None
  }

  lemma {:induction false} DescentFrom(rows: Rows, ns: string, up: seq<string>, p: int, cs: seq<string>)
    requires Resolve(rows, ns, up) == Some(p) && Descent(rows, ns, p, cs).Some?
    ensures Resolve(rows, ns, up + cs) == Descent(rows, ns, p, cs)
    decreases |cs|
  {
    if cs == [] {
      assert up + cs == up;
    } else {
      ResolveChild(rows, ns, up, cs[0]);
      assert up + cs == (up + [cs[0]]) + cs[1..];
      DescentFrom(rows, ns, up + [cs[0]], rows[Key(ns, p, cs[0])].child, cs[1..]);
    }
  }

  ghost function Level(entries: Entries, depth: Depths, e: int): nat {
    if e in entries && entries[e].isGroup && e in depth then depth[e] else MaxOf(depth.Values) + 1
  }

  lemma RootExists(entries: Entries, rows: Rows, depth: Depths, en: int)
    requires Shaped(entries, rows, depth) && en in entries && en != ROOT_ID && Linked(rows, en)
    ensures Resolve(rows, entries[en].ns, []).Some?
  {
    var k := RowOf(rows, en);
    assert GoodRow(entries, rows, depth, k);
    if k.parent != ROOT_ID {
      PathResolves(entries, rows, depth, k.parent);
      ResolvePrefix(rows, k.ns, PathOf(entries, rows, depth, k.parent), 0);
    }
  }

  lemma StepUp(entries: Entries, rows: Rows, depth: Depths, ns: string, root: int, crt: int, ref: Key, parts: seq<string>, en: int)
    requires Shaped(entries, rows, depth) && Resolve(rows, ns, []) == Some(root) && crt != root
    requires crt in entries && entries[crt].ns == ns
    requires ref in rows && rows[ref].child == crt && ref.ns == ns
    requires ValidNames(Reversed(parts)) && Descent(rows, ns, crt, Reversed(parts)) == Some(en)
    ensures ref.parent in entries && entries[ref.parent].ns == ns && ref.parent != ROOT_ID && Linked(rows, ref.parent)
    ensures Linked(rows, crt)
    ensures ValidNames(Reversed(parts + [ref.name]))
    ensures Descent(rows, ns, ref.parent, Reversed(parts + [ref.name])) == Some(en)
    ensures Level(entries, depth, ref.parent) < Level(entries, depth, crt)
  {
    assert GoodRow(entries, rows, depth, ref) && ref in RowsTo(rows, crt);
    var cs := Reversed(parts);
    ReversedSnoc(parts, ref.name);
    assert ([ref.name] + cs)[1..] == cs;
    MaxOfBounds(depth.Values, depth[ref.parent]);
  }

  /** The rows after a hard link, or None if it is refused: only files are linked, and only into groups. */
  ghost function Mirrored(entries: Entries, rows: Rows, ns: string, src: string, dst: string, name: string): Option<Rows> {
    match (At(rows, ns, src), At(rows, ns, dst))
    case (Some(src), Some(dst)) =>
      if src in entries && !entries[src].isGroup && dst in entries && entries[dst].isGroup && Key(ns, dst, name) !in rows
      then Some(rows[Key(ns, dst, name) := Row(src, false)]) else None
    case _ => None
  }

  /** The entry at the new place may not be replaced. */
  predicate InTheWay(rows: Rows, ns: string, l: Key, replace: bool, exchange: bool) {
    l in rows && (ChildRows(rows, ns, rows[l].child) != {} || !replace || exchange)
  }

  /** The rows after a rename, or None if it is refused; `cs` is the target's path and `ps` the new parent's. */
  ghost function Renamed(entries: Entries, rows: Rows, ns: string, cs: seq<string>, ps: seq<string>,
                         attrName: string, replace: bool, exchange: bool): Option<Rows>
  {
    if cs == [] then None
    else
      var up, oldName := cs[..|cs| - 1], cs[|cs| - 1];
      var newName := if attrName == "" then oldName else attrName;
      if oldName == newName && up == ps then Some(rows)
      else RenamedTo(entries, rows, ns, cs, ps, newName, replace, exchange)
  }

  ghost function RenamedTo(entries: Entries, rows: Rows, ns: string, cs: seq<string>, ps: seq<string>,
                           newName: string, replace: bool, exchange: bool): Option<Rows>
  {
    if Resolve(rows, ns, cs).None? || Resolve(rows, ns, ps).None? then None
    else
      var target, newParent := Resolve(rows, ns, cs).value, Resolve(rows, ns, ps).value;
      if target in entries && entries[target].isGroup && cs < ps then None
      else Replaced(rows, ns, LastKey(rows, ns, cs), Key(ns, newParent, newName), replace, exchange)
  }

  /** Row `k` moved to `l`, in place of what is there. */
  ghost function Replaced(rows: Rows, ns: string, k: Key, l: Key, replace: bool, exchange: bool): Option<Rows> {
    if k !in rows || InTheWay(rows, ns, l, replace, exchange) then None
    else Some((rows - {l} - {k})[l := rows[k]])
  }

  /** Past the prefix test, and with another new parent than the target, the target does not contain the new parent. */
  lemma TargetOutside(entries: Entries, rows: Rows, depth: Depths, ns: string, cs: seq<string>, ps: seq<string>,
                      target: int, newParent: int)
    requires Shaped(entries, rows, depth) && cs != ps
    requires Resolve(rows, ns, cs) == Some(target) && target in entries && Resolve(rows, ns, ps) == Some(newParent)
    requires entries[target].isGroup ==> !(cs < ps)
    ensures !(cs <= ps)
  {
    if cs < ps {
      var n := ps[|cs|];
      assert ps[..|cs| + 1] == cs + [n];
      ResolvePrefix(rows, ns, ps, |cs| + 1);
      ResolveChild(rows, ns, cs, n);
      ResolvedRow(entries, rows, depth, ns, cs + [n]);
    }
  }

  lemma KeysDiffer(entries: Entries, rows: Rows, depth: Depths, ns: string, cs: seq<string>, ps: seq<string>,
                   newParent: int, newName: string)
    requires Shaped(entries, rows, depth) && cs != [] && Resolve(rows, ns, cs).Some?
    requires Resolve(rows, ns, ps) == Some(newParent)
    requires !(cs[|cs| - 1] == newName && cs[..|cs| - 1] == ps)
    ensures LastKey(rows, ns, cs) != Key(ns, newParent, newName)
  {
    ResolvedRow(entries, rows, depth, ns, cs);
    var k := LastKey(rows, ns, cs);
    if k == Key(ns, newParent, newName) {
      PathIsOnly(entries, rows, depth, ns, ps, newParent);
      PathIsOnly(entries, rows, depth, ns, cs[..|cs| - 1], newParent);
    }
  }

  /** Removing what is in the way leaves the target and the new parent where they are. */
  lemma OverwriteKeepsPath(entries: Entries, rows: Rows, less: Rows, depth: Depths, ns: string, cs: seq<string>, ps: seq<string>,
                           newParent: int, newName: string, d: seq<string>)
    requires Shaped(entries, rows, depth) && Resolve(rows, ns, ps) == Some(newParent) && Resolve(rows, ns, cs).Some?
    requires Key(ns, newParent, newName) in rows && less == rows - {Key(ns, newParent, newName)}
    requires ChildRows(rows, ns, rows[Key(ns, newParent, newName)].child) == {}
    requires LastKey(rows, ns, cs) != Key(ns, newParent, newName)
    requires d == cs || d == ps
    ensures Resolve(less, ns, d) == Resolve(rows, ns, d) && LastKey(less, ns, d) == LastKey(rows, ns, d)
  {
    var l := Key(ns, newParent, newName);
    forall m | 0 <= m <= |d| && Resolve(rows, ns, d[..m]).Some? ensures LastKey(rows, ns, d[..m]) in less {
      ResolvedRow(entries, rows, depth, ns, d[..m]);
      var e := rows[LastKey(rows, ns, d[..m])].child;
      if m < |d| {
        ResolvePrefix(rows, ns, d, m + 1);
        assert d[..m + 1][..m] == d[..m];
        assert Key(ns, e, d[m]) in ChildRows(rows, ns, e);
      } else {
        assert d[..m] == d;
      }
    }
    ResolveStays(less, rows, ns, d);
    if d != [] { ResolveMore(less, rows, ns, d[..|d| - 1]); }
  }

  /**
    A new parent equal to the target passes the prefix test, and no depths fit the rows it leaves: the
    group is then its own parent and no path leads to it. The link counts do not show it: they stay right.
   */
  lemma SelfMoveBreaks(entries: Entries, rows: Rows, depth: Depths, mv: Rename, cs: seq<string>, rows': Rows)
    requires Shaped(entries, rows, depth) && ValidNames(cs) && Between(rows, mv, cs, cs) && mv.NewKey() !in rows
    requires mv.target in entries && entries[mv.target].isGroup && mv.OldKey() in rows && rows' == AfterMoveRows(rows, mv)
    ensures !HasPrefix(Uri(cs), Uri(cs) + "/")
    ensures CanMove(entries, rows, mv)
    ensures forall ds :: Resolve(rows', mv.ns, ds) != Some(mv.target)
    ensures forall entries', depth' :: !Shaped(entries', rows', depth')
  {
    PrefixIsDescendant(cs, cs);
    ResolvedRow(entries, rows, depth, mv.ns, cs);
    ResolvedRow(entries, rows, depth, mv.ns, cs[..|cs| - 1]);
    var l := mv.NewKey();
    assert rows'[l] == Row(mv.target, true);
    forall k | k in rows' && rows'[k].child == mv.target ensures k == l {
      assert k != l ==> k in RowsTo(rows, mv.target);
    }
    forall ds ensures Resolve(rows', mv.ns, ds) != Some(mv.target) {
      OwnParent(rows', mv.ns, mv.target, mv.newName, ds);
    }
    forall entries', depth' ensures !Shaped(entries', rows', depth') {
      assert !GoodRow(entries', rows', depth', l);
    }
  }

  lemma SelfMoveCounts(entries: Entries, rows: Rows, depth: Depths, mv: Rename, cs: seq<string>)
    requires WellFormed(entries, rows, depth) && ValidName(mv.newName) && Between(rows, mv, cs, cs) && mv.NewKey() !in rows
    requires mv.target in entries && entries[mv.target].isGroup
    ensures CanMove(entries, rows, mv) && Counted(AfterMove(entries, mv), AfterMoveRows(rows, mv))
  {
    ResolvedRow(entries, rows, depth, mv.ns, cs);
    ResolvedRow(entries, rows, depth, mv.ns, cs[..|cs| - 1]);
    MoveKeepsCount(entries, rows, depth, mv, AfterMove(entries, mv), AfterMoveRows(rows, mv));
  }

  lemma {:induction false} OwnParent(rows: Rows, ns: string, g: int, name: string, ds: seq<string>)
    requires g != ROOT_ID
    requires forall k :: k in rows && rows[k].child == g ==> k == Key(ns, g, name)
    ensures Resolve(rows, ns, ds) != Some(g)
    decreases |ds|
  {
    if ds != [] { OwnParent(rows, ns, g, name, ds[..|ds| - 1]); }
  }

  /** A rename of the entry at cs, to below the entry at ps. */
  ghost predicate Between(rows: Rows, mv: Rename, cs: seq<string>, ps: seq<string>) {
    && cs != [] && Resolve(rows, mv.ns, cs) == Some(mv.target) && LastKey(rows, mv.ns, cs) == mv.OldKey()
    && Resolve(rows, mv.ns, ps) == Some(mv.newParent)
  }

  /** The new parent is a group other than the target, and the new name, if given, is a name. */
  ghost predicate SafeRename(entries: Entries, rows: Rows, ns: string, cs: seq<string>, ps: seq<string>, name: string) {
    cs != ps && IsGroupAt(entries, rows, ns, ps) && (name == "" || ValidName(name))
  }

  /** Where there is a row already, its name is one. */
  lemma ExistingName(entries: Entries, rows: Rows, depth: Depths, ns: string, ps: seq<string>, parent: int, name: string)
    requires Shaped(entries, rows, depth) && Resolve(rows, ns, ps) == Some(parent) && Key(ns, parent, name) in rows
    ensures ValidName(name)
  {
    ResolvedRow(entries, rows, depth, ns, ps);
    assert GoodRow(entries, rows, depth, Key(ns, parent, name));
  }

  /** A rename away from the target's own subtree is a step that the tables allow. */
  lemma MoveAllowed(entries: Entries, rows: Rows, depth: Depths, mv: Rename, cs: seq<string>, ps: seq<string>)
    requires Shaped(entries, rows, depth) && ValidName(mv.newName) && !(cs <= ps)
    requires Between(rows, mv, cs, ps) && IsGroupAt(entries, rows, mv.ns, ps)
    requires mv.NewKey() !in rows
    ensures CanMove(entries, rows, mv)
    ensures var entries', rows' := AfterMove(entries, mv), AfterMoveRows(rows, mv);
            && MoveStep(entries, rows, mv, entries', rows')
            && SameKinds(entries, entries') && entries'.Keys == entries.Keys
            && mv.target != mv.oldParent && mv.target != mv.newParent
            && (entries[mv.target].isGroup ==>
                  MoveGroupStep(entries, rows, depth, mv, entries', rows', cs))
  {
    MoveEnds(entries, rows, depth, mv, cs, ps);
    AfterMoveKinds(entries, mv);
    if entries[mv.target].isGroup {
      MoveOutside(entries, rows, depth, mv.ns, mv.target, mv.newParent, cs, ps);
    }
  }

  /** The depths after a rename that keeps the tree. */
  lemma MoveDepths(entries: Entries, rows: Rows, depth: Depths, mv: Rename, cs: seq<string>, ps: seq<string>) returns (depth': Depths)
    requires WellFormed(entries, rows, depth) && Between(rows, mv, cs, ps) && mv.NewKey() !in rows
    requires CanMove(entries, rows, mv)
    ensures !(cs <= ps) && IsGroupAt(entries, rows, mv.ns, ps) && ValidName(mv.newName) ==>
              WellFormed(AfterMove(entries, mv), AfterMoveRows(rows, mv), depth')
  {
    depth' := depth;
    if !(cs <= ps) && IsGroupAt(entries, rows, mv.ns, ps) && ValidName(mv.newName) {
      var entries', rows' := AfterMove(entries, mv), AfterMoveRows(rows, mv);
      MoveAllowed(entries, rows, depth, mv, cs, ps);
      MoveKeepsCount(entries, rows, depth, mv, entries', rows');
      if entries[mv.target].isGroup {
        MoveGroupKeepsShape(entries, rows, depth, mv, entries', rows', cs);
        depth' := MovedDepths(entries, rows, depth, mv.ns, cs, depth[mv.newParent]);
      } else {
        MoveFileKeepsShape(entries, rows, depth, mv, entries', rows');
      }
    }
  }

  lemma AfterMoveKinds(entries: Entries, mv: Rename)
    requires mv.target in entries && mv.oldParent in entries && mv.newParent in entries
    ensures var entries' := AfterMove(entries, mv);
            SameKinds(entries, entries') && entries'.Keys == entries.Keys
  {
  }

  /** The new parent is not inside the moved group. */
  lemma MoveOutside(entries: Entries, rows: Rows, depth: Depths, ns: string, target: int, newParent: int,
                    cs: seq<string>, ps: seq<string>)
    requires Shaped(entries, rows, depth) && !(cs <= ps)
    requires Resolve(rows, ns, cs) == Some(target) && LinkedGroup(entries, rows, target)
    requires Resolve(rows, ns, ps) == Some(newParent) && LinkedGroup(entries, rows, newParent)
    ensures cs == PathOf(entries, rows, depth, target) && !Inside(entries, rows, depth, ns, cs, newParent)
  {
    PathIsOnly(entries, rows, depth, ns, cs, target);
    PathIsOnly(entries, rows, depth, ns, ps, newParent);
  }

  /** What is known about the two ends of such a rename. */
  lemma MoveEnds(entries: Entries, rows: Rows, depth: Depths, mv: Rename, cs: seq<string>, ps: seq<string>)
    requires Shaped(entries, rows, depth) && ValidName(mv.newName) && !(cs <= ps)
    requires Between(rows, mv, cs, ps) && IsGroupAt(entries, rows, mv.ns, ps)
    ensures mv.OldKey() in rows && rows[mv.OldKey()].child == mv.target
    ensures mv.target in entries && mv.target != ROOT_ID && entries[mv.target].ns == mv.ns && Linked(rows, mv.target)
    ensures mv.oldParent in entries && entries[mv.oldParent].ns == mv.ns && mv.oldParent != ROOT_ID && mv.oldParent != mv.target
    ensures mv.newParent in entries && entries[mv.newParent].ns == mv.ns && mv.newParent != ROOT_ID && mv.newParent != mv.target
    ensures entries[mv.newParent].isGroup && Linked(rows, mv.newParent) && mv.newParent in depth
  {
    ResolvedRow(entries, rows, depth, mv.ns, cs);
    ResolvedRow(entries, rows, depth, mv.ns, cs[..|cs| - 1]);
    ResolvedRow(entries, rows, depth, mv.ns, ps);
    if mv.newParent == mv.target {
      PathIsOnly(entries, rows, depth, mv.ns, ps, mv.newParent);
      PathIsOnly(entries, rows, depth, mv.ns, cs, mv.target);
    }
  }

  /** Each group row but one goes one level down. */
  ghost predicate Stepwise(rows: Rows, depth: Depths, but: Key) {
    forall k :: k in rows && rows[k].isGroup && k != but ==>
      k.parent in depth && rows[k].child in depth && depth[rows[k].child] == depth[k.parent] + 1
  }

  /** An entry on the way to a group is a group. */
  lemma GroupAbove(entries: Entries, rows: Rows, depth: Depths, ns: string, ps: seq<string>, m: nat, g: int)
    requires Shaped(entries, rows, depth) && Resolve(rows, ns, ps) == Some(g) && g in entries && entries[g].isGroup && m <= |ps|
    ensures Resolve(rows, ns, ps[..m]).Some? && rows[LastKey(rows, ns, ps[..m])].isGroup
  {
    var here := ps[..m];
    ResolvePrefix(rows, ns, ps, m);
    ResolvedRow(entries, rows, depth, ns, here);
    if m < |ps| {
      ResolvePrefix(rows, ns, ps, m + 1);
      assert ps[..m + 1][..m] == here;
      ResolvedRow(entries, rows, depth, ns, ps[..m + 1]);
    } else {
      assert here == ps;
    }
  }

  /** The row of one more name on the way from the target to the new parent is a group's, and is not moved. */
  lemma RowBelow(entries: Entries, rows: Rows, depth: Depths, mv: Rename, cs: seq<string>, ps: seq<string>, m: nat)
    requires Shaped(entries, rows, depth) && Between(rows, mv, cs, ps) && cs <= ps && |cs| < m <= |ps|
    requires mv.newParent in entries && entries[mv.newParent].isGroup
    ensures Resolve(rows, mv.ns, ps[..m]).Some? && Resolve(rows, mv.ns, ps[..m - 1]).Some?
    ensures var k := Key(mv.ns, Resolve(rows, mv.ns, ps[..m - 1]).value, ps[m - 1]);
            k in rows && k != mv.OldKey() && rows[k].isGroup && Some(rows[k].child) == Resolve(rows, mv.ns, ps[..m])
  {
    var here := ps[..m];
    GroupAbove(entries, rows, depth, mv.ns, ps, m, mv.newParent);
    ResolvePrefix(rows, mv.ns, ps, m - 1);
    assert here[..m - 1] == ps[..m - 1] && here[m - 1] == ps[m - 1];
    ResolvedRow(entries, rows, depth, mv.ns, here);
    KeyPathOfLast(entries, rows, depth, mv.ns, here);
    KeyPathOfLast(entries, rows, depth, mv.ns, cs);
  }

  /** Depths that fit those rows grow from the target down to the new parent. */
  lemma {:induction false} DepthBelow(entries: Entries, rows: Rows, depth: Depths, mv: Rename, cs: seq<string>, ps: seq<string>,
                                      depth': Depths, m: nat)
    requires Shaped(entries, rows, depth) && Between(rows, mv, cs, ps) && cs <= ps && |cs| <= m <= |ps| && mv.OldKey() in rows
    requires mv.newParent in entries && entries[mv.newParent].isGroup && mv.NewKey() !in rows
    requires Stepwise(AfterMoveRows(rows, mv), depth', mv.NewKey())
    ensures Resolve(rows, mv.ns, ps[..m]).Some?
    ensures var g := Resolve(rows, mv.ns, ps[..m]).value;
            if m == |cs| then g == mv.target
            else g in depth' && mv.target in depth' && depth'[g] == depth'[mv.target] + (m - |cs|)
    decreases m
  {
    if m == |cs| {
      assert ps[..m] == cs;
    } else {
      DepthBelow(entries, rows, depth, mv, cs, ps, depth', m - 1);
      RowBelow(entries, rows, depth, mv, cs, ps, m);
      var k := Key(mv.ns, Resolve(rows, mv.ns, ps[..m - 1]).value, ps[m - 1]);
      assert k in AfterMoveRows(rows, mv) && AfterMoveRows(rows, mv)[k] == rows[k];
    }
  }

  /** With the new parent at or below the target there are no such depths: the rows go round in a circle. */
  lemma CircleBreaks(entries: Entries, rows: Rows, depth: Depths, mv: Rename, cs: seq<string>, ps: seq<string>,
                     entries': Entries, depth': Depths)
    requires Shaped(entries, rows, depth) && Between(rows, mv, cs, ps) && cs <= ps && mv.OldKey() in rows
    requires mv.newParent in entries && entries[mv.newParent].isGroup && mv.NewKey() !in rows
    ensures !Shaped(entries', AfterMoveRows(rows, mv), depth')
  {
    var rows' := AfterMoveRows(rows, mv);
    ResolvedRow(entries, rows, depth, mv.ns, cs);
    TargetIsGroup(entries, rows, depth, mv, cs, ps);
    if Stepwise(rows', depth', mv.NewKey()) {
      DepthBelow(entries, rows, depth, mv, cs, ps, depth', |ps|);
      assert ps[..|ps|] == ps;
      assert !GoodRow(entries', rows', depth', mv.NewKey());
    } else {
      var k :| k in rows' && rows'[k].isGroup && k != mv.NewKey() &&
               !(k.parent in depth' && rows'[k].child in depth' && depth'[rows'[k].child] == depth'[k.parent] + 1);
      assert !GoodRow(entries', rows', depth', k);
    }
  }

  lemma TargetIsGroup(entries: Entries, rows: Rows, depth: Depths, mv: Rename, cs: seq<string>, ps: seq<string>)
    requires Shaped(entries, rows, depth) && Between(rows, mv, cs, ps) && cs <= ps && mv.OldKey() in rows
    requires mv.newParent in entries && entries[mv.newParent].isGroup
    ensures rows[mv.OldKey()].isGroup && rows[mv.OldKey()].child == mv.target
  {
    ResolvedRow(entries, rows, depth, mv.ns, cs);
    GroupAbove(entries, rows, depth, mv.ns, ps, |cs|, mv.newParent);
    assert ps[..|cs|] == cs;
  }

  /**
    Exactly when the transaction of a rename leaves a tree, whatever was checked before: when the new parent
    is a group that is neither the target nor below it, and the new name is a name.
   */
  lemma RenameKeepsTreeIff(entries: Entries, rows: Rows, depth: Depths, mv: Rename, cs: seq<string>, ps: seq<string>)
    requires Shaped(entries, rows, depth) && Between(rows, mv, cs, ps) && mv.NewKey() !in rows
    ensures CanMove(entries, rows, mv) && mv.newParent in entries
    ensures entries[mv.newParent].isGroup && ValidName(mv.newName) && !(cs <= ps) <==>
              exists depth' :: Shaped(AfterMove(entries, mv), AfterMoveRows(rows, mv), depth')
  {
    RenameRuns(entries, rows, depth, mv, cs, ps);
    ResolvedRow(entries, rows, depth, mv.ns, ps);
    var entries', rows' := AfterMove(entries, mv), AfterMoveRows(rows, mv);
    if !entries[mv.newParent].isGroup || !ValidName(mv.newName) {
      AfterMoveKinds(entries, mv);
      forall depth' ensures !Shaped(entries', rows', depth') {
        assert !GoodRow(entries', rows', depth', mv.NewKey());
      }
    } else if cs <= ps {
      forall depth' ensures !Shaped(entries', rows', depth') {
        CircleBreaks(entries, rows, depth, mv, cs, ps, entries', depth');
      }
    } else {
      MoveAllowed(entries, rows, depth, mv, cs, ps);
      if entries[mv.target].isGroup {
        MoveGroupKeepsShape(entries, rows, depth, mv, entries', rows', cs);
      } else {
        MoveFileKeepsShape(entries, rows, depth, mv, entries', rows');
      }
    }
  }

  /** What that leaves of the code's own prefix test on clean URIs: it misses only the target itself. */
  lemma TestedRenameKeepsTreeIff(entries: Entries, rows: Rows, depth: Depths, mv: Rename, cs: seq<string>, ps: seq<string>)
    requires Shaped(entries, rows, depth) && ValidNames(cs) && ValidNames(ps)
    requires Between(rows, mv, cs, ps) && mv.NewKey() !in rows
    requires mv.target in entries && entries[mv.target].isGroup ==> !HasPrefix(Uri(ps), Uri(cs) + "/")
    ensures CanMove(entries, rows, mv) && mv.newParent in entries
    ensures entries[mv.newParent].isGroup && ValidName(mv.newName) && cs != ps <==>
              exists depth' :: Shaped(AfterMove(entries, mv), AfterMoveRows(rows, mv), depth')
  {
    RenameKeepsTreeIff(entries, rows, depth, mv, cs, ps);
    PrefixIsDescendant(ps, cs);
    if cs != ps { TargetOutside(entries, rows, depth, mv.ns, cs, ps, mv.target, mv.newParent); }
  }

  /** With a slash after the target's URI the test misses everything below the target as well. */
  lemma SlashedTestMisses(cs: seq<string>, ps: seq<string>)
    requires ValidNames(cs) && ValidNames(ps) && cs != []
    ensures !HasPrefix(Uri(ps), (Uri(cs) + "/") + "/") && Parts(Uri(cs) + "/") == cs
  {
    PartsOfDir(Uri(cs));
    UriShape(cs);
    if HasPrefix(Uri(ps), Uri(cs) + "/" + "/") { NoDoubleSlash(ps, |Uri(cs)|); }
  }

  /** Exactly when a hard link leaves the tables well formed: when its name is one, which is not checked. */
  lemma MirrorKeepsTreeIff(entries: Entries, rows: Rows, depth: Depths, ns: string, cs: seq<string>, ds: seq<string>,
                           src: int, dst: int, name: string)
    requires WellFormed(entries, rows, depth) && Key(ns, dst, name) !in rows
    requires Resolve(rows, ns, cs) == Some(src) && src in entries && !entries[src].isGroup
    requires Resolve(rows, ns, ds) == Some(dst) && dst in entries && entries[dst].isGroup
    ensures var entries', rows' := Touch(Touch(entries, src, 1), dst, 0), rows[Key(ns, dst, name) := Row(src, false)];
            ValidName(name) <==> exists depth' :: WellFormed(entries', rows', depth')
  {
    ResolvedRow(entries, rows, depth, ns, cs);
    ResolvedRow(entries, rows, depth, ns, ds);
    var entries', rows' := Touch(Touch(entries, src, 1), dst, 0), rows[Key(ns, dst, name) := Row(src, false)];
    if ValidName(name) {
      MirrorKeepsShape(entries, rows, depth, ns, dst, src, name, entries', rows');
      MirrorKeepsCount(entries, rows, ns, dst, src, name, entries', rows');
      assert WellFormed(entries', rows', depth);
    } else {
      forall depth' ensures !WellFormed(entries', rows', depth') {
        assert !GoodRow(entries', rows', depth', Key(ns, dst, name));
      }
    }
  }

  /** The entries after a create: the new one, and its parent touched. */
  function WithEntry(entries: Entries, ns: string, parent: int, id: int, name: string, isGroup: bool): Entries
    requires parent in entries
  {
    Touch(entries[id := Entry(ns, name, isGroup, if isGroup then 2 else 1, 1)], parent, if isGroup then 1 else 0)
  }

  /** Exactly when a new row leaves the tables well formed: under a group, and with a name that is one. */
  lemma CreateKeepsTreeIff(entries: Entries, rows: Rows, depth: Depths, ns: string, cs: seq<string>,
                           parent: int, id: int, name: string, isGroup: bool)
    requires WellFormed(entries, rows, depth) && Resolve(rows, ns, cs) == Some(parent)
    requires id != 0 && id !in entries && Key(ns, parent, name) !in rows
    ensures parent in entries
    ensures var entries', rows' := WithEntry(entries, ns, parent, id, name, isGroup), rows[Key(ns, parent, name) := Row(id, isGroup)];
            entries[parent].isGroup && ValidName(name) <==> exists depth' :: WellFormed(entries', rows', depth')
  {
    ResolvedRow(entries, rows, depth, ns, cs);
    var e := Entry(ns, name, isGroup, if isGroup then 2 else 1, 1);
    var entries', rows' := WithEntry(entries, ns, parent, id, name, isGroup), rows[Key(ns, parent, name) := Row(id, isGroup)];
    if entries[parent].isGroup && ValidName(name) {
      CreateKeepsShape(entries, rows, depth, ns, parent, id, e, entries', rows');
      CreateKeepsCount(entries, rows, depth, ns, parent, id, e, entries', rows');
      assert WellFormed(entries', rows', AddDepth(depth, parent, id, isGroup));
    } else {
      forall depth' ensures !WellFormed(entries', rows', depth') {
        assert !GoodRow(entries', rows', depth', Key(ns, parent, name));
      }
    }
  }

  /** The transaction of such a rename goes through, whatever the new parent is. */
  lemma RenameRuns(entries: Entries, rows: Rows, depth: Depths, mv: Rename, cs: seq<string>, ps: seq<string>)
    requires Shaped(entries, rows, depth) && Between(rows, mv, cs, ps) && mv.NewKey() !in rows
    ensures CanMove(entries, rows, mv)
    ensures mv.oldParent in entries && mv.newParent in entries && entries[mv.newParent].ns == mv.ns
  {
    ResolvedRow(entries, rows, depth, mv.ns, cs);
    ResolvedRow(entries, rows, depth, mv.ns, cs[..|cs| - 1]);
    ResolvedRow(entries, rows, depth, mv.ns, ps);
  }

  lemma PruneNone(entries: Entries, rows: Rows, depth: Depths, ns: string, cs: seq<string>)
    requires Shaped(entries, rows, depth)
    ensures PrunedSome(entries, rows, depth, ns, cs, []) == rows
  {
  }

  lemma NoChildren(entries: Entries, rows: Rows, depth: Depths, ns: string, target: int)
    requires Shaped(entries, rows, depth) && target in entries && !entries[target].isGroup
    ensures forall n :: Key(ns, target, n) !in rows
  {
    forall k | k in rows ensures k.parent != target {
      assert GoodRow(entries, rows, depth, k);
    }
  }

  /** Nothing is below an entry. */
  ghost predicate Childless(rows: Rows, ns: string, e: int) {
    forall n :: Key(ns, e, n) !in rows
  }

  /** There is an entry at the path, and what is below it may be removed with it. */
  ghost predicate Removable(rows: Rows, ns: string, uri: string, deleteAll: bool) {
    uri != "/" && At(rows, ns, uri).Some? && (deleteAll || Childless(rows, ns, At(rows, ns, uri).value))
  }

  /** path.Dir gives the parent: there is no slash at the end, and the path is absolute or has two names. */
  predicate ParentSeen(uri: string) {
    !Trailing(uri) && (Rooted(uri) || |Parts(uri)| > 1)
  }

  /** Every piece of a path that leads somewhere is a name. */
  lemma ResolvedNames(entries: Entries, rows: Rows, depth: Depths, ns: string, cs: seq<string>)
    requires Shaped(entries, rows, depth) && Resolve(rows, ns, cs).Some?
    ensures ValidNames(cs)
  {
    if cs != [] {
      ResolvedRow(entries, rows, depth, ns, cs);
      KeyPathOfLast(entries, rows, depth, ns, cs);
      KeyPathResolves(entries, rows, depth, LastKey(rows, ns, cs));
    }
  }

  /** What the code takes for the parent of an entry. */
  lemma ParentFound(entries: Entries, rows: Rows, depth: Depths, ns: string, uri: string)
    requires Shaped(entries, rows, depth) && uri != "/" && At(rows, ns, uri).Some?
    ensures var cs := Parts(uri);
            && cs != [] && ValidNames(cs)
            && (Trailing(uri) ==> At(rows, ns, Dir(uri)) == Resolve(rows, ns, cs))
            && (ParentSeen(uri) ==> At(rows, ns, Dir(uri)) == Resolve(rows, ns, cs[..|cs| - 1]) && At(rows, ns, Dir(uri)).Some?)
            && (!Trailing(uri) && !ParentSeen(uri) ==> At(rows, ns, Dir(uri)).None?)
  {
    var cs := Parts(uri);
    ResolvedNames(entries, rows, depth, ns, cs);
    DirNames(uri);
    ResolvePrefix(rows, ns, cs, |cs| - 1);
    PartsNoSlash(".");
    if Resolve(rows, ns, ["."]).Some? { ResolvedNames(entries, rows, depth, ns, ["."]); }
  }

  /** Child i can be removed next, and what its removal leaves. */
  lemma NextChild(entries: Entries, rows: Rows, entries': Entries, less: Rows, depth: Depths, ns: string,
                  uri: string, children: seq<string>, i: nat, target: int)
    requires Shaped(entries, rows, depth) && Shaped(entries', less, depth) && SameKinds(entries, entries')
    requires Parts(uri) != [] && ValidNames(Parts(uri)) && Resolve(rows, ns, Parts(uri)) == Some(target)
    requires i < |children| && Key(ns, target, children[i]) in rows
    requires forall a, b :: 0 <= a < b < |children| ==> children[a] != children[b]
    requires less == PrunedSome(entries, rows, depth, ns, Parts(uri), children[..i])
    ensures var next := Join(uri, children[i]);
            && Parts(next) == Parts(uri) + [children[i]] && Removable(less, ns, next, true) && ParentSeen(next)
            && Pruned(entries', less, depth, ns, Parts(next)) == PrunedSome(entries, rows, depth, ns, Parts(uri), children[..i + 1])
  {
    var n, cs := children[i], Parts(uri);
    assert n !in children[..i];
    PartsNoSlash("");
    UriShape([]);
    NextChildResolves(entries, rows, depth, ns, cs, target, n);
    JoinNames(uri, n);
    ChildStays(entries, rows, depth, ns, cs, children[..i], n);
    PruneNext(entries, rows, entries', less, depth, ns, cs, children[..i], n);
    assert children[..i] + [n] == children[..i + 1];
  }

  lemma NextChildResolves(entries: Entries, rows: Rows, depth: Depths, ns: string, cs: seq<string>, target: int, n: string)
    requires Shaped(entries, rows, depth)
    requires ValidNames(cs) && Resolve(rows, ns, cs) == Some(target) && Key(ns, target, n) in rows
    ensures ValidName(n) && Resolve(rows, ns, cs + [n]).Some?
  {
    ResolveChild(rows, ns, cs, n);
    assert GoodRow(entries, rows, depth, Key(ns, target, n));
    ResolvedRow(entries, rows, depth, ns, cs);
  }

  lemma DepthBound(entries: Entries, rows: Rows, depth: Depths, ns: string, cs: seq<string>, target: int)
    requires Shaped(entries, rows, depth) && Resolve(rows, ns, cs) == Some(target) && target in entries && entries[target].isGroup
    ensures |cs| < MaxOf(depth.Values)
  {
    ResolvedRow(entries, rows, depth, ns, cs);
    PathIsOnly(entries, rows, depth, ns, cs, target);
    DepthOfPath(entries, rows, depth, target);
    MaxOfBounds(depth.Values, depth[target]);
  }

  ghost predicate IsGroupAt(entries: Entries, rows: Rows, ns: string, cs: seq<string>) {
    match Resolve(rows, ns, cs)
    case None => true
    case Some(p) => p in entries && entries[p].isGroup
  }

  /** Where the walk stands after the names `done`. */
  ghost predicate Walked(rows: Rows, ns: string, done: seq<string>, parent: int, crt: Option<int>) {
    if done == [] then crt.None? && Resolve(rows, ns, []) == Some(parent)
    else crt.Some? && Resolve(rows, ns, done) == crt && Resolve(rows, ns, done[..|done| - 1]) == Some(parent)
  }

  ghost predicate WalkedTo(rows: Rows, ns: string, entries: seq<string>, i: nat, done: seq<string>, parent: int, crt: Option<int>) {
    i <= |entries| && done + NonEmpty(entries[i..]) == NonEmpty(entries) && Walked(rows, ns, done, parent, crt)
  }

  lemma WalkStarts(rows: Rows, ns: string, entries: seq<string>, root: int)
    requires Resolve(rows, ns, []) == Some(root)
    ensures WalkedTo(rows, ns, entries, 0, [], root, None)
  {
    assert entries[0..] == entries;
  }

  lemma WalkEnds(rows: Rows, ns: string, entries: seq<string>, done: seq<string>, parent: int, crt: Option<int>)
    requires WalkedTo(rows, ns, entries, |entries|, done, parent, crt)
    ensures Walked(rows, ns, NonEmpty(entries), parent, crt)
  {
    assert entries[|entries|..] == [];
    assert done == NonEmpty(entries);
  }

  lemma NextPart(parts: seq<string>, i: nat, done: seq<string>, all: seq<string>)
    requires i < |parts| && done + NonEmpty(parts[i..]) == all
    ensures parts[i] == "" ==> done + NonEmpty(parts[i + 1..]) == all
    ensures parts[i] != "" ==> done + [parts[i]] + NonEmpty(parts[i + 1..]) == all && done + [parts[i]] <= all
  {
    assert parts[i..][1..] == parts[i + 1..];
    if parts[i] != "" {
      assert done + ([parts[i]] + NonEmpty(parts[i + 1..])) == done + [parts[i]] + NonEmpty(parts[i + 1..]);
    }
  }

  lemma NotBeyond(rows: Rows, ns: string, all: seq<string>, cs: seq<string>)
    requires cs <= all && Resolve(rows, ns, cs).None?
    ensures Resolve(rows, ns, all).None?
  {
    assert all[..|cs|] == cs;
    if Resolve(rows, ns, all).Some? {
      ResolvePrefix(rows, ns, all, |cs|);
    }
  }

  lemma LongName(entries: Entries, rows: Rows, depth: Depths, ns: string, cs: seq<string>)
    requires Shaped(entries, rows, depth) && cs != [] && |cs[|cs| - 1]| > FILE_NAME_MAX_LENGTH
    ensures Resolve(rows, ns, cs).None?
  {
    if Resolve(rows, ns, cs).Some? {
      ResolvedRow(entries, rows, depth, ns, cs);
    }
  }

  /** An entry reached by a path exists in the namespace and has links. */
  lemma ResolvedIsLive(entries: Entries, rows: Rows, depth: Depths, ns: string, cs: seq<string>)
    requires WellFormed(entries, rows, depth) && Resolve(rows, ns, cs).Some?
    ensures var e := Resolve(rows, ns, cs).value;
            e in entries && entries[e].ns == ns && entries[e].refCount > 0 && e != ROOT_ID
  {
    ResolvedRow(entries, rows, depth, ns, cs);
    ZeroCountIff(entries, rows, depth, Resolve(rows, ns, cs).value);
    assert CountedAt(entries, rows, Resolve(rows, ns, cs).value);
  }
}
