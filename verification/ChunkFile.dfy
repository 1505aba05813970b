/**
  Writing a file of segments and compacting its chunks (pkg/bio/chunk.go). A write is split into
  chunks and pages; what it leaves in a chunk is committed as one appended segment.
 */
module ChunkFile {
  import opened Common
  import opened Overlay
  import opened Forgetting
  import opened MemCache
  import opened ChunkReader

  // ---------------------------------------------------------------------------------------------
  // Owners
  // ---------------------------------------------------------------------------------------------

  function IdOf(o: Owner): int {
    match o case Nobody => 0 case Writer(id, _) => id
  }

  /** How far the hole reaches does not change who wrote a byte. */
  lemma {:induction false} HolesAgree(h: ChunkSeg, k: ChunkSeg, segs: seq<ChunkSeg>, x: int)
    requires h.id == 0 == k.id
    ensures IdOf(LastWriter(h, segs, x)) == IdOf(LastWriter(k, segs, x))
    decreases |segs|
  {
    if segs != [] { HolesAgree(h, k, Older(segs), x); }
  }

  /** An owner other than the hole is a listed segment that covers the byte. */
  lemma {:induction false} OwnerListed(h: ChunkSeg, segs: seq<ChunkSeg>, x: int)
    requires h.id == 0 && IdOf(LastWriter(h, segs, x)) != 0
    ensures exists i :: 0 <= i < |segs| && segs[i].Covers(x) && segs[i].id == IdOf(LastWriter(h, segs, x))
    decreases |segs|
  {
    var s := Newest(h, segs);
    if s.Covers(x) {
      assert segs[|segs| - 1] == s;
    } else {
      OwnerListed(h, Older(segs), x);
      var i :| 0 <= i < |Older(segs)| && Older(segs)[i].Covers(x) && Older(segs)[i].id == IdOf(LastWriter(h, Older(segs), x));
      assert segs[i] == Older(segs)[i];
    }
  }

  // ---------------------------------------------------------------------------------------------
  // Well-formed files
  // ---------------------------------------------------------------------------------------------

  /** A listed segment is not empty and lies in its chunk and in the file. */
  ghost predicate SegOk(f: File, nextId: int, c: int, i: int) {
    0 <= i < |f.Segs(c)| ==>
      && 0 <= c && c * CHUNK_SIZE <= f.Segs(c)[i].off && f.Segs(c)[i].End() <= f.DataEnd(c)
      && 0 < f.Segs(c)[i].id < nextId && 0 < f.Segs(c)[i].len
  }

  /** The pages of a segment hold nothing but zeros outside it, and end with it. */
  ghost predicate Tidy(f: File, c: int, i: int, x: int)
    requires f.pageSize > 0
  {
    0 <= i < |f.Segs(c)| && !f.Segs(c)[i].Covers(x) ==>
      f.Stored(f.Segs(c)[i].id, x) == 0 && (f.Reaches(f.Segs(c)[i].id, x) ==> x < f.Segs(c)[i].End())
  }

  /** Two listed segments with the same id are the same. */
  ghost predicate IdsDiffer(f: File, c: int, i: int, d: int, j: int) {
    0 <= i < |f.Segs(c)| && 0 <= j < |f.Segs(d)| && f.Segs(c)[i].id == f.Segs(d)[j].id ==> c == d && i == j
  }

  ghost predicate GoodFile(f: File, nextId: int) {
    && f.Valid() && 0 < nextId
    && (forall c, i :: SegOk(f, nextId, c, i))
    && (forall c, i, d, j :: IdsDiffer(f, c, i, d, j))
    && (forall c, i, x :: Tidy(f, c, i, x))
    && (forall k :: k in f.pages ==> k.0 < nextId)
  }

  // ---------------------------------------------------------------------------------------------
  // Appending a segment
  // ---------------------------------------------------------------------------------------------

  /** The new pages hold `data` for segment s. */
  ghost predicate PagesHold(pageSize: int, s: ChunkSeg, data: seq<byte>, np: map<(int, int), seq<byte>>)
    requires pageSize > 0 && |data| == s.len
  {
    && (forall k :: k in np ==> k.0 == s.id && |np[k]| <= pageSize)
    && (forall x :: s.Covers(x) ==> PageHolds(pageSize, s, data, np, x))
    && (forall x :: PageTidy(pageSize, s, np, s.End(), x))
  }

  /** Outside s, and from `end` on, the new pages hold nothing. */
  predicate PageTidy(pageSize: int, s: ChunkSeg, np: map<(int, int), seq<byte>>, end: int, x: int)
    requires pageSize > 0
  {
    var k := (s.id, x / pageSize);
    k in np && x % pageSize < |np[k]| ==> x < end && (x < s.off ==> np[k][x % pageSize] == 0)
  }

  predicate PageHolds(pageSize: int, s: ChunkSeg, data: seq<byte>, np: map<(int, int), seq<byte>>, x: int)
    requires pageSize > 0 && |data| == s.len && s.Covers(x)
  {
    var k := (s.id, x / pageSize);
    k in np && x % pageSize < |np[k]| && np[k][x % pageSize] == data[x - s.off]
  }

  function Append(f: File, c: int, s: ChunkSeg, np: map<(int, int), seq<byte>>): File {
    File(f.pageSize, Max(f.size, s.End()), f.segs[c := f.Segs(c) + [s]], f.pages + np)
  }

  ghost predicate AppendStep(f: File, c: int, s: ChunkSeg, data: seq<byte>, np: map<(int, int), seq<byte>>, nextId: int) {
    && GoodFile(f, nextId) && s.id == nextId && 0 < |data| == s.len
    && 0 <= c && c * CHUNK_SIZE <= s.off && s.End() <= (c + 1) * CHUNK_SIZE
    && PagesHold(f.pageSize, s, data, np)
  }

  lemma AppendOwner(f: File, c: int, s: ChunkSeg, np: map<(int, int), seq<byte>>, d: int, x: int)
    ensures Append(f, c, s, np).OwnerId(d, x) == if d == c && s.Covers(x) then s.id else f.OwnerId(d, x)
  {
    var f' := Append(f, c, s, np);
    HolesAgree(f.Hole(d), f'.Hole(d), f.Segs(d), x);
    assert Older(f.Segs(c) + [s]) == f.Segs(c);
  }

  lemma OwnerIsOld(f: File, nextId: int, c: int, x: int)
    requires GoodFile(f, nextId) && f.OwnerId(c, x) != 0
    ensures f.OwnerId(c, x) < nextId
  {
    OwnerListed(f.Hole(c), f.Segs(c), x);
    var i :| 0 <= i < |f.Segs(c)| && f.Segs(c)[i].Covers(x) && f.Segs(c)[i].id == f.OwnerId(c, x);
    assert SegOk(f, nextId, c, i);
  }

  lemma AppendByte(f: File, c: int, s: ChunkSeg, data: seq<byte>, np: map<(int, int), seq<byte>>, nextId: int, x: int)
    requires AppendStep(f, c, s, data, np, nextId)
    ensures Append(f, c, s, np).Byte(x) == if s.Covers(x) then data[x - s.off] else f.Byte(x)
  {
    AppendOwner(f, c, s, np, x / CHUNK_SIZE, x);
    if s.Covers(x) {
      assert PageHolds(f.pageSize, s, data, np, x);
    } else if f.OwnerId(x / CHUNK_SIZE, x) != 0 {
      OwnerIsOld(f, nextId, x / CHUNK_SIZE, x);
    }
  }

  lemma AppendStored(f: File, c: int, s: ChunkSeg, data: seq<byte>, np: map<(int, int), seq<byte>>, nextId: int, d: int, x: int)
    requires AppendStep(f, c, s, data, np, nextId)
    ensures Append(f, c, s, np).OwnerStored(d, x)
  {
    AppendOwner(f, c, s, np, d, x);
    if d == c && s.Covers(x) {
      assert PageHolds(f.pageSize, s, data, np, x);
    } else if f.OwnerId(d, x) != 0 {
      assert f.OwnerStored(d, x);
      OwnerIsOld(f, nextId, d, x);
    }
  }

  lemma AppendGood(f: File, c: int, s: ChunkSeg, data: seq<byte>, np: map<(int, int), seq<byte>>, nextId: int)
    requires AppendStep(f, c, s, data, np, nextId)
    ensures GoodFile(Append(f, c, s, np), nextId + 1)
  {
    var f' := Append(f, c, s, np);
    forall d, x ensures f'.OwnerStored(d, x) {
      AppendStored(f, c, s, data, np, nextId, d, x);
    }
    var next := nextId + 1;
    forall d, i ensures SegOk(f', next, d, i) {
      assert SegOk(f, nextId, d, i);
    }
    forall d, i, e, j ensures IdsDiffer(f', d, i, e, j) {
      assert IdsDiffer(f, d, i, e, j) && SegOk(f, nextId, d, i) && SegOk(f, nextId, e, j);
    }
    forall d, i, x ensures Tidy(f', d, i, x) {
      AppendTidy(f, c, s, data, np, nextId, d, i, x);
    }
  }

  lemma AppendTidy(f: File, c: int, s: ChunkSeg, data: seq<byte>, np: map<(int, int), seq<byte>>, nextId: int, d: int, i: int, x: int)
    requires AppendStep(f, c, s, data, np, nextId)
    ensures Tidy(Append(f, c, s, np), d, i, x)
  {
    var f' := Append(f, c, s, np);
    if 0 <= i < |f'.Segs(d)| {
      if 0 <= i < |f.Segs(d)| {
        assert SegOk(f, nextId, d, i) && Tidy(f, d, i, x) && f'.Segs(d)[i] == f.Segs(d)[i];
      } else {
        assert f'.Segs(d)[i] == s && PageTidy(f.pageSize, s, np, s.End(), x);
      }
    }
  }

  // ---------------------------------------------------------------------------------------------
  // Deleting a segment that lies under one that spans the chunk
  // ---------------------------------------------------------------------------------------------

  /** The newest segment of the chunk covers all of the file in it. */
  ghost predicate Spanned(f: File, c: int) {
    && 0 <= c && f.Segs(c) != []
    && (var last := f.Segs(c)[|f.Segs(c)| - 1]; last.off == c * CHUNK_SIZE && last.End() == f.DataEnd(c))
  }

  lemma NoOwnerOutside(f: File, nextId: int, c: int, x: int)
    requires forall i :: SegOk(f, nextId, c, i)
    ensures f.OwnerId(c, x) != 0 ==> f.Hole(c).Covers(x)
  {
    if f.OwnerId(c, x) != 0 {
      OwnerListed(f.Hole(c), f.Segs(c), x);
      var i :| 0 <= i < |f.Segs(c)| && f.Segs(c)[i].Covers(x);
      assert SegOk(f, nextId, c, i);
    }
  }

  /** It then owns every byte, so that no query names another segment. */
  lemma SpannedOwner(f: File, nextId: int, c: int, x: int)
    requires GoodFile(f, nextId) && Spanned(f, c)
    ensures f.OwnerId(c, x) == if f.Hole(c).Covers(x) then f.Segs(c)[|f.Segs(c)| - 1].id else 0
  {
    NoOwnerOutside(f, nextId, c, x);
  }

  /** Nor does its tree forget any. */
  lemma SpannedRemembers(f: File, c: int, x: int)
    requires Spanned(f, c) && f.Hole(c).Covers(x)
    ensures !f.Lost(x)
  {
    var segs := f.Segs(c);
    assert x / CHUNK_SIZE == c && segs[|segs| - 1].Covers(x);
    forall k ensures !ForgottenAt(f.Hole(c), segs, x, k) {
    }
  }

  /** dataStore.Delete */
  function DropData(f: File, id: int): File {
    f.(pages := map k | k in f.pages && k.0 != id :: f.pages[k])
  }

  /** chunkStore.DeleteSegment */
  function DropSeg(f: File, c: int, i: int): File
    requires 0 <= i < |f.Segs(c)|
  {
    f.(segs := f.segs[c := f.Segs(c)[..i] + f.Segs(c)[i + 1..]])
  }

  lemma NotTheOwner(f: File, nextId: int, c: int, i: int, d: int, x: int)
    requires GoodFile(f, nextId) && Spanned(f, c) && 0 <= i < |f.Segs(c)| - 1
    ensures f.OwnerId(d, x) != f.Segs(c)[i].id
  {
    assert SegOk(f, nextId, c, i);
    if f.OwnerId(d, x) != 0 {
      OwnerListed(f.Hole(d), f.Segs(d), x);
      var j :| 0 <= j < |f.Segs(d)| && f.Segs(d)[j].Covers(x) && f.Segs(d)[j].id == f.OwnerId(d, x);
      assert IdsDiffer(f, c, i, d, j);
      if d == c {
        SpannedOwner(f, nextId, c, x);
        assert IdsDiffer(f, c, j, c, |f.Segs(c)| - 1) && SegOk(f, nextId, c, j);
      }
    }
  }

  lemma DropDataKeeps(f: File, nextId: int, c: int, i: int)
    requires GoodFile(f, nextId) && Spanned(f, c) && 0 <= i < |f.Segs(c)| - 1
    ensures var f' := DropData(f, f.Segs(c)[i].id);
            && GoodFile(f', nextId) && Spanned(f', c) && (forall x :: f'.Byte(x) == f.Byte(x))
            && (forall d, j, p :: PagesStay(f, f', c, d, j, p))
  {
    var f' := DropData(f, f.Segs(c)[i].id);
    forall d, x ensures f'.OwnerStored(d, x) {
      NotTheOwner(f, nextId, c, i, d, x);
      assert f.OwnerStored(d, x);
    }
    forall d, j ensures SegOk(f', nextId, d, j) {
      assert SegOk(f, nextId, d, j);
    }
    forall d, j, e, k ensures IdsDiffer(f', d, j, e, k) {
      assert IdsDiffer(f, d, j, e, k);
    }
    forall d, j, x ensures Tidy(f', d, j, x) {
      assert Tidy(f, d, j, x);
    }
    forall d, j, p ensures PagesStay(f, f', c, d, j, p) {
      assert IdsDiffer(f, c, i, d, j);
    }
    forall x ensures f'.Byte(x) == f.Byte(x) {
      NotTheOwner(f, nextId, c, i, x / CHUNK_SIZE, x);
    }
  }

  /** Where a segment of the shortened list was. */
  function Before(c: int, i: int, d: int, j: int): int {
    if d == c && j >= i then j + 1 else j
  }

  lemma DropSegListed(f: File, nextId: int, c: int, i: int)
    requires GoodFile(f, nextId) && Spanned(f, c) && 0 <= i < |f.Segs(c)| - 1
    ensures var f' := DropSeg(f, c, i);
            && Spanned(f', c) && (forall d :: f'.Hole(d) == f.Hole(d))
            && (forall d, j :: SegOk(f', nextId, d, j))
            && (forall d, j, e, k :: IdsDiffer(f', d, j, e, k))
            && (forall d, j, x :: Tidy(f', d, j, x))
  {
    var f' := DropSeg(f, c, i);
    assert f'.Segs(c)[|f'.Segs(c)| - 1] == f.Segs(c)[|f.Segs(c)| - 1];
    forall d, j ensures SegOk(f', nextId, d, j) {
      assert SegOk(f, nextId, d, Before(c, i, d, j));
    }
    forall d, j, e, k ensures IdsDiffer(f', d, j, e, k) {
      assert IdsDiffer(f, d, Before(c, i, d, j), e, Before(c, i, e, k));
    }
    forall d, j, x ensures Tidy(f', d, j, x) {
      assert Tidy(f, d, Before(c, i, d, j), x);
    }
  }

  lemma DropSegOwner(f: File, nextId: int, c: int, i: int, d: int, x: int)
    requires GoodFile(f, nextId) && Spanned(f, c) && 0 <= i < |f.Segs(c)| - 1
    ensures DropSeg(f, c, i).OwnerId(d, x) == f.OwnerId(d, x)
  {
    var f' := DropSeg(f, c, i);
    if d == c {
      DropSegListed(f, nextId, c, i);
      SpannedOwner(f, nextId, c, x);
      NoOwnerOutside(f', nextId, c, x);
    }
  }

  lemma DropSegKeeps(f: File, nextId: int, c: int, i: int)
    requires GoodFile(f, nextId) && Spanned(f, c) && 0 <= i < |f.Segs(c)| - 1
    ensures var f' := DropSeg(f, c, i);
            GoodFile(f', nextId) && Spanned(f', c) && forall x :: f'.Byte(x) == f.Byte(x)
  {
    var f' := DropSeg(f, c, i);
    DropSegListed(f, nextId, c, i);
    forall d, x ensures f'.OwnerStored(d, x) {
      DropSegOwner(f, nextId, c, i, d, x);
      assert f.OwnerStored(d, x);
    }
    forall x ensures f'.Byte(x) == f.Byte(x) {
      DropSegOwner(f, nextId, c, i, x / CHUNK_SIZE, x);
    }
  }

  /** Where a segment first stands in a list. */
  function IndexOf(segs: seq<ChunkSeg>, s: ChunkSeg): (k: nat)
    requires s in segs
    ensures k < |segs| && segs[k] == s && forall j :: 0 <= j < k ==> segs[j] != s
  {
    if segs[0] == s then 0 else 1 + IndexOf(segs[1..], s)
  }

  function Without(segs: seq<ChunkSeg>, s: ChunkSeg): seq<ChunkSeg>
    requires s in segs
  {
    segs[..IndexOf(segs, s)] + segs[IndexOf(segs, s) + 1..]
  }

  lemma WithoutMiddle(left: seq<ChunkSeg>, s: ChunkSeg, right: seq<ChunkSeg>)
    requires s !in left
    ensures Without(left + [s] + right, s) == left + right
  {
    var all := left + [s] + right;
    var k := IndexOf(all, s);
    assert all[|left|] == s;
    assert forall j :: 0 <= j < |left| ==> all[j] == left[j];
  }

  predicate SamePage(before: File, f: File, id: int, p: int) {
    && ((id, p) in f.pages <==> (id, p) in before.pages)
    && ((id, p) in f.pages ==> f.pages[(id, p)] == before.pages[(id, p)])
  }

  /** The pages of a segment of another chunk than c are as before. */
  ghost predicate PagesStay(before: File, f: File, c: int, d: int, i: int, p: int) {
    d != c && 0 <= i < |before.Segs(d)| ==> SamePage(before, f, before.Segs(d)[i].id, p)
  }

  /** The bytes and the other chunks are as before. */
  ghost predicate Unharmed(before: File, f: File, c: int)
    requires before.pageSize > 0
  {
    && f.pageSize == before.pageSize && f.size == before.size
    && f.segs == before.segs[c := f.Segs(c)]
    && (forall d, i, p :: PagesStay(before, f, c, d, i, p))
    && (forall x :: f.Byte(x) == before.Byte(x))
  }

  lemma UnharmedTwice(a: File, b: File, f: File, c: int)
    requires a.pageSize > 0 && Unharmed(a, b, c) && Unharmed(b, f, c)
    ensures Unharmed(a, f, c)
  {
    forall d, i, p ensures PagesStay(a, f, c, d, i, p) {
      assert PagesStay(a, b, c, d, i, p) && PagesStay(b, f, c, d, i, p);
    }
  }

  /** Deleting the data of a covered segment, and then its row, harms nothing. */
  lemma DropUnharmed(f: File, nextId: int, c: int, i: int)
    requires GoodFile(f, nextId) && Spanned(f, c) && 0 <= i < |f.Segs(c)| - 1
    ensures var data := DropData(f, f.Segs(c)[i].id);
            && GoodFile(data, nextId) && Spanned(data, c) && data.Segs(c) == f.Segs(c) && Unharmed(f, data, c)
            && GoodFile(DropSeg(data, c, i), nextId) && Spanned(DropSeg(data, c, i), c) && Unharmed(f, DropSeg(data, c, i), c)
  {
    var data := DropData(f, f.Segs(c)[i].id);
    DropDataKeeps(f, nextId, c, i);
    DropSegKeeps(data, nextId, c, i);
    assert Unharmed(data, DropSeg(data, c, i), c);
    UnharmedTwice(f, data, DropSeg(data, c, i), c);
  }

  /** The segments whose data, and those whose row, cannot be deleted. */
  datatype Faults = Faults(data: set<int>, rows: set<int>) {

    predicate Hit(s: ChunkSeg) {
      s.id in data || s.id in rows
    }
  }

  const NO_FAULTS := Faults({}, {})

  /** The victims that cannot be deleted, in their order. */
  function Surviving(victims: seq<ChunkSeg>, faults: Faults): seq<ChunkSeg> {
    if victims == [] then []
    else
      var n := |victims| - 1;
      Surviving(victims[..n], faults) + (if faults.Hit(victims[n]) then [victims[n]] else [])
  }

  predicate NoneHit(victims: seq<ChunkSeg>, faults: Faults) {
    forall s :: s in victims ==> !faults.Hit(s)
  }

  lemma {:induction false} SurvivingIff(victims: seq<ChunkSeg>, faults: Faults, s: ChunkSeg)
    ensures s in Surviving(victims, faults) <==> s in victims && faults.Hit(s)
  {
    if victims != [] {
      var n := |victims| - 1;
      SurvivingIff(victims[..n], faults, s);
      assert victims == victims[..n] + [victims[n]];
    }
  }

  lemma NoneSurvives(victims: seq<ChunkSeg>, faults: Faults)
    ensures NoneHit(victims, faults) <==> Surviving(victims, faults) == []
  {
    forall s ensures s in Surviving(victims, faults) <==> s in victims && faults.Hit(s) {
      SurvivingIff(victims, faults, s);
    }
    if Surviving(victims, faults) != [] {
      assert Surviving(victims, faults)[0] in victims && faults.Hit(Surviving(victims, faults)[0]);
    }
  }

  /** Of the first i victims those that failed are listed, then the other victims and the newest segment. */
  ghost predicate Pending(victims: seq<ChunkSeg>, i: nat, segs: seq<ChunkSeg>, last: ChunkSeg, faults: Faults) {
    i <= |victims| && segs == Surviving(victims[..i], faults) + victims[i..] + [last]
  }

  ghost predicate Differ(all: seq<ChunkSeg>, i: int, j: int) {
    0 <= i < j < |all| ==> all[i] != all[j]
  }

  ghost predicate Distinct(all: seq<ChunkSeg>) {
    forall i, j :: Differ(all, i, j)
  }

  lemma AllDistinct(f: File, nextId: int, c: int)
    requires GoodFile(f, nextId)
    ensures Distinct(f.Segs(c))
  {
    forall i, j ensures Differ(f.Segs(c), i, j) {
      assert IdsDiffer(f, c, i, c, j);
    }
  }

  /** An earlier victim that survives is another one. */
  lemma NotBefore(victims: seq<ChunkSeg>, i: nat, last: ChunkSeg, faults: Faults)
    requires i < |victims| && Distinct(victims + [last])
    ensures victims[i] !in Surviving(victims[..i], faults) && victims[i] != last
  {
    var all, v := victims + [last], victims[i];
    assert Differ(all, i, |victims|);
    SurvivingIff(victims[..i], faults, v);
    forall j | 0 <= j < i ensures victims[..i][j] != v {
      assert Differ(all, j, i);
    }
  }

  lemma SurvivingStep(victims: seq<ChunkSeg>, i: nat, faults: Faults)
    requires i < |victims|
    ensures Surviving(victims[..i + 1], faults)
         == Surviving(victims[..i], faults) + (if faults.Hit(victims[i]) then [victims[i]] else [])
  {
    assert victims[..i + 1][..i] == victims[..i];
  }

  lemma TakeOut(left: seq<ChunkSeg>, s: ChunkSeg, rest: seq<ChunkSeg>, last: ChunkSeg)
    requires s !in left
    ensures var segs := left + ([s] + rest) + [last];
            && s in segs && segs[|segs| - 1] == last
            && segs == left + [s] + rest + [last] && Without(segs, s) == left + rest + [last]
  {
    var segs, right := left + ([s] + rest) + [last], rest + [last];
    assert segs == left + [s] + right;
    assert segs[|left|] == s;
    WithoutMiddle(left, s, right);
    assert left + right == left + rest + [last];
  }

  lemma PendingStep(victims: seq<ChunkSeg>, i: nat, segs: seq<ChunkSeg>, last: ChunkSeg, faults: Faults)
    requires Pending(victims, i, segs, last, faults) && i < |victims| && Distinct(victims + [last])
    ensures victims[i] in segs && victims[i] != last && segs[|segs| - 1] == last
    ensures Pending(victims, i + 1, if faults.Hit(victims[i]) then segs else Without(segs, victims[i]), last, faults)
  {
    var left := Surviving(victims[..i], faults);
    NotBefore(victims, i, last, faults);
    SurvivingStep(victims, i, faults);
    assert victims[i..] == [victims[i]] + victims[i + 1..];
    TakeOut(left, victims[i], victims[i + 1..], last);
    assert left + [] == left;
  }

  /** One of the first n victims has this id. */
  ghost predicate Victim(victims: seq<ChunkSeg>, n: nat, id: int) {
    exists j :: 0 <= j < n && j < |victims| && victims[j].id == id
  }

  /** The pages of the first n victims are gone, but for those that cannot be deleted; all other pages are as before. */
  ghost predicate PageAfter(before: File, f: File, victims: seq<ChunkSeg>, n: nat, faults: Faults, id: int, p: int) {
    if Victim(victims, n, id) && id !in faults.data then (id, p) !in f.pages else SamePage(before, f, id, p)
  }

  ghost predicate PagesAfter(before: File, f: File, victims: seq<ChunkSeg>, n: nat, faults: Faults) {
    forall id, p :: PageAfter(before, f, victims, n, faults, id, p)
  }

  lemma PagesStep(start: File, before: File, f: File, victims: seq<ChunkSeg>, n: nat, faults: Faults)
    requires n < |victims| && PagesAfter(start, before, victims, n, faults)
    requires f.pages == if victims[n].id in faults.data then before.pages else DropData(before, victims[n].id).pages
    ensures PagesAfter(start, f, victims, n + 1, faults)
  {
    var next := n + 1;
    forall id, p ensures PageAfter(start, f, victims, next, faults, id, p) {
      assert PageAfter(start, before, victims, n, faults, id, p);
      if Victim(victims, n, id) {
        var j :| 0 <= j < n && j < |victims| && victims[j].id == id;
        assert Victim(victims, next, id);
      } else if victims[n].id == id {
        assert Victim(victims, next, id);
      }
    }
  }

  lemma NoSegmentsBeyond(f: File, nextId: int, c: int)
    requires GoodFile(f, nextId) && (c < 0 || f.size / CHUNK_SIZE + 1 <= c)
    ensures f.Segs(c) == []
  {
    assert SegOk(f, nextId, c, 0);
  }

  /** Where the deletion of the victims stands after i of them. */
  ghost predicate Turned(start: File, f: File, c: int, victims: seq<ChunkSeg>, i: nat, last: ChunkSeg, faults: Faults) {
    Pending(victims, i, f.Segs(c), last, faults) && PagesAfter(start, f, victims, i, faults)
  }

  lemma PendingStart(f: File, victims: seq<ChunkSeg>, last: ChunkSeg, faults: Faults)
    ensures Pending(victims, 0, victims + [last], last, faults) && PagesAfter(f, f, victims, 0, faults)
  {
    assert victims[..0] == [] && [] + victims[0..] + [last] == victims + [last];
  }

  lemma NoneHitStep(victims: seq<ChunkSeg>, i: nat, faults: Faults)
    requires i < |victims|
    ensures NoneHit(victims[..i + 1], faults) <==> NoneHit(victims[..i], faults) && !faults.Hit(victims[i])
  {
    assert victims[..i + 1] == victims[..i] + [victims[i]];
  }

  /** The segments that compaction wants to be rid of: all but the newest if that covers the chunk, or else all. */
  ghost function Victims(f: File, c: int): seq<ChunkSeg> {
    var segs := f.Segs(c);
    if |segs| <= 1 then [] else if Spanned(f, c) then segs[..|segs| - 1] else segs
  }

  /** A chunk with at most one segment keeps its list; any other one ends with the survivors and one segment. */
  ghost predicate ListAfter(before: File, f: File, c: int, faults: Faults) {
    if |before.Segs(c)| <= 1 then f.Segs(c) == before.Segs(c)
    else f.Segs(c) != [] && f.Segs(c) == Surviving(Victims(before, c), faults) + [f.Segs(c)[|f.Segs(c)| - 1]]
  }

  ghost predicate ListsAfter(before: File, f: File, n: nat, faults: Faults) {
    forall c :: 0 <= c < n ==> ListAfter(before, f, c, faults)
  }

  ghost predicate NoneHitBelow(f: File, n: nat, faults: Faults) {
    forall c :: 0 <= c < n ==> NoneHit(Victims(f, c), faults)
  }

  lemma ListsOn(start: File, before: File, f: File, c: nat, faults: Faults)
    requires ListsAfter(start, before, c, faults) && ListAfter(before, f, c, faults)
    requires before.Segs(c) == start.Segs(c) && before.size == start.size
    requires forall d :: d != c ==> f.Segs(d) == before.Segs(d)
    ensures ListsAfter(start, f, c + 1, faults)
    ensures NoneHitBelow(start, c + 1, faults) <==> NoneHitBelow(start, c, faults) && NoneHit(Victims(before, c), faults)
  {
    assert Victims(before, c) == Victims(start, c);
    forall d | 0 <= d < c ensures ListAfter(start, f, d, faults) {
      assert ListAfter(start, before, d, faults);
    }
  }

  lemma ListsDone(start: File, startId: int, f: File, nextId: int, n: nat, faults: Faults)
    requires GoodFile(start, startId) && GoodFile(f, nextId) && f.size == start.size && n == f.size / CHUNK_SIZE + 1
    requires ListsAfter(start, f, n, faults)
    ensures forall c :: ListAfter(start, f, c, faults)
    ensures NoneHitBelow(start, n, faults) <==> forall c :: NoneHit(Victims(start, c), faults)
    ensures NoneHitBelow(start, n, faults) ==> forall c :: |f.Segs(c)| <= 1
  {
    forall c ensures ListAfter(start, f, c, faults) && (NoneHitBelow(start, n, faults) ==> NoneHit(Victims(start, c), faults)) {
      if c < 0 || n <= c {
        NoSegmentsBeyond(start, startId, c);
        NoSegmentsBeyond(f, nextId, c);
      }
    }
    forall c ensures NoneHit(Victims(start, c), faults) ==> |f.Segs(c)| <= 1 {
      NoneSurvives(Victims(start, c), faults);
      assert ListAfter(start, f, c, faults);
    }
  }

  // ---------------------------------------------------------------------------------------------
  // What compaction makes of a byte
  // ---------------------------------------------------------------------------------------------

  /** Compacting chunk c with a buffer that held `was`: a byte of the chunk becomes what a read makes of it. */
  ghost predicate CompactedTo(f: File, was: seq<byte>, c: int, x: int, now: byte)
    requires f.pageSize > 0 && |was| == CHUNK_SIZE
  {
    if f.Hole(c).Covers(x) then f.ReadAs(x, was[x - c * CHUNK_SIZE], now) else now == f.Byte(x)
  }

  ghost predicate CompactedAt(before: File, was: seq<byte>, c: int, f: File, x: int)
    requires before.pageSize > 0 && f.pageSize > 0 && |was| == CHUNK_SIZE
  {
    CompactedTo(before, was, c, x, f.Byte(x))
  }

  /** Compaction reads the chunk and writes it again: it has several segments, and none spans it. */
  ghost predicate Rebuilt(f: File, c: int) {
    |f.Segs(c)| > 1 && !Spanned(f, c)
  }

  /** What the turn of chunk c leaves in the buffer: the bytes of the chunk, if it was rebuilt. */
  ghost predicate BufferAt(before: File, was: seq<byte>, c: int, f: File, buf: seq<byte>, i: int)
    requires f.pageSize > 0 && |was| == |buf| == CHUNK_SIZE
  {
    0 <= i < CHUNK_SIZE ==>
      buf[i] == if Rebuilt(before, c) && c * CHUNK_SIZE + i < before.DataEnd(c) then f.Byte(c * CHUNK_SIZE + i) else was[i]
  }

  /** A chunk that is rebuilt goes through the buffer. */
  ghost predicate Copied(before: File, was: seq<byte>, c: int, f: File, buf: seq<byte>, i: int)
    requires f.pageSize > 0 && |was| == |buf| == CHUNK_SIZE
  {
    0 <= i < CHUNK_SIZE ==>
      buf[i] == if c * CHUNK_SIZE + i < before.DataEnd(c) then f.Byte(c * CHUNK_SIZE + i) else was[i]
  }

  /** The last of the first n chunks that is rebuilt, or -1. */
  ghost function LastRebuilt(f: File, n: int): (d: int)
    ensures -1 <= d && (d < n || d == -1) && (d >= 0 ==> Rebuilt(f, d))
    decreases n
  {
    if n <= 0 then -1 else if Rebuilt(f, n - 1) then n - 1 else LastRebuilt(f, n - 1)
  }

  ghost function Bytes(f: File): int -> byte
    requires f.pageSize > 0
  {
    x => f.Byte(x)
  }

  /** What is in the buffer when the turn of chunk c comes: the chunk rebuilt last, or the zeros it was made with. */
  ghost function LeftAt(before: File, after: int -> byte, c: int, i: int): byte {
    var d := LastRebuilt(before, c);
    if d < 0 then 0 else after(d * CHUNK_SIZE + i)
  }

  /** The byte is what a read into that buffer makes of it. */
  ghost predicate Settled(before: File, after: int -> byte, x: int)
    requires before.pageSize > 0
  {
    if 0 <= x < before.size then before.ReadAs(x, LeftAt(before, after, x / CHUNK_SIZE, x % CHUNK_SIZE), after(x))
    else after(x) == before.Byte(x)
  }

  /** A byte of the first n chunks is settled, any other is as it was. */
  ghost predicate SettledUpTo(before: File, after: int -> byte, n: int, x: int)
    requires before.pageSize > 0
  {
    if x / CHUNK_SIZE < n then Settled(before, after, x) else after(x) == before.Byte(x)
  }

  /** The buffer before the turn of chunk c. */
  ghost predicate BufferLeft(before: File, after: int -> byte, c: int, buf: seq<byte>, i: int)
    requires |buf| == CHUNK_SIZE
  {
    0 <= i < CHUNK_SIZE && c * CHUNK_SIZE <= before.size ==> buf[i] == LeftAt(before, after, c, i)
  }

  /** A byte of the first n chunks is not forgotten. */
  ghost predicate Clear(f: File, n: int, x: int) {
    0 <= x < f.size && x / CHUNK_SIZE < n ==> !f.Lost(x)
  }

  /** The pages of the segments from chunk n on are as before. */
  ghost predicate LaterPages(before: File, f: File, n: int, d: int, i: int, p: int) {
    n <= d && 0 <= i < |before.Segs(d)| ==> SamePage(before, f, before.Segs(d)[i].id, p)
  }

  /** What a read makes of a byte depends on the list and the pages of its own chunk only. */
  lemma ReadAsStays(a: File, b: File, c: int, x: int, was: byte, now: byte)
    requires (a.pageSize == 0x20_0000 || a.pageSize == 0x40_0000) && a.pageSize == b.pageSize && a.size == b.size
    requires x / CHUNK_SIZE == c && a.Segs(c) == b.Segs(c) && b.ReadAs(x, was, now)
    requires forall i, p :: LaterPages(a, b, c, c, i, p)
    ensures a.ReadAs(x, was, now)
  {
    forall y | y / CHUNK_SIZE == c
      ensures a.Answered(y) == b.Answered(y) && a.OwnerId(c, y) == b.OwnerId(c, y) && a.Lost(y) == b.Lost(y)
    {
    }
    forall y | y / a.pageSize == x / a.pageSize ensures y / CHUNK_SIZE == c {
      SamePageSameChunk(a.pageSize, x, y);
    }
    forall p, y | p == x / a.pageSize ensures a.AnsweredIn(p, y) == b.AnsweredIn(p, y) {
    }
    if b.Lost(x) {
      LostReadStays(a, b, c, x, was, now);
    } else {
      ListedStored(a, b, c, x, x);
    }
  }

  lemma SamePageSameChunk(pageSize: int, x: int, y: int)
    requires (pageSize == 0x20_0000 || pageSize == 0x40_0000) && x / pageSize == y / pageSize
    ensures x / CHUNK_SIZE == y / CHUNK_SIZE
  {
    PageInChunk(pageSize, x);
    PageInChunk(pageSize, y);
    InPage(x, x / pageSize, pageSize);
    InPage(y, x / pageSize, pageSize);
  }

  /** The owner of y in the list of chunk c has the same pages in both files. */
  lemma ListedStored(a: File, b: File, c: int, y: int, x: int)
    requires a.pageSize == b.pageSize > 0 && a.Segs(c) == b.Segs(c) && a.OwnerId(c, y) == b.OwnerId(c, y)
    requires forall i, p :: LaterPages(a, b, c, c, i, p)
    ensures var id := a.OwnerId(c, y); a.Stored(id, x) == b.Stored(id, x) && (id != 0 ==> (a.Reaches(id, x) <==> b.Reaches(id, x)))
  {
    if a.OwnerId(c, y) != 0 {
      OwnerListed(a.Hole(c), a.Segs(c), y);
      var i :| 0 <= i < |a.Segs(c)| && a.Segs(c)[i].Covers(y) && a.Segs(c)[i].id == a.OwnerId(c, y);
      assert LaterPages(a, b, c, c, i, x / a.pageSize);
    }
  }

  lemma LostReadStays(a: File, b: File, c: int, x: int, was: byte, now: byte)
    requires a.pageSize == b.pageSize > 0 && a.Segs(c) == b.Segs(c) && b.LostRead(x, was, now)
    requires forall y :: y / CHUNK_SIZE == c ==> a.OwnerId(c, y) == b.OwnerId(c, y)
    requires forall y :: y / a.pageSize == x / a.pageSize ==> y / CHUNK_SIZE == c
    requires forall p, y :: p == x / a.pageSize ==> a.AnsweredIn(p, y) == b.AnsweredIn(p, y)
    requires forall i, p :: LaterPages(a, b, c, c, i, p)
    ensures a.LostRead(x, was, now)
  {
    var p := x / a.pageSize;
    assert a.ShownLater(x) == b.ShownLater(x) by {
      if a.ShownLater(x) {
        var y :| x < y && a.AnsweredIn(p, y);
        assert b.AnsweredIn(p, y);
      }
      if b.ShownLater(x) {
        var y :| x < y && b.AnsweredIn(p, y);
        assert a.AnsweredIn(p, y);
      }
    }
    if now != (if b.ShownLater(x) then 0 else was) {
      var id :| b.Sole(p, id) && b.Reaches(id, x) && now == b.Stored(id, x);
      var y :| b.AnsweredIn(p, y);
      assert a.AnsweredIn(p, y);
      ListedStored(a, b, c, y, x);
      assert a.Sole(p, id);
    }
  }

  /** The bytes of other chunks stay, and with them what is left of earlier ones. */
  lemma LeftStays(first: File, before: File, was: seq<byte>, f: File, c: nat, d: int, i: int)
    requires before.pageSize > 0 && f.pageSize > 0 && |was| == CHUNK_SIZE && 0 <= i < CHUNK_SIZE && d <= c
    requires forall x :: CompactedAt(before, was, c, f, x)
    ensures LeftAt(first, Bytes(f), d, i) == LeftAt(first, Bytes(before), d, i)
  {
    var e := LastRebuilt(first, d);
    if e >= 0 {
      assert CompactedAt(before, was, c, f, e * CHUNK_SIZE + i);
      assert e * CHUNK_SIZE + i < c * CHUNK_SIZE;
    }
  }

  /** One more chunk compacted. */
  ghost predicate Turn(first: File, before: File, was: seq<byte>, f: File, c: nat) {
    && |was| == CHUNK_SIZE && (first.pageSize == 0x20_0000 || first.pageSize == 0x40_0000)
    && f.pageSize == before.pageSize == first.pageSize && f.size == before.size == first.size
    && c * CHUNK_SIZE <= first.size && before.Segs(c) == first.Segs(c)
    && (forall x :: CompactedAt(before, was, c, f, x))
    && (forall i :: BufferLeft(first, Bytes(before), c, was, i))
    && (forall i, p :: LaterPages(first, before, c, c, i, p))
  }

  lemma SettledOn(first: File, before: File, was: seq<byte>, f: File, c: nat, next: nat, x: int)
    requires Turn(first, before, was, f, c) && next == c + 1 && SettledUpTo(first, Bytes(before), c, x)
    ensures SettledUpTo(first, Bytes(f), next, x)
  {
    var d, i := x / CHUNK_SIZE, x % CHUNK_SIZE;
    assert CompactedAt(before, was, c, f, x);
    if 0 <= x && d <= c { LeftStays(first, before, was, f, c, d, i); }
    if before.Hole(c).Covers(x) {
      assert d == c && i == x - c * CHUNK_SIZE;
      assert BufferLeft(first, Bytes(before), c, was, i);
      ReadAsStays(first, before, c, x, was[i], f.Byte(x));
    }
  }

  lemma BufferOn(first: File, before: File, was: seq<byte>, f: File, buf: seq<byte>, c: nat, next: nat, i: int)
    requires Turn(first, before, was, f, c) && next == c + 1 && |buf| == CHUNK_SIZE && BufferAt(before, was, c, f, buf, i)
    ensures BufferLeft(first, Bytes(f), next, buf, i)
  {
    assert BufferLeft(first, Bytes(before), c, was, i);
    if 0 <= i < CHUNK_SIZE { LeftStays(first, before, was, f, c, c, i); }
    BufferTurned(first, before, was, f, buf, c, next, i);
  }

  lemma BufferTurned(first: File, before: File, was: seq<byte>, f: File, buf: seq<byte>, c: nat, next: nat, i: int)
    requires f.pageSize > 0 && |was| == |buf| == CHUNK_SIZE && next == c + 1
    requires before.size == first.size && before.Segs(c) == first.Segs(c) && c * CHUNK_SIZE <= first.size
    requires 0 <= i < CHUNK_SIZE ==> was[i] == LeftAt(first, Bytes(f), c, i)
    requires BufferAt(before, was, c, f, buf, i)
    ensures BufferLeft(first, Bytes(f), next, buf, i)
  {
    if 0 <= i < CHUNK_SIZE && next * CHUNK_SIZE <= first.size {
      assert before.DataEnd(c) == c * CHUNK_SIZE + CHUNK_SIZE;
      assert Rebuilt(before, c) == Rebuilt(first, c);
      assert LastRebuilt(first, next) == if Rebuilt(first, c) then c else LastRebuilt(first, c);
    }
  }

  lemma CompactedOn(first: File, before: File, was: seq<byte>, f: File, buf: seq<byte>, c: nat, next: nat)
    requires Turn(first, before, was, f, c) && next == c + 1 && |buf| == CHUNK_SIZE
    requires (forall x :: SettledUpTo(first, Bytes(before), c, x)) && (forall i :: BufferAt(before, was, c, f, buf, i))
    ensures (forall x :: SettledUpTo(first, Bytes(f), next, x)) && (forall i :: BufferLeft(first, Bytes(f), next, buf, i))
  {
    forall x ensures SettledUpTo(first, Bytes(f), next, x) {
      SettledOn(first, before, was, f, c, next, x);
    }
    forall i ensures BufferLeft(first, Bytes(f), next, buf, i) {
      BufferOn(first, before, was, f, buf, c, next, i);
    }
  }

  lemma ClearedOn(first: File, before: File, f: File, c: nat, next: nat)
    requires next == c + 1 && f.pageSize == before.pageSize == first.pageSize && f.size == before.size == first.size
    requires (forall d :: d != c ==> f.Segs(d) == before.Segs(d)) && (forall d :: c <= d ==> before.Segs(d) == first.Segs(d))
    requires (forall x :: Clear(before, c, x)) && (forall x :: f.Hole(c).Covers(x) ==> !f.Lost(x))
    requires (forall d, i, p :: LaterPages(first, before, c, d, i, p)) && (forall d, i, p :: PagesStay(before, f, c, d, i, p))
    ensures (forall x :: Clear(f, next, x)) && (forall d, i, p :: LaterPages(first, f, next, d, i, p))
  {
    forall x ensures Clear(f, next, x) {
      assert Clear(before, c, x);
      assert 0 <= x < f.size && x / CHUNK_SIZE == c ==> f.Hole(c).Covers(x);
    }
    forall d, i, p ensures LaterPages(first, f, next, d, i, p) {
      assert LaterPages(first, before, c, d, i, p) && PagesStay(before, f, c, d, i, p);
    }
  }

  // ---------------------------------------------------------------------------------------------
  // Writing
  // ---------------------------------------------------------------------------------------------

  ghost predicate ByteIs(before: File, f: File, off: nat, data: seq<byte>, x: int)
    requires before.pageSize > 0 && f.pageSize > 0
  {
    f.Byte(x) == if off <= x < off + |data| then data[x - off] else before.Byte(x)
  }

  /** The file has the data at the offset, and its other bytes as before. */
  ghost predicate Overwritten(before: File, f: File, off: nat, data: seq<byte>)
    requires before.pageSize > 0 && f.pageSize > 0
  {
    forall x :: ByteIs(before, f, off, data, x)
  }

  lemma OverwrittenOn(a: File, b: File, c: File, off: nat, p: seq<byte>, q: seq<byte>)
    requires a.pageSize > 0 && b.pageSize > 0 && c.pageSize > 0
    requires Overwritten(a, b, off, p) && Overwritten(b, c, off + |p|, q)
    ensures Overwritten(a, c, off, p + q)
  {
    forall x ensures ByteIs(a, c, off, p + q, x) {
      assert ByteIs(a, b, off, p, x) && ByteIs(b, c, off + |p|, q, x);
    }
  }

  /** The newest segment of its chunk covers the byte. */
  ghost predicate Newly(f: File, x: int) {
    var segs := f.Segs(x / CHUNK_SIZE);
    segs != [] && segs[|segs| - 1].Covers(x)
  }

  /** Such a byte is never forgotten, whatever the older segments are. */
  lemma NewlyRemembered(f: File, x: int)
    requires Newly(f, x)
    ensures !f.Lost(x)
  {
    var c := x / CHUNK_SIZE;
    forall k ensures !ForgottenAt(f.Hole(c), f.Segs(c), x, k) {
    }
  }

  /** A write from a chunk's start on leaves the bytes before it as new as they were. */
  lemma NewlyStays(before: File, f: File, c: int, crt: int, x: int)
    requires forall d :: d != c ==> f.Segs(d) == before.Segs(d)
    requires Newly(before, x) && x < crt && crt == c * CHUNK_SIZE
    ensures Newly(f, x)
  {
    assert x / CHUNK_SIZE < c;
  }

  predicate InOneChunk(off: nat, len: nat) {
    off + len <= (off / CHUNK_SIZE + 1) * CHUNK_SIZE
  }

  /** The lists with one more segment. */
  function Listing(f: File, id: int, off: nat, len: nat): map<int, seq<ChunkSeg>> {
    f.segs[off / CHUNK_SIZE := f.Segs(off / CHUNK_SIZE) + [ChunkSeg(id, off, len)]]
  }

  /** A chunk overwritten with what was read of it. */
  lemma RebuiltBytes(before: File, was: seq<byte>, c: nat, f: File, buf: seq<byte>, n: nat)
    requires before.pageSize > 0 && f.pageSize > 0 && |was| == |buf| == CHUNK_SIZE
    requires n <= CHUNK_SIZE && c * CHUNK_SIZE + n == before.DataEnd(c)
    requires forall i :: 0 <= i < n ==> before.ReadAs(c * CHUNK_SIZE + i, was[i], buf[i])
    requires forall i :: n <= i < CHUNK_SIZE ==> buf[i] == was[i]
    requires Overwritten(before, f, c * CHUNK_SIZE, buf[..n])
    ensures forall x :: CompactedAt(before, was, c, f, x)
    ensures forall i :: Copied(before, was, c, f, buf, i)
  {
    var start := c * CHUNK_SIZE;
    forall x ensures CompactedAt(before, was, c, f, x) {
      assert ByteIs(before, f, start, buf[..n], x);
      if before.Hole(c).Covers(x) { assert before.ReadAs(start + (x - start), was[x - start], buf[x - start]); }
    }
    forall i ensures Copied(before, was, c, f, buf, i) {
      assert ByteIs(before, f, start, buf[..n], start + i);
    }
  }

  /** Bytes from s.off up to crt are in the new pages. */
  ghost predicate PagesFilled(pageSize: int, s: ChunkSeg, data: seq<byte>, np: map<(int, int), seq<byte>>, crt: int)
    requires pageSize > 0 && |data| == s.len && s.off <= crt <= s.End()
  {
    && (forall k :: k in np ==> k.0 == s.id && |np[k]| <= pageSize)
    && (forall x :: s.off <= x < crt ==> PageHolds(pageSize, s, data, np, x))
    && (forall x :: PageTidy(pageSize, s, np, crt, x))
  }

  /** One put: a page that starts at crt, or the first page, gets its part of the data. */
  lemma PutPage(pageSize: int, s: ChunkSeg, data: seq<byte>, np: map<(int, int), seq<byte>>, crt: int, end: int, p: int, page: seq<byte>)
    requires pageSize > 0 && |data| == s.len && s.off <= crt < end <= s.End()
    requires PagesFilled(pageSize, s, data, np, crt)
    requires crt == s.off || crt == p * pageSize
    requires p * pageSize <= crt < end <= (p + 1) * pageSize
    requires page == Written([], crt - p * pageSize, data[crt - s.off..end - s.off])
    ensures PagesFilled(pageSize, s, data, np[(s.id, p) := page], end)
  {
    var np' := np[(s.id, p) := page];
    forall x | s.off <= x < end ensures PageHolds(pageSize, s, data, np', x) {
      InPage(x, p, pageSize);
      if x < crt {
        assert PageHolds(pageSize, s, data, np, x);
      }
    }
    forall x ensures PageTidy(pageSize, s, np', end, x) {
      InPage(x, p, pageSize);
      assert PageTidy(pageSize, s, np, crt, x);
    }
  }

  /** One turn of the page loop: the part of the data that lies in the page of crt. */
  method PutNext(pageSize: int, s: ChunkSeg, data: seq<byte>, np: map<(int, int), seq<byte>>, crt: int)
    returns (more: map<(int, int), seq<byte>>, writeEnd: int)
    requires pageSize > 0 && |data| == s.len && s.off <= crt < s.End() && PagesFilled(pageSize, s, data, np, crt)
    requires crt == s.off || crt % pageSize == 0
    ensures crt < writeEnd <= s.End() && PagesFilled(pageSize, s, data, more, writeEnd)
    ensures writeEnd == s.End() || writeEnd % pageSize == 0
  {
    var p, pos := crt / pageSize, crt % pageSize;
    InPage(crt, p, pageSize);
    writeEnd := (p + 1) * pageSize;
    InPage(writeEnd, p + 1, pageSize);
    NextPage(p + 1, pageSize);
    if writeEnd > s.End() {
      writeEnd := s.End();
    }
    var page := Written([], pos, data[crt - s.off..writeEnd - s.off]);
    PutPage(pageSize, s, data, np, crt, writeEnd, p, page);
    more := np[(s.id, p) := page];
  }

  /**
    The page loop of a write: the data of segment s is cut at page bounds, and every byte lands in its
    page at its place.
   */
  method SplitPages(pageSize: int, s: ChunkSeg, data: seq<byte>) returns (np: map<(int, int), seq<byte>>)
    requires pageSize > 0 && 0 < |data| == s.len
    ensures PagesHold(pageSize, s, data, np)
  {
    var crt, bufEnd := s.off, s.End();
    np := map[];
    while true
      invariant s.off <= crt < bufEnd && PagesFilled(pageSize, s, data, np, crt)
      invariant crt == s.off || crt % pageSize == 0
      decreases bufEnd - crt
    {
      np, crt := PutNext(pageSize, s, data, np, crt);
      if crt == bufEnd {
        break;
      }
    }
  }

  class SegmentFile {
    var f: File
    var nextId: int

    ghost predicate Valid()
      reads this
    {
      GoodFile(f, nextId)
    }

    constructor (pageSize: int)
      requires pageSize == 0x20_0000 || pageSize == 0x40_0000
      ensures Valid() && f.pageSize == pageSize && f.size == 0 && f.segs == map[] && nextId == 1
      ensures forall x :: f.Byte(x) == 0
    {
      f := File(pageSize, 0, map[], map[]);
      nextId := 1;
    }

    /** The page loop of a write, and the commit of what it wrote as a segment of chunk c. */
    method WriteSegData(c: nat, off: nat, data: seq<byte>)
      requires Valid() && data != []
      requires c * CHUNK_SIZE <= off && off + |data| <= (c + 1) * CHUNK_SIZE
      modifies this
      ensures Valid() && nextId == old(nextId) + 1 && f.pageSize == old(f).pageSize
      ensures f.size == Max(old(f).size, off + |data|)
      ensures f.segs == old(f).segs[c := old(f).Segs(c) + [ChunkSeg(old(nextId), off, |data|)]]
      ensures Overwritten(old(f), f, off, data)
      ensures forall d, i, p :: PagesStay(old(f), f, c, d, i, p)
    {
      var seg := ChunkSeg(nextId, off, |data|);
      var np := SplitPages(f.pageSize, seg, data);
      forall x ensures ByteIs(f, Append(f, c, seg, np), off, data, x) {
        AppendByte(f, c, seg, data, np, nextId, x);
      }
      AppendGood(f, c, seg, data, np, nextId);
      forall d, i, p ensures PagesStay(f, Append(f, c, seg, np), c, d, i, p) {
        assert SegOk(f, nextId, d, i);
      }
      f, nextId := Append(f, c, seg, np), nextId + 1;
    }

    /** One turn of the chunk loop: as much of the data from n on as lies in the chunk of crt. */
    method WriteOneChunk(data: seq<byte>, crt: nat, n: nat) returns (readLen: nat)
      requires Valid() && n < |data|
      modifies this
      ensures 0 < readLen <= |data| - n && Valid() && f.pageSize == old(f).pageSize
      ensures f.size == Max(old(f).size, crt + readLen)
      ensures Overwritten(old(f), f, crt, data[n..n + readLen])
      ensures readLen < |data| - n ==> (crt + readLen) % CHUNK_SIZE == 0
      ensures forall x :: crt <= x < crt + readLen ==> Newly(f, x)
      ensures f.segs == Listing(old(f), old(nextId), crt, readLen) && nextId == old(nextId) + 1
      ensures InOneChunk(crt, |data| - n) ==> readLen == |data| - n
    {
      var index, writeEnd := crt / CHUNK_SIZE, crt + |data| - n;
      var chunkEnd := (index + 1) * CHUNK_SIZE;
      if chunkEnd > writeEnd {
        chunkEnd := writeEnd;
      }
      readLen := chunkEnd - crt;
      WriteSegData(index, crt, data[n..n + readLen]);
    }

    /** WriteAt: the written bytes, and only those, change, and the next read finds them. */
    method WriteAt(data: seq<byte>, off: nat) returns (n: nat)
      requires Valid()
      modifies this
      ensures Valid() && n == |data| && f.pageSize == old(f).pageSize
      ensures f.size == if data == [] then old(f).size else Max(old(f).size, off + |data|)
      ensures Overwritten(old(f), f, off, data)
      ensures forall x :: off <= x < off + |data| ==> Newly(f, x)
      ensures data != [] && InOneChunk(off, |data|) ==>
                f.segs == Listing(old(f), old(nextId), off, |data|) && nextId == old(nextId) + 1
    {
      n := 0;
      while n < |data|
        invariant n <= |data| && Valid() && f.pageSize == old(f).pageSize
        invariant f.size == if n == 0 then old(f).size else Max(old(f).size, off + n)
        invariant Overwritten(old(f), f, off, data[..n])
        invariant forall x :: off <= x < off + n ==> Newly(f, x)
        invariant 0 < n < |data| ==> (off + n) % CHUNK_SIZE == 0
        invariant n == 0 ==> f == old(f) && nextId == old(nextId)
        invariant 0 < n && InOneChunk(off, |data|) ==>
                    n == |data| && f.segs == Listing(old(f), old(nextId), off, |data|) && nextId == old(nextId) + 1
      {
        ghost var before, crt := f, off + n;
        var readLen := WriteOneChunk(data, off + n, n);
        OverwrittenOn(old(f), before, f, off, data[..n], data[n..n + readLen]);
        assert data[..n] + data[n..n + readLen] == data[..n + readLen];
        forall x | off <= x < crt ensures Newly(f, x) {
          NewlyStays(before, f, crt / CHUNK_SIZE, crt, x);
        }
        n := n + readLen;
      }
      assert data[..n] == data;
    }

    /** A read after a write returns what was written, whatever segments the file had. */
    method ReadBack(data: seq<byte>, off: nat) returns (dest: array<byte>)
      requires Valid() && data != []
      modifies this
      ensures dest[..] == data
    {
      var n := WriteAt(data, off);
      dest := new byte[|data|];
      var m, eof := ReadAt(f, dest, off);
      forall i | 0 <= i < |data| ensures dest[i] == data[i] {
        assert Newly(f, off + i) && ByteIs(old(f), f, off, data, off + i);
        NewlyRemembered(f, off + i);
      }
    }

    /** Deletes the data of a segment and then its row, either of which may fail. */
    method DeleteOne(c: nat, victim: ChunkSeg, faults: Faults) returns (ok: bool)
      requires Valid() && Spanned(f, c) && victim in f.Segs(c) && victim != f.Segs(c)[|f.Segs(c)| - 1]
      modifies this
      ensures Valid() && Spanned(f, c) && Unharmed(old(f), f, c)
      ensures ok <==> !faults.Hit(victim)
      ensures f.Segs(c) == if ok then Without(old(f).Segs(c), victim) else old(f).Segs(c)
      ensures f.pages == if victim.id in faults.data then old(f).pages else DropData(old(f), victim.id).pages
    {
      var k := IndexOf(f.Segs(c), victim);
      if victim.id in faults.data {
        return false;
      }
      DropUnharmed(f, nextId, c, k);
      f := DropData(f, victim.id);
      if victim.id in faults.rows {
        return false;
      }
      f := DropSeg(f, c, k);
      return true;
    }

    /**
      deleteSegmentAndData, going on with the next victim when a deletion fails. It succeeds if no deletion
      failed; the victims that failed stay listed, and wherever it fails, every byte of the file is what it was.
     */
    method DeleteSegmentAndData(c: nat, victims: seq<ChunkSeg>, faults: Faults, ghost last: ChunkSeg) returns (ok: bool)
      requires Valid() && Spanned(f, c) && f.Segs(c) == victims + [last]
      modifies this
      ensures Valid() && Spanned(f, c) && Unharmed(old(f), f, c)
      ensures ok <==> NoneHit(victims, faults)
      ensures f.Segs(c) == Surviving(victims, faults) + [last]
      ensures PagesAfter(old(f), f, victims, |victims|, faults)
    {
      AllDistinct(f, nextId, c);
      PendingStart(f, victims, last, faults);
      ok := true;
      for i := 0 to |victims|
        invariant Valid() && Spanned(f, c) && Unharmed(old(f), f, c)
        invariant Turned(old(f), f, c, victims, i, last, faults) && (ok <==> NoneHit(victims[..i], faults))
      {
        NoneHitStep(victims, i, faults);
        var done := DeleteNext(c, victims, i, faults, last, old(f));
        ok := ok && done;
      }
      assert victims[..|victims|] == victims && victims[|victims|..] == [];
    }

    method DeleteNext(c: nat, victims: seq<ChunkSeg>, i: nat, faults: Faults, ghost last: ChunkSeg, ghost start: File)
      returns (ok: bool)
      requires Valid() && Spanned(f, c) && i < |victims| && Distinct(victims + [last])
      requires start.pageSize > 0 && Unharmed(start, f, c) && Turned(start, f, c, victims, i, last, faults)
      modifies this
      ensures Valid() && Spanned(f, c) && Unharmed(start, f, c) && Turned(start, f, c, victims, i + 1, last, faults)
      ensures ok <==> !faults.Hit(victims[i])
    {
      ghost var before := f;
      PendingStep(victims, i, f.Segs(c), last, faults);
      ok := DeleteOne(c, victims[i], faults);
      UnharmedTwice(start, before, f, c);
      PagesStep(start, before, f, victims, i, faults);
    }

    /**
      One turn of the compaction loop. Every byte of the chunk becomes what a read makes of it, so that none
      changes but those forgotten before; afterwards the tree of the chunk forgets nothing.
     */
    method CompactChunk(c: nat, buf: array<byte>, faults: Faults) returns (ok: bool)
      requires Valid() && c * CHUNK_SIZE <= f.size && buf.Length == CHUNK_SIZE
      modifies this, buf
      ensures Valid() && f.pageSize == old(f).pageSize && f.size == old(f).size
      ensures forall d :: d != c ==> f.Segs(d) == old(f).Segs(d)
      ensures forall d, i, p :: PagesStay(old(f), f, c, d, i, p)
      ensures forall x :: CompactedAt(old(f), old(buf[..]), c, f, x)
      ensures forall i :: BufferAt(old(f), old(buf[..]), c, f, buf[..], i)
      ensures forall x :: f.Hole(c).Covers(x) ==> !f.Lost(x)
      ensures (ok <==> NoneHit(Victims(old(f), c), faults)) && ListAfter(old(f), f, c, faults)
    {
      var segs := f.Segs(c);
      if |segs| <= 1 {
        forall x | f.Hole(c).Covers(x) ensures !f.Lost(x) {
          NothingForgotten(f.Hole(c), segs, x);
        }
        return true;
      }
      var chunkStart, chunkEnd := c * CHUNK_SIZE, f.DataEnd(c);
      var last := segs[|segs| - 1];
      if last.off == chunkStart && last.len == chunkEnd - chunkStart {
        ok := DeleteSegmentAndData(c, segs[..|segs| - 1], faults, last);
      } else {
        ok := Replace(c, buf, faults);
        forall i ensures BufferAt(old(f), old(buf[..]), c, f, buf[..], i) {
          assert Copied(old(f), old(buf[..]), c, f, buf[..], i);
        }
      }
      forall x | f.Hole(c).Covers(x) ensures !f.Lost(x) {
        SpannedRemembers(f, c, x);
      }
    }

    /** The second branch: one segment over all of the chunk in place of the ones it had. */
    method Replace(c: nat, buf: array<byte>, faults: Faults) returns (ok: bool)
      requires Valid() && c * CHUNK_SIZE <= f.size && f.Segs(c) != [] && !Spanned(f, c) && buf.Length == CHUNK_SIZE
      modifies this, buf
      ensures Valid() && Spanned(f, c) && f.pageSize == old(f).pageSize && f.size == old(f).size
      ensures f.segs == old(f).segs[c := f.Segs(c)]
      ensures forall d, i, p :: PagesStay(old(f), f, c, d, i, p)
      ensures forall x :: CompactedAt(old(f), old(buf[..]), c, f, x)
      ensures forall i :: Copied(old(f), old(buf[..]), c, f, buf[..], i)
      ensures ok <==> NoneHit(old(f).Segs(c), faults)
      ensures f.Segs(c) == Surviving(old(f).Segs(c), faults) + [f.Segs(c)[|f.Segs(c)| - 1]]
    {
      var segs := f.Segs(c);
      ghost var was := buf[..];
      ghost var whole := Rebuild(c, buf);
      ghost var rebuilt := f;
      ok := DeleteSegmentAndData(c, segs, faults, whole);
      forall x ensures CompactedAt(old(f), was, c, f, x) {
        assert CompactedAt(old(f), was, c, rebuilt, x);
      }
      forall d, i, p ensures PagesStay(old(f), f, c, d, i, p) {
        assert PagesStay(old(f), rebuilt, c, d, i, p) && PagesStay(rebuilt, f, c, d, i, p);
      }
      forall i ensures Copied(old(f), was, c, f, buf[..], i) {
        assert Copied(old(f), was, c, rebuilt, buf[..], i);
      }
    }

    /** Reads the chunk into the shared buffer and appends what it read as one segment over all of it. */
    method Rebuild(c: nat, buf: array<byte>) returns (ghost whole: ChunkSeg)
      requires Valid() && c * CHUNK_SIZE <= f.size && f.Segs(c) != [] && !Spanned(f, c) && buf.Length == CHUNK_SIZE
      modifies this, buf
      ensures Valid() && Spanned(f, c) && f.pageSize == old(f).pageSize && f.size == old(f).size
      ensures f.Segs(c) == old(f).Segs(c) + [whole]
      ensures f.segs == old(f).segs[c := f.Segs(c)]
      ensures forall d, i, p :: PagesStay(old(f), f, c, d, i, p)
      ensures forall x :: CompactedAt(old(f), old(buf[..]), c, f, x)
      ensures forall i :: Copied(old(f), old(buf[..]), c, f, buf[..], i)
    {
      assert SegOk(f, nextId, c, |f.Segs(c)| - 1);
      var chunkStart := c * CHUNK_SIZE;
      var readN, eof := ReadAt(f, buf, chunkStart);
      whole := ChunkSeg(nextId, chunkStart, readN);
      ghost var before := f;
      WriteSegData(c, chunkStart, buf[..readN]);
      RebuiltBytes(before, old(buf[..]), c, f, buf[..], readN);
    }

    /**
      CompactChunksData: afterwards no byte of the file is forgotten, none has changed that was not
      forgotten before, and each chunk lists what could not be deleted and one segment. It succeeds exactly
      if everything could be deleted, and then no chunk has more than one segment.
     */
    method CompactChunksData(faults: Faults) returns (ok: bool)
      requires Valid()
      modifies this
      ensures Valid() && f.pageSize == old(f).pageSize && f.size == old(f).size
      ensures forall x :: Settled(old(f), Bytes(f), x)
      ensures forall x :: 0 <= x < f.size ==> !f.Lost(x)
      ensures ok <==> forall c :: NoneHit(Victims(old(f), c), faults)
      ensures forall c :: ListAfter(old(f), f, c, faults)
      ensures ok ==> forall c :: |f.Segs(c)| <= 1
      ensures faults == NO_FAULTS ==> ok
    {
      var maxChunkId := f.size / CHUNK_SIZE + 1;
      var buf := new byte[CHUNK_SIZE](_ => 0);
      ok := true;
      for cid := 0 to maxChunkId
        invariant Valid() && f.pageSize == old(f).pageSize && f.size == old(f).size
        invariant forall d :: cid <= d ==> f.Segs(d) == old(f).Segs(d)
        invariant forall x :: SettledUpTo(old(f), Bytes(f), cid, x)
        invariant forall i :: BufferLeft(old(f), Bytes(f), cid, buf[..], i)
        invariant forall x :: Clear(f, cid, x)
        invariant forall d, i, p :: LaterPages(old(f), f, cid, d, i, p)
        invariant ListsAfter(old(f), f, cid, faults) && (ok <==> NoneHitBelow(old(f), cid, faults))
      {
        ghost var before, was := f, buf[..];
        var done := CompactChunk(cid, buf, faults);
        ListsOn(old(f), before, f, cid, faults);
        ok := ok && done;
        CompactedOn(old(f), before, was, f, buf[..], cid, cid + 1);
        ClearedOn(old(f), before, f, cid, cid + 1);
      }
      forall x ensures Settled(old(f), Bytes(f), x) {
        assert SettledUpTo(old(f), Bytes(f), maxChunkId, x);
      }
      forall x | 0 <= x < f.size ensures !f.Lost(x) {
        assert Clear(f, maxChunkId, x);
      }
      ListsDone(old(f), old(nextId), f, nextId, maxChunkId, faults);
    }
  }
}
