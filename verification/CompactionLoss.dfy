/**
  When compaction changes a byte (pkg/bio/chunk.go). It copies what a read returns, so forgotten bytes
  are at risk. This module says which of them, in terms of the segment lists alone, and shows a run.
 */
module CompactionLoss {
  import opened Common
  import opened Overlay
  import opened Forgetting
  import opened MemCache
  import opened ChunkReader
  import opened ChunkFile

  // ---------------------------------------------------------------------------------------------
  // The owner of a forgotten byte does not own all that is known of its page
  // ---------------------------------------------------------------------------------------------

  /** The newest segment over a byte, if segment m or a newer one covers it. */
  lemma {:induction false} NewestFrom(hole: ChunkSeg, segs: seq<ChunkSeg>, m: nat, x: int) returns (i: nat)
    requires CoveredFrom(segs, m, x)
    ensures m <= i < |segs| && segs[i].Covers(x) && (forall j :: i < j < |segs| ==> !segs[j].Covers(x))
    ensures LastWriter(hole, segs, x) == Writer(segs[i].id, x - segs[i].off)
    decreases |segs|
  {
    var j :| m <= j < |segs| && segs[j].Covers(x);
    if segs[|segs| - 1].Covers(x) {
      i := |segs| - 1;
    } else {
      var less := segs[..|segs| - 1];
      assert less[j] == segs[j];
      i := NewestFrom(hole, less, m, x);
    }
    LastWriterIsNewest(hole, segs, x, i);
  }

  /** The index of the owner of a byte. */
  lemma OwnerIndex(f: File, nextId: int, c: int, x: int) returns (i: nat)
    requires GoodFile(f, nextId) && f.OwnerId(c, x) != 0
    ensures i < |f.Segs(c)| && f.Segs(c)[i].id == f.OwnerId(c, x) && f.Segs(c)[i].Covers(x)
    ensures forall j :: i < j < |f.Segs(c)| ==> !f.Segs(c)[j].Covers(x)
  {
    OwnerListed(f.Hole(c), f.Segs(c), x);
    i := NewestFrom(f.Hole(c), f.Segs(c), 0, x);
  }

  lemma NoneEmptyIn(f: File, nextId: int, c: int)
    requires GoodFile(f, nextId)
    ensures NoneEmpty(f.Segs(c))
  {
    forall j | 0 <= j < |f.Segs(c)| ensures f.Segs(c)[j].len > 0 {
      assert SegOk(f, nextId, c, j);
    }
  }

  /** A known byte under a segment newer than i has another owner than segment i. */
  lemma NewerOwner(f: File, nextId: int, c: int, i: nat, z: int)
    requires GoodFile(f, nextId) && i < |f.Segs(c)| && NewerKnown(f.Hole(c), f.Segs(c), i, z)
    ensures f.OwnerId(c, z) != f.Segs(c)[i].id
  {
    var j := NewestFrom(f.Hole(c), f.Segs(c), i + 1, z);
    assert IdsDiffer(f, c, i, c, j);
  }

  lemma SoleIsNotOwner(f: File, nextId: int, c: int, x: int)
    requires GoodFile(f, nextId) && f.Hole(c).Covers(x) && f.Lost(x) && f.OwnerId(c, x) != 0
    ensures !f.Sole(x / f.pageSize, f.OwnerId(c, x))
  {
    var p, o := x / f.pageSize, f.OwnerId(c, x);
    if f.Sole(p, o) {
      var y :| f.AnsweredIn(p, y);
      var z := NewerBetween(f, nextId, c, x, y);
    }
  }

  /** Between a forgotten byte and a known one of the same owner lies a known one of another owner. */
  lemma NewerBetween(f: File, nextId: int, c: int, x: int, y: int) returns (z: int)
    requires GoodFile(f, nextId) && f.Hole(c).Covers(x) && f.Lost(x) && f.OwnerId(c, x) != 0
    requires f.AnsweredIn(x / f.pageSize, y) && f.OwnerId(y / CHUNK_SIZE, y) == f.OwnerId(c, x)
    ensures f.AnsweredIn(x / f.pageSize, z) && f.OwnerId(z / CHUNK_SIZE, z) != f.OwnerId(c, x)
  {
    var hole, segs := f.Hole(c), f.Segs(c);
    assert x / CHUNK_SIZE == c;
    SamePageSameChunk(f.pageSize, x, y);
    AnswerUnlessForgotten(hole, segs, x);
    AnswerUnlessForgotten(hole, segs, y);
    NoneEmptyIn(f, nextId, c);
    var i := OwnerIndex(f, nextId, c, x);
    var j := OwnerIndex(f, nextId, c, y);
    assert IdsDiffer(f, c, i, c, j);
    if x < y {
      KnownToTheRight(hole, segs, i, x, y);
      z :| x < z < y && NewerKnown(hole, segs, i, z);
    } else {
      KnownToTheLeft(hole, segs, i, x, y);
      z :| y < z < x && NewerKnown(hole, segs, i, z);
    }
    NewerOwner(f, nextId, c, i, z);
    Between(f.pageSize, x, y, z);
    SamePageSameChunk(f.pageSize, x, z);
    AnswerUnlessForgotten(hole, segs, z);
    var k := NewestFrom(hole, segs, i + 1, z);
  }

  lemma Between(pageSize: int, x: int, y: int, z: int)
    requires pageSize > 0 && x / pageSize == y / pageSize && (x <= z <= y || y <= z <= x)
    ensures z / pageSize == x / pageSize
  {
    InPage(x, x / pageSize, pageSize);
    InPage(y, x / pageSize, pageSize);
    InPage(z, x / pageSize, pageSize);
  }

  // ---------------------------------------------------------------------------------------------
  // Which bytes compaction may change
  // ---------------------------------------------------------------------------------------------

  /** A forgotten byte that somebody wrote, or behind which nothing is known of its page. */
  ghost predicate Exposed(f: File, c: int, x: int)
    requires f.pageSize > 0
  {
    f.Hole(c).Covers(x) && f.Lost(x) && (f.OwnerId(c, x) != 0 || !f.ShownLater(x))
  }

  /** The same lists, with whatever else in the store. */
  ghost predicate SameLists(f: File, g: File, nextId: int) {
    g.pageSize == f.pageSize && g.size == f.size && g.segs == f.segs && GoodFile(g, nextId)
  }

  /** The bytes after compacting chunk c, one of the outcomes that the code may have. */
  ghost predicate Outcome(g: File, was: seq<byte>, c: int, after: int -> byte)
    requires g.pageSize > 0
  {
    |was| == CHUNK_SIZE && forall x :: CompactedTo(g, was, c, x, after(x))
  }

  predicate Zeros(was: seq<byte>) {
    forall i :: 0 <= i < |was| ==> was[i] == 0
  }

  ghost predicate SameBytes(g: File, after: int -> byte)
    requires g.pageSize > 0
  {
    forall x :: after(x) == g.Byte(x)
  }

  lemma CoveredHasOwner(f: File, nextId: int, c: int, i: nat, x: int)
    requires GoodFile(f, nextId) && i < |f.Segs(c)|
    ensures f.Segs(c)[i].Covers(x) ==> f.OwnerId(c, x) != 0
  {
    if f.Segs(c)[i].Covers(x) {
      assert CoveredFrom(f.Segs(c), 0, x);
      var j := NewestFrom(f.Hole(c), f.Segs(c), 0, x);
      assert SegOk(f, nextId, c, j);
    }
  }

  /** A segment that owns something in a page and does not cover a byte of it holds zero there, or ends before. */
  lemma SoleNotOver(f: File, nextId: int, c: int, x: int, id: int)
    requires GoodFile(f, nextId) && f.Hole(c).Covers(x) && f.Lost(x) && f.OwnerId(c, x) == 0 && f.Sole(x / f.pageSize, id)
    ensures f.Stored(id, x) == 0 && (f.Reaches(id, x) ==> f.ShownLater(x))
  {
    var y :| f.AnsweredIn(x / f.pageSize, y);
    assert x / CHUNK_SIZE == c;
    SamePageSameChunk(f.pageSize, x, y);
    AnswerUnlessForgotten(f.Hole(c), f.Segs(c), x);
    var i := OwnerIndex(f, nextId, c, y);
    assert SegOk(f, nextId, c, i) && Tidy(f, c, i, x);
    CoveredHasOwner(f, nextId, c, i, x);
    if f.Reaches(id, x) { assert x < y; }
  }

  lemma SoleIsZero(f: File, nextId: int, c: int, x: int)
    requires GoodFile(f, nextId) && f.Hole(c).Covers(x) && f.Lost(x) && f.OwnerId(c, x) == 0
    ensures forall id :: f.Sole(x / f.pageSize, id) ==> f.Stored(id, x) == 0 && (f.Reaches(id, x) ==> f.ShownLater(x))
  {
    forall id | f.Sole(x / f.pageSize, id) ensures f.Stored(id, x) == 0 && (f.Reaches(id, x) ==> f.ShownLater(x)) {
      SoleNotOver(f, nextId, c, x, id);
    }
  }

  /** If no byte is exposed, every outcome has all the bytes, whatever is stored and whatever the buffer held. */
  lemma UnexposedKeeps(f: File, nextId: int, c: int, g: File, was: seq<byte>, after: int -> byte)
    requires GoodFile(f, nextId) && (forall x :: !Exposed(f, c, x)) && SameLists(f, g, nextId) && Outcome(g, was, c, after)
    ensures SameBytes(g, after)
  {
    forall x ensures after(x) == g.Byte(x) {
      assert CompactedTo(g, was, c, x, after(x));
      if g.Hole(c).Covers(x) && g.Lost(x) {
        assert x / CHUNK_SIZE == c;
        assert !Exposed(f, c, x);
        SameShown(f, g, x);
        SoleIsZero(g, nextId, c, x);
      }
    }
  }

  lemma SameShown(f: File, g: File, x: int)
    requires f.pageSize == g.pageSize > 0 && f.size == g.size && f.segs == g.segs
    ensures f.ShownLater(x) <==> g.ShownLater(x)
  {
    forall p, y ensures f.AnsweredIn(p, y) == g.AnsweredIn(p, y) {
    }
    if f.ShownLater(x) {
      var y :| x < y && f.AnsweredIn(x / f.pageSize, y);
      assert g.AnsweredIn(x / g.pageSize, y);
    }
    if g.ShownLater(x) {
      var y :| x < y && g.AnsweredIn(x / g.pageSize, y);
      assert f.AnsweredIn(x / f.pageSize, y);
    }
  }

  /** The same file with ones in segment s and zeros in all others. */
  function Repainted(f: File, s: ChunkSeg): File {
    f.(pages := map k | k in f.pages :: Paint(f.pageSize, s, k, |f.pages[k]|))
  }

  function Paint(pageSize: int, s: ChunkSeg, k: (int, int), n: nat): seq<byte> {
    seq(n, i => if k.0 == s.id && s.Covers(k.1 * pageSize + i) then 1 else 0)
  }

  lemma PaintedByte(f: File, s: ChunkSeg, id: int, x: int)
    requires f.pageSize > 0
    ensures f.Reaches(id, x) <==> Repainted(f, s).Reaches(id, x)
    ensures Repainted(f, s).Stored(id, x) == if id == s.id && id != 0 && s.Covers(x) && f.Reaches(id, x) then 1 else 0
  {
    InPage(x, x / f.pageSize, f.pageSize);
  }

  lemma RepaintedGood(f: File, nextId: int, c: int, i: nat)
    requires GoodFile(f, nextId) && i < |f.Segs(c)|
    ensures GoodFile(Repainted(f, f.Segs(c)[i]), nextId)
  {
    var s := f.Segs(c)[i];
    var g := Repainted(f, s);
    forall d, x ensures g.OwnerStored(d, x) {
      assert f.OwnerStored(d, x) && f.OwnerId(d, x) == g.OwnerId(d, x);
    }
    forall d, j ensures SegOk(g, nextId, d, j) {
      assert SegOk(f, nextId, d, j);
    }
    forall d, j, e, k ensures IdsDiffer(g, d, j, e, k) {
      assert IdsDiffer(f, d, j, e, k);
    }
    forall d, j, x ensures Tidy(g, d, j, x) {
      if 0 <= j < |f.Segs(d)| {
        assert Tidy(f, d, j, x) && IdsDiffer(f, c, i, d, j);
        PaintedByte(f, s, f.Segs(d)[j].id, x);
      }
    }
  }

  /** The bytes of other chunks are zero in the repainted file. */
  lemma PaintedElsewhere(f: File, nextId: int, c: int, i: nat, d: int, x: int)
    requires GoodFile(f, nextId) && i < |f.Segs(c)| && d != c && x / CHUNK_SIZE == d
    ensures Repainted(f, f.Segs(c)[i]).Byte(x) == 0
  {
    var s := f.Segs(c)[i];
    var g := Repainted(f, s);
    var id := f.OwnerId(d, x);
    assert g.OwnerId(d, x) == id;
    PaintedByte(f, s, id, x);
    if id != 0 {
      var j := OwnerIndex(f, nextId, d, x);
      assert IdsDiffer(f, c, i, d, j);
    }
  }

  /** A written byte that is exposed: with ones in its owner and zeros elsewhere it becomes zero. */
  lemma WrittenBreaks(f: File, nextId: int, c: int, x: int) returns (g: File, was: seq<byte>)
    requires GoodFile(f, nextId) && Exposed(f, c, x) && f.OwnerId(c, x) != 0
    ensures SameLists(f, g, nextId) && |was| == CHUNK_SIZE && Zeros(was)
    ensures forall y :: y / CHUNK_SIZE != c ==> g.Byte(y) == 0
    ensures forall now :: CompactedTo(g, was, c, x, now) ==> now != g.Byte(x)
  {
    var i := OwnerIndex(f, nextId, c, x);
    var s := f.Segs(c)[i];
    g, was := Repainted(f, s), seq(CHUNK_SIZE, _ => 0);
    assert x / CHUNK_SIZE == c && f.OwnerStored(c, x) && SegOk(f, nextId, c, i);
    RepaintedGood(f, nextId, c, i);
    PaintedByte(f, s, s.id, x);
    assert g.OwnerId(c, x) == s.id && g.Byte(x) == 1;
    SoleIsNotOwner(g, nextId, c, x);
    forall y | y / CHUNK_SIZE != c ensures g.Byte(y) == 0 {
      PaintedElsewhere(f, nextId, c, i, y / CHUNK_SIZE, y);
    }
    forall id | g.Sole(x / g.pageSize, id) ensures g.Stored(id, x) == 0 {
      PaintedByte(f, s, id, x);
    }
  }

  /** An unwritten one: it becomes what the buffer held. */
  lemma UnwrittenBreaks(f: File, nextId: int, c: int, x: int) returns (was: seq<byte>)
    requires GoodFile(f, nextId) && Exposed(f, c, x) && f.OwnerId(c, x) == 0
    ensures |was| == CHUNK_SIZE && forall now :: CompactedTo(f, was, c, x, now) ==> now != f.Byte(x)
  {
    was := seq(CHUNK_SIZE, _ => 1);
    assert x / CHUNK_SIZE == c && f.Byte(x) == 0;
    SoleIsZero(f, nextId, c, x);
  }

  /** For an exposed byte there are stored contents and a buffer such that every outcome changes it. */
  lemma ExposedChanges(f: File, nextId: int, c: int, x: int) returns (g: File, was: seq<byte>)
    requires GoodFile(f, nextId) && Exposed(f, c, x)
    ensures SameLists(f, g, nextId) && |was| == CHUNK_SIZE
    ensures forall now :: CompactedTo(g, was, c, x, now) ==> now != g.Byte(x)
  {
    if f.OwnerId(c, x) != 0 {
      g, was := WrittenBreaks(f, nextId, c, x);
    } else {
      g := f;
      was := UnwrittenBreaks(f, nextId, c, x);
    }
  }

  /** One outcome: pages that are merged whenever they may be. */
  ghost function Merging(g: File, was: seq<byte>, c: int, x: int): byte {
    if g.pageSize <= 0 || |was| != CHUNK_SIZE then 0
    else if !g.Hole(c).Covers(x) || !g.Lost(x) then g.Byte(x)
    else if g.ShownLater(x) then 0 else was[x - c * CHUNK_SIZE]
  }

  ghost function Merged(g: File, was: seq<byte>, c: int): int -> byte {
    x => Merging(g, was, c, x)
  }

  lemma MergedIsOutcome(g: File, was: seq<byte>, c: int)
    requires g.pageSize > 0 && |was| == CHUNK_SIZE
    ensures Outcome(g, was, c, Merged(g, was, c))
  {
  }

  lemma ExposedBreaks(f: File, nextId: int, c: int, x: int) returns (g: File, was: seq<byte>, after: int -> byte)
    requires GoodFile(f, nextId) && Exposed(f, c, x)
    ensures SameLists(f, g, nextId) && Outcome(g, was, c, after) && !SameBytes(g, after)
  {
    g, was := ExposedChanges(f, nextId, c, x);
    after := Merged(g, was, c);
    MergedIsOutcome(g, was, c);
    assert CompactedTo(g, was, c, x, after(x));
  }

  /**
    Compaction of a chunk keeps every byte, whatever its segments hold and whatever is left in the buffer,
    if and only if no byte of the chunk is exposed.
   */
  lemma CompactionKeepsIff(f: File, nextId: int, c: int)
    requires GoodFile(f, nextId)
    ensures (forall x :: !Exposed(f, c, x)) <==>
            forall g, was, after :: SameLists(f, g, nextId) && Outcome(g, was, c, after) ==> SameBytes(g, after)
  {
    if forall x :: !Exposed(f, c, x) {
      forall g, was, after | SameLists(f, g, nextId) && Outcome(g, was, c, after) ensures SameBytes(g, after) {
        UnexposedKeeps(f, nextId, c, g, was, after);
      }
    } else {
      var x :| Exposed(f, c, x);
      var g, was, after := ExposedBreaks(f, nextId, c, x);
    }
  }

  /** A forgotten byte that somebody wrote. */
  ghost predicate WrittenLost(f: File, c: int, x: int) {
    f.Hole(c).Covers(x) && f.Lost(x) && f.OwnerId(c, x) != 0
  }

  lemma UnwrittenKept(g: File, nextId: int, c: int, x: int, now: byte)
    requires GoodFile(g, nextId) && g.Hole(c).Covers(x) && g.Lost(x) && g.OwnerId(c, x) == 0 && g.LostRead(x, 0, now)
    ensures now == g.Byte(x)
  {
    assert x / CHUNK_SIZE == c;
    SoleIsZero(g, nextId, c, x);
  }

  /**
    With the zeros that the buffer is made with, as for the first chunk that is rebuilt: compaction of the
    chunk keeps every byte, whatever its segments hold, if and only if no byte was written and forgotten.
   */
  lemma FreshBufferKeepsIff(f: File, nextId: int, c: int)
    requires GoodFile(f, nextId)
    ensures (forall x :: !WrittenLost(f, c, x)) <==>
            forall g, was, after :: SameLists(f, g, nextId) && Zeros(was) && Outcome(g, was, c, after) ==> SameBytes(g, after)
  {
    if forall x :: !WrittenLost(f, c, x) {
      forall g, was, after | SameLists(f, g, nextId) && Zeros(was) && Outcome(g, was, c, after) ensures SameBytes(g, after) {
        forall x ensures after(x) == g.Byte(x) {
          assert CompactedTo(g, was, c, x, after(x)) && !WrittenLost(f, c, x);
          if g.Hole(c).Covers(x) && g.Lost(x) { UnwrittenKept(g, nextId, c, x, after(x)); }
        }
      }
    } else {
      var x :| WrittenLost(f, c, x);
      assert Exposed(f, c, x);
      var g, was := WrittenBreaks(f, nextId, c, x);
      MergedIsOutcome(g, was, c);
      assert CompactedTo(g, was, c, x, Merged(g, was, c)(x));
      assert !SameBytes(g, Merged(g, was, c));
    }
  }

  // ---------------------------------------------------------------------------------------------
  // The whole file
  // ---------------------------------------------------------------------------------------------

  /** When the turn of its chunk comes, the buffer holds a written byte of an earlier chunk in its place. */
  ghost predicate Stale(f: File, x: int) {
    var d := LastRebuilt(f, x / CHUNK_SIZE);
    d >= 0 && f.OwnerId(d, d * CHUNK_SIZE + x % CHUNK_SIZE) != 0
  }

  /** A forgotten byte that somebody wrote, or that takes on a stale byte of the buffer. */
  ghost predicate AtRisk(f: File, x: int)
    requires f.pageSize > 0
  {
    0 <= x < f.size && f.Lost(x) && (f.OwnerId(x / CHUNK_SIZE, x) != 0 || (!f.ShownLater(x) && Stale(f, x)))
  }

  /** The bytes after CompactChunksData, one of the outcomes that the code may have. */
  ghost predicate FileOutcome(g: File, after: int -> byte)
    requires g.pageSize > 0
  {
    forall x :: Settled(g, after, x)
  }

  lemma {:induction false} SameRebuilt(f: File, g: File, n: int)
    requires f.size == g.size && f.segs == g.segs
    ensures LastRebuilt(f, n) == LastRebuilt(g, n)
    decreases n
  {
    if n > 0 {
      assert Rebuilt(f, n - 1) == Rebuilt(g, n - 1);
      SameRebuilt(f, g, n - 1);
    }
  }

  lemma SameRisk(f: File, g: File, x: int)
    requires f.pageSize == g.pageSize > 0 && f.size == g.size && f.segs == g.segs
    ensures AtRisk(f, x) <==> AtRisk(g, x)
  {
    SameShown(f, g, x);
    SameRebuilt(f, g, x / CHUNK_SIZE);
  }

  /** Without a byte at risk every outcome has every byte. */
  lemma {:induction false} SafeByte(g: File, nextId: int, after: int -> byte, x: int)
    requires GoodFile(g, nextId) && (forall y :: !AtRisk(g, y)) && FileOutcome(g, after)
    ensures after(x) == g.Byte(x)
    decreases if x < 0 then 0 else x
  {
    assert Settled(g, after, x) && !AtRisk(g, x);
    var c, i := x / CHUNK_SIZE, x % CHUNK_SIZE;
    var d := LastRebuilt(g, c);
    if 0 <= x < g.size && g.Lost(x) {
      assert g.Hole(c).Covers(x);
      if g.ShownLater(x) {
        UnwrittenKept(g, nextId, c, x, after(x));
      } else {
        if d >= 0 { SafeByte(g, nextId, after, d * CHUNK_SIZE + i); UnwrittenZero(g, d, i); }
        UnwrittenKept(g, nextId, c, x, after(x));
      }
    }
  }

  lemma UnwrittenZero(g: File, d: int, i: int)
    requires g.pageSize > 0 && 0 <= i < CHUNK_SIZE && g.OwnerId(d, d * CHUNK_SIZE + i) == 0
    ensures g.Byte(d * CHUNK_SIZE + i) == 0
  {
    assert (d * CHUNK_SIZE + i) / CHUNK_SIZE == d;
  }

  /** An outcome: pages that are merged whenever they may be. */
  ghost function MergedByte(g: File, x: int): byte
    requires g.pageSize > 0
    decreases if x < 0 then 0 else x
  {
    if !(0 <= x < g.size) || !g.Lost(x) then g.Byte(x)
    else if g.ShownLater(x) then 0
    else
      var d := LastRebuilt(g, x / CHUNK_SIZE);
      if d < 0 then 0 else MergedByte(g, d * CHUNK_SIZE + x % CHUNK_SIZE)
  }

  ghost function MergedFile(g: File): int -> byte
    requires g.pageSize > 0
  {
    x => MergedByte(g, x)
  }

  lemma MergedFileIsOutcome(g: File)
    requires g.pageSize > 0
    ensures FileOutcome(g, MergedFile(g))
  {
    forall x ensures Settled(g, MergedFile(g), x) {
    }
  }

  /** A written byte at risk: with ones in its owner and zeros elsewhere it becomes zero, or another byte changes. */
  lemma WrittenRisk(f: File, nextId: int, x: int) returns (g: File)
    requires GoodFile(f, nextId) && AtRisk(f, x) && f.OwnerId(x / CHUNK_SIZE, x) != 0
    ensures SameLists(f, g, nextId) && forall after :: FileOutcome(g, after) ==> !SameBytes(g, after)
  {
    var c, i := x / CHUNK_SIZE, x % CHUNK_SIZE;
    assert f.Hole(c).Covers(x);
    var was;
    g, was := WrittenBreaks(f, nextId, c, x);
    var d := LastRebuilt(g, c);
    assert d >= 0 ==> (d * CHUNK_SIZE + i) / CHUNK_SIZE == d;
    forall after | FileOutcome(g, after) ensures !SameBytes(g, after) {
      assert Settled(g, after, x);
      if d < 0 || after(d * CHUNK_SIZE + i) == g.Byte(d * CHUNK_SIZE + i) {
        assert CompactedTo(g, was, c, x, after(x));
      }
    }
  }

  /** The file with ones in the owner of y has a one at y, and zeros where nobody wrote. */
  lemma OwnerPainted(f: File, nextId: int, d: int, y: int) returns (g: File)
    requires GoodFile(f, nextId) && y / CHUNK_SIZE == d && f.OwnerId(d, y) != 0
    ensures SameLists(f, g, nextId) && g.Byte(y) == 1
    ensures forall c, x :: g.OwnerId(c, x) == f.OwnerId(c, x)
  {
    var i := OwnerIndex(f, nextId, d, y);
    var s := f.Segs(d)[i];
    g := Repainted(f, s);
    RepaintedGood(f, nextId, d, i);
    assert f.OwnerStored(d, y) && SegOk(f, nextId, d, i);
    PaintedByte(f, s, s.id, y);
    assert g.OwnerId(d, y) == s.id;
  }

  /** A stale one: with ones where the buffer comes from it becomes one, or another byte changes. */
  lemma StaleRisk(f: File, nextId: int, x: int) returns (g: File)
    requires GoodFile(f, nextId) && AtRisk(f, x) && f.OwnerId(x / CHUNK_SIZE, x) == 0
    ensures SameLists(f, g, nextId) && forall after :: FileOutcome(g, after) ==> !SameBytes(g, after)
  {
    var c, d := x / CHUNK_SIZE, LastRebuilt(f, x / CHUNK_SIZE);
    var y := d * CHUNK_SIZE + x % CHUNK_SIZE;
    g := OwnerPainted(f, nextId, d, y);
    SameShown(f, g, x);
    SameRebuilt(f, g, c);
    forall after | FileOutcome(g, after) ensures !SameBytes(g, after) {
      assert Settled(g, after, x);
      if after(y) == 1 { StaleRead(g, nextId, c, x, after(x)); }
    }
  }

  lemma StaleRead(g: File, nextId: int, c: int, x: int, now: byte)
    requires GoodFile(g, nextId) && g.Hole(c).Covers(x) && g.Lost(x) && g.OwnerId(c, x) == 0 && !g.ShownLater(x)
    requires g.ReadAs(x, 1, now)
    ensures now == 1 != g.Byte(x)
  {
    assert x / CHUNK_SIZE == c;
    SoleIsZero(g, nextId, c, x);
  }

  /**
    CompactChunksData keeps every byte of the file, whatever its segments hold, if and only if no byte is at
    risk: none was written and forgotten, and no forgotten one takes on a byte that an earlier chunk has
    left in the buffer.
   */
  lemma FileKeepsIff(f: File, nextId: int)
    requires GoodFile(f, nextId)
    ensures (forall x :: !AtRisk(f, x)) <==>
            forall g, after :: SameLists(f, g, nextId) && FileOutcome(g, after) ==> SameBytes(g, after)
  {
    if forall x :: !AtRisk(f, x) {
      forall g, after | SameLists(f, g, nextId) && FileOutcome(g, after) ensures SameBytes(g, after) {
        SafeFile(f, g, nextId, after);
      }
    } else {
      var x :| AtRisk(f, x);
      var g;
      if f.OwnerId(x / CHUNK_SIZE, x) != 0 {
        g := WrittenRisk(f, nextId, x);
      } else {
        g := StaleRisk(f, nextId, x);
      }
      MergedFileIsOutcome(g);
      assert !SameBytes(g, MergedFile(g));
    }
  }

  lemma SafeFile(f: File, g: File, nextId: int, after: int -> byte)
    requires (f.pageSize > 0) && (forall x :: !AtRisk(f, x)) && SameLists(f, g, nextId) && FileOutcome(g, after)
    ensures SameBytes(g, after)
  {
    forall y ensures !AtRisk(g, y) {
      SameRisk(f, g, y);
    }
    forall x ensures after(x) == g.Byte(x) {
      SafeByte(g, nextId, after, x);
    }
  }

  /** So it is for the code: a file without a byte at risk is compacted without a change. */
  method CompactSafely(file: SegmentFile, faults: Faults) returns (ok: bool)
    requires file.Valid()
    modifies file
    ensures file.Valid() && (ok ==> forall c :: |file.f.Segs(c)| <= 1) && (faults == NO_FAULTS ==> ok)
    ensures (forall x :: !AtRisk(old(file.f), x)) ==> forall x :: file.f.Byte(x) == old(file.f).Byte(x)
  {
    ghost var f, nextId := file.f, file.nextId;
    ok := file.CompactChunksData(faults);
    if forall x :: !AtRisk(f, x) {
      SafeFile(f, f, nextId, Bytes(file.f));
      forall x ensures file.f.Byte(x) == f.Byte(x) {
        assert Bytes(file.f)(x) == f.Byte(x);
      }
    }
  }
}
