/** Two runs in which compaction changes a byte, one for each way in which a byte can be at risk. */
module CompactionRuns {
  import opened Common
  import opened Overlay
  import opened Forgetting
  import opened MemCache
  import opened ChunkReader
  import opened ChunkFile
  import opened ChunkIndex

  // ---------------------------------------------------------------------------------------------
  // Writing ones
  // ---------------------------------------------------------------------------------------------

  function Ones(n: nat): seq<byte> {
    seq(n, _ => 1)
  }

  ghost predicate Covered(segs: seq<ChunkSeg>, x: int) {
    exists i :: 0 <= i < |segs| && segs[i].Covers(x)
  }

  /** Ones have been written to the first n segments. */
  ghost predicate Painted(before: File, f: File, segs: seq<ChunkSeg>, n: nat, x: int)
    requires before.pageSize > 0 && f.pageSize > 0 && n <= |segs|
  {
    f.Byte(x) == if Covered(segs[..n], x) then 1 else before.Byte(x)
  }

  lemma PaintedOn(before: File, f: File, f': File, segs: seq<ChunkSeg>, n: nat, x: int)
    requires before.pageSize > 0 && f.pageSize > 0 && f'.pageSize > 0 && n < |segs| && 0 <= segs[n].off
    requires Painted(before, f, segs, n, x) && ByteIs(f, f', segs[n].off, Ones(segs[n].len), x)
    ensures Painted(before, f', segs, n + 1, x)
  {
    var more := segs[..n + 1];
    if Covered(segs[..n], x) {
      var i :| 0 <= i < n && segs[..n][i].Covers(x);
      assert more[i].Covers(x);
    }
    if segs[n].Covers(x) { assert more[n].Covers(x); }
    if Covered(more, x) && !segs[n].Covers(x) {
      var i :| 0 <= i < n + 1 && more[i].Covers(x);
      assert segs[..n][i].Covers(x);
    }
  }

  /** Segments to be written to chunk c, and the ids that they will get. */
  predicate Writable(c: nat, segs: seq<ChunkSeg>, nextId: int) {
    forall i :: 0 <= i < |segs| ==>
      && segs[i].id == nextId + i && segs[i].len > 0
      && c * CHUNK_SIZE <= segs[i].off && segs[i].End() <= (c + 1) * CHUNK_SIZE
  }

  ghost predicate SizeIs(before: File, f: File, segs: seq<ChunkSeg>) {
    && before.size <= f.size && (forall i :: 0 <= i < |segs| ==> segs[i].End() <= f.size)
    && (f.size == before.size || exists i :: 0 <= i < |segs| && segs[i].End() == f.size)
  }

  predicate SameList(before: File, f: File, d: int) {
    f.Segs(d) == before.Segs(d)
  }

  /** The first n writes are done. */
  ghost predicate Written(before: File, f: File, c: nat, segs: seq<ChunkSeg>, n: nat) {
    && n <= |segs| && before.pageSize == f.pageSize > 0
    && f.Segs(c) == segs[..n] && (forall d :: d != c ==> SameList(before, f, d))
    && SizeIs(before, f, segs[..n]) && (forall x :: Painted(before, f, segs, n, x))
  }

  lemma WrittenOn(before: File, f: File, f': File, c: nat, segs: seq<ChunkSeg>, n: nat, next: nat)
    requires Written(before, f, c, segs, n) && n < |segs| && next == n + 1
    requires segs[n].len > 0 && c * CHUNK_SIZE <= segs[n].off < (c + 1) * CHUNK_SIZE && f'.pageSize == f.pageSize
    requires f'.segs == Listing(f, segs[n].id, segs[n].off, segs[n].len)
    requires f'.size == Max(f.size, segs[n].End()) && Overwritten(f, f', segs[n].off, Ones(segs[n].len))
    ensures Written(before, f', c, segs, next)
  {
    assert segs[n].off / CHUNK_SIZE == c && segs[..next] == segs[..n] + [segs[n]];
    forall x ensures Painted(before, f', segs, next, x) {
      assert ByteIs(f, f', segs[n].off, Ones(segs[n].len), x);
      PaintedOn(before, f, f', segs, n, x);
    }
    forall d | d != c ensures SameList(before, f', d) {
      assert SameList(before, f, d);
    }
    SizeOn(before, f, f', segs, n);
  }

  lemma SizeOn(before: File, f: File, f': File, segs: seq<ChunkSeg>, n: nat)
    requires n < |segs| && SizeIs(before, f, segs[..n]) && f'.size == Max(f.size, segs[n].End())
    ensures SizeIs(before, f', segs[..n + 1])
  {
    var more := segs[..n + 1];
    assert more[n] == segs[n] && forall i :: 0 <= i < n ==> more[i] == segs[..n][i];
    if f'.size == f.size && f.size != before.size {
      var i :| 0 <= i < n && segs[..n][i].End() == f.size;
      assert more[i].End() == f'.size;
    }
  }

  /** Writes ones to an empty chunk, one write for each segment. */
  method WriteOnes(file: SegmentFile, c: nat, segs: seq<ChunkSeg>)
    requires file.Valid() && file.f.Segs(c) == [] && Writable(c, segs, file.nextId)
    modifies file
    ensures file.Valid() && file.nextId == old(file.nextId) + |segs| && Written(old(file.f), file.f, c, segs, |segs|)
  {
    for n := 0 to |segs|
      invariant file.Valid() && file.nextId == old(file.nextId) + n && Written(old(file.f), file.f, c, segs, n)
    {
      ghost var f := file.f;
      var m := file.WriteAt(Ones(segs[n].len), segs[n].off);
      WrittenOn(old(file.f), f, file.f, c, segs, n, n + 1);
    }
  }

  /** What such writes leave, for the segment i that ends last. */
  lemma WrittenFacts(before: File, f: File, c: nat, segs: seq<ChunkSeg>, i: nat, x: int)
    requires Written(before, f, c, segs, |segs|) && i < |segs| && before.size <= segs[i].End()
    requires forall j :: 0 <= j < |segs| ==> segs[j].End() <= segs[i].End()
    ensures f.Segs(c) == segs && f.size == segs[i].End()
    ensures f.Byte(x) == if Covered(segs, x) then 1 else before.Byte(x)
  {
    assert segs[..|segs|] == segs;
    assert Painted(before, f, segs, |segs|, x);
  }

  // ---------------------------------------------------------------------------------------------
  // A byte that was written and forgotten
  // ---------------------------------------------------------------------------------------------

  lemma ExampleLost(f: File)
    requires (f.pageSize == 0x20_0000 || f.pageSize == 0x40_0000) && f.size == 100 && f.Segs(0) == exampleSegs
    ensures f.Lost(30) && f.OwnerId(0, 30) == 1
    ensures f.ShownLater(30) && forall id :: !f.Sole(0, id)
  {
    assert f.Hole(0) == exampleHole;
    ForgottenExample(30);
    ExampleKnown(f, 0, 0);
    ExampleKnown(f, 50, 2);
    assert f.AnsweredIn(0, 0) && f.AnsweredIn(30 / f.pageSize, 50);
  }

  lemma ExampleKnown(f: File, x: int, i: nat)
    requires (f.pageSize == 0x20_0000 || f.pageSize == 0x40_0000)
    requires f.Hole(0) == exampleHole && f.Segs(0) == exampleSegs && ((x == 0 && i == 0) || (x == 50 && i == 2))
    ensures f.AnsweredIn(0, x) && f.OwnerId(0, x) == exampleSegs[i].id
  {
    LastWriterIsNewest(exampleHole, exampleSegs, x, i);
    AnswerUnlessForgotten(exampleHole, exampleSegs, x);
    if x == 0 {
      KnownAt0();
    } else {
      KnownAt50();
    }
  }

  lemma KnownAt0()
    ensures !Forgotten(exampleHole, exampleSegs, 0)
  {
  }

  lemma KnownAt50()
    ensures !Forgotten(exampleHole, exampleSegs, 50)
  {
    var all := [exampleHole] + exampleSegs[..3];
    assert all[3] == exampleSegs[2];
    forall u, q ensures !LosesAt(all, 30, false, 50, u, q) {
    }
    forall k ensures !ForgottenAt(exampleHole, exampleSegs, 50, k) {
      assert exampleSegs[2].Covers(50);
    }
  }

  /** What a read makes of a forgotten byte when its page is no single segment's. */
  lemma ReadMerged(f: File, x: int, was: byte, now: byte)
    requires f.pageSize > 0 && f.Lost(x) && (forall id :: !f.Sole(x / f.pageSize, id)) && f.ReadAs(x, was, now)
    ensures now == if f.ShownLater(x) then 0 else was
  {
  }

  method ExampleFile(pageSize: int) returns (file: SegmentFile)
    requires pageSize == 0x20_0000 || pageSize == 0x40_0000
    ensures fresh(file) && file.Valid() && file.f.pageSize == pageSize && file.f.size == 100
    ensures file.f.Byte(30) == 1 && file.f.Lost(30) && file.f.ShownLater(30) && forall id :: !file.f.Sole(0, id)
  {
    file := new SegmentFile(pageSize);
    ghost var f := file.f;
    WriteOnes(file, 0, exampleSegs);
    WrittenFacts(f, file.f, 0, exampleSegs, 0, 30);
    assert exampleSegs[0].Covers(30);
    ExampleLost(file.f);
  }

  /** Four writes of ones and a compaction: the byte at 30 was one and is zero. */
  method CompactionRun(pageSize: int) returns (before: byte, after: byte)
    requires pageSize == 0x20_0000 || pageSize == 0x40_0000
    ensures before == 1 && after == 0
  {
    var file := ExampleFile(pageSize);
    before := file.f.Byte(30);
    ghost var f := file.f;
    var ok := file.CompactChunksData(NO_FAULTS);
    after := file.f.Byte(30);
    assert 30 / f.pageSize == 0;
    SettledMerged(f, Bytes(file.f), 30);
  }

  lemma SettledMerged(f: File, now: int -> byte, x: int)
    requires f.pageSize > 0 && 0 <= x < f.size && Settled(f, now, x)
    requires f.Lost(x) && f.ShownLater(x) && forall id :: !f.Sole(x / f.pageSize, id)
    ensures now(x) == 0
  {
    ReadMerged(f, x, LeftAt(f, now, x / CHUNK_SIZE, x % CHUNK_SIZE), now(x));
  }

  // ---------------------------------------------------------------------------------------------
  // A byte that nobody wrote
  // ---------------------------------------------------------------------------------------------

  const staleFirst := [ChunkSeg(1, 0, 100), ChunkSeg(2, 0, 10)]

  const staleSecond := [
    ChunkSeg(3, CHUNK_SIZE + 10, 10), ChunkSeg(4, CHUNK_SIZE + 0x50_0000, 10), ChunkSeg(5, CHUNK_SIZE + 20, 10)]

  const staleHole := ChunkSeg(0, CHUNK_SIZE, 0x50_000A)

  /** The tree of the second chunk forgets everything from 30 up to the segment at 5 MiB. */
  lemma StaleForgotten(x: int)
    requires CHUNK_SIZE + 30 <= x < CHUNK_SIZE + 0x50_0000
    ensures Forgotten(staleHole, staleSecond, x) && IdOf(LastWriter(staleHole, staleSecond, x)) == 0
  {
    var all := [staleHole] + staleSecond[..2];
    assert all == [staleHole, staleSecond[0], staleSecond[1]];
    assert LosesAt(all, CHUNK_SIZE + 30, false, x, 1, 2);
    assert ForgottenAt(staleHole, staleSecond, x, 2);
    NotCovered(staleHole, staleSecond, x);
  }

  lemma {:induction false} NotCovered(hole: ChunkSeg, segs: seq<ChunkSeg>, x: int)
    requires hole.id == 0 && forall i :: 0 <= i < |segs| ==> !segs[i].Covers(x)
    ensures IdOf(LastWriter(hole, segs, x)) == 0
    decreases |segs|
  {
    if segs != [] { NotCovered(hole, Older(segs), x); }
  }

  lemma StaleStart()
    ensures !Forgotten(staleHole, staleSecond, CHUNK_SIZE) && LastWriter(staleHole, staleSecond, CHUNK_SIZE) != Nobody
    ensures IdOf(LastWriter(staleHole, staleSecond, CHUNK_SIZE)) == 0
  {
    InHole(staleHole, staleSecond, CHUNK_SIZE);
    NotCovered(staleHole, staleSecond, CHUNK_SIZE);
  }

  ghost predicate StaleFile(f: File) {
    && (f.pageSize == 0x20_0000 || f.pageSize == 0x40_0000) && f.size == CHUNK_SIZE + 0x50_000A
    && f.Segs(0) == staleFirst && f.Segs(1) == staleSecond
  }

  lemma StaleLost(f: File)
    requires StaleFile(f)
    ensures var x := CHUNK_SIZE + 40;
            f.Lost(x) && f.OwnerId(1, x) == 0 && !f.ShownLater(x) && forall id :: !f.Sole(x / f.pageSize, id)
  {
    var x := CHUNK_SIZE + 40;
    var p := x / f.pageSize;
    assert f.Hole(1) == staleHole && x / CHUNK_SIZE == 1;
    StaleForgotten(x);
    forall y | x < y ensures !f.AnsweredIn(p, y) {
      if y / f.pageSize == p {
        assert y < CHUNK_SIZE + 0x50_0000 && y / CHUNK_SIZE == 1;
        StaleForgotten(y);
        AnswerUnlessForgotten(staleHole, staleSecond, y);
      }
    }
    StaleStart();
    AnswerUnlessForgotten(staleHole, staleSecond, CHUNK_SIZE);
    assert CHUNK_SIZE / CHUNK_SIZE == 1;
    assert f.AnsweredIn(p, CHUNK_SIZE) && f.OwnerId(1, CHUNK_SIZE) == 0;
  }

  /** The first chunk is rebuilt, and its byte at 40 is kept. */
  lemma StaleSource(f: File)
    requires StaleFile(f)
    ensures LastRebuilt(f, 1) == 0 && !f.Lost(40)
  {
    assert Rebuilt(f, 0);
    NothingForgotten(f.Hole(0), staleFirst, 40);
  }

  lemma FirstWritten(f0: File, f1: File)
    requires f0.size == 0 && Written(f0, f1, 0, staleFirst, 2)
    ensures f1.Segs(0) == staleFirst && f1.size == 100
    ensures f1.Byte(40) == 1 && f1.Byte(CHUNK_SIZE + 40) == f0.Byte(CHUNK_SIZE + 40)
  {
    assert staleFirst[0].Covers(40);
    WrittenFacts(f0, f1, 0, staleFirst, 0, 40);
    WrittenFacts(f0, f1, 0, staleFirst, 0, CHUNK_SIZE + 40);
  }

  lemma SecondWritten(f1: File, f2: File)
    requires f1.size == 100 && Written(f1, f2, 1, staleSecond, 3)
    ensures f2.Segs(1) == staleSecond && f2.Segs(0) == f1.Segs(0) && f2.size == CHUNK_SIZE + 0x50_000A
    ensures f2.Byte(40) == f1.Byte(40) && f2.Byte(CHUNK_SIZE + 40) == f1.Byte(CHUNK_SIZE + 40)
  {
    SecondUncovered();
    assert SameList(f1, f2, 0);
    WrittenFacts(f1, f2, 1, staleSecond, 1, 40);
    WrittenFacts(f1, f2, 1, staleSecond, 1, CHUNK_SIZE + 40);
  }

  lemma SecondUncovered()
    ensures !Covered(staleSecond, 40) && !Covered(staleSecond, CHUNK_SIZE + 40)
  {
  }

  method StaleExample(pageSize: int) returns (file: SegmentFile)
    requires pageSize == 0x20_0000 || pageSize == 0x40_0000
    ensures fresh(file) && file.Valid() && StaleFile(file.f) && file.f.Byte(40) == 1 && file.f.Byte(CHUNK_SIZE + 40) == 0
  {
    file := new SegmentFile(pageSize);
    ghost var f0 := file.f;
    WriteOnes(file, 0, staleFirst);
    ghost var f1 := file.f;
    assert SameList(f0, f1, 1);
    WriteOnes(file, 1, staleSecond);
    FirstWritten(f0, f1);
    SecondWritten(f1, file.f);
  }

  /**
    Ones in the first chunk, and a second chunk whose byte at 40 nobody wrote: it was zero, and compaction
    makes it the one that the first chunk has left in the buffer.
   */
  method StaleRun(pageSize: int) returns (before: byte, after: byte)
    requires pageSize == 0x20_0000 || pageSize == 0x40_0000
    ensures before == 0 && after == 1
  {
    var file := StaleExample(pageSize);
    var x := CHUNK_SIZE + 40;
    before := file.f.Byte(x);
    ghost var f := file.f;
    StaleLost(f);
    StaleSource(f);
    var ok := file.CompactChunksData(NO_FAULTS);
    after := file.f.Byte(x);
    assert Settled(f, Bytes(file.f), 40) && Settled(f, Bytes(file.f), x);
    assert x / CHUNK_SIZE == 1 && x % CHUNK_SIZE == 40;
    ReadMerged(f, x, LeftAt(f, Bytes(file.f), 1, 40), after);
  }
}
