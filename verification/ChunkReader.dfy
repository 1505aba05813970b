/**
  Reading a file of segments (pkg/bio/chunk.go): ReadAt splits a request into chunks, readChunkRange
  into pages, and readPage assembles a page from the pieces that the segment tree names.
 */
module ChunkReader {
  import opened Common
  import opened Overlay
  import opened Forgetting
  import opened SegmentTree
  import opened ChunkIndex
  import opened MemCache

  const CHUNK_SIZE := 0x400_0000

  /**
    A file: its size, the segments of each chunk in the order they were appended, and what the data
    store holds for a page of a segment.
   */
  datatype File = File(pageSize: int, size: nat, segs: map<int, seq<ChunkSeg>>, pages: map<(int, int), seq<byte>>) {

    function Segs(c: int): seq<ChunkSeg> {
      if c in segs then segs[c] else []
    }

    function DataEnd(c: int): int {
      Min((c + 1) * CHUNK_SIZE, size)
    }

    function Hole(c: int): ChunkSeg {
      ChunkSeg(0, c * CHUNK_SIZE, if DataEnd(c) < c * CHUNK_SIZE then 0 else DataEnd(c) - c * CHUNK_SIZE)
    }

    /** The byte at file offset x that is stored for a segment, zero for the hole. */
    function Stored(id: int, x: int): byte
      requires pageSize > 0
    {
      if id == 0 || (id, x / pageSize) !in pages then 0 else ByteAt(pages[(id, x / pageSize)], x % pageSize)
    }

    /** The byte that the last writer of x left there; zero if nobody wrote it. */
    function Byte(x: int): byte
      requires pageSize > 0
    {
      Stored(OwnerId(x / CHUNK_SIZE, x), x)
    }

    /** The segment that last wrote x, going by the list of chunk c, or 0. */
    function OwnerId(c: int, x: int): int {
      match LastWriter(Hole(c), Segs(c), x)
      case Nobody => 0
      case Writer(id, _) => id
    }

    /** The byte has no owner but the hole, or its owner's page is stored that far. */
    predicate OwnerStored(c: int, x: int)
      requires pageSize > 0
    {
      var id := OwnerId(c, x);
      id != 0 ==> (id, x / pageSize) in pages && x % pageSize < |pages[(id, x / pageSize)]|
    }

    ghost predicate Valid() {
      && (pageSize == 0x20_0000 || pageSize == 0x40_0000)
      && (forall k :: k in pages ==> |pages[k]| <= pageSize)
      && (forall c, x :: OwnerStored(c, x))
    }

    /** The tree of its chunk has forgotten who wrote the byte. */
    ghost predicate Lost(x: int) {
      Forgotten(Hole(x / CHUNK_SIZE), Segs(x / CHUNK_SIZE), x)
    }

    /** The tree of its chunk names an owner of the byte. */
    ghost predicate Answered(x: int) {
      Answer(Hole(x / CHUNK_SIZE), Segs(x / CHUNK_SIZE), x) != Nobody
    }

    ghost predicate AnsweredIn(p: int, x: int)
      requires pageSize > 0
    {
      x / pageSize == p && Answered(x)
    }

    /** The tree names the owner of a later byte of the page. */
    ghost predicate ShownLater(x: int)
      requires pageSize > 0
    {
      exists y :: x < y && AnsweredIn(x / pageSize, y)
    }

    /** All that the tree knows of the page belongs to one segment. */
    ghost predicate Sole(p: int, id: int)
      requires pageSize > 0
    {
      && id != 0 && (exists y :: AnsweredIn(p, y))
      && forall y :: AnsweredIn(p, y) ==> OwnerId(y / CHUNK_SIZE, y) == id
    }

    /** The stored page of a segment reaches the byte. */
    predicate Reaches(id: int, x: int)
      requires pageSize > 0
    {
      (id, x / pageSize) in pages && x % pageSize < |pages[(id, x / pageSize)]|
    }

    /**
      What a read makes of a forgotten byte: zero if something is known of the page behind it, otherwise
      what was in the buffer; or, when the page is a single segment's, what that segment's page holds there.
     */
    ghost predicate LostRead(x: int, was: byte, now: byte)
      requires pageSize > 0
    {
      || now == (if ShownLater(x) then 0 else was)
      || exists id :: Sole(x / pageSize, id) && Reaches(id, x) && now == Stored(id, x)
    }

    /** What a read makes of any byte. */
    ghost predicate ReadAs(x: int, was: byte, now: byte)
      requires pageSize > 0
    {
      if Lost(x) then LostRead(x, was, now) else now == Byte(x)
    }
  }

  // ---------------------------------------------------------------------------------------------
  // Pages of a chunk
  // ---------------------------------------------------------------------------------------------

  lemma Scaled(a: int, b: int, w: int)
    requires w > 0 && a <= b
    ensures a * w <= b * w
  {
  }

  lemma NextPage(p: int, w: int)
    ensures (p + 1) * w == p * w + w
  {
  }

  lemma InPage(x: int, p: int, pageSize: int)
    requires pageSize > 0
    ensures x / pageSize == p <==> p * pageSize <= x < (p + 1) * pageSize
    ensures x / pageSize == p ==> x % pageSize == x - p * pageSize
  {
    var q, r := x / pageSize, x % pageSize;
    assert x == q * pageSize + r;
    NextPage(p, pageSize);
    NextPage(q, pageSize);
    if p < q {
      Scaled(p + 1, q, pageSize);
    } else if q < p {
      Scaled(q + 1, p, pageSize);
    }
  }

  /** What a query of a window says: pieces in order, of the bytes with a known owner and of no others. */
  ghost predicate Pieces(f: File, c: int, lo: int, hi: int, ps: seq<Segment>) {
    && c * CHUNK_SIZE <= lo && hi <= (c + 1) * CHUNK_SIZE
    && (forall i :: 0 <= i < |ps| ==> lo <= ps[i].off < ps[i].End() <= hi)
    && (forall i, j :: 0 <= i < j < |ps| ==> ps[i].End() <= ps[j].off)
    && (forall i, x :: 0 <= i < |ps| && ps[i].Covers(x) ==> f.Answered(x))
    && (forall i, x :: 0 <= i < |ps| && ps[i].Covers(x) ==>
          LastWriter(f.Hole(c), f.Segs(c), x) == Writer(ps[i].id, ps[i].pos + x - ps[i].off))
    && (forall x :: lo <= x < hi && f.Answered(x) ==> exists i :: 0 <= i < |ps| && ps[i].Covers(x))
  }

  lemma QueryPieces(f: File, c: int, lo: int, hi: int, t: SegTree, repr: set<SegTree>)
    requires c * CHUNK_SIZE <= lo && hi <= (c + 1) * CHUNK_SIZE
    requires t in repr && Indexes(Snapshot(repr), t, f.Hole(c), f.Segs(c))
    ensures Pieces(f, c, lo, hi, Query(t, lo, hi, repr))
  {
    var hole, segs := f.Hole(c), f.Segs(c);
    var ps, answer := Query(t, lo, hi, repr), x => Answer(hole, segs, x);
    QuerySound(t, hole, segs, lo, hi, repr);
    QueryAnswers(t, hole, segs, lo, hi, repr);
    forall x | lo <= x < hi ensures f.Answered(x) <==> answer(x) != Nobody {
      assert x / CHUNK_SIZE == c;
    }
    forall i, x | 0 <= i < |ps| && ps[i].Covers(x) ensures f.Answered(x) {
      assert answer(x) == Writer(ps[i].id, ps[i].pos + x - ps[i].off);
    }
  }

  /** Outside the forgotten bytes the tree knows the owner of every byte of the file. */
  lemma AnsweredUnlessLost(f: File, c: int, x: int)
    requires f.Hole(c).Covers(x) && x / CHUNK_SIZE == c
    ensures f.Answered(x) <==> !f.Lost(x)
  {
    AnswerUnlessForgotten(f.Hole(c), f.Segs(c), x);
    InHole(f.Hole(c), f.Segs(c), x);
  }

  /** A page lies in one chunk. */
  lemma PageInChunk(pageSize: int, x: int)
    requires pageSize == 0x20_0000 || pageSize == 0x40_0000
    ensures x / CHUNK_SIZE * CHUNK_SIZE <= x / pageSize * pageSize
    ensures (x / pageSize + 1) * pageSize <= (x / CHUNK_SIZE + 1) * CHUNK_SIZE
  {
    if pageSize == 0x20_0000 {
      assert x / CHUNK_SIZE == x / 0x20_0000 / 32;
    } else {
      assert x / CHUNK_SIZE == x / 0x40_0000 / 16;
    }
  }

  /** The data store has what a piece of page p needs. */
  lemma PieceStored(f: File, c: int, p: int, ps: seq<Segment>, i: nat)
    requires f.Valid() && Pieces(f, c, p * f.pageSize, (p + 1) * f.pageSize, ps) && i < |ps|
    ensures ps[i].id != 0 ==> (ps[i].id, p) in f.pages && ps[i].End() - p * f.pageSize <= |f.pages[(ps[i].id, p)]|
    ensures forall x :: ps[i].Covers(x) ==>
              f.Stored(ps[i].id, x) == if ps[i].id == 0 then 0 else ByteAt(f.pages[(ps[i].id, p)], x - p * f.pageSize)
  {
    var last := ps[i].End() - 1;
    assert ps[i].Covers(last);
    assert f.OwnerStored(c, last);
    InPage(last, p, f.pageSize);
    forall x | ps[i].Covers(x)
      ensures f.Stored(ps[i].id, x) == if ps[i].id == 0 then 0 else ByteAt(f.pages[(ps[i].id, p)], x - p * f.pageSize)
    {
      InPage(x, p, f.pageSize);
    }
  }

  /** A page holds the bytes of a piece. */
  ghost predicate HoldsPiece(f: File, start: int, piece: Segment, page: seq<byte>)
    requires f.pageSize > 0
  {
    forall x :: piece.Covers(x) ==> 0 <= x - start < |page| && page[x - start] == f.Stored(piece.id, x)
  }

  /** OpenCacheNode: the stored page of a segment, in memory. */
  method OpenCacheNode(f: File, id: int, p: int) returns (node: MemCacheNode)
    requires f.Valid() && (id, p) in f.pages
    ensures fresh(node) && fresh(node.data) && node.Valid() && node.Content() == f.pages[(id, p)]
  {
    node := new MemCacheNode(false);
    var n, ok := node.WriteAt(f.pages[(id, p)], 0);
  }

  /** The bytes that mergePage copies for piece i: zeros for a hole, otherwise those of the stored page. */
  method PieceData(f: File, ghost c: int, p: int, ps: seq<Segment>, i: nat) returns (data: seq<byte>)
    requires f.Valid() && Pieces(f, c, p * f.pageSize, (p + 1) * f.pageSize, ps) && i < |ps|
    ensures |data| == ps[i].len
    ensures forall x :: ps[i].Covers(x) ==> data[x - ps[i].off] == f.Stored(ps[i].id, x)
  {
    var start := p * f.pageSize;
    var crt := ps[i].off - start;
    var readEnd := Min(crt + ps[i].len, f.pageSize);
    PieceStored(f, c, p, ps, i);
    if ps[i].id == 0 {
      data := seq(readEnd - crt, _ => 0);
    } else {
      var node := OpenCacheNode(f, ps[i].id, p);
      data := node.data[crt..readEnd];
    }
  }

  /** A page made of pieces: zero where there is none, and no longer than the last of them. */
  ghost predicate OnlyPieces(start: int, ps: seq<Segment>, page: seq<byte>) {
    && (forall k :: 0 <= k < |page| && page[k] != 0 ==> exists j :: 0 <= j < |ps| && ps[j].Covers(start + k))
    && (page != [] ==> exists j :: 0 <= j < |ps| && start + |page| <= ps[j].End())
  }

  lemma OnlyPiecesWritten(start: int, ps: seq<Segment>, i: nat, before: seq<byte>, data: seq<byte>)
    requires i < |ps| && start <= ps[i].off && 0 < ps[i].len == |data| && OnlyPieces(start, ps[..i], before)
    ensures OnlyPieces(start, ps[..i + 1], Written(before, ps[i].off - start, data))
  {
    var after, more := Written(before, ps[i].off - start, data), ps[..i + 1];
    forall k | 0 <= k < |after| && after[k] != 0 ensures exists j :: 0 <= j < |more| && more[j].Covers(start + k) {
      if ps[i].Covers(start + k) {
        assert more[i].Covers(start + k);
      } else {
        var j :| 0 <= j < i && ps[..i][j].Covers(start + k);
        assert more[j] == ps[..i][j];
      }
    }
    if |after| == |before| {
      var j :| 0 <= j < i && start + |before| <= ps[..i][j].End();
      assert more[j] == ps[..i][j];
    } else {
      assert more[i] == ps[i];
    }
  }

  /** The first i pieces, and nothing else. */
  ghost predicate MergedUpTo(f: File, start: int, ps: seq<Segment>, i: nat, page: seq<byte>)
    requires f.pageSize > 0 && i <= |ps|
  {
    (forall j :: 0 <= j < i ==> HoldsPiece(f, start, ps[j], page)) && OnlyPieces(start, ps[..i], page)
  }

  lemma MergeStep(f: File, start: int, ps: seq<Segment>, i: nat, before: seq<byte>, data: seq<byte>)
    requires f.pageSize > 0 && i < |ps| && start <= ps[i].off && 0 < ps[i].len == |data|
    requires forall a, b :: 0 <= a < b < |ps| ==> ps[a].End() <= ps[b].off
    requires forall x :: ps[i].Covers(x) ==> data[x - ps[i].off] == f.Stored(ps[i].id, x)
    requires MergedUpTo(f, start, ps, i, before)
    ensures MergedUpTo(f, start, ps, i + 1, Written(before, ps[i].off - start, data))
  {
    PieceWritten(f, start, ps, i, before, data);
    OnlyPiecesWritten(start, ps, i, before, data);
  }

  /** One turn of the loop of mergePage. */
  method MergePiece(f: File, ghost c: int, p: int, start: int, ps: seq<Segment>, i: nat, node: MemCacheNode)
    requires f.Valid() && start == p * f.pageSize && Pieces(f, c, start, (p + 1) * f.pageSize, ps) && i < |ps|
    requires node.Valid() && MergedUpTo(f, start, ps, i, node.Content())
    modifies node, node.data
    ensures node.Valid() && (node.data == old(node.data) || fresh(node.data))
    ensures MergedUpTo(f, start, ps, i + 1, node.Content())
  {
    var data := PieceData(f, c, p, ps, i);
    ghost var before := node.Content();
    PieceFits(f, c, p, start, ps, i, data, before);
    var n, ok := node.WriteAt(data, ps[i].off - start);
    assert node.Content() == Written(before, ps[i].off - start, data);
  }

  lemma PieceFits(f: File, c: int, p: int, start: int, ps: seq<Segment>, i: nat, data: seq<byte>, before: seq<byte>)
    requires f.Valid() && start == p * f.pageSize && Pieces(f, c, start, (p + 1) * f.pageSize, ps)
    requires i < |ps| && |data| == ps[i].len
    requires forall x :: ps[i].Covers(x) ==> data[x - ps[i].off] == f.Stored(ps[i].id, x)
    requires MergedUpTo(f, start, ps, i, before)
    ensures 0 <= ps[i].off - start && ps[i].off - start + |data| <= MAX_BLOCK
    ensures MergedUpTo(f, start, ps, i + 1, Written(before, ps[i].off - start, data))
  {
    NextPage(p, f.pageSize);
    MergeStep(f, start, ps, i, before, data);
  }

  method MergePage(f: File, ghost c: int, p: int, ps: seq<Segment>) returns (node: MemCacheNode)
    requires f.Valid() && Pieces(f, c, p * f.pageSize, (p + 1) * f.pageSize, ps)
    ensures fresh(node) && fresh(node.data) && node.Valid()
    ensures MergedUpTo(f, p * f.pageSize, ps, |ps|, node.Content())
  {
    var start := p * f.pageSize;
    node := new MemCacheNode(p > 1);
    for i := 0 to |ps|
      invariant fresh(node) && fresh(node.data) && node.Valid()
      invariant MergedUpTo(f, start, ps, i, node.Content())
    {
      MergePiece(f, c, p, start, ps, i, node);
    }
  }

  lemma PieceWritten(f: File, start: int, ps: seq<Segment>, i: nat, before: seq<byte>, data: seq<byte>)
    requires f.pageSize > 0 && i < |ps| && start <= ps[i].off && 0 < ps[i].len == |data|
    requires forall a, b :: 0 <= a < b < |ps| ==> ps[a].End() <= ps[b].off
    requires forall j :: 0 <= j < i ==> HoldsPiece(f, start, ps[j], before)
    requires forall x :: ps[i].Covers(x) ==> data[x - ps[i].off] == f.Stored(ps[i].id, x)
    ensures forall j :: 0 <= j <= i ==> HoldsPiece(f, start, ps[j], Written(before, ps[i].off - start, data))
  {
    var after := Written(before, ps[i].off - start, data);
    forall j, x | 0 <= j <= i && ps[j].Covers(x)
      ensures 0 <= x - start < |after| && after[x - start] == f.Stored(ps[j].id, x)
    {
      if j < i { assert HoldsPiece(f, start, ps[j], before); }
    }
  }

  /** A page that is a single segment's needs no merging: its stored page already holds the piece. */
  lemma SinglePiece(f: File, c: int, p: int, ps: seq<Segment>)
    requires f.Valid() && Pieces(f, c, p * f.pageSize, (p + 1) * f.pageSize, ps) && |ps| == 1 && ps[0].id != 0
    ensures (ps[0].id, p) in f.pages && HoldsPiece(f, p * f.pageSize, ps[0], f.pages[(ps[0].id, p)])
  {
    PieceStored(f, c, p, ps, 0);
  }

  /** A page that holds all pieces holds every byte of the file in it that is not lost. */
  lemma PageBytes(f: File, c: int, p: int, ps: seq<Segment>, page: seq<byte>, x: int)
    requires f.Valid() && Pieces(f, c, p * f.pageSize, (p + 1) * f.pageSize, ps)
    requires forall i :: 0 <= i < |ps| ==> HoldsPiece(f, p * f.pageSize, ps[i], page)
    requires p * f.pageSize <= x < (p + 1) * f.pageSize && f.Hole(c).Covers(x) && !f.Lost(x)
    ensures 0 <= x - p * f.pageSize < |page| && page[x - p * f.pageSize] == f.Byte(x)
  {
    assert x / CHUNK_SIZE == c;
    AnsweredUnlessLost(f, c, x);
    var i :| 0 <= i < |ps| && ps[i].Covers(x);
    assert HoldsPiece(f, p * f.pageSize, ps[i], page);
  }

  /** The page that readPage has in memory. */
  ghost predicate Loaded(f: File, p: int, ps: seq<Segment>, page: seq<byte>)
    requires f.pageSize > 0
  {
    && (forall i :: 0 <= i < |ps| ==> HoldsPiece(f, p * f.pageSize, ps[i], page))
    && (if |ps| == 1 && ps[0].id > 0 then (ps[0].id, p) in f.pages && page == f.pages[(ps[0].id, p)]
        else OnlyPieces(p * f.pageSize, ps, page))
  }

  /** Something is known behind a forgotten byte if a piece ends behind it, and only then. */
  lemma ShownLaterIff(f: File, c: int, p: int, ps: seq<Segment>, x: int)
    requires f.Valid() && Pieces(f, c, p * f.pageSize, (p + 1) * f.pageSize, ps)
    requires p * f.pageSize <= x < (p + 1) * f.pageSize && !f.Answered(x)
    ensures x / f.pageSize == p
    ensures f.ShownLater(x) <==> exists i :: 0 <= i < |ps| && x < ps[i].End()
  {
    InPage(x, p, f.pageSize);
    if f.ShownLater(x) {
      var y :| x < y && f.AnsweredIn(x / f.pageSize, y);
      InPage(y, p, f.pageSize);
      var i :| 0 <= i < |ps| && ps[i].Covers(y);
    }
    if i :| 0 <= i < |ps| && x < ps[i].End() {
      assert ps[i].Covers(ps[i].off);
      InPage(ps[i].off, p, f.pageSize);
      assert !ps[i].Covers(x);
      assert f.AnsweredIn(x / f.pageSize, ps[i].off);
    }
  }

  /** A page that is read as it is stored belongs to one segment. */
  lemma SinglePieceIsSole(f: File, c: int, p: int, ps: seq<Segment>)
    requires f.Valid() && Pieces(f, c, p * f.pageSize, (p + 1) * f.pageSize, ps) && |ps| == 1 && ps[0].id > 0
    ensures f.Sole(p, ps[0].id)
  {
    InPage(ps[0].off, p, f.pageSize);
    assert ps[0].Covers(ps[0].off);
    assert f.AnsweredIn(p, ps[0].off);
    forall y | f.AnsweredIn(p, y) ensures f.OwnerId(y / CHUNK_SIZE, y) == ps[0].id {
      InPage(y, p, f.pageSize);
      assert y / CHUNK_SIZE == c;
      var i :| 0 <= i < |ps| && ps[i].Covers(y);
    }
  }

  /** What reading the loaded page makes of a forgotten byte. */
  lemma LostBytes(f: File, c: int, p: int, ps: seq<Segment>, page: seq<byte>, x: int, was: byte)
    requires f.Valid() && Pieces(f, c, p * f.pageSize, (p + 1) * f.pageSize, ps) && Loaded(f, p, ps, page)
    requires p * f.pageSize <= x < (p + 1) * f.pageSize && !f.Answered(x)
    ensures f.LostRead(x, was, if x - p * f.pageSize < |page| then page[x - p * f.pageSize] else was)
  {
    var k := x - p * f.pageSize;
    ShownLaterIff(f, c, p, ps, x);
    InPage(x, p, f.pageSize);
    if k >= |page| {
      forall i | 0 <= i < |ps| ensures ps[i].End() <= x {
        assert HoldsPiece(f, p * f.pageSize, ps[i], page) && ps[i].Covers(ps[i].End() - 1);
      }
    } else if |ps| == 1 && ps[0].id > 0 {
      SinglePieceIsSole(f, c, p, ps);
      assert f.Reaches(ps[0].id, x) && page[k] == f.Stored(ps[0].id, x);
    } else {
      var j :| 0 <= j < |ps| && p * f.pageSize + |page| <= ps[j].End();
    }
  }

  /** The page of readPage: a single segment's page as it is stored, anything else merged. */
  method LoadPage(f: File, ghost c: int, p: int, ps: seq<Segment>) returns (node: MemCacheNode)
    requires f.Valid() && Pieces(f, c, p * f.pageSize, (p + 1) * f.pageSize, ps)
    ensures fresh(node) && fresh(node.data) && node.Valid() && Loaded(f, p, ps, node.Content())
  {
    if |ps| == 1 && ps[0].id > 0 {
      SinglePiece(f, c, p, ps);
      node := OpenCacheNode(f, ps[0].id, p);
    } else {
      node := MergePage(f, c, p, ps);
      assert ps[..|ps|] == ps;
    }
  }

  /** What reading the loaded page makes of any byte of the file in it. */
  lemma ReadLoaded(f: File, c: int, p: int, ps: seq<Segment>, page: seq<byte>, x: int, was: byte, now: byte)
    requires f.Valid() && Pieces(f, c, p * f.pageSize, (p + 1) * f.pageSize, ps) && Loaded(f, p, ps, page)
    requires p * f.pageSize <= x < (p + 1) * f.pageSize && f.Hole(c).Covers(x)
    requires now == if x - p * f.pageSize < |page| then page[x - p * f.pageSize] else was
    ensures f.ReadAs(x, was, now)
  {
    assert x / CHUNK_SIZE == c;
    AnsweredUnlessLost(f, c, x);
    if f.Lost(x) {
      LostBytes(f, c, p, ps, page, x, was);
    } else {
      PageBytes(f, c, p, ps, page, x);
    }
  }

  /** Fills dest[lo..hi] with the bytes of the file from `off` on, all in page p of chunk c. */
  method ReadPage(f: File, ghost c: int, ps: seq<Segment>, p: int, off: int, dest: array<byte>, lo: nat, hi: nat)
    requires f.Valid() && Pieces(f, c, p * f.pageSize, (p + 1) * f.pageSize, ps) && lo <= hi <= dest.Length
    requires p * f.pageSize <= off && off + hi - lo <= (p + 1) * f.pageSize
    requires c * CHUNK_SIZE <= off && off + hi - lo <= f.DataEnd(c)
    modifies dest
    ensures forall i :: lo <= i < hi ==> f.ReadAs(off + i - lo, old(dest[i]), dest[i])
    ensures forall i :: 0 <= i < dest.Length && !(lo <= i < hi) ==> dest[i] == old(dest[i])
  {
    var start := p * f.pageSize;
    var node := LoadPage(f, c, p, ps);
    if hi > lo {
      ghost var page := node.Content();
      var n, eof := node.ReadAt(dest, lo, hi, off - start);
      forall i | lo <= i < hi ensures f.ReadAs(off + i - lo, old(dest[i]), dest[i]) {
        ReadLoaded(f, c, p, ps, page, off + i - lo, old(dest[i]), dest[i]);
      }
    }
  }

  /** One turn of the loop of readChunkRange: as much of the request as lies in the page of `off`. */
  method ReadOnePage(f: File, c: nat, st: SegTree, ghost repr: set<SegTree>, off: int, dest: array<byte>, lo: nat, hi: nat)
    returns (readEnd: int)
    requires f.Valid() && lo <= hi <= dest.Length
    requires st in repr && Indexes(Snapshot(repr), st, f.Hole(c), f.Segs(c))
    requires c * CHUNK_SIZE <= off < f.DataEnd(c) && off + hi - lo <= f.DataEnd(c)
    modifies dest
    ensures off <= readEnd <= off + hi - lo && (lo < hi ==> off < readEnd)
    ensures forall i :: lo <= i < lo + readEnd - off ==> f.ReadAs(off + i - lo, old(dest[i]), dest[i])
    ensures forall i :: 0 <= i < dest.Length && !(lo <= i < lo + readEnd - off) ==> dest[i] == old(dest[i])
  {
    var p := off / f.pageSize;
    InPage(off, p, f.pageSize);
    PageInChunk(f.pageSize, off);
    assert off / CHUNK_SIZE == c;
    readEnd := (p + 1) * f.pageSize;
    if readEnd - off > hi - lo {
      readEnd := off + hi - lo;
    }
    QueryPieces(f, c, p * f.pageSize, (p + 1) * f.pageSize, st, repr);
    var ps := Query(st, p * f.pageSize, (p + 1) * f.pageSize, repr);
    ReadPage(f, c, ps, p, off, dest, lo, lo + readEnd - off);
  }

  /** Fills dest[lo..hi] with the bytes of the file from `off` on, all in chunk c. */
  method ReadChunkRange(f: File, c: nat, off: int, dest: array<byte>, lo: nat, hi: nat)
    requires f.Valid() && lo <= hi <= dest.Length
    requires c * CHUNK_SIZE <= off < f.DataEnd(c) && off + hi - lo <= f.DataEnd(c)
    modifies dest
    ensures forall i :: lo <= i < hi ==> f.ReadAs(off + i - lo, old(dest[i]), dest[i])
    ensures forall i :: 0 <= i < dest.Length && !(lo <= i < hi) ==> dest[i] == old(dest[i])
  {
    var st, repr := Build(c * CHUNK_SIZE, f.DataEnd(c), f.Segs(c));
    ghost var g := Snapshot(repr);
    var crt, bufLeft := off, hi - lo;
    while true
      invariant off <= crt && 0 <= bufLeft && crt - off + bufLeft == hi - lo && (crt == off || bufLeft > 0)
      invariant fresh(repr) && Snapshot(repr) == g
      invariant forall i :: lo <= i < lo + crt - off ==> f.ReadAs(off + i - lo, old(dest[i]), dest[i])
      invariant forall i :: 0 <= i < dest.Length && !(lo <= i < lo + crt - off) ==> dest[i] == old(dest[i])
      decreases bufLeft
    {
      var readEnd := ReadOnePage(f, c, st, repr, crt, dest, lo + crt - off, hi);
      bufLeft := bufLeft - (readEnd - crt);
      crt := readEnd;
      if bufLeft == 0 {
        break;
      }
    }
  }

  /**
    ReadAt: every read returns what there is of the request, with each byte that is not lost as its last
    writer left it, and zeros where nobody wrote.
   */
  method ReadAt(f: File, dest: array<byte>, off: nat) returns (n: nat, eof: bool)
    requires f.Valid()
    modifies dest
    ensures eof <==> off >= f.size
    ensures n == if off >= f.size then 0 else Min(dest.Length, f.size - off)
    ensures forall i :: 0 <= i < n ==> f.ReadAs(off + i, old(dest[i]), dest[i])
    ensures forall i :: n <= i < dest.Length ==> dest[i] == old(dest[i])
  {
    n, eof := 0, false;
    if off >= f.size {
      return 0, true;
    }
    var readEnd := off + dest.Length;
    if readEnd > f.size {
      readEnd := f.size;
    }
    if readEnd == 0 {
      return;
    }
    var crt: nat := off;
    while true
      invariant crt == off + n && crt <= readEnd && (crt < readEnd || (crt == off && off < f.size))
      invariant forall i :: 0 <= i < n ==> f.ReadAs(off + i, old(dest[i]), dest[i])
      invariant forall i :: n <= i < dest.Length ==> dest[i] == old(dest[i])
      decreases readEnd - crt
    {
      var index := crt / CHUNK_SIZE;
      var chunkEnd := (index + 1) * CHUNK_SIZE;
      if chunkEnd > readEnd {
        chunkEnd := readEnd;
      }
      var readLen := chunkEnd - crt;
      ReadChunkRange(f, index, crt, dest, n, n + readLen);
      n := n + readLen;
      crt := chunkEnd;
      if crt == readEnd {
        break;
      }
    }
  }
}
