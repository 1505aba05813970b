/**
  Segments of a chunk, the plain last-writer-wins overlay they stand for, and a description, in
  terms of the segment list alone, of the bytes that the segment tree forgets.
 */
module Overlay {
  import opened Common

  /** The fields of a stored segment that reading uses (pkg/types/entry.go). */
  datatype ChunkSeg = ChunkSeg(id: int, off: int, len: nat) {
    function End(): int { off + len }

    predicate Covers(x: int) { off <= x < End() }
  }

  /** Who wrote a byte: a segment and the distance from that segment's start. */
  datatype Owner = Nobody | Writer(id: int, pos: int)

  /** The newest segment of the list that covers `x`; under them all lies the unwritten hole. */
  function LastWriter(hole: ChunkSeg, segs: seq<ChunkSeg>, x: int): Owner
    decreases |segs|
  {
    var s := Newest(hole, segs);
    if s.Covers(x) then Writer(s.id, x - s.off)
    else if segs == [] then Nobody
    else LastWriter(hole, Older(segs), x)
  }

  function Newest(hole: ChunkSeg, segs: seq<ChunkSeg>): ChunkSeg {
    if segs == [] then hole else segs[|segs| - 1]
  }

  function Older(segs: seq<ChunkSeg>): seq<ChunkSeg>
    requires segs != []
  {
    segs[..|segs| - 1]
  }

  // ---------------------------------------------------------------------------------------------
  // What inserting a segment that ends at `e` makes the tree forget: the bytes from `e` up to
  // `Gap`. These follow the search that the cut at `e` makes, from the newest segment to the oldest.
  // ---------------------------------------------------------------------------------------------

  function LeftGap(hole: ChunkSeg, segs: seq<ChunkSeg>, e: int, hi: int): int
    decreases |segs|
  {
    var s := Newest(hole, segs);
    if e < s.off then if segs == [] then e else LeftGap(hole, Older(segs), e, Min(hi, s.off))
    else if e == s.off || e < s.End() then e
    else hi
  }

  function Gap(hole: ChunkSeg, segs: seq<ChunkSeg>, e: int, again: bool): int
    decreases |segs|
  {
    if segs == [] then e
    else
      var s := Newest(hole, segs);
      if e < s.off then LeftGap(hole, Older(segs), e, s.off)
      else if e == s.off then e
      else if e > s.End() || (again && e == s.End()) then Gap(hole, Older(segs), e, again)
      else e
  }

  /** What the tree answers: the last writer, unless the byte was forgotten after it was written. */
  function Answer(hole: ChunkSeg, segs: seq<ChunkSeg>, x: int): Owner
    decreases |segs|
  {
    var s := Newest(hole, segs);
    if s.Covers(x) then Writer(s.id, x - s.off)
    else if segs == [] then Nobody
    else if s.End() <= x < Gap(hole, Older(segs), s.End(), s.len == 0) then Nobody
    else Answer(hole, Older(segs), x)
  }

  // ---------------------------------------------------------------------------------------------
  // Pieces of a window
  // ---------------------------------------------------------------------------------------------

  /** A stretch of a window and where its bytes come from. */
  datatype Segment = Segment(id: int, pos: int, off: int, len: int) {
    function End(): int { off + len }

    predicate Covers(x: int) { off <= x < End() }
  }

  ghost predicate Within(ps: seq<Segment>, lo: int, hi: int) {
    forall i :: 0 <= i < |ps| ==> lo <= ps[i].off < ps[i].End() <= hi
  }

  ghost predicate Ascending(ps: seq<Segment>) {
    forall i, j :: 0 <= i < j < |ps| ==> ps[i].End() <= ps[j].off
  }

  ghost predicate Truthful(ps: seq<Segment>, f: int -> Owner) {
    forall i, x :: 0 <= i < |ps| && ps[i].Covers(x) ==> f(x) == Writer(ps[i].id, ps[i].pos + x - ps[i].off)
  }

  ghost predicate Complete(ps: seq<Segment>, lo: int, hi: int, f: int -> Owner) {
    forall x :: lo <= x < hi && f(x) != Nobody ==> exists i :: 0 <= i < |ps| && ps[i].Covers(x)
  }

  /**
    The pieces are ascending, disjoint and inside the window, every byte of a piece has the writer
    and position the piece says, and every written byte of the window is in a piece.
   */
  ghost predicate Shows(ps: seq<Segment>, lo: int, hi: int, f: int -> Owner) {
    Within(ps, lo, hi) && Ascending(ps) && Truthful(ps, f) && Complete(ps, lo, hi, f)
  }

  lemma WithinJoin(a: seq<Segment>, b: seq<Segment>, lo: int, mid: int, hi: int)
    requires lo <= mid <= hi && Within(a, lo, mid) && Within(b, mid, hi)
    ensures Within(a + b, lo, hi)
  {
  }

  lemma AscendingJoin(a: seq<Segment>, b: seq<Segment>, lo: int, mid: int, hi: int)
    requires Within(a, lo, mid) && Within(b, mid, hi) && Ascending(a) && Ascending(b)
    ensures Ascending(a + b)
  {
  }

  lemma TruthfulJoin(a: seq<Segment>, b: seq<Segment>, f: int -> Owner)
    requires Truthful(a, f) && Truthful(b, f)
    ensures Truthful(a + b, f)
  {
  }

  lemma CompleteJoin(a: seq<Segment>, b: seq<Segment>, lo: int, mid: int, hi: int, f: int -> Owner)
    requires lo <= mid <= hi && Complete(a, lo, mid, f) && Complete(b, mid, hi, f)
    ensures Complete(a + b, lo, hi, f)
  {
    forall x | lo <= x < hi && f(x) != Nobody ensures exists i :: 0 <= i < |a + b| && (a + b)[i].Covers(x) {
      if x < mid {
        var i :| 0 <= i < |a| && a[i].Covers(x);
        assert (a + b)[i] == a[i];
      } else {
        var i :| 0 <= i < |b| && b[i].Covers(x);
        assert (a + b)[|a| + i] == b[i];
      }
    }
  }

  lemma ShowsJoin(a: seq<Segment>, b: seq<Segment>, lo: int, mid: int, hi: int, f: int -> Owner)
    requires lo <= mid <= hi && Shows(a, lo, mid, f) && Shows(b, mid, hi, f)
    ensures Shows(a + b, lo, hi, f)
  {
    WithinJoin(a, b, lo, mid, hi);
    AscendingJoin(a, b, lo, mid, hi);
    TruthfulJoin(a, b, f);
    CompleteJoin(a, b, lo, mid, hi, f);
  }

  /** Only the writers inside the window matter. */
  lemma ShowsSame(ps: seq<Segment>, lo: int, hi: int, f: int -> Owner, g: int -> Owner)
    requires Shows(ps, lo, hi, f)
    requires forall x :: lo <= x < hi ==> f(x) == g(x)
    ensures Shows(ps, lo, hi, g)
  {
  }

  /** The pieces determine the writers. */
  lemma ShowsBoth(ps: seq<Segment>, lo: int, hi: int, f: int -> Owner, g: int -> Owner, x: int)
    requires Shows(ps, lo, hi, f) && Shows(ps, lo, hi, g) && lo <= x < hi
    ensures f(x) == g(x)
  {
    if f(x) != Nobody || g(x) != Nobody {
      var i :| 0 <= i < |ps| && ps[i].Covers(x);
      assert f(x) == Writer(ps[i].id, ps[i].pos + x - ps[i].off) == g(x);
    }
  }

  lemma ShowsNobody(ps: seq<Segment>, lo: int, hi: int)
    requires Shows(ps, lo, hi, x => Nobody)
    ensures ps == []
  {
    var nobody := x => Nobody;
    var x := if |ps| > 0 then ps[0].off else lo;
    assert nobody(x) == Nobody;
  }

  function Clip(x: int, lo: int, hi: int): int { Min(hi, Max(lo, x)) }

  /** The piece that a stretch from `a` to `b` has in a window, if any. */
  function Own(id: int, pos: int, a: int, b: int, lo: int, hi: int): seq<Segment> {
    var p, q := Max(a, lo), Min(b, hi);
    if q - p > 0 then [Segment(id, pos + p - a, p, q - p)] else []
  }

  lemma ShowsOwn(id: int, pos: int, a: int, b: int, lo: int, hi: int, f: int -> Owner)
    requires a <= b && lo <= hi
    requires forall x :: Clip(a, lo, hi) <= x < Clip(b, lo, hi) ==> f(x) == Writer(id, pos + x - a)
    ensures Shows(Own(id, pos, a, b, lo, hi), Clip(a, lo, hi), Clip(b, lo, hi), f)
  {
    var own := Own(id, pos, a, b, lo, hi);
    forall x | Clip(a, lo, hi) <= x < Clip(b, lo, hi) ensures 0 < |own| && own[0].Covers(x) {
    }
  }

  /** A node's own piece between what its subtrees show of their parts of the window. */
  lemma ShowsAround(before: seq<Segment>, after: seq<Segment>, id: int, pos: int, a: int, b: int, lo: int, hi: int,
                    l: int -> Owner, r: int -> Owner, f: int -> Owner)
    requires a <= b && lo <= hi
    requires Shows(before, lo, Clip(a, lo, hi), l) && Shows(after, Clip(b, lo, hi), hi, r)
    requires forall x :: f(x) == if x < a then l(x) else if x < b then Writer(id, pos + x - a) else r(x)
    ensures Shows(before + Own(id, pos, a, b, lo, hi) + after, lo, hi, f)
  {
    var p, q, own := Clip(a, lo, hi), Clip(b, lo, hi), Own(id, pos, a, b, lo, hi);
    ShowsSame(before, lo, p, l, f);
    ShowsSame(after, q, hi, r, f);
    ShowsOwn(id, pos, a, b, lo, hi, f);
    ShowsJoin(before, own, lo, p, q, f);
    ShowsJoin(before + own, after, lo, q, hi, f);
  }
}
