/**
  What the tree of a chunk promises its readers, for every segment list and every window: each
  piece names the last writer; and the pieces are the whole overlay exactly when no byte of the
  window is forgotten, which is so for every list with non-decreasing offsets.
 */
module ChunkIndex {
  import opened Overlay
  import opened Forgetting
  import opened SegmentTree

  /** Every byte of a piece carries its last writer and its distance from that writer's start. */
  lemma QuerySound(t: SegTree, hole: ChunkSeg, segs: seq<ChunkSeg>, start: int, end: int, repr: set<SegTree>)
    requires t in repr && Indexes(Snapshot(repr), t, hole, segs)
    ensures var ps := Query(t, start, end, repr);
            && (forall i :: 0 <= i < |ps| ==> start <= ps[i].off < ps[i].End() <= end)
            && (forall i, j :: 0 <= i < j < |ps| ==> ps[i].End() <= ps[j].off)
            && (forall i, x :: 0 <= i < |ps| && ps[i].Covers(x) ==>
                  LastWriter(hole, segs, x) == Writer(ps[i].id, ps[i].pos + x - ps[i].off))
  {
    QueryAnswers(t, hole, segs, start, end, repr);
    var ps, answer := Query(t, start, end, repr), x => Answer(hole, segs, x);
    forall i, x | 0 <= i < |ps| && ps[i].Covers(x)
      ensures LastWriter(hole, segs, x) == Writer(ps[i].id, ps[i].pos + x - ps[i].off)
    {
      assert answer(x) == Writer(ps[i].id, ps[i].pos + x - ps[i].off);
      AnswerUnlessForgotten(hole, segs, x);
    }
  }

  /** Inside the chunk's data, the query is the overlay if and only if no byte is forgotten. */
  lemma QueryExactIff(t: SegTree, hole: ChunkSeg, segs: seq<ChunkSeg>, start: int, end: int, repr: set<SegTree>)
    requires t in repr && Indexes(Snapshot(repr), t, hole, segs)
    requires hole.off <= start && end <= hole.End()
    ensures Shows(Query(t, start, end, repr), start, end, x => LastWriter(hole, segs, x))
       <==> forall x :: start <= x < end ==> !Forgotten(hole, segs, x)
  {
    var ps, answer, last := Query(t, start, end, repr), x => Answer(hole, segs, x), x => LastWriter(hole, segs, x);
    QueryAnswers(t, hole, segs, start, end, repr);
    forall x ensures Answer(hole, segs, x) == if Forgotten(hole, segs, x) then Nobody else LastWriter(hole, segs, x) {
      AnswerUnlessForgotten(hole, segs, x);
    }
    if forall x :: start <= x < end ==> !Forgotten(hole, segs, x) {
      ShowsSame(ps, start, end, answer, last);
    } else {
      var x :| start <= x < end && Forgotten(hole, segs, x);
      InHole(hole, segs, x);
      assert !Shows(ps, start, end, last) by {
        if Shows(ps, start, end, last) { ShowsBoth(ps, start, end, answer, last, x); }
      }
    }
  }

  /** Segments appended with non-decreasing offsets are indexed exactly. */
  lemma QueryExact(t: SegTree, hole: ChunkSeg, segs: seq<ChunkSeg>, start: int, end: int, repr: set<SegTree>)
    requires t in repr && Indexes(Snapshot(repr), t, hole, segs)
    requires NonDecreasing(segs)
    ensures Shows(Query(t, start, end, repr), start, end, x => LastWriter(hole, segs, x))
  {
    QueryAnswers(t, hole, segs, start, end, repr);
    forall x ensures Answer(hole, segs, x) == LastWriter(hole, segs, x) {
      AnswerUnlessForgotten(hole, segs, x);
      NothingForgotten(hole, segs, x);
    }
    ShowsSame(Query(t, start, end, repr), start, end, x => Answer(hole, segs, x), x => LastWriter(hole, segs, x));
  }

  const exampleHole := ChunkSeg(0, 0, 100)

  const exampleSegs := [ChunkSeg(1, 0, 100), ChunkSeg(2, 10, 10), ChunkSeg(3, 50, 10), ChunkSeg(4, 20, 10)]

  /** Not every list is: these four writes make the tree forget what the first one wrote from 30 to 50. */
  lemma ForgottenExample(x: int)
    requires 30 <= x < 50
    ensures LastWriter(exampleHole, exampleSegs, x) == Writer(1, x)
    ensures Forgotten(exampleHole, exampleSegs, x)
  {
    LastWriterIsNewest(exampleHole, exampleSegs, x, 0);
    var all := [exampleHole] + exampleSegs[..3];
    assert all == [exampleHole, ChunkSeg(1, 0, 100), ChunkSeg(2, 10, 10), ChunkSeg(3, 50, 10)];
    assert LosesAt(all, 30, false, x, 2, 3);
    assert ForgottenAt(exampleHole, exampleSegs, x, 3);
  }

  lemma QueryMisses(t: SegTree, repr: set<SegTree>)
    requires t in repr && Indexes(Snapshot(repr), t, exampleHole, exampleSegs)
    ensures Query(t, 30, 50, repr) == []
  {
    var ps, answer := Query(t, 30, 50, repr), x => Answer(exampleHole, exampleSegs, x);
    QueryAnswers(t, exampleHole, exampleSegs, 30, 50, repr);
    forall x | 30 <= x < 50 ensures answer(x) == Nobody {
      ForgottenExample(x);
      AnswerUnlessForgotten(exampleHole, exampleSegs, x);
    }
    ShowsSame(ps, 30, 50, answer, x => Nobody);
    ShowsNobody(ps, 30, 50);
  }
}
