/**
  When the segment tree agrees with the last-writer-wins overlay. The bytes it forgets are described
  by the segment list alone, so that a caller can tell before building the tree.
 */
module Forgetting {
  import opened Common
  import opened Overlay

  /**
    Inserting a segment that ends at `e` on top of the list `all` (oldest first, the hole being
    all[0]) loses byte `x`. Segment q is the newest that reaches e, and it lies wholly after x. Among
    the older ones, u is the newest that starts before e, and it ends by e. So x belongs to something
    older than u, which the tree keeps in the right half of u's node, and that half is thrown away.
   */
  ghost predicate LosesAt(all: seq<ChunkSeg>, e: int, again: bool, x: int, u: int, q: int) {
    && 0 <= u < q < |all|
    && (forall j :: q < j < |all| ==> Passed(all[j], e, again))
    && (forall j :: u < j <= q ==> x < all[j].off)
    && all[u].off < e && all[u].End() <= e
  }

  predicate Passed(s: ChunkSeg, e: int, again: bool) {
    s.off < e && (s.End() < e || (again && s.End() == e))
  }

  ghost predicate Loses(all: seq<ChunkSeg>, e: int, again: bool, x: int) {
    e <= x && exists u, q :: LosesAt(all, e, again, x, u, q)
  }

  /** Some insertion loses `x`, and nothing writes `x` from then on. */
  ghost predicate ForgottenAt(hole: ChunkSeg, segs: seq<ChunkSeg>, x: int, k: int) {
    && 0 <= k < |segs|
    && Loses([hole] + segs[..k], segs[k].End(), segs[k].len == 0, x)
    && forall j :: k <= j < |segs| ==> !segs[j].Covers(x)
  }

  ghost predicate Forgotten(hole: ChunkSeg, segs: seq<ChunkSeg>, x: int) {
    exists k :: ForgottenAt(hole, segs, x, k)
  }

  // ---------------------------------------------------------------------------------------------
  // The search of the cut finds exactly the lost bytes
  // ---------------------------------------------------------------------------------------------

  ghost predicate LosesLeftAt(all: seq<ChunkSeg>, e: int, x: int, u: int) {
    && 0 <= u < |all|
    && (forall j :: u < j < |all| ==> x < all[j].off)
    && all[u].off < e && all[u].End() <= e
  }

  lemma {:induction false} LeftGapIff(hole: ChunkSeg, segs: seq<ChunkSeg>, e: int, hi: int, x: int)
    requires e <= x
    ensures x < LeftGap(hole, segs, e, hi) <==> x < hi && exists u :: LosesLeftAt([hole] + segs, e, x, u)
    decreases |segs|
  {
    var s, all := Newest(hole, segs), [hole] + segs;
    assert all[|segs|] == s;
    if e < s.off && segs != [] {
      var older := [hole] + Older(segs);
      LeftGapIff(hole, Older(segs), e, Min(hi, s.off), x);
      assert all == older + [s] && older == all[..|segs|];
      if x < LeftGap(hole, segs, e, hi) {
        var u :| LosesLeftAt(older, e, x, u);
        assert LosesLeftAt(all, e, x, u);
      }
      if x < hi && exists u :: LosesLeftAt(all, e, x, u) {
        var u :| LosesLeftAt(all, e, x, u);
        assert LosesLeftAt(older, e, x, u);
      }
    } else if s.off < e && s.End() <= e {
      assert LosesLeftAt(all, e, x, |segs|);
    }
  }

  lemma {:induction false} GapIff(hole: ChunkSeg, segs: seq<ChunkSeg>, e: int, again: bool, x: int)
    requires e <= x
    ensures x < Gap(hole, segs, e, again) <==> Loses([hole] + segs, e, again, x)
    decreases |segs|
  {
    if segs != [] {
      var s, all, older := Newest(hole, segs), [hole] + segs, [hole] + Older(segs);
      assert all == older + [s] && all[|segs|] == s && older == all[..|segs|];
      if e < s.off {
        LeftGapIff(hole, Older(segs), e, s.off, x);
        if x < Gap(hole, segs, e, again) {
          var u :| LosesLeftAt(older, e, x, u);
          assert LosesAt(all, e, again, x, u, |segs|);
        }
        if Loses(all, e, again, x) {
          var u, q :| LosesAt(all, e, again, x, u, q);
          assert q == |segs|;
          assert LosesLeftAt(older, e, x, u);
        }
      } else if Passed(s, e, again) {
        GapIff(hole, Older(segs), e, again, x);
        if x < Gap(hole, segs, e, again) {
          var u, q :| LosesAt(older, e, again, x, u, q);
          assert LosesAt(all, e, again, x, u, q);
        }
        if Loses(all, e, again, x) {
          var u, q :| LosesAt(all, e, again, x, u, q);
          assert LosesAt(older, e, again, x, u, q);
        }
      }
    }
  }

  // ---------------------------------------------------------------------------------------------
  // Main results about the overlay
  // ---------------------------------------------------------------------------------------------

  /** The tree answers every byte with its last writer, except for forgotten bytes, which it misses. */
  lemma {:induction false} AnswerUnlessForgotten(hole: ChunkSeg, segs: seq<ChunkSeg>, x: int)
    ensures Answer(hole, segs, x) == if Forgotten(hole, segs, x) then Nobody else LastWriter(hole, segs, x)
    decreases |segs|
  {
    if segs != [] {
      var s, older := Newest(hole, segs), Older(segs);
      AnswerUnlessForgotten(hole, older, x);
      var last := |segs| - 1;
      assert segs[..last] == older;
      if s.Covers(x) {
        forall k ensures !ForgottenAt(hole, segs, x, k) {
          assert segs[last].Covers(x);
        }
      } else {
        if s.End() <= x { GapIff(hole, older, s.End(), s.len == 0, x); }
        if Forgotten(hole, older, x) {
          var k :| ForgottenAt(hole, older, x, k);
          assert older[..k] == segs[..k];
          assert ForgottenAt(hole, segs, x, k);
        }
        if s.End() <= x < Gap(hole, older, s.End(), s.len == 0) {
          assert ForgottenAt(hole, segs, x, last);
        } else if Forgotten(hole, segs, x) {
          var k :| ForgottenAt(hole, segs, x, k);
          assert k < last;
          assert older[..k] == segs[..k];
          assert ForgottenAt(hole, older, x, k);
        }
      }
    }
  }

  /** A byte of the hole's range always has a last writer, the hole if no segment. */
  lemma {:induction false} InHole(hole: ChunkSeg, segs: seq<ChunkSeg>, x: int)
    requires hole.Covers(x)
    ensures LastWriter(hole, segs, x) != Nobody
    decreases |segs|
  {
    if segs != [] { InHole(hole, Older(segs), x); }
  }

  ghost predicate NonDecreasing(segs: seq<ChunkSeg>) {
    forall i, j :: 0 <= i < j < |segs| ==> segs[i].off <= segs[j].off
  }

  lemma NothingForgotten(hole: ChunkSeg, segs: seq<ChunkSeg>, x: int)
    requires NonDecreasing(segs)
    ensures !Forgotten(hole, segs, x)
  {
    forall k | 0 <= k < |segs| ensures !ForgottenAt(hole, segs, x, k) {
      var all, e, again := [hole] + segs[..k], segs[k].End(), segs[k].len == 0;
      forall u, q | 0 <= u < q < |all| && e <= x ensures !LosesAt(all, e, again, x, u, q) {
        assert all[q] == segs[q - 1];
      }
    }
  }

  /** The owner of a byte, without recursion: the newest covering segment. */
  lemma {:induction false} LastWriterIsNewest(hole: ChunkSeg, segs: seq<ChunkSeg>, x: int, i: nat)
    requires i < |segs| && segs[i].Covers(x)
    requires forall j :: i < j < |segs| ==> !segs[j].Covers(x)
    ensures LastWriter(hole, segs, x) == Writer(segs[i].id, x - segs[i].off)
    decreases |segs|
  {
    if i < |segs| - 1 { LastWriterIsNewest(hole, Older(segs), x, i); }
  }

  // ---------------------------------------------------------------------------------------------
  // What lies between a forgotten byte and a known one
  // ---------------------------------------------------------------------------------------------

  /** Segment m or a newer one covers the byte. */
  ghost predicate CoveredFrom(segs: seq<ChunkSeg>, m: nat, x: int) {
    exists j :: m <= j < |segs| && segs[j].Covers(x)
  }

  ghost predicate NoneEmpty(segs: seq<ChunkSeg>) {
    forall j :: 0 <= j < |segs| ==> segs[j].len > 0
  }

  /** The byte is known, and lies under a segment newer than o. */
  ghost predicate NewerKnown(hole: ChunkSeg, segs: seq<ChunkSeg>, o: nat, z: int) {
    !Forgotten(hole, segs, z) && CoveredFrom(segs, o + 1, z)
  }

  /** The segment whose insertion at k lost w starts or ends between w and a byte that it did not lose. */
  lemma LossEdge(hole: ChunkSeg, segs: seq<ChunkSeg>, o: nat, k: int, w: int, y: int) returns (b: int)
    requires NoneEmpty(segs) && ForgottenAt(hole, segs, w, k) && CoveredFrom(segs, o, w)
    requires !Forgotten(hole, segs, y) && !CoveredFrom(segs, o + 1, y) && w < y
    ensures w < b < y && CoveredFrom(segs, o + 1, b)
  {
    var all, e, again := [hole] + segs[..k], segs[k].End(), segs[k].len == 0;
    var u, q :| LosesAt(all, e, again, w, u, q);
    var i :| o <= i < |segs| && segs[i].Covers(w);
    assert i < k && all[i + 1] == segs[i];
    assert i + 1 < u;
    assert !ForgottenAt(hole, segs, y, k);
    assert !LosesAt(all, e, again, y, u, q);
    var j :| u < j <= q && all[j].off <= y;
    b := all[j].off;
    assert all[j] == segs[j - 1] && segs[j - 1].Covers(b);
  }

  /** To the right: on the way from a forgotten byte to a known one that is not newer. */
  lemma {:induction false} KnownToTheRight(hole: ChunkSeg, segs: seq<ChunkSeg>, o: nat, w: int, y: int)
    requires NoneEmpty(segs) && Forgotten(hole, segs, w) && CoveredFrom(segs, o, w)
    requires !Forgotten(hole, segs, y) && !CoveredFrom(segs, o + 1, y) && w < y
    ensures exists z :: w < z < y && NewerKnown(hole, segs, o, z)
    decreases y - w
  {
    var k :| ForgottenAt(hole, segs, w, k);
    var b := LossEdge(hole, segs, o, k, w, y);
    if Forgotten(hole, segs, b) {
      assert CoveredFrom(segs, o, b);
      KnownToTheRight(hole, segs, o, b, y);
      var z :| b < z < y && NewerKnown(hole, segs, o, z);
    } else {
      assert NewerKnown(hole, segs, o, b);
    }
  }

  /** To the left: the last byte of the segment whose insertion lost w. */
  lemma LossEnd(hole: ChunkSeg, segs: seq<ChunkSeg>, o: nat, k: int, w: int, y: int)
    requires NoneEmpty(segs) && ForgottenAt(hole, segs, w, k) && CoveredFrom(segs, o, w)
    requires !Forgotten(hole, segs, y) && !CoveredFrom(segs, o + 1, y) && y < w
    ensures y < segs[k].End() - 1 < w && CoveredFrom(segs, o + 1, segs[k].End() - 1)
  {
    var all, e, again := [hole] + segs[..k], segs[k].End(), segs[k].len == 0;
    var u, q :| LosesAt(all, e, again, w, u, q);
    var i :| o <= i < |segs| && segs[i].Covers(w);
    assert i < k && segs[k].Covers(e - 1);
    assert !ForgottenAt(hole, segs, y, k);
    assert e <= y ==> LosesAt(all, e, again, y, u, q);
  }

  lemma {:induction false} KnownToTheLeft(hole: ChunkSeg, segs: seq<ChunkSeg>, o: nat, w: int, y: int)
    requires NoneEmpty(segs) && Forgotten(hole, segs, w) && CoveredFrom(segs, o, w)
    requires !Forgotten(hole, segs, y) && !CoveredFrom(segs, o + 1, y) && y < w
    ensures exists z :: y < z < w && NewerKnown(hole, segs, o, z)
    decreases w - y
  {
    var k :| ForgottenAt(hole, segs, w, k);
    LossEnd(hole, segs, o, k, w, y);
    var b := segs[k].End() - 1;
    if Forgotten(hole, segs, b) {
      assert CoveredFrom(segs, o, b);
      KnownToTheLeft(hole, segs, o, b, y);
      var z :| y < z < b && NewerKnown(hole, segs, o, z);
    } else {
      assert NewerKnown(hole, segs, o, b);
    }
  }
}
