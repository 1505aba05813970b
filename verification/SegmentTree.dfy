/**
  The segment tree of a file chunk (pkg/bio/chunk.go).

  A chunk is an append-only list of overlapping segments. `Build` inserts them one by one at
  the root; `Cut` splits a tree at an offset, editing nodes in place. The nodes that a cut leaves
  behind stay reachable from other nodes, so the structure is a DAG.

  Proofs are about snapshots of the links (`Shape`), so that a step of the code is an update of a
  map and the lemmas do not depend on the heap.
 */
module SegmentTree {
  import opened Common
  import opened Overlay

  class SegTree {
    const start: int
    const end: int
    const id: int
    const pos: int
    var left: SegTree?
    var right: SegTree?
    /** Falls along every link, so the links are acyclic. */
    ghost const rank: nat
    /** No node reachable from this one starts at or ends after this offset. */
    ghost var limit: int

    constructor (start: int, end: int, id: int, pos: int, left: SegTree?, right: SegTree?,
                 ghost rank: nat, ghost limit: int)
      ensures this.start == start && this.end == end && this.id == id && this.pos == pos
      ensures this.left == left && this.right == right
      ensures this.rank == rank && this.limit == limit
    {
      this.start := start;
      this.end := end;
      this.id := id;
      this.pos := pos;
      this.left := left;
      this.right := right;
      this.rank := rank;
      this.limit := limit;
    }
  }

  datatype Links = Links(left: SegTree?, right: SegTree?, limit: int)

  type Shape = map<SegTree, Links>

  ghost function Snapshot(repr: set<SegTree>): Shape
    reads repr
  {
    map n | n in repr :: Links(n.left, n.right, n.limit)
  }

  ghost predicate Within(g: Shape, t: SegTree?) {
    t != null ==> t in g
  }

  ghost predicate GoodNode(g: Shape, n: SegTree)
    requires n in g
  {
    var l, r := g[n].left, g[n].right;
    && n.start <= n.end <= g[n].limit
    && n.start < g[n].limit
    && Within(g, l) && (l != null ==> l.rank < n.rank && g[l].limit <= n.start)
    && Within(g, r) && (r != null ==> r.rank < n.rank && g[r].limit <= g[n].limit)
  }

  ghost predicate Good(g: Shape) {
    forall n {:trigger GoodNode(g, n)} :: n in g ==> GoodNode(g, n)
  }

  ghost function Height(t: SegTree?): nat {
    if t == null then 0 else t.rank + 1
  }

  /** Who the tree says wrote byte `x`. */
  ghost function Look(g: Shape, t: SegTree?, x: int): Owner
    requires Good(g) && Within(g, t)
    decreases Height(t)
  {
    if t == null then Nobody
    else
      assert GoodNode(g, t);
      if x < t.start then Look(g, g[t].left, x)
      else if x < t.end then Writer(t.id, t.pos + x - t.start)
      else Look(g, g[t].right, x)
  }

  /**
    What a cut at `e` throws away below a left link whose parent starts at `hi`: the bytes from `e`
    up to the result.
   */
  ghost function LeftLoss(g: Shape, t: SegTree?, e: int, hi: int): int
    requires Good(g) && Within(g, t)
    decreases Height(t)
  {
    if t == null then e
    else
      assert GoodNode(g, t);
      if e < t.start then LeftLoss(g, g[t].left, e, Min(hi, t.start))
      else if e == t.start || e < t.end then e
      else hi
  }

  /**
    What a cut at `e` throws away: the bytes from `e` up to the result. With `again`, what a second
    cut at the same offset throws away from the right half.
   */
  ghost function Loss(g: Shape, t: SegTree?, e: int, again: bool): int
    requires Good(g) && Within(g, t)
    decreases Height(t)
  {
    if t == null then e
    else
      assert GoodNode(g, t);
      if e < t.start then LeftLoss(g, g[t].left, e, t.start)
      else if e == t.start then e
      else if e > t.end then Loss(g, g[t].right, e, again)
      else if again && e == t.end then Loss(g, g[t].right, e, false)
      else e
  }

  // ---------------------------------------------------------------------------------------------
  // What links out of reach cannot change
  // ---------------------------------------------------------------------------------------------

  lemma {:induction false} LookNobody(g: Shape, t: SegTree?, x: int)
    requires Good(g) && Within(g, t)
    requires t != null ==> g[t].limit <= x
    ensures Look(g, t, x) == Nobody
    decreases Height(t)
  {
    if t != null {
      assert GoodNode(g, t);
      LookNobody(g, g[t].right, x);
    }
  }

  lemma {:induction false} LossNone(g: Shape, t: SegTree?, e: int, again: bool)
    requires Good(g) && Within(g, t)
    requires t != null ==> g[t].limit <= e
    ensures Loss(g, t, e, again) == e
    decreases Height(t)
  {
    if t != null {
      assert GoodNode(g, t);
      LossNone(g, g[t].right, e, again);
      LossNone(g, g[t].right, e, false);
    }
  }

  /** `m` has the links of `g` at every node below height `h`. */
  ghost predicate AgreeBelow(g: Shape, m: Shape, h: nat) {
    forall w :: w in g && w.rank < h ==> w in m && m[w].left == g[w].left && m[w].right == g[w].right
  }

  lemma {:induction false} LookAgrees(g: Shape, m: Shape, t: SegTree?, x: int)
    requires Good(g) && Good(m) && Within(g, t) && AgreeBelow(g, m, Height(t))
    ensures Within(m, t) && Look(m, t, x) == Look(g, t, x)
    decreases Height(t)
  {
    if t != null {
      assert GoodNode(g, t);
      LookAgrees(g, m, g[t].left, x);
      LookAgrees(g, m, g[t].right, x);
    }
  }

  lemma {:induction false} LeftLossAgrees(g: Shape, m: Shape, t: SegTree?, e: int, hi: int)
    requires Good(g) && Good(m) && Within(g, t) && AgreeBelow(g, m, Height(t))
    ensures Within(m, t) && LeftLoss(m, t, e, hi) == LeftLoss(g, t, e, hi)
    decreases Height(t)
  {
    if t != null {
      assert GoodNode(g, t);
      LeftLossAgrees(g, m, g[t].left, e, Min(hi, t.start));
    }
  }

  lemma {:induction false} LossAgrees(g: Shape, m: Shape, t: SegTree?, e: int, again: bool)
    requires Good(g) && Good(m) && Within(g, t) && AgreeBelow(g, m, Height(t))
    ensures Within(m, t) && Loss(m, t, e, again) == Loss(g, t, e, again)
    decreases Height(t)
  {
    if t != null {
      assert GoodNode(g, t);
      LeftLossAgrees(g, m, g[t].left, e, t.start);
      LossAgrees(g, m, g[t].right, e, again);
      LossAgrees(g, m, g[t].right, e, false);
    }
  }

  // ---------------------------------------------------------------------------------------------
  // What a cut at `off` below `t` may do to the links, and what every node keeps
  // ---------------------------------------------------------------------------------------------

  ghost predicate SameRight(g: Shape, m: Shape, w: SegTree, off: int, x: int)
    requires Good(g) && Good(m) && w in g && w in m
  {
    assert GoodNode(g, w) && GoodNode(m, w);
    w.end <= x < off ==> Look(m, m[w].right, x) == Look(g, g[w].right, x)
  }

  ghost predicate RightTrimmed(g: Shape, m: Shape, w: SegTree, off: int)
    requires Good(g) && Good(m) && w in g && w in m
  {
    assert GoodNode(g, w) && GoodNode(m, w);
    && m[w].left == g[w].left
    && w.start < off && w.end <= off && m[w].limit <= off
    && forall x :: SameRight(g, m, w, off, x)
  }

  ghost predicate LeftDropped(g: Shape, m: Shape, w: SegTree, off: int)
    requires w in g && w in m
  {
    w.start == off && m[w] == Links(null, g[w].right, g[w].limit)
  }

  ghost predicate EditedNode(g: Shape, m: Shape, t: SegTree?, off: int, w: SegTree)
    requires Good(g) && Good(m) && Within(g, t) && w in g
  {
    && w in m
    && (m[w] == g[w] ||
        (&& t != null && w.rank <= t.rank
         && g[w].limit <= g[t].limit && m[w].limit <= g[w].limit
         && (RightTrimmed(g, m, w, off) || LeftDropped(g, m, w, off))))
  }

  ghost predicate Edited(g: Shape, m: Shape, t: SegTree?, off: int)
    requires Good(g) && Good(m) && Within(g, t)
  {
    forall w {:trigger EditedNode(g, m, t, off, w)} :: w in g ==> EditedNode(g, m, t, off, w)
  }

  /** A node with everything below the cut answers as before. */
  lemma {:induction false} KeepBelow(g: Shape, m: Shape, t: SegTree?, off: int, n: SegTree?, x: int)
    requires Good(g) && Good(m) && Within(g, t) && Edited(g, m, t, off)
    requires Within(g, n) && (n != null ==> g[n].limit <= off)
    ensures Within(m, n) && Look(m, n, x) == Look(g, n, x)
    decreases Height(n)
  {
    if n != null {
      assert GoodNode(g, n) && EditedNode(g, m, t, off, n);
      assert GoodNode(m, n);
      if m[n] == g[n] {
        KeepBelow(g, m, t, off, g[n].left, x);
        KeepBelow(g, m, t, off, g[n].right, x);
      } else {
        KeepBelow(g, m, t, off, g[n].left, x);
        assert RightTrimmed(g, m, n, off) ==> SameRight(g, m, n, off, x);
        if x >= off {
          LookNobody(g, n, x);
          LookNobody(m, n, x);
        }
      }
    }
  }

  lemma {:induction false} KeepLeftLossBelow(g: Shape, m: Shape, t: SegTree?, off: int, n: SegTree?, e: int, hi: int)
    requires Good(g) && Good(m) && Within(g, t) && Edited(g, m, t, off)
    requires Within(g, n) && (n != null ==> g[n].limit <= off)
    ensures Within(m, n) && LeftLoss(m, n, e, hi) == LeftLoss(g, n, e, hi)
    decreases Height(n)
  {
    if n != null {
      assert GoodNode(g, n) && EditedNode(g, m, t, off, n);
      assert GoodNode(m, n);
      KeepLeftLossBelow(g, m, t, off, g[n].left, e, Min(hi, n.start));
    }
  }

  /** Bytes past everything below `t` are answered as before by every node. */
  lemma {:induction false} KeepAbove(g: Shape, m: Shape, t: SegTree?, off: int, n: SegTree?, x: int)
    requires Good(g) && Good(m) && Within(g, t) && Edited(g, m, t, off)
    requires Within(g, n) && (t != null ==> g[t].limit <= x)
    ensures Within(m, n) && Look(m, n, x) == Look(g, n, x)
    decreases Height(n)
  {
    if n != null {
      assert GoodNode(g, n) && EditedNode(g, m, t, off, n);
      assert GoodNode(m, n);
      if m[n] == g[n] {
        KeepAbove(g, m, t, off, g[n].left, x);
        KeepAbove(g, m, t, off, g[n].right, x);
      } else {
        LookNobody(g, n, x);
        LookNobody(m, n, x);
      }
    }
  }

  /** A later cut at or after `off` loses the same below a left link. */
  lemma {:induction false} KeepLeftLoss(g: Shape, m: Shape, t: SegTree?, off: int, n: SegTree?, e: int, hi: int)
    requires Good(g) && Good(m) && Within(g, t) && Edited(g, m, t, off)
    requires Within(g, n) && off <= e
    ensures Within(m, n) && LeftLoss(m, n, e, hi) == LeftLoss(g, n, e, hi)
    decreases Height(n)
  {
    if n != null {
      assert GoodNode(g, n) && EditedNode(g, m, t, off, n);
      assert GoodNode(m, n);
      if e < n.start {
        KeepLeftLoss(g, m, t, off, g[n].left, e, Min(hi, n.start));
      }
    }
  }

  lemma {:induction false} KeepLossAbove(g: Shape, m: Shape, t: SegTree?, off: int, n: SegTree?, e: int, again: bool)
    requires Good(g) && Good(m) && Within(g, t) && Edited(g, m, t, off)
    requires Within(g, n) && off <= e && (t != null ==> g[t].limit <= e)
    ensures Within(m, n) && Loss(m, n, e, again) == Loss(g, n, e, again)
    decreases Height(n)
  {
    if n != null {
      assert GoodNode(g, n) && EditedNode(g, m, t, off, n);
      assert GoodNode(m, n);
      if m[n] == g[n] {
        KeepLeftLoss(g, m, t, off, g[n].left, e, n.start);
        KeepLossAbove(g, m, t, off, g[n].right, e, again);
        KeepLossAbove(g, m, t, off, g[n].right, e, false);
      } else {
        LossNone(g, n, e, again);
        LossNone(m, n, e, again);
      }
    }
  }

  // ---------------------------------------------------------------------------------------------
  // What a cut promises, and the case lemmas of its five branches
  // ---------------------------------------------------------------------------------------------

  ghost predicate HalvesFit(g: Shape, m: Shape, t: SegTree?, off: int, left: SegTree?, right: SegTree?)
    requires Within(g, t)
  {
    && Within(m, left) && Within(m, right)
    && (left != null ==> t != null && left.rank <= t.rank && m[left].limit <= Min(off, g[t].limit))
    && (right != null ==> t != null && right.rank <= t.rank && m[right].limit <= g[t].limit)
  }

  ghost predicate LeftLook(g: Shape, m: Shape, t: SegTree?, off: int, left: SegTree?, x: int)
    requires Good(g) && Good(m) && Within(g, t) && Within(m, left)
  {
    x < off ==> Look(m, left, x) == Look(g, t, x)
  }

  ghost predicate LeftRisk(g: Shape, m: Shape, t: SegTree?, off: int, left: SegTree?, e: int, hi: int)
    requires Good(g) && Good(m) && Within(g, t) && Within(m, left)
  {
    e < off && hi <= off ==> LeftLoss(m, left, e, hi) == LeftLoss(g, t, e, hi)
  }

  /** The left half answers for every byte before the cut as the whole tree did. */
  ghost predicate LeftHalf(g: Shape, m: Shape, t: SegTree?, off: int, left: SegTree?)
    requires Good(g) && Good(m) && Within(g, t) && Within(m, left)
  {
    && (forall x :: LeftLook(g, m, t, off, left, x))
    && (forall e, hi :: LeftRisk(g, m, t, off, left, e, hi))
  }

  ghost predicate RightLook(g: Shape, m: Shape, t: SegTree?, off: int, right: SegTree?, x: int)
    requires Good(g) && Good(m) && Within(g, t) && Within(m, right)
  {
    off <= x ==> Look(m, right, x) == if x < Loss(g, t, off, false) then Nobody else Look(g, t, x)
  }

  ghost predicate RightRisk(g: Shape, m: Shape, t: SegTree?, off: int, right: SegTree?, e: int, again: bool)
    requires Good(g) && Good(m) && Within(g, t) && Within(m, right)
  {
    && (off < e ==> Loss(m, right, e, again) == Loss(g, t, e, again))
    && (off == e ==> Loss(m, right, e, false) == Loss(g, t, e, true))
  }

  /**
    The right half answers for the bytes from the cut on, short of what was thrown away, and a
    later cut throws away from it what it would have thrown away from the whole tree.
   */
  ghost predicate RightHalf(g: Shape, m: Shape, t: SegTree?, off: int, right: SegTree?)
    requires Good(g) && Good(m) && Within(g, t) && Within(m, right)
  {
    && (forall x :: RightLook(g, m, t, off, right, x))
    && (forall e, again :: RightRisk(g, m, t, off, right, e, again))
  }

  ghost predicate BehindLook(g: Shape, m: Shape, t: SegTree?, off: int, x: int, hi: int)
    requires Good(g) && Good(m) && Within(g, t) && Within(m, t)
  {
    off <= x < hi && (t != null ==> g[t].limit <= hi) ==>
      Look(m, t, x) == if x < LeftLoss(g, t, off, hi) then Nobody else Look(g, t, x)
  }

  /**
    The old root, seen from a parent that still links to it on the left: from the cut on it answers
    as before, except for the bytes of its right half that only the cut's result holds.
   */
  ghost predicate Behind(g: Shape, m: Shape, t: SegTree?, off: int)
    requires Good(g) && Good(m) && Within(g, t) && Within(m, t)
  {
    forall x, hi :: BehindLook(g, m, t, off, x, hi)
  }

  ghost predicate CutDone(g: Shape, m: Shape, t: SegTree?, off: int, left: SegTree?, right: SegTree?) {
    && Good(g) && Good(m) && Within(g, t) && Within(m, t)
    && HalvesFit(g, m, t, off, left, right)
    && Edited(g, m, t, off)
    && Behind(g, m, t, off)
    && LeftHalf(g, m, t, off, left)
    && RightHalf(g, m, t, off, right)
  }

  lemma {:induction false} LeftLossBound(g: Shape, t: SegTree?, e: int, hi: int)
    requires Good(g) && Within(g, t)
    ensures LeftLoss(g, t, e, hi) == e || LeftLoss(g, t, e, hi) <= hi
    decreases Height(t)
  {
    if t != null {
      assert GoodNode(g, t);
      LeftLossBound(g, g[t].left, e, Min(hi, t.start));
    }
  }

  // off < t.start: the right half of the cut of t.left is thrown away.

  ghost predicate SkipStep(g: Shape, m: Shape, t: SegTree, off: int, left: SegTree?, dropped: SegTree?) {
    && Good(g) && t in g && off < t.start
    && GoodNode(g, t)
    && CutDone(g, m, g[t].left, off, left, dropped)
    && t in m && m[t] == g[t]
  }

  lemma SkipLook(g: Shape, m: Shape, t: SegTree, off: int, left: SegTree?, dropped: SegTree?, x: int)
    requires SkipStep(g, m, t, off, left, dropped) && off <= x
    ensures Look(m, t, x) == if x < Loss(g, t, off, false) then Nobody else Look(g, t, x)
  {
    var below := g[t].left;
    assert GoodNode(m, t);
    LeftLossBound(g, below, off, t.start);
    if t.start <= x {
      KeepAbove(g, m, below, off, g[t].right, x);
    } else {
      assert BehindLook(g, m, below, off, x, t.start);
    }
  }

  lemma SkipRisk(g: Shape, m: Shape, t: SegTree, off: int, left: SegTree?, dropped: SegTree?, e: int, again: bool)
    requires SkipStep(g, m, t, off, left, dropped) && off <= e
    ensures RightRisk(g, m, t, off, t, e, again)
  {
    var below := g[t].left;
    assert GoodNode(m, t);
    KeepLeftLoss(g, m, below, off, below, e, t.start);
    if t.start < e {
      KeepLossAbove(g, m, below, off, g[t].right, e, again);
      KeepLossAbove(g, m, below, off, g[t].right, e, false);
    }
  }

  lemma CutBeforeStart(g: Shape, m: Shape, t: SegTree, off: int, left: SegTree?, dropped: SegTree?)
    requires SkipStep(g, m, t, off, left, dropped)
    ensures CutDone(g, m, t, off, left, t)
  {
    var below := g[t].left;
    forall w | w in g ensures EditedNode(g, m, t, off, w) {
      assert EditedNode(g, m, below, off, w);
    }
    forall x ensures LeftLook(g, m, t, off, left, x) {
      assert LeftLook(g, m, below, off, left, x);
    }
    forall e, hi ensures LeftRisk(g, m, t, off, left, e, hi) {
      assert LeftRisk(g, m, below, off, left, e, hi);
      assert hi <= off ==> Min(hi, t.start) == hi;
    }
    forall x ensures RightLook(g, m, t, off, t, x) {
      if off <= x { SkipLook(g, m, t, off, left, dropped, x); }
    }
    forall x, hi ensures BehindLook(g, m, t, off, x, hi) {
      if off <= x { SkipLook(g, m, t, off, left, dropped, x); }
      assert t.start <= hi ==> Min(hi, t.start) == t.start;
    }
    forall e, again ensures RightRisk(g, m, t, off, t, e, again) {
      if off <= e { SkipRisk(g, m, t, off, left, dropped, e, again); }
    }
  }

  // off > t.end: t keeps the left half of its right subtree.

  ghost predicate TrimStep(g: Shape, m: Shape, k: Shape, t: SegTree, off: int, left: SegTree?, right: SegTree?) {
    && Good(g) && t in g && t.end < off
    && GoodNode(g, t)
    && CutDone(g, m, g[t].right, off, left, right)
    && t in m && m[t] == g[t]
    && k == m[t := Links(g[t].left, left, Min(off, g[t].limit))]
  }

  lemma TrimGood(g: Shape, m: Shape, k: Shape, t: SegTree, off: int, left: SegTree?, right: SegTree?)
    requires TrimStep(g, m, k, t, off, left, right)
    ensures Good(k) && AgreeBelow(m, k, t.rank) && HalvesFit(g, k, t, off, t, right)
  {
    forall n | n in k ensures GoodNode(k, n) {
      assert GoodNode(m, n);
    }
  }

  lemma TrimEdited(g: Shape, m: Shape, k: Shape, t: SegTree, off: int, left: SegTree?, right: SegTree?, w: SegTree)
    requires TrimStep(g, m, k, t, off, left, right) && Good(k) && w in g
    ensures EditedNode(g, k, t, off, w)
  {
    TrimGood(g, m, k, t, off, left, right);
    assert EditedNode(g, m, g[t].right, off, w);
    if w == t {
      forall x ensures SameRight(g, k, t, off, x) {
        assert LeftLook(g, m, g[t].right, off, left, x);
        LookAgrees(m, k, left, x);
      }
      assert RightTrimmed(g, k, t, off);
    } else if m[w] != g[w] && RightTrimmed(g, m, w, off) {
      assert GoodNode(m, w) && GoodNode(g, w);
      forall x ensures SameRight(g, k, w, off, x) {
        assert SameRight(g, m, w, off, x);
        LookAgrees(m, k, m[w].right, x);
      }
      assert RightTrimmed(g, k, w, off);
    }
  }

  lemma TrimLook(g: Shape, m: Shape, k: Shape, t: SegTree, off: int, left: SegTree?, right: SegTree?, x: int)
    requires TrimStep(g, m, k, t, off, left, right) && Good(k)
    ensures Look(k, t, x) == if x < off then Look(g, t, x) else Nobody
  {
    TrimGood(g, m, k, t, off, left, right);
    KeepBelow(g, m, g[t].right, off, g[t].left, x);
    LookAgrees(m, k, g[t].left, x);
    LookAgrees(m, k, left, x);
    assert LeftLook(g, m, g[t].right, off, left, x);
    if off <= x {
      LookNobody(k, left, x);
    }
  }

  lemma CutAfterEnd(g: Shape, m: Shape, k: Shape, t: SegTree, off: int, left: SegTree?, right: SegTree?)
    requires TrimStep(g, m, k, t, off, left, right)
    ensures CutDone(g, k, t, off, t, right)
  {
    TrimGood(g, m, k, t, off, left, right);
    var below := g[t].right;
    forall w | w in g ensures EditedNode(g, k, t, off, w) {
      TrimEdited(g, m, k, t, off, left, right, w);
    }
    forall x ensures LeftLook(g, k, t, off, t, x) {
      TrimLook(g, m, k, t, off, left, right, x);
    }
    forall x, hi ensures BehindLook(g, k, t, off, x, hi) {
      TrimLook(g, m, k, t, off, left, right, x);
    }
    forall e, hi ensures LeftRisk(g, k, t, off, t, e, hi) {
      KeepLeftLossBelow(g, m, below, off, g[t].left, e, Min(hi, t.start));
      LeftLossAgrees(m, k, g[t].left, e, Min(hi, t.start));
    }
    forall x ensures RightLook(g, k, t, off, right, x) {
      assert RightLook(g, m, below, off, right, x);
      LookAgrees(m, k, right, x);
    }
    forall e, again ensures RightRisk(g, k, t, off, right, e, again) {
      assert RightRisk(g, m, below, off, right, e, again);
      LossAgrees(m, k, right, e, again);
      LossAgrees(m, k, right, e, false);
    }
  }

  // off == t.start, off == t.end, and off inside t.

  lemma Relink(g: Shape, k: Shape, t: SegTree, links: Links)
    requires Good(g) && t in g && GoodNode(g, t) && k == g[t := links]
    requires links.left == null || links.left == g[t].left
    requires links.right == null || (links.right == g[t].right && links.limit == g[t].limit)
    requires t.start < links.limit && t.end <= links.limit <= g[t].limit
    ensures Good(k) && AgreeBelow(g, k, t.rank)
  {
    forall n | n in k ensures GoodNode(k, n) {
      assert GoodNode(g, n);
    }
  }

  lemma CutAtStart(g: Shape, k: Shape, t: SegTree)
    requires Good(g) && t in g && GoodNode(g, t)
    requires k == g[t := Links(null, g[t].right, g[t].limit)]
    ensures CutDone(g, k, t, t.start, g[t].left, t)
  {
    var off, left := t.start, g[t].left;
    Relink(g, k, t, Links(null, g[t].right, g[t].limit));
    assert LeftDropped(g, k, t, off);
    forall x ensures LeftLook(g, k, t, off, left, x) && RightLook(g, k, t, off, t, x) {
      LookAgrees(g, k, left, x);
      LookAgrees(g, k, g[t].right, x);
    }
    forall x, hi ensures BehindLook(g, k, t, off, x, hi) {
      LookAgrees(g, k, g[t].right, x);
    }
    forall e, hi ensures LeftRisk(g, k, t, off, left, e, hi) {
      LeftLossAgrees(g, k, left, e, hi);
      assert hi <= off ==> Min(hi, t.start) == hi;
    }
    forall e, again ensures RightRisk(g, k, t, off, t, e, again) {
      LossAgrees(g, k, g[t].right, e, again);
      LossAgrees(g, k, g[t].right, e, false);
    }
  }

  lemma CutAtEnd(g: Shape, k: Shape, t: SegTree)
    requires Good(g) && t in g && GoodNode(g, t) && t.start < t.end
    requires k == g[t := Links(g[t].left, null, t.end)]
    ensures CutDone(g, k, t, t.end, t, g[t].right)
  {
    var off, right := t.end, g[t].right;
    Relink(g, k, t, Links(g[t].left, null, t.end));
    assert RightTrimmed(g, k, t, off);
    forall x ensures LeftLook(g, k, t, off, t, x) && RightLook(g, k, t, off, right, x) {
      LookAgrees(g, k, g[t].left, x);
      LookAgrees(g, k, right, x);
    }
    forall x, hi ensures BehindLook(g, k, t, off, x, hi) {
    }
    forall e, hi ensures LeftRisk(g, k, t, off, t, e, hi) {
      LeftLossAgrees(g, k, g[t].left, e, Min(hi, t.start));
    }
    forall e, again ensures RightRisk(g, k, t, off, right, e, again) {
      LossAgrees(g, k, right, e, again);
      LossAgrees(g, k, right, e, false);
    }
  }

  ghost predicate Split(g: Shape, k: Shape, t: SegTree, off: int, left: SegTree, right: SegTree)
    requires t in g
  {
    && left !in g && right !in g && left != right
    && left.start == t.start && left.end == off && left.id == t.id && left.pos == t.pos
    && right.start == off && right.end == t.end && right.id == t.id && right.pos == t.pos + off - t.start
    && left.rank == right.rank == t.rank
    && k.Keys == g.Keys + {left, right}
    && (forall n :: n in g ==> k[n] == g[n])
    && k[left] == Links(g[t].left, null, off) && k[right] == Links(null, g[t].right, g[t].limit)
  }

  lemma SplitGood(g: Shape, k: Shape, t: SegTree, off: int, left: SegTree, right: SegTree)
    requires Good(g) && t in g && GoodNode(g, t) && t.start < off < t.end
    requires Split(g, k, t, off, left, right)
    ensures Good(k)
  {
    forall n | n in k ensures GoodNode(k, n) {
      if n in g { assert GoodNode(g, n); }
    }
  }

  lemma CutNothing(g: Shape, off: int)
    requires Good(g)
    ensures CutDone(g, g, null, off, null, null)
  {
  }

  lemma CutInside(g: Shape, k: Shape, t: SegTree, off: int, left: SegTree, right: SegTree)
    requires Good(g) && t in g && GoodNode(g, t) && t.start < off < t.end
    requires Split(g, k, t, off, left, right)
    ensures CutDone(g, k, t, off, left, right)
  {
    SplitGood(g, k, t, off, left, right);
    forall x ensures LeftLook(g, k, t, off, left, x) && RightLook(g, k, t, off, right, x) {
      LookAgrees(g, k, g[t].left, x);
      LookAgrees(g, k, g[t].right, x);
    }
    forall x, hi ensures BehindLook(g, k, t, off, x, hi) {
      LookAgrees(g, k, t, x);
    }
    forall e, hi ensures LeftRisk(g, k, t, off, left, e, hi) {
      LeftLossAgrees(g, k, g[t].left, e, Min(hi, t.start));
    }
    forall e, again ensures RightRisk(g, k, t, off, right, e, again) {
      LossAgrees(g, k, g[t].right, e, again);
      LossAgrees(g, k, g[t].right, e, false);
    }
  }

  method Cut(t: SegTree?, off: int, ghost repr: set<SegTree>)
    returns (left: SegTree?, right: SegTree?, ghost all: set<SegTree>)
    requires t != null ==> t in repr
    requires Good(Snapshot(repr))
    modifies repr
    ensures repr <= all && fresh(all - repr)
    ensures CutDone(old(Snapshot(repr)), Snapshot(all), t, off, left, right)
    decreases Height(t)
  {
    ghost var g := Snapshot(repr);
    all := repr;
    if t == null {
      CutNothing(g, off);
      return null, null, repr;
    }
    assert GoodNode(g, t);
    if off < t.start {
      var dropped;
      left, dropped, all := Cut(t.left, off, repr);
      right := t;
      assert EditedNode(g, Snapshot(all), g[t].left, off, t);
      CutBeforeStart(g, Snapshot(all), t, off, left, dropped);
      return;
    }
    if off > t.end {
      var below;
      below, right, all := Cut(t.right, off, repr);
      ghost var m := Snapshot(all);
      assert EditedNode(g, m, g[t].right, off, t);
      left := t;
      t.right := below;
      t.limit := Min(off, t.limit);
      assert Snapshot(all) == m[t := Links(g[t].left, below, Min(off, g[t].limit))];
      CutAfterEnd(g, m, Snapshot(all), t, off, below, right);
      return;
    }
    if off == t.start {
      left, right := t.left, t;
      t.left := null;
      assert Snapshot(all) == g[t := Links(null, g[t].right, g[t].limit)];
      CutAtStart(g, Snapshot(all), t);
      return;
    }
    if off == t.end {
      left, right := t, t.right;
      t.right := null;
      t.limit := t.end;
      assert Snapshot(all) == g[t := Links(g[t].left, null, t.end)];
      CutAtEnd(g, Snapshot(all), t);
      return;
    }
    left := new SegTree(t.start, off, t.id, t.pos, t.left, null, t.rank, off);
    right := new SegTree(off, t.end, t.id, t.pos + (off - t.start), null, t.right, t.rank, t.limit);
    all := repr + {left, right};
    CutInside(g, Snapshot(all), t, off, left, right);
  }

  // ---------------------------------------------------------------------------------------------
  // Building the tree
  // ---------------------------------------------------------------------------------------------

  ghost predicate AnswersAt(g: Shape, t: SegTree, hole: ChunkSeg, segs: seq<ChunkSeg>, x: int)
    requires Good(g) && t in g
  {
    Look(g, t, x) == Answer(hole, segs, x)
  }

  ghost predicate LeftLossAt(g: Shape, t: SegTree, hole: ChunkSeg, segs: seq<ChunkSeg>, e: int, hi: int)
    requires Good(g) && t in g
  {
    LeftLoss(g, t, e, hi) == LeftGap(hole, segs, e, hi)
  }

  ghost predicate LossAt(g: Shape, t: SegTree, hole: ChunkSeg, segs: seq<ChunkSeg>, e: int, again: bool)
    requires Good(g) && t in g
  {
    Loss(g, t, e, again) == Gap(hole, segs, e, again)
  }

  /** The tree at `t` stands for the list: its answers, and what later cuts will lose. */
  ghost predicate Indexes(g: Shape, t: SegTree, hole: ChunkSeg, segs: seq<ChunkSeg>) {
    && Good(g) && t in g
    && (forall x :: AnswersAt(g, t, hole, segs, x))
    && (forall e, hi :: LeftLossAt(g, t, hole, segs, e, hi))
    && (forall e, again :: LossAt(g, t, hole, segs, e, again))
  }

  /** What a cut loses, a cut further right inside the lost stretch loses too. */
  lemma {:induction false} LeftLossWider(g: Shape, t: SegTree?, o: int, e: int, hi: int)
    requires Good(g) && Within(g, t)
    requires o <= e < LeftLoss(g, t, o, hi)
    ensures LeftLoss(g, t, e, hi) == LeftLoss(g, t, o, hi)
    decreases Height(t)
  {
    assert GoodNode(g, t);
    if o < t.start {
      LeftLossBound(g, g[t].left, o, Min(hi, t.start));
      LeftLossWider(g, g[t].left, o, e, Min(hi, t.start));
    }
  }

  lemma {:induction false} LossWider(g: Shape, t: SegTree?, o: int, e: int)
    requires Good(g) && Within(g, t)
    requires o <= e < Loss(g, t, o, false)
    ensures Loss(g, t, e, e == o) == Loss(g, t, o, false)
    decreases Height(t)
  {
    assert GoodNode(g, t);
    if o < t.start {
      LeftLossBound(g, g[t].left, o, t.start);
      LeftLossWider(g, g[t].left, o, e, t.start);
    } else {
      LossWider(g, g[t].right, o, e);
    }
  }

  /** The shapes through which one insertion goes: `g`, cut at s.off to `m`, cut at s.End() to `k`, then `f`. */
  ghost predicate InsertStep(g: Shape, m: Shape, k: Shape, f: Shape, st: SegTree, s: ChunkSeg,
                             left: SegTree?, r: SegTree?, dropped: SegTree?, right: SegTree?, n: SegTree)
  {
    && Good(g) && st in g
    && CutDone(g, m, st, s.off, left, r)
    && CutDone(m, k, r, s.End(), dropped, right)
    && n.start == s.off && n.end == s.End() && n.id == s.id && n.pos == 0 && n.rank == st.rank + 1
    && n !in k && Within(k, left)
    && f == k[n := Links(left, right, Max(g[st].limit, Max(s.End(), s.off + 1)))]
  }

  lemma InsertGood(g: Shape, m: Shape, k: Shape, f: Shape, st: SegTree, s: ChunkSeg,
                   left: SegTree?, r: SegTree?, dropped: SegTree?, right: SegTree?, n: SegTree)
    requires InsertStep(g, m, k, f, st, s, left, r, dropped, right, n)
    ensures Good(f) && n in f && GoodNode(f, n) && AgreeBelow(k, f, n.rank)
  {
    if left != null {
      assert EditedNode(m, k, r, s.End(), left);
    }
    forall w | w in f ensures GoodNode(f, w) {
      if w in k { assert GoodNode(k, w); }
    }
  }

  lemma InsertLook(g: Shape, m: Shape, k: Shape, f: Shape, st: SegTree, s: ChunkSeg,
                   left: SegTree?, r: SegTree?, dropped: SegTree?, right: SegTree?, n: SegTree,
                   hole: ChunkSeg, segs: seq<ChunkSeg>, x: int)
    requires InsertStep(g, m, k, f, st, s, left, r, dropped, right, n) && Good(f)
    requires Indexes(g, st, hole, segs)
    ensures Look(f, n, x) == Answer(hole, segs + [s], x)
  {
    InsertGood(g, m, k, f, st, s, left, r, dropped, right, n);
    assert Older(segs + [s]) == segs;
    assert AnswersAt(g, st, hole, segs, x);
    if x < s.off {
      LookAgrees(k, f, left, x);
      KeepBelow(m, k, r, s.End(), left, x);
      assert LeftLook(g, m, st, s.off, left, x);
    } else if s.End() <= x {
      LookAgrees(k, f, right, x);
      assert RightLook(m, k, r, s.End(), right, x);
      assert RightLook(g, m, st, s.off, r, x);
      assert RightRisk(g, m, st, s.off, r, s.End(), false);
      assert LossAt(g, st, hole, segs, s.End(), s.len == 0);
      if x < Loss(g, st, s.off, false) {
        LossWider(g, st, s.off, s.End());
      }
    }
  }

  lemma InsertLeftLoss(g: Shape, m: Shape, k: Shape, f: Shape, st: SegTree, s: ChunkSeg,
                       left: SegTree?, r: SegTree?, dropped: SegTree?, right: SegTree?, n: SegTree,
                       hole: ChunkSeg, segs: seq<ChunkSeg>, e: int, hi: int)
    requires InsertStep(g, m, k, f, st, s, left, r, dropped, right, n) && Good(f)
    requires Indexes(g, st, hole, segs)
    requires e < s.off && hi <= s.off
    ensures Within(f, left) && LeftLoss(f, left, e, hi) == LeftGap(hole, segs, e, hi)
  {
    InsertGood(g, m, k, f, st, s, left, r, dropped, right, n);
    LeftLossAgrees(k, f, left, e, hi);
    KeepLeftLossBelow(m, k, r, s.End(), left, e, hi);
    assert LeftRisk(g, m, st, s.off, left, e, hi);
    assert LeftLossAt(g, st, hole, segs, e, hi);
  }

  lemma InsertLoss(g: Shape, m: Shape, k: Shape, f: Shape, st: SegTree, s: ChunkSeg,
                   left: SegTree?, r: SegTree?, dropped: SegTree?, right: SegTree?, n: SegTree,
                   hole: ChunkSeg, segs: seq<ChunkSeg>, e: int, again: bool)
    requires InsertStep(g, m, k, f, st, s, left, r, dropped, right, n) && Good(f)
    requires Indexes(g, st, hole, segs)
    ensures Loss(f, n, e, again) == Gap(hole, segs + [s], e, again)
  {
    InsertGood(g, m, k, f, st, s, left, r, dropped, right, n);
    assert Older(segs + [s]) == segs;
    if e < s.off {
      InsertLeftLoss(g, m, k, f, st, s, left, r, dropped, right, n, hole, segs, e, s.off);
    } else if s.off < e && s.End() <= e {
      LossAgrees(k, f, right, e, again);
      LossAgrees(k, f, right, e, false);
      assert RightRisk(m, k, r, s.End(), right, e, again);
      assert RightRisk(g, m, st, s.off, r, e, again);
      assert LossAt(g, st, hole, segs, e, again);
    }
  }

  lemma Insert(g: Shape, m: Shape, k: Shape, f: Shape, st: SegTree, s: ChunkSeg,
               left: SegTree?, r: SegTree?, dropped: SegTree?, right: SegTree?, n: SegTree,
               hole: ChunkSeg, segs: seq<ChunkSeg>)
    requires InsertStep(g, m, k, f, st, s, left, r, dropped, right, n)
    requires Indexes(g, st, hole, segs)
    ensures Indexes(f, n, hole, segs + [s])
  {
    InsertGood(g, m, k, f, st, s, left, r, dropped, right, n);
    assert Older(segs + [s]) == segs;
    forall x ensures AnswersAt(f, n, hole, segs + [s], x) {
      InsertLook(g, m, k, f, st, s, left, r, dropped, right, n, hole, segs, x);
    }
    forall e, hi ensures LeftLossAt(f, n, hole, segs + [s], e, hi) {
      if e < s.off {
        InsertLeftLoss(g, m, k, f, st, s, left, r, dropped, right, n, hole, segs, e, Min(hi, s.off));
      }
    }
    forall e, again ensures LossAt(f, n, hole, segs + [s], e, again) {
      InsertLoss(g, m, k, f, st, s, left, r, dropped, right, n, hole, segs, e, again);
    }
  }

  lemma IndexHole(g: Shape, st: SegTree, hole: ChunkSeg)
    requires st.start == hole.off && st.end == hole.End() && st.id == hole.id && st.pos == 0
    requires g == map[st := Links(null, null, Max(hole.End(), hole.off + 1))]
    ensures Indexes(g, st, hole, [])
  {
    assert GoodNode(g, st);
    assert Good(g);
    forall x ensures AnswersAt(g, st, hole, [], x) {
    }
    forall e, hi ensures LeftLossAt(g, st, hole, [], e, hi) {
    }
    forall e, again ensures LossAt(g, st, hole, [], e, again) {
    }
  }

  /** One round of the loop of buildSegmentTree. */
  method Add(st: SegTree, seg: ChunkSeg, ghost repr: set<SegTree>, ghost hole: ChunkSeg, ghost segs: seq<ChunkSeg>)
    returns (newSt: SegTree, ghost all: set<SegTree>)
    requires Indexes(Snapshot(repr), st, hole, segs)
    modifies repr
    ensures fresh(all - repr)
    ensures Indexes(Snapshot(all), newSt, hole, segs + [seg])
  {
    ghost var g := Snapshot(repr);
    var left, r, dropped, right;
    left, r, all := Cut(st, seg.off, repr);
    ghost var m := Snapshot(all);
    dropped, right, all := Cut(r, seg.End(), all);
    ghost var k := Snapshot(all);
    assert left != null ==> EditedNode(m, k, r, seg.End(), left);
    newSt := new SegTree(seg.off, seg.End(), seg.id, 0, left, right, st.rank + 1,
                         Max(g[st].limit, Max(seg.End(), seg.off + 1)));
    all := all + {newSt};
    assert Snapshot(all) == k[newSt := Links(left, right, newSt.limit)];
    Insert(g, m, k, Snapshot(all), st, seg, left, r, dropped, right, newSt, hole, segs);
  }

  /** buildSegmentTree. The tree indexes the list, whatever the list is. */
  method Build(dataStart: int, dataEnd: int, segs: seq<ChunkSeg>) returns (st: SegTree, ghost repr: set<SegTree>)
    requires dataStart <= dataEnd
    ensures fresh(repr)
    ensures Indexes(Snapshot(repr), st, ChunkSeg(0, dataStart, dataEnd - dataStart), segs)
  {
    ghost var hole := ChunkSeg(0, dataStart, dataEnd - dataStart);
    st := new SegTree(dataStart, dataEnd, 0, 0, null, null, 0, Max(dataEnd, dataStart + 1));
    repr := {st};
    IndexHole(Snapshot(repr), st, hole);
    for i := 0 to |segs|
      invariant fresh(repr)
      invariant Indexes(Snapshot(repr), st, hole, segs[..i])
    {
      assert segs[..i] + [segs[i]] == segs[..i + 1];
      st, repr := Add(st, segs[i], repr, hole, segs[..i]);
    }
    assert segs[..|segs|] == segs;
  }

  // ---------------------------------------------------------------------------------------------
  // Querying the tree
  // ---------------------------------------------------------------------------------------------

  function Query(t: SegTree?, start: int, end: int, ghost repr: set<SegTree>): seq<Segment>
    requires t != null ==> t in repr
    requires Good(Snapshot(repr))
    reads repr
    decreases Height(t)
  {
    if t == null then []
    else
      assert GoodNode(Snapshot(repr), t);
      var before := if start < t.start then Query(t.left, start, Min(t.start, end), repr) else [];
      var own := Own(t.id, t.pos, t.start, t.end, start, end);
      var after := if end > t.end then Query(t.right, Max(t.end, start), end, repr) else [];
      before + own + after
  }

  ghost function View(g: Shape, t: SegTree?): int -> Owner
    requires Good(g) && Within(g, t)
  {
    x => if Good(g) && Within(g, t) then Look(g, t, x) else Nobody
  }

  lemma {:induction false} QueryNothing(t: SegTree?, start: int, end: int, repr: set<SegTree>)
    requires t != null ==> t in repr
    requires Good(Snapshot(repr)) && end <= start
    ensures Query(t, start, end, repr) == []
    decreases Height(t)
  {
    if t != null {
      assert GoodNode(Snapshot(repr), t);
      QueryNothing(t.left, start, Min(t.start, end), repr);
      QueryNothing(t.right, Max(t.end, start), end, repr);
    }
  }

  lemma {:induction false} QueryShows(t: SegTree?, start: int, end: int, repr: set<SegTree>)
    requires t != null ==> t in repr
    requires Good(Snapshot(repr))
    ensures Shows(Query(t, start, end, repr), start, end, View(Snapshot(repr), t))
    decreases Height(t)
  {
    if end <= start {
      QueryNothing(t, start, end, repr);
    } else if t != null {
      assert GoodNode(Snapshot(repr), t);
      var g := Snapshot(repr);
      var before := if start < t.start then Query(t.left, start, Min(t.start, end), repr) else [];
      var after := if end > t.end then Query(t.right, Max(t.end, start), end, repr) else [];
      if start < t.start {
        QueryShows(t.left, start, Min(t.start, end), repr);
      }
      if end > t.end {
        QueryShows(t.right, Max(t.end, start), end, repr);
      }
      ShowsAround(before, after, t.id, t.pos, t.start, t.end, start, end,
                  View(g, t.left), View(g, t.right), View(g, t));
    }
  }

  /** For every list and every window, the pieces of a query are exactly what `Answer` describes. */
  lemma QueryAnswers(t: SegTree, hole: ChunkSeg, segs: seq<ChunkSeg>, start: int, end: int, repr: set<SegTree>)
    requires t in repr && Indexes(Snapshot(repr), t, hole, segs)
    ensures Shows(Query(t, start, end, repr), start, end, x => Answer(hole, segs, x))
  {
    var f := View(Snapshot(repr), t);
    QueryShows(t, start, end, repr);
    forall x ensures f(x) == Answer(hole, segs, x) {
      assert AnswersAt(Snapshot(repr), t, hole, segs, x);
    }
    ShowsSame(Query(t, start, end, repr), start, end, f, x => Answer(hole, segs, x));
  }
}
