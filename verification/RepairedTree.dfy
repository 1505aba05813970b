/**
  The tree of a chunk with one assignment changed (pkg/bio/chunk.go, the first case of cut): a cut before a
  node keeps the right half of what it cuts off the node's left side, where the code drops it. This tree
  forgets nothing, so that assignment is all there is to the forgetting. It is shown first for trees as
  values, and then for nodes that are edited in place as the code does, which stay unshared.
 */
module RepairedTree {
  import opened Common
  import opened Overlay

  datatype Tree = Empty | Node(left: Tree, start: int, end: int, id: int, pos: int, right: Tree)

  function Find(t: Tree, x: int): Owner {
    match t
    case Empty => Nobody
    case Node(l, start, end, id, pos, r) =>
      if x < start then Find(l, x) else if x < end then Writer(id, pos + x - start) else Find(r, x)
  }

  function Cut(t: Tree, off: int): (Tree, Tree) {
    match t
    case Empty => (Empty, Empty)
    case Node(l, start, end, id, pos, r) =>
      if off < start then
        var (a, b) := Cut(l, off);
        (a, Node(b, start, end, id, pos, r))
      else if off > end then
        var (a, b) := Cut(r, off);
        (Node(l, start, end, id, pos, a), b)
      else if off == start then (l, Node(Empty, start, end, id, pos, r))
      else if off == end then (Node(l, start, end, id, pos, Empty), r)
      else (Node(l, start, off, id, pos, Empty), Node(Empty, off, end, id, pos + (off - start), r))
  }

  function Build(hole: ChunkSeg, segs: seq<ChunkSeg>): Tree {
    if segs == [] then Node(Empty, hole.off, hole.End(), hole.id, 0, Empty)
    else Added(Build(hole, Older(segs)), Newest(hole, segs))
  }

  function Added(t: Tree, s: ChunkSeg): Tree {
    var (l, r) := Cut(t, s.off);
    Node(l, s.off, s.End(), s.id, 0, Cut(r, s.End()).1)
  }

  /** The nodes are in order, between lo and hi. */
  predicate Ordered(t: Tree, lo: int, hi: int) {
    match t
    case Empty => lo <= hi
    case Node(l, start, end, _, _, r) => start <= end && Ordered(l, lo, start) && Ordered(r, end, hi)
  }

  lemma {:induction false} OrderedBounds(t: Tree, lo: int, hi: int, x: int)
    requires Ordered(t, lo, hi)
    ensures lo <= hi && (Find(t, x) != Nobody ==> lo <= x < hi)
    decreases t
  {
    if t.Node? {
      OrderedBounds(t.left, lo, t.start, x);
      OrderedBounds(t.right, t.end, hi, x);
    }
  }

  lemma {:induction false} Wider(t: Tree, lo: int, hi: int, lo': int, hi': int)
    requires Ordered(t, lo, hi) && lo' <= lo && hi <= hi'
    ensures Ordered(t, lo', hi')
    decreases t
  {
    if t.Node? {
      Wider(t.left, lo, t.start, lo', t.start);
      Wider(t.right, t.end, hi, t.end, hi');
    }
  }

  /** A cut divides the tree at the offset, and both sides are still in order. */
  lemma {:induction false} CutOrdered(t: Tree, lo: int, hi: int, off: int)
    requires Ordered(t, lo, hi) && lo <= off <= hi
    ensures Ordered(Cut(t, off).0, lo, off) && Ordered(Cut(t, off).1, off, hi)
    decreases t
  {
    if t.Node? {
      OrderedBounds(t.left, lo, t.start, off);
      OrderedBounds(t.right, t.end, hi, off);
      if off < t.start {
        CutOrdered(t.left, lo, t.start, off);
      } else if off > t.end {
        CutOrdered(t.right, t.end, hi, off);
      }
    }
  }

  lemma {:induction false} CutFinds(t: Tree, lo: int, hi: int, off: int, x: int)
    requires Ordered(t, lo, hi) && lo <= off <= hi
    ensures Find(Cut(t, off).0, x) == if x < off then Find(t, x) else Nobody
    ensures Find(Cut(t, off).1, x) == if x < off then Nobody else Find(t, x)
    decreases t
  {
    if t.Node? {
      OrderedBounds(t.left, lo, t.start, x);
      OrderedBounds(t.right, t.end, hi, x);
      if off < t.start {
        CutFinds(t.left, lo, t.start, off, x);
      } else if off > t.end {
        CutFinds(t.right, t.end, hi, off, x);
      }
    }
  }

  /** For every list the tree answers every byte with its last writer. */
  lemma {:induction false} BuildIsExact(hole: ChunkSeg, segs: seq<ChunkSeg>) returns (lo: int, hi: int)
    ensures Ordered(Build(hole, segs), lo, hi)
    ensures forall x :: Find(Build(hole, segs), x) == LastWriter(hole, segs, x)
    decreases |segs|
  {
    lo, hi := hole.off, hole.End();
    if segs != [] {
      var s, t := Newest(hole, segs), Build(hole, Older(segs));
      var lo', hi' := BuildIsExact(hole, Older(segs));
      lo, hi := Min(lo', s.off), Max(hi', s.End());
      OrderedBounds(t, lo', hi', s.off);
      Wider(t, lo', hi', lo, hi);
      var r := Cut(t, s.off).1;
      CutOrdered(t, lo, hi, s.off);
      CutOrdered(r, s.off, hi, s.End());
      forall x ensures Find(Build(hole, segs), x) == LastWriter(hole, segs, x) {
        CutFinds(t, lo, hi, s.off, x);
        CutFinds(r, s.off, hi, s.End(), x);
      }
    }
  }

  // ---------------------------------------------------------------------------------------------
  // In place
  // ---------------------------------------------------------------------------------------------

  class TreeNode {
    const start: int
    const end: int
    const id: int
    const pos: int
    var left: TreeNode?
    var right: TreeNode?
    ghost var repr: set<TreeNode>

    constructor (start: int, end: int, id: int, pos: int, left: TreeNode?, right: TreeNode?)
      requires Apart(left, right)
      ensures Valid() && fresh(this) && repr == {this} + ReprOf(left) + ReprOf(right)
      ensures Value(this) == Node(old(Value(left)), start, end, id, pos, old(Value(right)))
    {
      this.start, this.end, this.id, this.pos, this.left, this.right := start, end, id, pos, left, right;
      repr := {this} + ReprOf(left) + ReprOf(right);
    }

    ghost predicate Valid()
      reads this, repr
      decreases repr
    {
      && this in repr
      && (left != null ==> left in repr && left.repr <= repr - {this} && left.Valid())
      && (right != null ==> right in repr && right.repr <= repr - {this} && right.Valid())
      && (left != null && right != null ==> left.repr !! right.repr)
    }

    /** Other subtrees, in place. */
    method Relink(l: TreeNode?, r: TreeNode?)
      requires Apart(l, r) && this !in ReprOf(l) + ReprOf(r)
      modifies this
      ensures Valid() && repr == {this} + ReprOf(l) + ReprOf(r)
      ensures Value(this) == Node(old(Value(l)), start, end, id, pos, old(Value(r)))
    {
      left, right := l, r;
      repr := {this} + ReprOf(l) + ReprOf(r);
    }
  }

  ghost function ReprOf(t: TreeNode?): set<TreeNode>
    reads t
  {
    if t == null then {} else t.repr
  }

  ghost predicate ValidOf(t: TreeNode?)
    reads t, ReprOf(t)
  {
    t != null ==> t.Valid()
  }

  /** Two trees that share no node. */
  ghost predicate Apart(l: TreeNode?, r: TreeNode?)
    reads l, ReprOf(l), r, ReprOf(r)
  {
    ValidOf(l) && ValidOf(r) && ReprOf(l) !! ReprOf(r)
  }

  /** The tree as a value. */
  ghost function Value(t: TreeNode?): Tree
    requires ValidOf(t)
    reads t, ReprOf(t)
    decreases ReprOf(t)
  {
    if t == null then Empty else Node(Value(t.left), t.start, t.end, t.id, t.pos, Value(t.right))
  }

  /** The repaired cut: t.left takes the half that the code drops. */
  method CutInPlace(t: TreeNode?, off: int) returns (left: TreeNode?, right: TreeNode?)
    requires ValidOf(t)
    modifies ReprOf(t)
    ensures Apart(left, right) && fresh(ReprOf(left) + ReprOf(right) - old(ReprOf(t)))
    ensures (Value(left), Value(right)) == Cut(old(Value(t)), off)
    decreases ReprOf(t)
  {
    if t == null {
      return null, null;
    }
    if off < t.start {
      left, right := CutLeft(t, off);
    } else if off > t.end {
      left, right := CutRight(t, off);
    } else if off == t.start {
      left := t.left;
      t.Relink(null, t.right);
      right := t;
    } else if off == t.end {
      right := t.right;
      t.Relink(t.left, null);
      left := t;
    } else {
      left := new TreeNode(t.start, off, t.id, t.pos, t.left, null);
      right := new TreeNode(off, t.end, t.id, t.pos + (off - t.start), null, t.right);
    }
  }

  method CutLeft(t: TreeNode, off: int) returns (left: TreeNode?, right: TreeNode?)
    requires t.Valid() && off < t.start
    modifies t.repr
    ensures Apart(left, right) && fresh(ReprOf(left) + ReprOf(right) - old(t.repr))
    ensures (Value(left), Value(right)) == Cut(old(Value(t)), off)
    decreases t.repr, 0
  {
    var below, other := t.left, t.right;
    assert Apart(below, other);
    ghost var l, r := Value(below), Value(other);
    var rest;
    left, rest := CutInPlace(below, off);
    assert Value(other) == r;
    t.Relink(rest, other);
    right := t;
  }

  method CutRight(t: TreeNode, off: int) returns (left: TreeNode?, right: TreeNode?)
    requires t.Valid() && off >= t.start && off > t.end
    modifies t.repr
    ensures Apart(left, right) && fresh(ReprOf(left) + ReprOf(right) - old(t.repr))
    ensures (Value(left), Value(right)) == Cut(old(Value(t)), off)
    decreases t.repr, 0
  {
    var below, other := t.right, t.left;
    assert Apart(below, other);
    ghost var l, r := Value(other), Value(below);
    var rest;
    rest, right := CutInPlace(below, off);
    assert Value(other) == l;
    t.Relink(other, rest);
    left := t;
  }

  /** One turn of the loop of buildSegmentTree. */
  method AddInPlace(st: TreeNode, s: ChunkSeg) returns (root: TreeNode)
    requires st.Valid()
    modifies st.repr
    ensures root.Valid() && fresh(root.repr - old(st.repr)) && Value(root) == Added(old(Value(st)), s)
  {
    var left, r := CutInPlace(st, s.off);
    var dropped, right := CutInPlace(r, s.End());
    root := new TreeNode(s.off, s.End(), s.id, 0, left, right);
  }

  /** buildSegmentTree over the repaired cut names the last writer of every byte, for every list. */
  method BuildInPlace(hole: ChunkSeg, segs: seq<ChunkSeg>) returns (st: TreeNode)
    ensures st.Valid() && fresh(st.repr) && forall x :: Find(Value(st), x) == LastWriter(hole, segs, x)
  {
    st := new TreeNode(hole.off, hole.End(), hole.id, 0, null, null);
    for i := 0 to |segs|
      invariant st.Valid() && fresh(st.repr) && Value(st) == Build(hole, segs[..i])
    {
      assert Older(segs[..i + 1]) == segs[..i];
      st := AddInPlace(st, segs[i]);
    }
    assert segs[..|segs|] == segs;
    var lo, hi := BuildIsExact(hole, segs);
  }
}
