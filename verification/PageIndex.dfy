/**
  The radix tree of cached pages of one file (pkg/bio/pagecache.go): 64-way nodes that take six bits of
  the page index each, a root that grows upwards, and data pages below the nodes of shift 0.
 */
module PageIndex {

  const PAGE_TREE_SHIFT := 6
  const PAGE_TREE_SIZE := 64

  /** 1 << shift */
  function Span(shift: nat): (w: nat)
    ensures w > 0
  {
    if shift == 0 then 1 else 2 * Span(shift - 1)
  }

  /** x >> shift */
  function Shr(x: nat, shift: nat): nat {
    if shift == 0 then x else Shr(x, shift - 1) / 2
  }

  /** pageIdx >> shift & pageTreeMask */
  function Slot(idx: nat, shift: nat): nat {
    Shr(idx, shift) % PAGE_TREE_SIZE
  }

  lemma ShrUp(x: nat, shift: nat)
    ensures Shr(x, shift + PAGE_TREE_SHIFT) == Shr(x, shift) / PAGE_TREE_SIZE
  {
    assert Shr(x, shift + 6) == Shr(x, shift + 5) / 2 == Shr(x, shift + 4) / 2 / 2 == Shr(x, shift + 3) / 2 / 2 / 2;
    assert Shr(x, shift + 3) == Shr(x, shift + 2) / 2 == Shr(x, shift + 1) / 2 / 2 == Shr(x, shift) / 2 / 2 / 2;
  }

  lemma Halved(c: nat, w: nat)
    ensures 2 * c * w == c * (2 * w)
  {
  }

  lemma {:induction false} ShrBound(x: nat, shift: nat, c: nat)
    ensures Shr(x, shift) < c <==> x < c * Span(shift)
    decreases shift
  {
    if shift > 0 {
      ShrBound(x, shift - 1, 2 * c);
      Halved(c, Span(shift - 1));
    }
  }

  lemma SpanUp(shift: nat)
    ensures Span(shift + PAGE_TREE_SHIFT) == PAGE_TREE_SIZE * Span(shift)
  {
    assert Span(shift + 6) == 2 * Span(shift + 5) == 4 * Span(shift + 4) == 8 * Span(shift + 3);
    assert Span(shift + 3) == 2 * Span(shift + 2) == 4 * Span(shift + 1) == 8 * Span(shift);
  }

  lemma {:induction false} SpanGrows(a: nat, b: nat)
    requires a <= b
    ensures Span(a) <= Span(b)
    decreases b
  {
    if a < b { SpanGrows(a, b - 1); }
  }

  lemma {:induction false} ShrMonotone(x: nat, y: nat, shift: nat)
    requires Shr(x, shift) < Shr(y, shift)
    ensures x < y
    decreases shift
  {
    if shift > 0 { ShrMonotone(x, y, shift - 1); }
  }

  // ---------------------------------------------------------------------------------------------
  // Nodes
  // ---------------------------------------------------------------------------------------------

  /** An inner node has 64 slots, a data page has none. The tag is the part of the index above a node. */
  class PageNode {
    const shift: nat
    const data: bool
    var slots: seq<PageNode?>
    var idx: int
    ghost const tag: nat

    constructor (shift: nat, data: bool, ghost tag: nat)
      ensures this.shift == shift && this.data == data && this.tag == tag
      ensures slots == if data then [] else seq(PAGE_TREE_SIZE, _ => null)
    {
      this.shift, this.data, this.tag, this.idx := shift, data, tag, 0;
      slots := if data then [] else seq(PAGE_TREE_SIZE, _ => null);
    }
  }

  type Slots = map<PageNode, seq<PageNode?>>

  ghost function Snapshot(repr: set<PageNode>): Slots
    reads repr
  {
    map n | n in repr :: n.slots
  }

  /** What hangs in slot s of inner node n: a page below shift 0, an inner node elsewhere. */
  ghost predicate GoodSlot(g: Slots, n: PageNode, s: int) {
    n in g && 0 <= s < |g[n]| && g[n][s] != null ==>
      var m := g[n][s];
      && m in g && m.tag == PAGE_TREE_SIZE * n.tag + s
      && (if n.shift == 0 then m.data else !m.data && m.shift == n.shift - PAGE_TREE_SHIFT)
  }

  ghost predicate GoodNode(g: Slots, n: PageNode) {
    n in g ==>
      && |g[n]| == (if n.data then 0 else PAGE_TREE_SIZE) && n.shift % PAGE_TREE_SHIFT == 0
      && forall s {:trigger GoodSlot(g, n, s)} :: GoodSlot(g, n, s)
  }

  ghost predicate Good(g: Slots) {
    forall n {:trigger GoodNode(g, n)} :: n in g ==> GoodNode(g, n)
  }

  /** The index belongs below node n. */
  ghost predicate Covers(n: PageNode, idx: nat) {
    Shr(idx, n.shift) / PAGE_TREE_SIZE == n.tag
  }

  ghost predicate Inner(g: Slots, n: PageNode, idx: nat) {
    Good(g) && n in g && !n.data && Covers(n, idx)
  }

  /** Where the path of an index goes from node n. */
  ghost function Next(g: Slots, n: PageNode, idx: nat): (m: PageNode?)
    requires Inner(g, n, idx)
    ensures m != null ==> m in g
    ensures m != null && n.shift > 0 ==> m.shift == n.shift - PAGE_TREE_SHIFT && Inner(g, m, idx)
    ensures m != null && n.shift == 0 ==> m.data && m.tag == idx
  {
    assert GoodNode(g, n) && GoodSlot(g, n, Slot(idx, n.shift));
    var m := g[n][Slot(idx, n.shift)];
    assert m != null && n.shift > 0 ==> Covers(m, idx) by {
      if m != null && n.shift > 0 { ShrUp(idx, m.shift); }
    }
    m
  }

  /** The page that the path of an index leads to. */
  ghost function Look(g: Slots, n: PageNode, idx: nat): (m: PageNode?)
    requires Inner(g, n, idx)
    ensures m != null ==> m in g && m.data && m.tag == idx
    decreases n.shift
  {
    var m := Next(g, n, idx);
    if m == null || n.shift == 0 then m else Look(g, m, idx)
  }

  /** findPage: nothing above the root's reach, otherwise the path decides. */
  ghost function Find(g: Slots, root: PageNode?, idx: nat): PageNode?
    requires Good(g) && RootOk(g, root)
  {
    if root == null || idx >= PAGE_TREE_SIZE * Span(root.shift) then null
    else RootCovers(root, idx); Look(g, root, idx)
  }

  ghost predicate RootOk(g: Slots, root: PageNode?) {
    root != null ==> root in g && !root.data && root.tag == 0
  }

  lemma RootCovers(root: PageNode, idx: nat)
    requires root.tag == 0
    ensures Covers(root, idx) <==> idx < PAGE_TREE_SIZE * Span(root.shift)
  {
    ShrBound(idx, root.shift, PAGE_TREE_SIZE);
  }

  /** The tree finds what the map holds. */
  ghost predicate Finds(g: Slots, root: PageNode?, pages: map<nat, PageNode>, idx: nat)
    requires Good(g) && RootOk(g, root)
  {
    Find(g, root, idx) == if idx in pages then pages[idx] else null
  }

  ghost predicate Indexes(g: Slots, root: PageNode?, pages: map<nat, PageNode>) {
    && Good(g) && RootOk(g, root)
    && (forall idx: nat {:trigger Finds(g, root, pages, idx)} :: Finds(g, root, pages, idx))
  }

  // ---------------------------------------------------------------------------------------------
  // Growing the tree
  // ---------------------------------------------------------------------------------------------

  lemma {:induction false} LookStays(g: Slots, g': Slots, n: PageNode, idx: nat)
    requires Inner(g, n, idx) && Good(g')
    requires forall m :: m in g ==> m in g' && g'[m] == g[m]
    ensures Look(g', n, idx) == Look(g, n, idx)
    decreases n.shift
  {
    var m := Next(g, n, idx);
    if m != null && n.shift > 0 { LookStays(g, g', m, idx); }
  }

  function NoSlots(data: bool): seq<PageNode?> {
    if data then [] else seq(PAGE_TREE_SIZE, _ => null)
  }

  /** A new root p over the old one. */
  ghost function WithParent(g: Slots, root: PageNode, p: PageNode): Slots {
    g[p := NoSlots(false)[0 := root]]
  }

  ghost predicate CanTop(g: Slots, root: PageNode, p: PageNode) {
    && Good(g) && root in g && !root.data && root.tag == 0
    && p !in g && !p.data && p.tag == 0 && p.shift == root.shift + PAGE_TREE_SHIFT
  }

  lemma ParentGood(g: Slots, root: PageNode, p: PageNode)
    requires CanTop(g, root, p)
    ensures Good(WithParent(g, root, p))
  {
    var g' := WithParent(g, root, p);
    assert GoodNode(g, root);
    forall n | n in g' ensures GoodNode(g', n) {
      if n in g { assert GoodNode(g, n); }
      forall s ensures GoodSlot(g', n, s) {
        if n in g { assert GoodSlot(g, n, s); }
      }
    }
  }

  /** The root may grow: every lookup finds what it found, and nothing new. */
  lemma ParentFinds(g: Slots, root: PageNode, p: PageNode, idx: nat)
    requires CanTop(g, root, p) && Good(WithParent(g, root, p))
    ensures Find(WithParent(g, root, p), p, idx) == Find(g, root, idx)
  {
    var g' := WithParent(g, root, p);
    RootCovers(p, idx);
    RootCovers(root, idx);
    ShrUp(idx, root.shift);
    ShrBound(idx, root.shift, PAGE_TREE_SIZE);
    ShrBound(idx, p.shift, PAGE_TREE_SIZE);
    if Covers(root, idx) {
      assert Slot(idx, p.shift) == 0;
      LookStays(g, g', root, idx);
    }
  }

  lemma ParentIndexes(g: Slots, root: PageNode, p: PageNode, pages: map<nat, PageNode>)
    requires CanTop(g, root, p) && Indexes(g, root, pages)
    ensures Indexes(WithParent(g, root, p), p, pages)
  {
    var g' := WithParent(g, root, p);
    ParentGood(g, root, p);
    forall idx: nat ensures Finds(g', p, pages, idx) {
      ParentFinds(g, root, p, idx);
      assert Finds(g, root, pages, idx);
    }
  }

  /** The first root is empty. */
  lemma RootIndexes(g: Slots, root: PageNode, pages: map<nat, PageNode>)
    requires Indexes(g, null, pages) && root !in g && !root.data && root.tag == 0 && root.shift == 0
    ensures Indexes(g[root := NoSlots(false)], root, pages)
  {
    var g' := g[root := NoSlots(false)];
    forall n | n in g' ensures GoodNode(g', n) {
      if n != root { assert GoodNode(g, n); }
      forall s ensures GoodSlot(g', n, s) {
        if n != root { assert GoodSlot(g, n, s); }
      }
    }
    forall idx: nat ensures Finds(g', root, pages, idx) {
      assert Finds(g, null, pages, idx);
    }
  }

  // ---------------------------------------------------------------------------------------------
  // Hanging a node into an empty slot
  // ---------------------------------------------------------------------------------------------

  /** The slot of n on the path of idx gets c. */
  ghost function WithChild(g: Slots, n: PageNode, idx: nat, c: PageNode): Slots
    requires n in g && |g[n]| == PAGE_TREE_SIZE
  {
    g[n := g[n][Slot(idx, n.shift) := c]][c := NoSlots(c.data)]
  }

  ghost predicate CanHang(g: Slots, n: PageNode, idx: nat, c: PageNode) {
    && Inner(g, n, idx) && |g[n]| == PAGE_TREE_SIZE && g[n][Slot(idx, n.shift)] == null
    && c !in g && c.tag == Shr(idx, n.shift)
    && (if n.shift == 0 then c.data && c.shift == 0 else !c.data && c.shift == n.shift - PAGE_TREE_SHIFT)
  }

  lemma ChildGood(g: Slots, n: PageNode, idx: nat, c: PageNode)
    requires CanHang(g, n, idx, c)
    ensures Good(WithChild(g, n, idx, c))
  {
    var g' := WithChild(g, n, idx, c);
    assert GoodNode(g, n);
    forall m | m in g' ensures GoodNode(g', m) {
      if m in g { assert GoodNode(g, m); }
      forall s ensures GoodSlot(g', m, s) {
        if m in g { assert GoodSlot(g, m, s); }
      }
    }
  }

  /** The path of idx from m passes n. */
  ghost predicate Reaches(g: Slots, m: PageNode, n: PageNode, idx: nat)
    requires Inner(g, m, idx)
    decreases m.shift
  {
    m == n || (m.shift > 0 && Next(g, m, idx) != null && Reaches(g, Next(g, m, idx), n, idx))
  }

  /** One step further down the path. */
  lemma {:induction false} ReachesOn(g: Slots, m: PageNode, n: PageNode, idx: nat)
    requires Inner(g, m, idx) && Reaches(g, m, n, idx) && Inner(g, n, idx)
    requires n.shift > 0 && Next(g, n, idx) != null
    ensures Reaches(g, m, Next(g, n, idx), idx)
    decreases m.shift
  {
    if m == n {
      assert Reaches(g, Next(g, n, idx), Next(g, n, idx), idx);
    } else {
      ReachesOn(g, Next(g, m, idx), n, idx);
    }
  }

  lemma {:induction false} ReachesStays(g: Slots, m: PageNode, n: PageNode, idx: nat, c: PageNode)
    requires CanHang(g, n, idx, c) && Good(WithChild(g, n, idx, c)) && Inner(g, m, idx) && Reaches(g, m, n, idx)
    ensures Reaches(WithChild(g, n, idx, c), m, n, idx)
    decreases m.shift
  {
    if m != n { ReachesStays(g, Next(g, m, idx), n, idx, c); }
  }

  /** A hung data page is found under its own index, and only there; an inner node changes no lookup. */
  lemma {:induction false} LookHung(g: Slots, n: PageNode, idx: nat, c: PageNode, m: PageNode, j: nat)
    requires CanHang(g, n, idx, c) && Good(WithChild(g, n, idx, c)) && Inner(g, m, j)
    ensures Look(WithChild(g, n, idx, c), m, j) == if c.data && j == idx && Reaches(g, m, n, idx) then c else Look(g, m, j)
    decreases m.shift
  {
    var g' := WithChild(g, n, idx, c);
    if m == n && Slot(j, n.shift) == Slot(idx, n.shift) {
      assert Next(g', n, j) == c;
      if n.shift > 0 { assert Next(g', c, j) == null; }
    } else {
      var x := Next(g, m, j);
      assert Next(g', m, j) == x;
      if x != null && m.shift > 0 { LookHung(g, n, idx, c, x, j); }
    }
  }

  lemma {:induction false} ReachesLooks(g: Slots, m: PageNode, n: PageNode, idx: nat)
    requires Inner(g, m, idx) && Inner(g, n, idx) && Reaches(g, m, n, idx)
    ensures Look(g, m, idx) == Look(g, n, idx)
    decreases m.shift
  {
    if m != n { ReachesLooks(g, Next(g, m, idx), n, idx); }
  }

  lemma HungFinds(g: Slots, root: PageNode, n: PageNode, idx: nat, c: PageNode, j: nat)
    requires CanHang(g, n, idx, c) && Good(WithChild(g, n, idx, c)) && RootOk(g, root)
    requires Inner(g, root, idx) && Reaches(g, root, n, idx)
    ensures Find(WithChild(g, n, idx, c), root, j) == if c.data && j == idx then c else Find(g, root, j)
  {
    RootCovers(root, j);
    if Covers(root, j) { LookHung(g, n, idx, c, root, j); }
  }

  lemma HungIndexes(g: Slots, root: PageNode, n: PageNode, idx: nat, c: PageNode, pages: map<nat, PageNode>)
    requires CanHang(g, n, idx, c) && Indexes(g, root, pages) && Inner(g, root, idx) && Reaches(g, root, n, idx)
    ensures Indexes(WithChild(g, n, idx, c), root, if c.data then pages[idx := c] else pages)
  {
    var g', pages' := WithChild(g, n, idx, c), if c.data then pages[idx := c] else pages;
    ChildGood(g, n, idx, c);
    forall j: nat ensures Finds(g', root, pages', j) {
      HungFinds(g, root, n, idx, c, j);
      assert Finds(g, root, pages, j);
    }
  }

  lemma NoPageYet(g: Slots, root: PageNode, n: PageNode, idx: nat, pages: map<nat, PageNode>)
    requires Indexes(g, root, pages) && Inner(g, root, idx) && Inner(g, n, idx) && Reaches(g, root, n, idx)
    requires n.shift == 0 && idx !in pages
    ensures Next(g, n, idx) == null
  {
    assert Finds(g, root, pages, idx);
    RootCovers(root, idx);
    ReachesLooks(g, root, n, idx);
  }

  // ---------------------------------------------------------------------------------------------
  // Visiting
  // ---------------------------------------------------------------------------------------------

  /** The index lies in one of the slots lo up to hi of node n. */
  ghost predicate InSlots(n: PageNode, lo: int, hi: int, idx: nat) {
    PAGE_TREE_SIZE * n.tag + lo <= Shr(idx, n.shift) < PAGE_TREE_SIZE * n.tag + hi
  }

  /** The pages in the slots before s of node n, each of them once, in the order of their indexes. */
  ghost predicate Lists(g: Slots, n: PageNode, s: int, vs: seq<PageNode>) {
    && Good(g) && n in g && !n.data && 0 <= s <= PAGE_TREE_SIZE
    && (forall i, j :: 0 <= i < j < |vs| ==> vs[i].tag < vs[j].tag)
    && (forall v :: v in vs ==> InSlots(n, 0, s, v.tag) && Look(g, n, v.tag) == v)
    && (forall idx :: InSlots(n, 0, s, idx) && Look(g, n, idx) != null ==> Look(g, n, idx) in vs)
  }

  /** What one slot contributes. */
  ghost predicate SlotLists(g: Slots, n: PageNode, s: int, more: seq<PageNode>) {
    && Good(g) && n in g && !n.data && 0 <= s < PAGE_TREE_SIZE
    && (forall i, j :: 0 <= i < j < |more| ==> more[i].tag < more[j].tag)
    && (forall v :: v in more ==> InSlots(n, s, s + 1, v.tag) && Look(g, n, v.tag) == v)
    && (forall idx :: InSlots(n, s, s + 1, idx) && Look(g, n, idx) != null ==> Look(g, n, idx) in more)
  }

  lemma ListsMore(g: Slots, n: PageNode, s: int, vs: seq<PageNode>, more: seq<PageNode>)
    requires Lists(g, n, s, vs) && SlotLists(g, n, s, more)
    ensures Lists(g, n, s + 1, vs + more)
  {
    var all := vs + more;
    forall i, j | 0 <= i < j < |all| ensures all[i].tag < all[j].tag {
      if i < |vs| <= j {
        assert all[i] in vs && all[j] in more;
        ShrMonotone(all[i].tag, all[j].tag, n.shift);
      }
    }
    forall idx | InSlots(n, 0, s + 1, idx) && Look(g, n, idx) != null ensures Look(g, n, idx) in all {
      assert InSlots(n, 0, s, idx) || InSlots(n, s, s + 1, idx);
    }
  }

  lemma InSlot(g: Slots, n: PageNode, s: int, idx: nat)
    requires Good(g) && n in g && !n.data && 0 <= s < PAGE_TREE_SIZE && InSlots(n, s, s + 1, idx)
    ensures Inner(g, n, idx) && |g[n]| == PAGE_TREE_SIZE && Next(g, n, idx) == g[n][s]
  {
    assert GoodNode(g, n);
  }

  lemma EmptySlot(g: Slots, n: PageNode, s: int)
    requires Good(g) && n in g && !n.data && 0 <= s < |g[n]| == PAGE_TREE_SIZE && g[n][s] == null
    ensures SlotLists(g, n, s, [])
  {
    forall idx | InSlots(n, s, s + 1, idx) ensures Look(g, n, idx) == null {
      InSlot(g, n, s, idx);
    }
  }

  lemma DataSlot(g: Slots, n: PageNode, s: int)
    requires Good(g) && n in g && !n.data && n.shift == 0 && 0 <= s < |g[n]| == PAGE_TREE_SIZE && g[n][s] != null
    ensures SlotLists(g, n, s, [g[n][s]])
  {
    assert GoodNode(g, n) && GoodSlot(g, n, s);
    forall idx | InSlots(n, s, s + 1, idx) ensures Look(g, n, idx) == g[n][s] {
      InSlot(g, n, s, idx);
    }
  }

  lemma InnerSlot(g: Slots, n: PageNode, s: int, more: seq<PageNode>)
    requires Good(g) && n in g && !n.data && n.shift > 0 && 0 <= s < |g[n]| == PAGE_TREE_SIZE && g[n][s] != null
    requires Lists(g, g[n][s], PAGE_TREE_SIZE, more)
    ensures SlotLists(g, n, s, more)
  {
    var m := g[n][s];
    assert GoodNode(g, n) && GoodSlot(g, n, s);
    forall idx ensures InSlots(m, 0, PAGE_TREE_SIZE, idx) <==> InSlots(n, s, s + 1, idx) {
      ShrUp(idx, m.shift);
    }
    forall idx | InSlots(n, s, s + 1, idx) ensures Inner(g, m, idx) && Look(g, n, idx) == Look(g, m, idx) {
      InSlot(g, n, s, idx);
    }
  }

  /** visit, on an inner node */
  method Visit(n: PageNode, ghost repr: set<PageNode>) returns (vs: seq<PageNode>)
    requires Good(Snapshot(repr)) && n in repr && !n.data
    ensures Lists(Snapshot(repr), n, PAGE_TREE_SIZE, vs)
    decreases n.shift
  {
    ghost var g := Snapshot(repr);
    assert GoodNode(g, n);
    vs := [];
    for s := 0 to PAGE_TREE_SIZE
      invariant Lists(g, n, s, vs)
    {
      var next := n.slots[s];
      var more: seq<PageNode> := [];
      assert GoodSlot(g, n, s);
      if next == null {
        EmptySlot(g, n, s);
      } else if next.data {
        DataSlot(g, n, s);
        more := [next];
      } else {
        more := Visit(next, repr);
        InnerSlot(g, n, s, more);
      }
      ListsMore(g, n, s, vs, more);
      vs := vs + more;
    }
  }

  lemma {:induction false} TagsCount(vs: seq<PageNode>)
    requires forall i, j :: 0 <= i < j < |vs| ==> vs[i].tag < vs[j].tag
    ensures |set i | 0 <= i < |vs| :: vs[i].tag| == |vs|
    decreases |vs|
  {
    if vs != [] {
      var front := vs[..|vs| - 1];
      TagsCount(front);
      var before, after := set i | 0 <= i < |front| :: front[i].tag, set i | 0 <= i < |vs| :: vs[i].tag;
      assert after == before + {vs[|vs| - 1].tag};
    }
  }

  lemma CountPages(vs: seq<PageNode>, pages: map<nat, PageNode>)
    requires forall i, j :: 0 <= i < j < |vs| ==> vs[i].tag < vs[j].tag
    requires forall v :: v in vs ==> v.tag in pages
    requires forall idx :: idx in pages ==> pages[idx] in vs && pages[idx].tag == idx
    ensures |vs| == |pages|
  {
    TagsCount(vs);
    var tags := set i | 0 <= i < |vs| :: vs[i].tag;
    forall idx ensures idx in tags <==> idx in pages {
      if idx in pages { assert pages[idx] in vs; }
    }
    assert tags == pages.Keys;
  }

  // ---------------------------------------------------------------------------------------------
  // The index
  // ---------------------------------------------------------------------------------------------

  class PageCache {
    var root: PageNode?
    var totalCount: int
    ghost var repr: set<PageNode>
    ghost var pages: map<nat, PageNode>
    ghost var top: nat

    ghost predicate Indexed()
      reads this, repr
    {
      Indexes(Snapshot(repr), root, pages)
    }

    /** The root is at most one level higher than some index asks for. */
    ghost predicate Low(asked: set<nat>)
      reads this
    {
      root != null && root.shift >= PAGE_TREE_SHIFT ==> top in asked && Span(root.shift - PAGE_TREE_SHIFT) <= top
    }

    ghost predicate Valid()
      reads this, repr
    {
      Indexed() && totalCount == |pages| && Low(pages.Keys)
    }

    constructor ()
      ensures Valid() && pages == map[] && fresh(repr)
    {
      root, totalCount, repr, pages := null, 0, {}, map[];
    }

    method FindPage(idx: nat) returns (page: PageNode?)
      requires Indexed()
      ensures page == if idx in pages then pages[idx] else null
    {
      assert Finds(Snapshot(repr), root, pages, idx);
      if root == null {
        return null;
      }
      if PAGE_TREE_SIZE * Span(root.shift) - 1 < idx {
        return null;
      }
      ghost var g := Snapshot(repr);
      RootCovers(root, idx);
      var node: PageNode := root;
      var shift: int := node.shift;
      while true
        invariant Inner(g, node, idx) && shift == node.shift && Look(g, node, idx) == Find(g, root, idx)
        decreases shift
      {
        assert GoodNode(g, node);
        var slot := Slot(idx, node.shift);
        var next := node.slots[slot];
        assert next == Next(g, node, idx);
        if next == null {
          return null;
        }
        node := next;
        shift := shift - PAGE_TREE_SHIFT;
        if shift < 0 {
          return node;
        }
      }
    }

    /** The first loop of extendPageTree: the lowest shift whose reach includes the index. */
    method MaxShift(idx: nat, shift: nat) returns (maxShift: nat)
      requires idx >= PAGE_TREE_SIZE * Span(shift) && shift % PAGE_TREE_SHIFT == 0
      ensures shift < maxShift && maxShift % PAGE_TREE_SHIFT == 0
      ensures PAGE_TREE_SIZE * Span(maxShift - PAGE_TREE_SHIFT) <= idx < PAGE_TREE_SIZE * Span(maxShift)
    {
      maxShift := shift;
      while idx > PAGE_TREE_SIZE * Span(maxShift) - 1
        invariant shift <= maxShift && maxShift % PAGE_TREE_SHIFT == 0
        invariant shift < maxShift ==> PAGE_TREE_SIZE * Span(maxShift - PAGE_TREE_SHIFT) <= idx
        decreases idx - Span(maxShift)
      {
        SpanGrows(maxShift, maxShift + 5);
        maxShift := maxShift + PAGE_TREE_SHIFT;
      }
    }

    /** New roots until the index is in reach; the second loop goes one level further than it must. */
    method ExtendPageTree(idx: nat)
      requires Indexed() && root != null && idx >= PAGE_TREE_SIZE * Span(root.shift)
      modifies this`root, this`repr
      ensures Indexed() && root != null && fresh(repr - old(repr)) && old(repr) <= repr
      ensures idx < PAGE_TREE_SIZE * Span(root.shift) && root.shift >= PAGE_TREE_SHIFT && Span(root.shift - PAGE_TREE_SHIFT) <= idx
    {
      assert GoodNode(Snapshot(repr), root);
      var maxShift := MaxShift(idx, root.shift);
      while root.shift <= maxShift
        invariant Indexed() && root != null && fresh(repr - old(repr)) && old(repr) <= repr
        invariant root.shift % PAGE_TREE_SHIFT == 0 && root.shift <= maxShift + PAGE_TREE_SHIFT
        decreases maxShift + PAGE_TREE_SHIFT - root.shift
      {
        AddParent();
      }
      SpanGrows(maxShift, root.shift);
      SpanUp(maxShift - PAGE_TREE_SHIFT);
    }

    method AddParent()
      requires Indexed() && root != null
      modifies this`root, this`repr
      ensures Indexed() && root != null && fresh(repr - old(repr)) && old(repr) <= repr
      ensures root.shift == old(root).shift + PAGE_TREE_SHIFT
    {
      ghost var g := Snapshot(repr);
      var parent := new PageNode(root.shift + PAGE_TREE_SHIFT, false, 0);
      parent.slots := parent.slots[0 := root];
      ParentIndexes(g, root, parent, pages);
      root, repr := parent, repr + {parent};
      assert Snapshot(repr) == WithParent(g, old(root), parent);
    }

    /** An inner node or a data page for the empty slot of node on the path of idx. */
    method Hang(node: PageNode, idx: nat) returns (c: PageNode)
      requires Good(Snapshot(repr)) && Inner(Snapshot(repr), node, idx) && Next(Snapshot(repr), node, idx) == null
      modifies node, this`repr
      ensures repr == old(repr) + {c} && fresh(c) && CanHang(old(Snapshot(repr)), node, idx, c)
      ensures Snapshot(repr) == WithChild(old(Snapshot(repr)), node, idx, c) && Good(Snapshot(repr))
      ensures Next(Snapshot(repr), node, idx) == c
    {
      ghost var g := Snapshot(repr);
      assert GoodNode(g, node);
      c := new PageNode(if node.shift == 0 then 0 else node.shift - PAGE_TREE_SHIFT, node.shift == 0, Shr(idx, node.shift));
      ChildGood(g, node, idx, c);
      node.slots := node.slots[Slot(idx, node.shift) := c];
      repr := repr + {c};
      assert Snapshot(repr) == WithChild(g, node, idx, c);
    }

    method NewRoot()
      requires Indexed() && root == null
      modifies this`root, this`repr
      ensures Indexed() && root != null && root.shift == 0 && fresh(repr - old(repr)) && old(repr) <= repr
    {
      ghost var g := Snapshot(repr);
      root := new PageNode(0, false, 0);
      repr := repr + {root};
      assert Snapshot(repr) == g[root := NoSlots(false)];
      RootIndexes(g, root, pages);
    }

    /** Hanging an inner node leaves every lookup as it is and leads the path one level down. */
    method HangInner(node: PageNode, idx: nat) returns (next: PageNode)
      requires Indexed() && OnPath(node, idx) && node.shift > 0 && Next(Snapshot(repr), node, idx) == null
      modifies node, this`repr
      ensures Indexed() && OnPath(next, idx) && next.shift == node.shift - PAGE_TREE_SHIFT
      ensures repr == old(repr) + {next} && fresh(next)
    {
      ghost var g := Snapshot(repr);
      next := Hang(node, idx);
      HungIndexes(g, root, node, idx, next, pages);
      ReachesStays(g, root, node, idx, next);
      ReachesOn(Snapshot(repr), root, node, idx);
    }

    ghost predicate OnPath(node: PageNode, idx: nat)
      reads this, repr
    {
      && root != null && Inner(Snapshot(repr), root, idx) && Inner(Snapshot(repr), node, idx)
      && Reaches(Snapshot(repr), root, node, idx)
    }

    /** The descent of insertPage, which makes the inner nodes that are missing. */
    method Descend(idx: nat) returns (node: PageNode)
      requires Indexed() && root != null && idx < PAGE_TREE_SIZE * Span(root.shift)
      modifies this`repr, repr
      ensures Indexed() && OnPath(node, idx) && node.shift == 0 && fresh(repr - old(repr)) && old(repr) <= repr
    {
      RootCovers(root, idx);
      node := root;
      var shift: int := root.shift;
      while shift > 0
        invariant Indexed() && OnPath(node, idx) && shift == node.shift
        invariant fresh(repr - old(repr)) && old(repr) <= repr
        decreases shift
      {
        assert GoodNode(Snapshot(repr), node);
        var next := node.slots[Slot(idx, node.shift)];
        if next == null {
          next := HangInner(node, idx);
        } else {
          ReachesOn(Snapshot(repr), root, node, idx);
        }
        node := next;
        shift := shift - PAGE_TREE_SHIFT;
      }
    }

    /** A tree whose root reaches the index. */
    method Reach(idx: nat)
      requires Indexed() && Low(pages.Keys)
      modifies this`root, this`repr, this`top
      ensures Indexed() && Low(pages.Keys + {idx}) && root != null && idx < PAGE_TREE_SIZE * Span(root.shift)
      ensures fresh(repr - old(repr)) && old(repr) <= repr
    {
      if root == null {
        NewRoot();
      }
      if PAGE_TREE_SIZE * Span(root.shift) - 1 < idx {
        ExtendPageTree(idx);
        top := idx;
      }
    }

    /** insertPage, called when findPage found nothing: the map gains one entry and keeps all others. */
    method InsertPage(idx: nat) returns (page: PageNode)
      requires Valid() && idx !in pages
      modifies this, repr
      ensures Valid() && pages == old(pages)[idx := page] && page.data
      ensures fresh(repr - old(repr)) && old(repr) <= repr && fresh(page) && page in repr
    {
      Reach(idx);
      page := AddPage(idx);
      assert pages.Keys == old(pages).Keys + {idx};
      totalCount := totalCount + 1;
    }

    /** The descent and the new page. */
    method AddPage(idx: nat) returns (page: PageNode)
      requires Indexed() && root != null && idx < PAGE_TREE_SIZE * Span(root.shift) && idx !in pages
      modifies this`repr, this`pages, repr
      ensures Indexed() && pages == old(pages)[idx := page] && page.data
      ensures fresh(repr - old(repr)) && old(repr) <= repr && fresh(page) && page in repr
    {
      var node := Descend(idx);
      page := HangPage(node, idx);
    }

    method HangPage(node: PageNode, idx: nat) returns (page: PageNode)
      requires Indexed() && OnPath(node, idx) && node.shift == 0 && idx !in pages
      modifies node, this`repr, this`pages
      ensures Indexed() && pages == old(pages)[idx := page] && page.data
      ensures repr == old(repr) + {page} && fresh(page)
    {
      ghost var g := Snapshot(repr);
      NoPageYet(g, root, node, idx, pages);
      page := Hang(node, idx);
      HungIndexes(g, root, node, idx, page, pages);
      pages := pages[idx := page];
    }

    /** The first half of read: the page of an index, made if it is missing. */
    method GetPage(idx: nat) returns (page: PageNode)
      requires Valid()
      modifies this, repr
      ensures Valid() && page.data && pages == old(pages)[idx := page]
      ensures if idx in old(pages) then page == old(pages)[idx] else fresh(page) && page.idx == idx
    {
      var found := FindPage(idx);
      if found == null {
        page := InsertPage(idx);
        ghost var g := Snapshot(repr);
        page.idx := idx;
        assert Snapshot(repr) == g;
      } else {
        page := found;
        assert Finds(Snapshot(repr), root, pages, idx);
      }
    }

    /** pageRoot.Visit: every page exactly once, in the order of their indexes. */
    method VisitAll() returns (vs: seq<PageNode>)
      requires Valid()
      ensures |vs| == totalCount
      ensures forall i, j :: 0 <= i < j < |vs| ==> vs[i] != vs[j]
      ensures forall v :: v in vs <==> v in pages.Values
    {
      if root == null {
        vs := [];
      } else {
        vs := Visit(root, repr);
      }
      forall v | v in vs ensures v.tag in pages && pages[v.tag] == v {
        assert Finds(Snapshot(repr), root, pages, v.tag);
        RootCovers(root, v.tag);
      }
      forall idx | idx in pages ensures pages[idx] in vs && pages[idx].tag == idx {
        assert Finds(Snapshot(repr), root, pages, idx);
        ShrBound(idx, root.shift, PAGE_TREE_SIZE);
        assert InSlots(root, 0, PAGE_TREE_SIZE, idx);
      }
      CountPages(vs, pages);
    }
  }

  lemma SpanOf42()
    ensures Span(42) == 0x400_0000_0000
  {
    SpanUp(0); SpanUp(6); SpanUp(12); SpanUp(18); SpanUp(24); SpanUp(30); SpanUp(36);
  }

  /** For files of up to 2^42 pages the shifted reach of the root stays far from the sign bit. */
  lemma ShiftBound(c: PageCache)
    requires c.Valid() && c.root != null
    requires forall idx :: idx in c.pages ==> idx < 0x400_0000_0000
    ensures c.root.shift <= 42 && PAGE_TREE_SIZE * Span(c.root.shift) <= 0x1_0000_0000_0000
  {
    SpanOf42();
    assert GoodNode(Snapshot(c.repr), c.root);
    if c.root.shift <= 42 {
      SpanGrows(c.root.shift, 42);
    } else {
      SpanGrows(42, c.root.shift - PAGE_TREE_SHIFT);
    }
  }
}
