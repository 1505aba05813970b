/**
  An in-memory page (memCacheNode, pkg/storage/cache.go) over pooled memory blocks (utils/memblk.go).
  A page is a sparse byte file: the last write wins, gaps read as zero, the size is the largest end.
 */
module MemCache {
  import opened Common

  newtype byte = x: int | 0 <= x < 256

  const BLOCK_SIZE := 0x10_0000

  const MAX_BLOCK := 16 * BLOCK_SIZE

  /** The pools hold blocks of these many megabytes. */
  const POOLS: set<int> := {1, 2, 4, 8, 16}

  // ---------------------------------------------------------------------------------------------
  // Sparse files
  // ---------------------------------------------------------------------------------------------

  /** A byte of a file, zero past its end. */
  function ByteAt(file: seq<byte>, i: int): byte {
    if 0 <= i < |file| then file[i] else 0
  }

  /** A file after `p` is written at `off`. */
  function Written(file: seq<byte>, off: nat, p: seq<byte>): seq<byte> {
    seq(Max(|file|, off + |p|), i => if off <= i < off + |p| then p[i - off] else ByteAt(file, i))
  }

  datatype Write = Write(off: nat, data: seq<byte>) {
    predicate Covers(i: int) { off <= i < off + |data| }
  }

  /** A new file after a run of writes. */
  function Replay(ws: seq<Write>): seq<byte> {
    if ws == [] then [] else Written(Replay(ws[..|ws| - 1]), ws[|ws| - 1].off, ws[|ws| - 1].data)
  }

  /** The last write that covers a byte wins. */
  lemma {:induction false} LastWriteWins(ws: seq<Write>, k: nat, i: int)
    requires k < |ws| && ws[k].Covers(i)
    requires forall j :: k < j < |ws| ==> !ws[j].Covers(i)
    ensures i < |Replay(ws)| && Replay(ws)[i] == ws[k].data[i - ws[k].off]
    decreases |ws|
  {
    if k < |ws| - 1 {
      LastWriteWins(ws[..|ws| - 1], k, i);
    }
  }

  /** Bytes that no write covers are zero. */
  lemma {:induction false} GapsAreZero(ws: seq<Write>, i: int)
    requires forall j :: 0 <= j < |ws| ==> !ws[j].Covers(i)
    ensures ByteAt(Replay(ws), i) == 0
    decreases |ws|
  {
    if ws != [] {
      GapsAreZero(ws[..|ws| - 1], i);
    }
  }

  /** The size is the largest end of a write. */
  lemma {:induction false} SizeIsLargestEnd(ws: seq<Write>)
    ensures forall j :: 0 <= j < |ws| ==> ws[j].off + |ws[j].data| <= |Replay(ws)|
    ensures |Replay(ws)| == 0 || exists j :: 0 <= j < |ws| && ws[j].off + |ws[j].data| == |Replay(ws)|
    decreases |ws|
  {
    if ws != [] {
      var init, last := ws[..|ws| - 1], ws[|ws| - 1];
      SizeIsLargestEnd(init);
      if |Replay(ws)| == |Replay(init)| && |Replay(init)| != 0 {
        var j :| 0 <= j < |init| && init[j].off + |init[j].data| == |Replay(init)|;
        assert ws[j] == init[j];
      }
    }
  }

  // ---------------------------------------------------------------------------------------------
  // Memory blocks
  // ---------------------------------------------------------------------------------------------

  /**
    A block from some pool with blocks of at least `need` megabytes; pools are tried in no particular
    order. Blocks come zeroed: a released block is zeroed, and never goes back to a pool, since its
    length in bytes is compared with sizes in megabytes. An empty block stands for nil.
   */
  method TakeBlock(need: int) returns (blk: array<byte>)
    ensures fresh(blk)
    ensures need <= 16 ==> exists bs :: bs in POOLS && bs >= need && blk.Length == bs * BLOCK_SIZE
    ensures need > 16 ==> blk.Length == 0
    ensures forall i :: 0 <= i < blk.Length ==> blk[i] == 0
  {
    var size := 0;
    if need <= 16 {
      assert 16 in POOLS;
      var bs :| bs in POOLS && bs >= need;
      size := bs * BLOCK_SIZE;
    }
    blk := new byte[size](_ => 0);
  }

  method NewMemoryBlock(blkSize: nat) returns (blk: array<byte>)
    ensures fresh(blk) && blk.Length <= MAX_BLOCK
    ensures if blkSize < MAX_BLOCK then blk.Length >= blkSize else blk.Length == 0
    ensures forall i :: 0 <= i < blk.Length ==> blk[i] == 0
  {
    blk := TakeBlock(blkSize / BLOCK_SIZE + 1);
  }

  /** The same contents in a block of at least the expected size, or nil beyond the largest block. */
  method ExtendMemoryBlock(blk: array<byte>, expectedSize: nat) returns (newBlk: array<byte>)
    modifies blk
    ensures blk.Length >= expectedSize ==> newBlk == blk && blk[..] == old(blk[..])
    ensures blk.Length < expectedSize ==> fresh(newBlk)
    ensures blk.Length < expectedSize <= MAX_BLOCK ==>
              && expectedSize <= newBlk.Length <= MAX_BLOCK
              && newBlk[..blk.Length] == old(blk[..])
              && (forall i :: blk.Length <= i < newBlk.Length ==> newBlk[i] == 0)
    ensures blk.Length < expectedSize && expectedSize > MAX_BLOCK ==> newBlk.Length == 0
  {
    if blk.Length >= expectedSize {
      return blk;
    }
    newBlk := TakeBlock((expectedSize + BLOCK_SIZE - 1) / BLOCK_SIZE);
    if newBlk.Length == 0 {
      return;
    }
    forall i | 0 <= i < blk.Length {
      newBlk[i] := blk[i];
    }
    assert newBlk[..blk.Length] == old(blk[..]);
    forall i | 0 <= i < blk.Length {
      blk[i] := 0;
    }
  }

  // ---------------------------------------------------------------------------------------------
  // Pages
  // ---------------------------------------------------------------------------------------------

  const CACHE_NODE_BASE_SIZE := 0x20_0000

  class MemCacheNode {
    var data: array<byte>
    var size: nat

    ghost predicate Valid()
      reads this, data
    {
      && size <= data.Length <= MAX_BLOCK
      && forall i :: size <= i < data.Length ==> data[i] == 0
    }

    ghost function Content(): seq<byte>
      requires Valid()
      reads this, data
    {
      data[..size]
    }

    constructor (needBig: bool)
      ensures Valid() && fresh(data) && Content() == []
    {
      var blk := NewMemoryBlock(if needBig then 2 * CACHE_NODE_BASE_SIZE else CACHE_NODE_BASE_SIZE);
      data := blk;
      size := 0;
    }

    /**
      A write that ends within the largest block succeeds, whatever blocks the pools hold. One that
      does not also throws the page's bytes away.
     */
    method WriteAt(p: seq<byte>, off: nat) returns (n: nat, ok: bool)
      requires Valid()
      modifies this, data
      ensures ok <==> off + |p| <= MAX_BLOCK
      ensures ok ==> Valid() && n == |p| && Content() == Written(old(Content()), off, p)
      ensures !ok ==> n == 0 && data.Length == 0 && size == old(size)
      ensures data == old(data) || fresh(data)
    {
      ghost var was := Content();
      if off + |p| > data.Length {
        data := ExtendMemoryBlock(data, off + |p|);
      }
      if off + |p| > data.Length {
        return 0, false;
      }
      assert data[..size] == was;
      forall i | 0 <= i < |p| {
        data[off + i] := p[i];
      }
      n := |p|;
      if off + n > size {
        size := off + n;
      }
      ok := true;
      assert data[..size] == Written(was, off, p);
    }

    /** Copies what there is from `off` on into dest[lo..hi]; past the end there is nothing. */
    method ReadAt(dest: array<byte>, lo: nat, hi: nat, off: nat) returns (n: nat, eof: bool)
      requires Valid() && lo <= hi <= dest.Length && dest != data
      modifies dest
      ensures eof <==> off >= size
      ensures n == if off >= size then 0 else if hi - lo < size - off then hi - lo else size - off
      ensures forall i :: lo <= i < lo + n ==> dest[i] == Content()[off + i - lo]
      ensures forall i :: 0 <= i < dest.Length && !(lo <= i < lo + n) ==> dest[i] == old(dest[i])
      ensures data == old(data) && size == old(size)
    {
      if off >= size {
        return 0, true;
      }
      n := if hi - lo < size - off then hi - lo else size - off;
      forall i | lo <= i < lo + n {
        dest[i] := data[off + i - lo];
      }
      eof := false;
    }
  }

  /** A new node after a run of writes is the sparse file of that run, if every write ends within 16 MiB. */
  method RunWrites(ws: seq<Write>, needBig: bool) returns (node: MemCacheNode, ok: bool)
    ensures fresh(node) && fresh(node.data)
    ensures ok <==> forall j :: 0 <= j < |ws| ==> ws[j].off + |ws[j].data| <= MAX_BLOCK
    ensures ok ==> node.Valid() && node.Content() == Replay(ws)
  {
    node := new MemCacheNode(needBig);
    ok := true;
    for i := 0 to |ws|
      invariant fresh(node) && fresh(node.data) && ok && node.Valid() && node.Content() == Replay(ws[..i])
      invariant forall j :: 0 <= j < i ==> ws[j].off + |ws[j].data| <= MAX_BLOCK
    {
      var n;
      n, ok := node.WriteAt(ws[i].data, ws[i].off);
      if !ok {
        return;
      }
      assert ws[..i + 1][..i] == ws[..i];
    }
    assert ws[..|ws|] == ws;
  }

  /** What such a run leaves at a byte: the last write that covers it, or zero; and how long the node is. */
  method ReadAfter(ws: seq<Write>, needBig: bool, i: nat) returns (b: byte, size: nat)
    requires forall j :: 0 <= j < |ws| ==> ws[j].off + |ws[j].data| <= MAX_BLOCK
    ensures forall k :: 0 <= k < |ws| && ws[k].Covers(i) && (forall j :: k < j < |ws| ==> !ws[j].Covers(i)) ==>
              i < size && b == ws[k].data[i - ws[k].off]
    ensures (forall j :: 0 <= j < |ws| ==> !ws[j].Covers(i)) ==> b == 0
    ensures size == |Replay(ws)|
  {
    var node, ok := RunWrites(ws, needBig);
    size := node.size;
    var dest := new byte[1](_ => 0);
    var n, eof := node.ReadAt(dest, 0, 1, i);
    b := dest[0];
    assert b == ByteAt(Replay(ws), i);
    forall k | 0 <= k < |ws| && ws[k].Covers(i) && (forall j :: k < j < |ws| ==> !ws[j].Covers(i))
      ensures i < size && b == ws[k].data[i - ws[k].off]
    {
      LastWriteWins(ws, k, i);
    }
    if forall j :: 0 <= j < |ws| ==> !ws[j].Covers(i) { GapsAreZero(ws, i); }
  }
}
