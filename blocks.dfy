/**
  The blocks behind one cache record in 3/cache.c: what the `blocks`,
  `nblocks`, `capblocks` and `total` fields of `struct record` mean, and the
  arithmetic of the growth and copy loops of `rec_append` and of the
  readable run of `rec_wait_chunk`.

  The `block_t **` array that `realloc` grows is a sequence of blocks (its
  length is `nblocks`) with its allocated capacity `capblocks` kept beside
  it; a `block_t` is a value holding its `used` count and its `BLOCK_SZ`
  data bytes. Byte `o` of the stream lives in block `o / BLOCK_SZ` at
  position `o % BLOCK_SZ`.
 */
module Blocks {
  import opened Bits

  /** `BLOCK_SZ` of 3/config.h: 64 KiB. */
  const BLOCK_SZ: nat := 64 * 1024

  /** The first `capblocks` value `rec_append` allocates. */
  const FIRST_CAPBLOCKS: nat := 4

  /** A `block_t`: how many of its bytes are written, and its bytes. */
  datatype Block = Block(used: nat, data: seq<byte>)

  /** A block as `calloc` returns it. */
  function EmptyBlock(): (b: Block)
    ensures b.used == 0 && |b.data| == BLOCK_SZ
  {
    Block(0, seq(BLOCK_SZ, _ => 0))
  }

  /** How many bytes of a stream of `total` bytes fall into block `i`. */
  function Fill(total: nat, i: nat): (n: nat)
    ensures n <= BLOCK_SZ
  {
    if total <= i * BLOCK_SZ then 0
    else if total - i * BLOCK_SZ >= BLOCK_SZ then BLOCK_SZ
    else total - i * BLOCK_SZ
  }

  /** The capacities `rec_append` can reach: 0, then 4, doubled each time. */
  predicate GrownByDoubling(cap: nat)
    decreases cap
  {
    cap == 0 || cap == FIRST_CAPBLOCKS || (cap > FIRST_CAPBLOCKS && cap % 2 == 0 && GrownByDoubling(cap / 2))
  }

  /** The capacity `rec_append` moves to when the pointer array is full. */
  function NextCapacity(cap: nat): (c: nat)
    ensures GrownByDoubling(cap) ==> GrownByDoubling(c)
    ensures c > cap
  {
    if cap > 0 then cap * 2 else FIRST_CAPBLOCKS
  }

  /**
    How many allocations (a `realloc` of the pointer array when it is full,
    then a `calloc` of the block) the growth loop of `rec_append` performs to
    take `nblocks` blocks of capacity `cap` up to `need` bytes.
   */
  function AllocationsNeeded(nblocks: nat, cap: nat, need: nat): nat
    decreases need - nblocks * BLOCK_SZ
  {
    if need <= nblocks * BLOCK_SZ then 0
    else (if nblocks == cap then 2 else 1) + AllocationsNeeded(nblocks + 1, if nblocks == cap then NextCapacity(cap) else cap, need)
  }

  /** Every block has `BLOCK_SZ` data bytes, and block `i` counts as used exactly its share of `total` bytes. */
  ghost predicate Shaped(bs: seq<Block>, total: nat)
  {
    forall i :: 0 <= i < |bs| ==> |bs[i].data| == BLOCK_SZ && bs[i].used == Fill(total, i)
  }

  /** Position `j` of block `i` holds byte `i * BLOCK_SZ + j` of `content`, for every byte below `total`. */
  ghost predicate Holds(bs: seq<Block>, total: nat, content: seq<byte>)
  {
    && total <= |content|
    && forall i, j {:trigger bs[i].data[j]} :: 0 <= i < |bs| && 0 <= j < |bs[i].data| && i * BLOCK_SZ + j < total ==>
         bs[i].data[j] == content[i * BLOCK_SZ + j]
  }

  /**
    What the block fields of a record mean: at most `capblocks` blocks, a
    capacity `rec_append` can reach, room for the `total` committed bytes,
    every block shaped and holding its share of `content`.
   */
  ghost predicate Stored(blocks: seq<Block>, capblocks: nat, total: nat, content: seq<byte>)
  {
    && |blocks| <= capblocks && GrownByDoubling(capblocks)
    && total <= |blocks| * BLOCK_SZ
    && |content| == total
    && Shaped(blocks, total)
    && Holds(blocks, total, content)
  }

  /**
    From position `off % BLOCK_SZ` on, the used part of the block holding
    byte `off` is the stream from `off` on, up to a block boundary or to the
    end of the stream.
   */
  lemma BlockRun(bs: seq<Block>, total: nat, content: seq<byte>, off: nat)
    requires Shaped(bs, total) && Holds(bs, total, content) && off < total <= |bs| * BLOCK_SZ
    ensures off / BLOCK_SZ < |bs|
    ensures var blk, bo := bs[off / BLOCK_SZ], off % BLOCK_SZ;
      && bo < blk.used <= |blk.data| && off + (blk.used - bo) <= total
      && blk.data[bo .. blk.used] == content[off .. off + (blk.used - bo)]
      && (off + (blk.used - bo) == total || (off + (blk.used - bo)) % BLOCK_SZ == 0)
  {
    var bi, bo := off / BLOCK_SZ, off % BLOCK_SZ;
    FillPast(total, off);
    BlockInRange(off, |bs|);
    var blk := bs[bi];
    assert blk.data[bo .. blk.used] == content[off .. off + (blk.used - bo)] by {
      forall k | 0 <= k < blk.used - bo
        ensures blk.data[bo .. blk.used][k] == content[off .. off + (blk.used - bo)][k]
      {
        assert blk.data[bo + k] == content[bi * BLOCK_SZ + (bo + k)];
      }
    }
    if blk.used == BLOCK_SZ {
      DivModSplit(off + (blk.used - bo), bi + 1, 0);
    }
  }

  /** Splitting an offset into block index and position. */
  lemma DivModSplit(o: nat, q: nat, r: nat)
    requires o == q * BLOCK_SZ + r && r < BLOCK_SZ
    ensures o / BLOCK_SZ == q && o % BLOCK_SZ == r
  {
    DivModUnique(o, BLOCK_SZ, q, r);
  }

  /** `memcpy(data + bo, bytes, |bytes|)` into a block, then raising `used` to the end of the copy. */
  function Poke(blk: Block, bo: nat, bytes: seq<byte>): (b: Block)
    requires bo + |bytes| <= |blk.data|
    ensures |b.data| == |blk.data| && b.data[bo .. bo + |bytes|] == bytes
    ensures b.used == if bo + |bytes| > blk.used then bo + |bytes| else blk.used
    ensures forall j :: 0 <= j < |blk.data| && !(bo <= j < bo + |bytes|) ==> b.data[j] == blk.data[j]
  {
    var u := bo + |bytes|;
    Block(if u > blk.used then u else blk.used, blk.data[..bo] + bytes + blk.data[u..])
  }

  /** An offset below `n` blocks' worth of bytes lies in one of those blocks. */
  lemma BlockInRange(off: nat, n: nat)
    requires off < n * BLOCK_SZ
    ensures off / BLOCK_SZ < n
  {
  }

  /** At the end of a stream of `off` bytes, the last block holds exactly `off % BLOCK_SZ` of them. */
  lemma FillAt(off: nat)
    ensures Fill(off, off / BLOCK_SZ) == off % BLOCK_SZ
  {
    DivModSplit(off, off / BLOCK_SZ, off % BLOCK_SZ);
  }

  /** A block holding byte `off` of a longer stream is used past `off`, and is full unless the stream ends in it. */
  lemma FillPast(total: nat, off: nat)
    requires off < total
    ensures off % BLOCK_SZ < Fill(total, off / BLOCK_SZ)
    ensures Fill(total, off / BLOCK_SZ) == BLOCK_SZ || total == (off / BLOCK_SZ) * BLOCK_SZ + Fill(total, off / BLOCK_SZ)
    ensures (off / BLOCK_SZ) * BLOCK_SZ + Fill(total, off / BLOCK_SZ) <= total
  {
    DivModSplit(off, off / BLOCK_SZ, off % BLOCK_SZ);
  }

  /** Appending `take` bytes to a stream of `off` bytes changes only the share of block `off / BLOCK_SZ`. */
  lemma FillStep(off: nat, take: nat, i: nat)
    requires take <= BLOCK_SZ - off % BLOCK_SZ
    ensures Fill(off + take, i) == if i == off / BLOCK_SZ then off % BLOCK_SZ + take else Fill(off, i)
  {
    var bi, bo := off / BLOCK_SZ, off % BLOCK_SZ;
    DivModSplit(off, bi, bo);
    if i < bi {
      assert i * BLOCK_SZ + BLOCK_SZ <= bi * BLOCK_SZ;
    } else if i > bi {
      assert i * BLOCK_SZ >= bi * BLOCK_SZ + BLOCK_SZ;
    }
  }

  /** One round of the copy loop keeps the blocks shaped and holding the stream, now `take` bytes longer. */
  lemma CopyStep(bs: seq<Block>, off: nat, take: nat, full: seq<byte>, bs': seq<Block>)
    requires Shaped(bs, off) && Holds(bs, off, full)
    requires off / BLOCK_SZ < |bs| && take <= BLOCK_SZ - off % BLOCK_SZ && off + take <= |full|
    requires bs' == bs[off / BLOCK_SZ := Poke(bs[off / BLOCK_SZ], off % BLOCK_SZ, full[off .. off + take])]
    ensures Shaped(bs', off + take) && Holds(bs', off + take, full)
  {
    var bi, bo := off / BLOCK_SZ, off % BLOCK_SZ;
    DivModSplit(off, bi, bo);
    FillAt(off);
    forall i | 0 <= i < |bs'|
      ensures |bs'[i].data| == BLOCK_SZ && bs'[i].used == Fill(off + take, i)
    {
      FillStep(off, take, i);
    }
    forall i, j | 0 <= i < |bs'| && 0 <= j < |bs'[i].data| && i * BLOCK_SZ + j < off + take
      ensures bs'[i].data[j] == full[i * BLOCK_SZ + j]
    {
      if i < bi {
        assert i * BLOCK_SZ + BLOCK_SZ <= bi * BLOCK_SZ;
      } else if i == bi && bo <= j {
        assert bs'[i].data[j] == full[off .. off + take][j - bo];
      }
    }
  }

  /** A new block at the end keeps the blocks shaped: it lies past the `total` committed bytes. */
  lemma GrowKeepsShape(bs: seq<Block>, total: nat, content: seq<byte>)
    requires Shaped(bs, total) && Holds(bs, total, content) && total <= |bs| * BLOCK_SZ
    ensures Shaped(bs + [EmptyBlock()], total) && Holds(bs + [EmptyBlock()], total, content)
  {
    var bs' := bs + [EmptyBlock()];
    forall i | 0 <= i < |bs'|
      ensures |bs'[i].data| == BLOCK_SZ && bs'[i].used == Fill(total, i)
    {
      if i < |bs| {
        assert bs'[i] == bs[i];
      }
    }
    forall i, j | 0 <= i < |bs'| && 0 <= j < |bs'[i].data| && i * BLOCK_SZ + j < total
      ensures bs'[i].data[j] == content[i * BLOCK_SZ + j]
    {
      assert i < |bs|;
      assert bs'[i] == bs[i];
    }
  }

  /** Blocks that hold a stream hold every longer stream that starts with it. */
  lemma HoldsExtended(bs: seq<Block>, total: nat, content: seq<byte>, more: seq<byte>)
    requires Holds(bs, total, content) && |content| == total
    ensures Holds(bs, total, content + more)
  {
    forall i, j | 0 <= i < |bs| && 0 <= j < |bs[i].data| && i * BLOCK_SZ + j < total
      ensures bs[i].data[j] == (content + more)[i * BLOCK_SZ + j]
    {
    }
  }
}
