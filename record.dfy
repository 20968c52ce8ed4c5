/**
  A `struct record` of 3/cache.c: one cached response, written by a single
  fetcher and read by any number of readers. Its block fields hold the
  committed byte stream (see module Blocks); its flags say whether the
  stream is complete or was canceled and whether a fetcher is at work; its
  reference count and `in_lru` flag are kept by the cache (module
  StreamCache). Its `prev` and `next` LRU links are not fields here: the
  cache keeps them in two maps keyed by record.

  The record's mutex and condition variable are not modelled: every
  function on a record is one atomic step here.
 */
module Records {
  import opened Bits
  import opened Hashing
  import opened Blocks

  /** What `rec_wait_chunk` hands back: a readable run, or why there is none. */
  datatype Chunk =
    | Run(bytes: seq<byte>)
    /** `*canceled = 1` */
    | Canceled
    /** `*done = 1` */
    | Done
    /** the call would wait on the condition variable */
    | WouldBlock

  /**
    The fields of a record the cache's invariant speaks about, read at one
    moment; `stored` says that the block fields hold the committed stream.
   */
  datatype RecState = RecState(
    completed: bool, canceled: bool, hasFetcher: bool, refcnt: int,
    inLru: bool, total: nat, stored: bool)

  class Record {
    const key: seq<byte>
    /** The hash `cache_acquire` computes and hands to `rec_create`. */
    const h: nat := Fnv1a64(key)
    /** Set to 1 by `rec_create` and never changed. */
    const keepOnComplete: bool
    /** The block array; its length is `nblocks`. */
    var blocks: seq<Block>
    var capblocks: nat
    var total: nat
    /** The committed stream the blocks represent. */
    ghost var content: seq<byte>
    var completed: bool
    var canceled: bool
    var hasFetcher: bool
    var refcnt: int
    var inLru: bool

    /** The block fields hold `content`. */
    ghost predicate Valid()
      reads this
    {
      Stored(blocks, capblocks, total, content)
    }

    ghost function State(): (s: RecState)
      reads this
      ensures s.stored <==> Valid()
    {
      RecState(completed, canceled, hasFetcher, refcnt, inLru, total, Stored(blocks, capblocks, total, content))
    }

    /** `rec_create`: a zeroed record with one reference and no blocks. */
    constructor (key: seq<byte>)
      ensures this.key == key && keepOnComplete && Valid()
      ensures blocks == [] && capblocks == 0 && total == 0 && content == []
      ensures !completed && !canceled && !hasFetcher && refcnt == 1
      ensures !inLru
    {
      this.key := key;
      keepOnComplete := true;
      blocks, capblocks, total, content := [], 0, 0, [];
      completed, canceled, hasFetcher := false, false, false;
      refcnt := 1;
      inLru := false;
    }

    /**
      `rec_wait_chunk` for a reader at offset `off`: committed bytes come
      first, whatever the flags say; past them a cancel is reported before
      completion, and otherwise the reader would wait for the next append.
     */
    method WaitChunk(off: nat) returns (c: Chunk)
      requires Valid()
      ensures off < total <==> c.Run?
      ensures c.Run? ==> 1 <= |c.bytes| <= BLOCK_SZ - off % BLOCK_SZ && off + |c.bytes| <= total
      ensures c.Run? ==> c.bytes == content[off .. off + |c.bytes|]
      ensures c.Run? ==> off + |c.bytes| == total || (off + |c.bytes|) % BLOCK_SZ == 0
      ensures c == Canceled <==> off >= total && canceled
      ensures c == Done <==> off >= total && !canceled && completed
      ensures c == WouldBlock <==> off >= total && !canceled && !completed
    {
      if off < total {
        var run := ReadAt(off);
        return Run(run);
      }
      if canceled {
        return Canceled;
      }
      if completed {
        return Done;
      }
      return WouldBlock;
    }

    /**
      The readable run of `rec_wait_chunk` at an offset below `total`: the
      bytes from `off` to the end of the used part of the block holding
      `off`. The run is never empty, never crosses a block boundary and is
      exactly the committed stream from `off` on.
     */
    method ReadAt(off: nat) returns (run: seq<byte>)
      requires Valid() && off < total
      ensures 1 <= |run| <= BLOCK_SZ - off % BLOCK_SZ && off + |run| <= total
      ensures run == content[off .. off + |run|]
      ensures off + |run| == total || (off + |run|) % BLOCK_SZ == 0
    {
      BlockRun(blocks, total, content, off);
      var bi, bo := off / BLOCK_SZ, off % BLOCK_SZ;
      var avail := blocks[bi].used - bo;
      run := blocks[bi].data[bo .. bo + avail];
    }

    /** One reference fewer; the stored stream and the flags stay. */
    method DropOne()
      modifies this`refcnt
      ensures refcnt == old(refcnt) - 1
      ensures State() == old(State()).(refcnt := old(refcnt) - 1)
    {
      refcnt := refcnt - 1;
    }

    /**
      The record side of `cache_acquire`: one reference more, and the caller
      becomes the fetcher of a record that is neither completed nor canceled
      and has none.
     */
    method Join() returns (granted: bool)
      modifies this`refcnt, this`hasFetcher
      ensures granted <==> !completed && !canceled && !old(hasFetcher)
      ensures refcnt == old(refcnt) + 1 && hasFetcher == (old(hasFetcher) || granted)
      ensures State() == old(State()).(refcnt := old(refcnt) + 1, hasFetcher := old(hasFetcher) || granted)
    {
      refcnt := refcnt + 1;
      granted := !completed && !canceled && !hasFetcher;
      if granted {
        hasFetcher := true;
      }
    }

    /** The flag writes of `rec_cancel`. */
    method Cancel()
      modifies this`canceled, this`hasFetcher
      ensures canceled && !hasFetcher
      ensures State() == old(State()).(canceled := true, hasFetcher := false)
    {
      canceled, hasFetcher := true, false;
    }

    /** The flag writes of `rec_finish`. */
    method Complete()
      modifies this`completed, this`hasFetcher
      ensures completed && !hasFetcher
      ensures State() == old(State()).(completed := true, hasFetcher := false)
    {
      completed, hasFetcher := true, false;
    }

    /** The end of `lru_remove`: out of the list. */
    method Unlist()
      modifies this`inLru
      ensures !inLru && State() == old(State()).(inLru := false)
    {
      inLru := false;
    }

    /** The end of `lru_push_front`: in the list. */
    method List()
      modifies this`inLru
      ensures inLru && State() == old(State()).(inLru := true)
    {
      inLru := true;
    }

    /** `rec_size`: the number of committed bytes. */
    function Size(): (n: nat)
      requires Valid()
      reads this
      ensures n == |content|
    {
      total
    }

    /**
      The storage part of `rec_append`: grow the block array until it has
      room for `total + |buf|` bytes, doubling the pointer array's capacity
      (0, 4, 8, ...) whenever it is full, then copy `buf` in, splitting it at
      block boundaries. `allocs` is how many allocations (`realloc` of the
      pointer array or `calloc` of a block) succeed before one fails; a
      failure keeps the blocks grown so far but commits nothing.
     */
    method AppendBytes(buf: seq<byte>, allocs: nat) returns (ok: bool)
      requires Valid()
      modifies this`blocks, this`capblocks, this`total, this`content
      ensures Valid()
      ensures ok <==> AllocationsNeeded(old(|blocks|), old(capblocks), old(total) + |buf|) <= allocs
      ensures ok ==> total == old(total) + |buf| && content == old(content) + buf
      ensures !ok ==> total == old(total) && content == old(content)
      ensures |blocks| >= old(|blocks|) && capblocks >= old(capblocks)
      ensures canceled == old(canceled) && completed == old(completed)
    {
      ok := Grow(total + |buf|, allocs);
      if ok {
        CopyIn(buf);
      }
    }

    /** The growth loop of `rec_append`: add empty blocks until `need` bytes fit. */
    method Grow(need: nat, allocs: nat) returns (ok: bool)
      requires Valid()
      modifies this`blocks, this`capblocks
      ensures Valid()
      ensures ok <==> AllocationsNeeded(old(|blocks|), old(capblocks), need) <= allocs
      ensures ok ==> need <= |blocks| * BLOCK_SZ
      ensures |blocks| >= old(|blocks|) && capblocks >= old(capblocks)
    {
      ghost var needed := AllocationsNeeded(|blocks|, capblocks, need);
      var left: nat := allocs;
      while need > |blocks| * BLOCK_SZ
        invariant Valid()
        invariant |blocks| >= old(|blocks|) && capblocks >= old(capblocks)
        invariant left <= allocs && AllocationsNeeded(|blocks|, capblocks, need) + (allocs - left) == needed
        decreases need - |blocks| * BLOCK_SZ
      {
        assert AllocationsNeeded(|blocks|, capblocks, need) > 0;
        if |blocks| == capblocks {
          if left == 0 {
            return false;
          }
          left := left - 1;
          capblocks := NextCapacity(capblocks);
        }
        assert AllocationsNeeded(|blocks|, capblocks, need) == 1 + AllocationsNeeded(|blocks| + 1, capblocks, need);
        if left == 0 {
          return false;
        }
        left := left - 1;
        GrowKeepsShape(blocks, total, content);
        blocks := blocks + [EmptyBlock()];
      }
      assert AllocationsNeeded(|blocks|, capblocks, need) == 0;
      ok := true;
    }

    /** The copy loop of `rec_append`, once the blocks have room: `buf` goes in after the committed bytes. */
    method CopyIn(buf: seq<byte>)
      requires Valid() && total + |buf| <= |blocks| * BLOCK_SZ
      modifies this`blocks, this`total, this`content
      ensures Valid()
      ensures total == old(total) + |buf| && content == old(content) + buf
      ensures |blocks| == old(|blocks|)
    {
      ghost var full := content + buf;
      HoldsExtended(blocks, total, content, buf);
      var bs, off := blocks, total;
      var p := 0;
      while p < |buf|
        invariant unchanged(this)
        invariant off == total + p && p <= |buf|
        invariant |bs| == |blocks| && |full| == total + |buf| && off + (|buf| - p) <= |bs| * BLOCK_SZ
        invariant Shaped(bs, off) && Holds(bs, off, full)
        decreases |buf| - p
      {
        var bi, bo := off / BLOCK_SZ, off % BLOCK_SZ;
        var can := BLOCK_SZ - bo;
        var take := if |buf| - p < can then |buf| - p else can;
        BlockInRange(off, |bs|);
        assert full[off .. off + take] == buf[p .. p + take];
        var bs' := bs[bi := Poke(bs[bi], bo, buf[p .. p + take])];
        CopyStep(bs, off, take, full, bs');
        bs, off, p := bs', off + take, p + take;
      }
      blocks := bs;
      total, content := total + |buf|, full;
    }
  }
}
