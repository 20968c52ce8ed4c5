/**
  The `cache_t` of 3/cache.c and its public operations. The bucket array
  is an array of chains (each chain the sequence of its `entry` nodes, head
  first). The LRU list is intrusive: `prev[r]` and `next[r]` stand for the
  `r->prev` and `r->next` fields of each live record, and `r.inLru` is its
  `in_lru` flag.

  Every operation is one atomic step: the bucket, LRU and record mutexes
  only serialise it. Ghost fields say what the links mean: `table` maps
  each key that has a bucket node to its record, `live` holds the records
  not yet freed (`rec_free` takes a record out of it), `handles` the
  references callers hold (one per `cache_acquire` not yet released), and
  `lru` and `pos` are the LRU list from head to tail and each member's
  place in it. `Abstract()` reads the whole structure as a `View`; each
  method is proved to move it by the step function of module CacheState
  (or Eviction), whose lemmas show the invariant is kept.
 */
module StreamCache {
  import opened Bits
  import opened Hashing
  import opened Blocks
  import opened Records
  import opened Chains
  import opened Lru
  import opened CacheState
  import opened Eviction
  import opened Teardown

  /** The state of each record of `s`. */
  ghost function RecMap(s: set<Record>): (m: map<Record, RecState>)
    reads s
    ensures m.Keys == s
  {
    map x | x in s :: x.State()
  }

  lemma RecMapIs(s: set<Record>, m: map<Record, RecState>)
    requires m.Keys == s && forall x :: x in s ==> x.State() == m[x]
    ensures RecMap(s) == m
  {
  }

  class Cache {
    const nbuckets: nat
    const buckets: array<seq<Node>>
    var lruHead: Record?
    var lruTail: Record?
    var prev: map<Record, Record?>
    var next: map<Record, Record?>
    var bytesCompleted: nat
    const softLimit: nat
    var hits: nat
    var misses: nat
    var stores: nat
    var evicts: nat

    ghost var table: map<seq<byte>, Record>
    ghost var live: set<Record>
    ghost var handles: multiset<Record>
    ghost var lru: seq<Record>
    ghost var pos: map<Record, nat>

    /** The cache and the records it reaches, read as a value. */
    ghost function Abstract(): View
      reads this, buckets, live
    {
      View(buckets[..], table, nbuckets, live, handles, RecMap(live), prev, next,
           lru, pos, lruHead, lruTail, bytesCompleted)
    }

    ghost predicate Valid()
      reads this, buckets, live
    {
      buckets.Length == nbuckets && Good(Abstract())
    }

    /** The state `cache_init` leaves behind once its checks pass. */
    constructor (nbuckets: nat, soft: nat)
      requires InitGuard(nbuckets)
      ensures Valid() && fresh(buckets) && Abstract() == Empty(nbuckets)
      ensures this.nbuckets == nbuckets && softLimit == soft
      ensures hits == 0 && misses == 0 && stores == 0 && evicts == 0
    {
      this.nbuckets := nbuckets;
      buckets := new seq<Node>[nbuckets](_ => []);
      softLimit := soft;
      lruHead, lruTail, prev, next := null, null, map[], map[];
      bytesCompleted := 0;
      hits, misses, stores, evicts := 0, 0, 0, 0;
      table, live, handles, lru, pos := map[], {}, multiset{}, [], map[];
      new;
      assert buckets[..] == seq(nbuckets, _ => []);
      EmptyGood(nbuckets);
    }

    /**
      `cache_init`: -1 unless `nbuckets` is a non-zero power of two,
      otherwise a cache with no entries, an empty LRU list, no bytes
      counted and all counters zero.
     */
    static method Init(nbuckets: nat, soft: nat) returns (rc: int, c: Cache?)
      requires nbuckets < TWO64
      ensures rc == 0 || rc == -1
      ensures rc == 0 <==> InitGuard(nbuckets)
      ensures rc == -1 <==> c == null
      ensures c != null ==> fresh(c) && c.Valid() && c.Abstract() == Empty(nbuckets)
      ensures c != null ==> c.nbuckets == nbuckets && c.softLimit == soft
      ensures c != null ==> c.hits == 0 && c.misses == 0 && c.stores == 0 && c.evicts == 0
    {
      if nbuckets == 0 || And(nbuckets, nbuckets - 1) != 0 {
        return -1, null;
      }
      c := new Cache(nbuckets, soft);
      rc := 0;
    }

    /** After a write to the fields of live record `r` alone, the states change at `r` only. */
    twostate lemma KeepState(r: Record)
      requires r in live && live == old(live) && forall x :: x in live && x != r ==> unchanged(x)
      ensures RecMap(live) == old(RecMap(live))[r := r.State()]
    {
      RecMapIs(live, old(RecMap(live))[r := r.State()]);
    }

    /** After writes to the cache's own fields alone, every record keeps its state. */
    twostate lemma KeepAll()
      requires live == old(live) && forall x :: x in live ==> unchanged(x)
      ensures RecMap(live) == old(RecMap(live))
    {
      RecMapIs(live, old(RecMap(live)));
    }

    /** After a new record `r` joins `live` untouched, the others keep their states. */
    twostate lemma Adopt(r: Record)
      requires old(allocated(r)) && live == old(live) + {r}
      requires unchanged(r) && forall x :: x in old(live) ==> unchanged(x)
      ensures RecMap(live) == old(RecMap(live))[r := r.State()]
    {
      RecMapIs(live, old(RecMap(live))[r := r.State()]);
    }

    /** After `r` leaves `live`, the other records keep their states. */
    twostate lemma Forget(r: Record)
      requires live == old(live) - {r} && forall x :: x in live ==> unchanged(x)
      ensures RecMap(live) == old(RecMap(live)) - {r}
    {
      RecMapIs(live, old(RecMap(live)) - {r});
    }

    /** The bucket array is not written: the chains it holds stay. */
    twostate lemma SameBuckets()
      requires unchanged(buckets)
      ensures buckets[..] == old(buckets[..])
    {
    }

    /** `rec_cancel`: the record is canceled and loses its fetcher; nothing else changes. */
    method Cancel(r: Record)
      requires Valid() && r in handles
      modifies r`canceled, r`hasFetcher
      ensures Valid() && Abstract() == CacheState.Canceled(old(Abstract()), r)
      ensures r.canceled && !r.hasFetcher
    {
      ghost var v := Abstract();
      LiveRecord(v, r);
      MarkCanceled(r);
      CancelGood(v, r);
    }

    /** The writes of `rec_cancel` to the record's flags. */
    method MarkCanceled(r: Record)
      requires r in live
      modifies r`canceled, r`hasFetcher
      ensures Abstract() == CacheState.Canceled(old(Abstract()), r)
      ensures r.canceled && !r.hasFetcher
    {
      r.Cancel();
      KeepState(r);
    }

    /**
      `cache_release`: drop one reference; the caller that drops the last
      one frees the record. A null record is ignored.
     */
    method Release(r: Record?)
      requires Valid() && (r != null ==> r in handles)
      modifies this`handles, this`live, this`prev, this`next, ({r} - {null})`refcnt
      ensures Valid()
      ensures r == null ==> Abstract() == old(Abstract())
      ensures r != null ==> Abstract() == Released(old(Abstract()), r)
      ensures r != null ==> r.refcnt == old(r.refcnt) - 1 && (r !in live <==> old(r.refcnt) == 1)
    {
      if r == null {
        return;
      }
      ghost var v := Abstract();
      LiveRecord(v, r);
      DropRef(r);
      ReleaseGood(v, r);
    }

    /** The writes of `cache_release`: the caller's reference goes, then the count drops. */
    method DropRef(r: Record)
      requires r in live && r in handles
      modifies this`handles, this`live, this`prev, this`next, r`refcnt
      ensures Abstract() == Released(old(Abstract()), r)
      ensures r.refcnt == old(r.refcnt) - 1 && (r !in live <==> old(r.refcnt) == 1)
    {
      RemoveHandle(r);
      var freed := Drop(r);
    }

    /** One reference fewer held by callers. */
    method RemoveHandle(r: Record)
      modifies this`handles
      ensures Abstract() == old(Abstract()).(handles := old(handles) - multiset{r})
    {
      ghost var w := Abstract().(handles := handles - multiset{r});
      handles := handles - multiset{r};
      KeepAll();
      SameBuckets();
      assert Abstract() == w;
    }

    /**
      `atomic_fetch_sub(&r->refcnt, 1) == 1` and the `rec_free` it guards:
      one reference fewer, and the record is freed, its links with it, when
      that was the last one.
     */
    method Drop(r: Record) returns (freed: bool)
      requires r in live
      modifies this`live, this`prev, this`next, r`refcnt
      ensures Abstract() == Dropped(old(Abstract()), r)
      ensures freed <==> old(r.refcnt) == 1
      ensures r.refcnt == old(r.refcnt) - 1 && (r !in live <==> freed)
    {
      freed := r.refcnt == 1;
      if freed {
        FreeLast(r);
      } else {
        DropOther(r);
      }
    }

    /** The last reference went: the record is freed, its links with it. */
    method FreeLast(r: Record)
      requires r in live && r.refcnt == 1
      modifies this`live, this`prev, this`next, r`refcnt
      ensures Abstract() == old(Abstract()).(live := old(live) - {r},
                recs := old(RecMap(live)) - {r}, prev := old(prev) - {r}, next := old(next) - {r})
      ensures r.refcnt == 0 && r !in live
    {
      r.DropOne();
      live := live - {r};
      prev, next := prev - {r}, next - {r};
      Forget(r);
    }

    /** Another reference remains: the record stays, one count lower. */
    method DropOther(r: Record)
      requires r in live && r.refcnt != 1
      modifies r`refcnt
      ensures Abstract() == old(Abstract()).(recs := old(RecMap(live))[r := old(r.State()).(refcnt := old(r.refcnt) - 1)])
      ensures r.refcnt == old(r.refcnt) - 1
    {
      r.DropOne();
      KeepState(r);
    }

    /**
      `cache_destroy`: bucket by bucket, and along each chain from its head,
      the table's reference on each node's record is dropped, freeing the
      record at its last reference; then the bucket's nodes are freed. What
      is left is stated by the lemmas DestroyedLive and DestroyedShape.
     */
    method Destroy()
      requires Valid()
      modifies buckets, this`table, this`live, this`prev, this`next, live`refcnt
      ensures Abstract() == Destroyed(old(Abstract()))
    {
      ghost var v0 := Abstract();
      SweepAll(v0);
      ClearTable();
    }

    /** The loop of `cache_destroy` over the buckets. */
    method SweepAll(ghost v0: View)
      requires buckets.Length == |v0.chains| && Good(v0) && Abstract() == v0
      modifies buckets, this`live, this`prev, this`next, live`refcnt
      ensures Abstract() == Swept(v0, |v0.chains|)
    {
      SweepStart(v0);
      for i := 0 to buckets.Length
        invariant live <= old(live)
        invariant Abstract() == Swept(v0, i)
      {
        SweepChain(i, v0);
      }
    }

    /** The body of `cache_destroy`'s loop for bucket `i`: each node's record loses a reference, then the chain is freed. */
    method SweepChain(i: nat, ghost v0: View)
      requires i < buckets.Length && buckets.Length == |v0.chains| && Good(v0) && Abstract() == Swept(v0, i)
      modifies buckets, this`live, this`prev, this`next, live`refcnt
      ensures Abstract() == Swept(v0, i + 1) && live <= old(live)
    {
      SweptChains(v0, i);
      var c := buckets[i];
      assert c == v0.chains[i];
      var j := 0;
      while j < |c|
        invariant j <= |c| && Abstract() == DropAll(Swept(v0, i), ChainRecs(c[..j])) && live <= old(live)
      {
        var r := c[j].rec;
        SweepStep(v0, i, j);
        var _ := Drop(r);
        j := j + 1;
      }
      assert c[..j] == c;
      SweepBucket(v0, i);
      EmptyBucket(i);
    }

    /** The nodes of bucket `i` are freed: its chain is empty. */
    method EmptyBucket(i: nat)
      requires i < buckets.Length
      modifies buckets
      ensures Abstract() == old(Abstract()).(chains := old(buckets[..])[i := []])
    {
      buckets[i] := [];
      KeepAll();
    }

    /** No key has a node any more. */
    method ClearTable()
      modifies this`table
      ensures Abstract() == old(Abstract()).(table := map[])
    {
      table := map[];
      KeepAll();
    }

    /** `r.in_lru := b` for a live record: its state changes in that flag alone. */
    method SetListed(r: Record, b: bool)
      requires r in live
      modifies r`inLru
      ensures r.inLru == b
      ensures Abstract() == old(Abstract()).(recs := old(RecMap(live))[r := old(r.State()).(inLru := b)])
    {
      if b {
        r.List();
      } else {
        r.Unlist();
      }
      KeepState(r);
    }

    /**
      `lru_remove`: a record with `in_lru` set is unlinked from the LRU
      list (its neighbours, or the head and tail, are joined past it);
      any other record is left alone.
     */
    method LruRemove(r: Record)
      requires r in live && r in prev && r in next
      requires r.inLru ==> r in pos && pos[r] < |lru|
      requires prev[r] != null ==> prev[r] in next
      requires next[r] != null ==> next[r] in prev
      modifies this`lruHead, this`lruTail, this`prev, this`next, this`lru, this`pos, r`inLru
      ensures Abstract() == Unlinked(old(Abstract()), r)
      ensures !r.inLru
    {
      if !r.inLru {
        return;
      }
      Unplace(r);
      Unhook(r);
      SetListed(r, false);
    }

    /** The link writes of `lru_remove`: the neighbours of `r`, or the head and tail, are joined past it. */
    method Unhook(r: Record)
      requires r in prev && r in next
      requires prev[r] != null ==> prev[r] in next
      requires next[r] != null ==> next[r] in prev
      modifies this`lruHead, this`lruTail, this`prev, this`next
      ensures Abstract() == old(Abstract()).(
                prev := UnlinkPrev(old(prev), old(next), r), next := UnlinkNext(old(prev), old(next), r),
                head := if old(prev[r]) == null then old(next[r]) else old(lruHead),
                tail := if old(next[r]) == null then old(prev[r]) else old(lruTail))
    {
      var p, n := prev[r], next[r];
      var ns := if p != null then next[p := n] else next;
      var ps := if n != null then prev[n := p] else prev;
      var h := if p != null then lruHead else n;
      var t := if n != null then lruTail else p;
      assert ns[r := null] == UnlinkNext(prev, next, r);
      assert ps[r := null] == UnlinkPrev(prev, next, r);
      ghost var w := Abstract().(prev := ps[r := null], next := ns[r := null], head := h, tail := t);
      prev, next, lruHead, lruTail := ps[r := null], ns[r := null], h, t;
      KeepAll();
      SameBuckets();
      assert Abstract() == w;
    }

    /** The ghost side of `lru_remove`: `r` leaves the list of records and the positions. */
    method Unplace(r: Record)
      requires r in pos && pos[r] < |lru|
      modifies this`lru, this`pos
      ensures Abstract() == old(Abstract()).(lru := Without(old(lru), old(pos[r])), pos := RemovePos(old(pos), r, old(pos[r])))
    {
      ghost var w := Abstract().(lru := Without(lru, pos[r]), pos := RemovePos(pos, r, pos[r]));
      lru, pos := Without(lru, pos[r]), RemovePos(pos, r, pos[r]);
      KeepAll();
      SameBuckets();
      assert Abstract() == w;
    }

    /**
      `lru_push_front`: the record's links are set to put it before the old
      head, which links back to it (or, on an empty list, it is also the
      tail); it becomes the head and its `in_lru` flag is set.
     */
    method LruPushFront(r: Record)
      requires r in live && r in prev && r in next
      requires lruHead != null ==> lruHead in prev
      modifies this`lruHead, this`lruTail, this`prev, this`next, this`lru, this`pos, r`inLru
      ensures Abstract() == Pushed(old(Abstract()), r)
      ensures r.inLru
    {
      Hook(r);
      Place(r);
      SetListed(r, true);
    }

    /** The link writes of `lru_push_front`. */
    method Hook(r: Record)
      requires r in prev && r in next
      requires lruHead != null ==> lruHead in prev
      modifies this`lruHead, this`lruTail, this`prev, this`next
      ensures Abstract() == old(Abstract()).(
                prev := LinkPrev(old(prev), r, old(lruHead)), next := LinkNext(old(next), r, old(lruHead)),
                head := r, tail := if old(lruHead) == null then r else old(lruTail))
    {
      var ps, ns := prev[r := null], next[r := lruHead];
      var t := if lruHead != null then lruTail else r;
      if lruHead != null {
        ps := ps[lruHead := r];
      }
      assert ps == LinkPrev(prev, r, lruHead);
      ghost var w := Abstract().(prev := ps, next := ns, head := r, tail := t);
      prev, next, lruTail, lruHead := ps, ns, t, r;
      KeepAll();
      SameBuckets();
      assert Abstract() == w;
    }

    /** The ghost side of `lru_push_front`: `r` goes in front of the list of records. */
    method Place(r: Record)
      modifies this`lru, this`pos
      ensures Abstract() == old(Abstract()).(lru := [r] + old(lru), pos := PushPos(old(pos), r))
    {
      ghost var w := Abstract().(lru := [r] + lru, pos := PushPos(pos, r));
      lru, pos := [r] + lru, PushPos(pos, r);
      KeepAll();
      SameBuckets();
      assert Abstract() == w;
    }

    /**
      `rec_touch_lru`: a record in the LRU list moves to its front; any
      other record is left where it is.
     */
    method Touch(r: Record)
      requires Valid() && r in live
      modifies this`lruHead, this`lruTail, this`prev, this`next, this`lru, this`pos, r`inLru
      ensures Valid() && Abstract() == Touched(old(Abstract()), r)
      ensures lru == if r in old(pos) then [r] + Without(old(lru), old(pos[r])) else old(lru)
    {
      ghost var v := Abstract();
      LiveRecord(v, r);
      TouchGood(v, r);
      TouchSteps(r, v);
    }

    /** The writes of `rec_touch_lru`, on the view `v` it starts from. */
    method TouchSteps(r: Record, ghost v: View)
      requires v == Abstract() && Good(v) && r in live
      modifies this`lruHead, this`lruTail, this`prev, this`next, this`lru, this`pos, r`inLru
      ensures Abstract() == Touched(v, r)
    {
      LiveRecord(v, r);
      if r.inLru {
        Listed(v, r);
        Neighbours(v.lru, v.pos, v.head, v.tail, v.prev, v.next, r);
        UnlinkedOK(v, r);
        HeadLinked(Unlinked(v, r));
        MoveToFront(r);
      }
    }

    /** The writes of `rec_touch_lru` on a record in the list: out of it, then back in at the front. */
    method MoveToFront(r: Record)
      requires r in live && r in prev && r in next && r.inLru && r in pos && pos[r] < |lru|
      requires prev[r] != null ==> prev[r] in next
      requires next[r] != null ==> next[r] in prev
      requires var u := Unlinked(Abstract(), r); u.head != null ==> u.head in u.prev
      modifies this`lruHead, this`lruTail, this`prev, this`next, this`lru, this`pos, r`inLru
      ensures Abstract() == Pushed(Unlinked(old(Abstract()), r), r)
    {
      LruRemove(r);
      LruPushFront(r);
    }

    /** `bytes_completed -= n` for the evicted tail's total, and one more eviction counted. */
    method SubCompleted(n: nat)
      requires n <= bytesCompleted
      modifies this`bytesCompleted, this`evicts
      ensures Abstract() == old(Abstract()).(bytes := old(bytesCompleted) - n)
      ensures evicts == old(evicts) + 1
    {
      ghost var w := Abstract().(bytes := bytesCompleted - n);
      bytesCompleted, evicts := bytesCompleted - n, evicts + 1;
      KeepAll();
      SameBuckets();
      assert Abstract() == w;
    }

    /** The chain walk of `try_evict_until_soft`: the index of the first node of chain `b` whose record is `r`. */
    method FindNode(r: Record, b: nat) returns (j: nat)
      requires b < buckets.Length
      ensures j == FindRec(buckets[b], r)
    {
      var c := buckets[b];
      j := 0;
      while j < |c| && c[j].rec != r
        invariant j <= |c|
        invariant forall t :: 0 <= t < j ==> c[t].rec != r
      {
        j := j + 1;
      }
      FirstRec(c, r, j);
    }

    /** `*pp = dead->next`: node `j` leaves chain `b`, and its key the table. */
    method Unchain(b: nat, j: nat, k: seq<byte>)
      requires b < buckets.Length && j < |buckets[b]|
      modifies buckets, this`table
      ensures Abstract() == Unchained(old(Abstract()), b, j, k)
    {
      ghost var w := Unchained(Abstract(), b, j, k);
      buckets[b] := buckets[b][..j] + buckets[b][j + 1..];
      table := table - {k};
      KeepAll();
      assert buckets[..] == w.chains;
      assert Abstract() == w;
    }

    /**
      One pass of the loop of `try_evict_until_soft`: the LRU tail leaves
      the list, the byte count and its bucket, and the table's reference on
      it is dropped; `freed` says whether that freed it.
     */
    method EvictOne() returns (freed: bool)
      requires Valid() && lruTail != null
      modifies buckets, this`table, this`live, this`prev, this`next, this`lruHead, this`lruTail, this`lru, this`pos
      modifies this`bytesCompleted, this`evicts, lruTail`refcnt, lruTail`inLru
      ensures Valid() && Abstract() == EvictedOne(old(Abstract()))
      ensures freed <==> old(lruTail.refcnt) == 1
      ensures evicts == old(evicts) + 1
    {
      ghost var v := Abstract();
      freed := EvictTail();
      EvictOneGood(v);
    }

    /**
      The exit of `try_evict_until_soft`'s loop, for the list `l0` it started
      from: the completed bytes are within the soft limit, the list is empty,
      or the last pass freed the record it took off.
     */
    ghost predicate SoftReached(l0: seq<Record>)
      reads this
    {
      bytesCompleted <= softLimit || lru == [] || (|lru| < |l0| && l0[|lru|] !in live)
    }

    /**
      `try_evict_until_soft`: while `bytes_completed` is above the soft
      limit and the LRU list is not empty, evict its tail; stop right after
      a pass that freed its record. The list loses a suffix, one eviction is
      counted per record taken off, every record taken off but the last is
      still alive (someone else held it), and on leaving either the count is
      within the limit, the list is empty, or the last pass freed its record.
     */
    method EvictUntilSoft()
      requires Valid()
      modifies buckets, this`table, this`live, this`prev, this`next, this`lruHead, this`lruTail, this`lru, this`pos
      modifies this`bytesCompleted, this`evicts, live`refcnt, live`inLru
      ensures Valid()
      ensures lru <= old(lru) && handles == old(handles) && live <= old(live)
      ensures forall i :: |lru| < i < |old(lru)| ==> old(lru)[i] in live
      ensures evicts == old(evicts) + (|old(lru)| - |lru|)
      ensures SoftReached(old(lru))
      ensures KeptBut(old(Abstract()), Abstract(), old(lru)[|lru|..])
    {
      ghost var v0 := Abstract();
      KeptStart(v0);
      while bytesCompleted > softLimit && lruTail != null
        invariant Valid() && PosOK(v0.lru, v0.pos) && v0.lru == old(lru) && v0 == old(Abstract())
        invariant lru <= v0.lru && handles == old(handles) && live <= old(live)
        invariant KeptBut(v0, Abstract(), v0.lru[|lru|..])
        invariant forall i :: |lru| <= i < |v0.lru| ==> v0.lru[i] in live
        invariant evicts == old(evicts) + (|v0.lru| - |lru|)
        decreases |lru|
      {
        var freed := EvictStep(v0);
        if freed {
          return;
        }
      }
    }

    /** One pass of `try_evict_until_soft`'s loop, seen from the list `v0` it started from. */
    method EvictStep(ghost v0: View) returns (freed: bool)
      requires Valid() && lruTail != null && PosOK(v0.lru, v0.pos)
      requires lru <= v0.lru && handles == v0.handles && live <= v0.live
      requires forall i :: |lru| <= i < |v0.lru| ==> v0.lru[i] in live
      requires KeptBut(v0, Abstract(), v0.lru[|lru|..])
      modifies buckets, this`table, this`live, this`prev, this`next, this`lruHead, this`lruTail, this`lru, this`pos
      modifies this`bytesCompleted, this`evicts, lruTail`refcnt, lruTail`inLru
      ensures Valid() && |lru| + 1 == old(|lru|) && evicts == old(evicts) + 1
      ensures lru <= v0.lru && handles == v0.handles && live <= v0.live
      ensures KeptBut(v0, Abstract(), v0.lru[|lru|..])
      ensures freed ==> v0.lru[|lru|] !in live && forall i :: |lru| < i < |v0.lru| ==> v0.lru[i] in live
      ensures !freed ==> forall i :: |lru| <= i < |v0.lru| ==> v0.lru[i] in live
    {
      ghost var v := Abstract();
      ghost var rc := lruTail.refcnt;
      assert rc == v.recs[v.tail].refcnt;
      assert Trimmed(v0, v) && AliveFrom(v0, v, |lru|);
      ghost var r: Record := lruTail;
      freed := EvictOne();
      EvictNext(v0, v, rc);
      KeptOne(v0, v, r, v0.lru[|v.lru|..]);
      TailSuffix(v0.lru, v, r);
      assert EvictedOne(v) == Abstract();
    }

    /** The writes of one pass, on the tail. */
    method EvictTail() returns (freed: bool)
      requires Valid() && lruTail != null
      modifies buckets, this`table, this`live, this`prev, this`next, this`lruHead, this`lruTail, this`lru, this`pos
      modifies this`bytesCompleted, this`evicts, lruTail`refcnt, lruTail`inLru
      ensures Abstract() == EvictedOne(old(Abstract()))
      ensures freed <==> old(lruTail.refcnt) == 1
      ensures evicts == old(evicts) + 1
    {
      ghost var v := Abstract();
      var r := lruTail;
      EvictedIsPass(v);
      var b := BucketOf(r.h, nbuckets);
      freed := EvictSteps(r, b, FindRec(v.chains[b], r));
    }

    /** The writes of one pass on the tail `r`, whose node is node `j` of bucket `b`, in the order of the loop body. */
    method EvictSteps(r: Record, b: nat, ghost j: nat) returns (freed: bool)
      requires Unlistable(Abstract(), r)
      requires b < buckets.Length && j == FindRec(buckets[b], r) && j < |buckets[b]|
      modifies buckets, this`table, this`live, this`prev, this`next, this`lruHead, this`lruTail, this`lru, this`pos
      modifies this`bytesCompleted, this`evicts, r`refcnt, r`inLru
      ensures Abstract() == Pass(old(Abstract()), r, b, j)
      ensures freed <==> old(r.refcnt) == 1
      ensures evicts == old(evicts) + 1
    {
      ghost var v := Abstract();
      PassSteps(v, r, b, j);
      ghost var u := Unlinked(v, r).(bytes := v.bytes - v.recs[r].total);
      EvictUnlist(r, u);
      freed := EvictUnchain(r, b, j, Dropped(Unchained(u, b, j, r.key), r));
    }

    /** The bucket half of a pass on the unlisted tail `r`: its node is unchained and the table's reference dropped. */
    method EvictUnchain(r: Record, b: nat, ghost j: nat, ghost x: View) returns (freed: bool)
      requires r in live && b < buckets.Length && j == FindRec(buckets[b], r) && j < |buckets[b]|
      requires x == Dropped(Unchained(Abstract(), b, j, r.key), r)
      modifies buckets, this`table, this`live, this`prev, this`next, r`refcnt
      ensures Abstract() == x
      ensures freed <==> old(r.refcnt) == 1
      ensures evicts == old(evicts)
    {
      var k := FindNode(r, b);
      Unchain(b, k, r.key);
      freed := Drop(r);
    }

    /** `lru_remove` of the tail `r` and `bytes_completed -= r->total`. */
    method EvictUnlist(r: Record, ghost u: View)
      requires Unlistable(Abstract(), r)
      requires u == Unlinked(Abstract(), r).(bytes := Abstract().bytes - Abstract().recs[r].total)
      modifies this`lruHead, this`lruTail, this`prev, this`next, this`lru, this`pos, this`bytesCompleted, this`evicts, r`inLru
      ensures Abstract() == u
      ensures evicts == old(evicts) + 1
    {
      var n := r.total;
      LruRemove(r);
      SubCompleted(n);
    }

    /**
      `rec_append` of `buf` to `r`, whose caller holds a reference: an empty
      buffer is accepted and changes nothing. Otherwise the cache first
      evicts down to its soft limit (as `EvictUntilSoft`); then a record
      that is canceled or completed refuses the bytes (-1), and otherwise
      they are stored, which fails (-1, nothing committed) when one of the
      allocations fails. `allocs` is how many allocations succeed.
     */
    method Append(r: Record, buf: seq<byte>, allocs: nat) returns (rc: int)
      requires Valid() && r in handles
      modifies buckets, this`table, this`live, this`prev, this`next, this`lruHead, this`lruTail, this`lru, this`pos
      modifies this`bytesCompleted, this`evicts, live`refcnt, live`inLru
      modifies r`blocks, r`capblocks, r`total, r`content
      ensures Valid() && handles == old(handles)
      ensures rc == 0 || rc == -1
      ensures rc == 0 <==> (|buf| == 0 || (!r.canceled && !r.completed
                             && AllocationsNeeded(old(|r.blocks|), old(r.capblocks), old(r.total) + |buf|) <= allocs))
      ensures rc == 0 ==> r.content == old(r.content) + buf && r.total == old(r.total) + |buf|
      ensures rc != 0 ==> r.content == old(r.content) && r.total == old(r.total)
      ensures |buf| == 0 ==> Abstract() == old(Abstract()) && evicts == old(evicts)
      ensures lru <= old(lru) && live <= old(live) && evicts == old(evicts) + (|old(lru)| - |lru|)
      ensures |buf| > 0 ==> SoftReached(old(lru)) && KeptBut(old(Abstract()), Abstract(), old(lru)[|lru|..] + [r])
    {
      if |buf| == 0 {
        return 0;
      }
      rc := AppendSteps(r, buf, allocs, |r.blocks|, r.capblocks, r.total + |buf|, r.content,
                        AllocationsNeeded(|r.blocks|, r.capblocks, r.total + |buf|));
    }

    /** `rec_append` of a non-empty buffer: evict, check the flags, store. */
    method AppendSteps(r: Record, buf: seq<byte>, allocs: nat, ghost nb: nat, ghost cb: nat, ghost want: nat, ghost c0: seq<byte>,
                       ghost need: nat)
      returns (rc: int)
      requires Valid() && r in handles
      requires nb == |r.blocks| && cb == r.capblocks && want == r.total + |buf| && c0 == r.content
      requires need == AllocationsNeeded(nb, cb, want)
      modifies buckets, this`table, this`live, this`prev, this`next, this`lruHead, this`lruTail, this`lru, this`pos
      modifies this`bytesCompleted, this`evicts, live`refcnt, live`inLru
      modifies r`blocks, r`capblocks, r`total, r`content
      ensures Valid() && handles == old(handles)
      ensures rc == 0 || rc == -1
      ensures rc == 0 <==> (!r.canceled && !r.completed && need <= allocs)
      ensures rc == 0 ==> r.content == c0 + buf && r.total == want
      ensures rc != 0 ==> r.content == c0 && r.total + |buf| == want
      ensures lru <= old(lru) && live <= old(live) && evicts == old(evicts) + (|old(lru)| - |lru|)
      ensures SoftReached(old(lru)) && KeptBut(old(Abstract()), Abstract(), old(lru)[|lru|..] + [r])
    {
      ghost var v0 := Abstract();
      EvictFor(r, nb, cb, want - |buf|, c0);
      ghost var v1 := Abstract();
      HeldLive(v1, r);
      LiveRecord(v1, r);
      rc := CheckStore(r, buf, allocs, nb, cb, want, c0);
      KeptStore(v0, v1, Abstract(), r, v0.lru[|lru|..], r.total);
    }

    /**
      `try_evict_until_soft` as `rec_append` calls it: the appending record's
      block fields stay as they were. The four fields are carried across the
      eviction one per level (EvictForBlocks, EvictForShape, EvictForSizes);
      the split exists only to keep each proof small, the program makes one call.
     */
    method EvictFor(r: Record, ghost nb: nat, ghost cb: nat, ghost t0: nat, ghost c0: seq<byte>)
      requires Valid() && r in handles
      requires nb == |r.blocks| && cb == r.capblocks && t0 == r.total && c0 == r.content
      modifies buckets, this`table, this`live, this`prev, this`next, this`lruHead, this`lruTail, this`lru, this`pos
      modifies this`bytesCompleted, this`evicts, live`refcnt, live`inLru
      ensures Valid() && handles == old(handles)
      ensures lru <= old(lru) && live <= old(live) && evicts == old(evicts) + (|old(lru)| - |lru|)
      ensures SoftReached(old(lru)) && KeptBut(old(Abstract()), Abstract(), old(lru)[|lru|..])
      ensures nb == |r.blocks| && cb == r.capblocks && t0 == r.total && c0 == r.content
    {
      EvictForSizes(r, nb, cb, t0);
    }

    /** `EvictFor` with the record's content left to the caller; split off only for proof cost. */
    method EvictForSizes(r: Record, ghost nb: nat, ghost cb: nat, ghost t0: nat)
      requires Valid() && r in handles
      requires nb == |r.blocks| && cb == r.capblocks && t0 == r.total
      modifies buckets, this`table, this`live, this`prev, this`next, this`lruHead, this`lruTail, this`lru, this`pos
      modifies this`bytesCompleted, this`evicts, live`refcnt, live`inLru
      ensures Valid() && handles == old(handles)
      ensures lru <= old(lru) && live <= old(live) && evicts == old(evicts) + (|old(lru)| - |lru|)
      ensures SoftReached(old(lru)) && KeptBut(old(Abstract()), Abstract(), old(lru)[|lru|..])
      ensures nb == |r.blocks| && cb == r.capblocks && t0 == r.total
    {
      EvictForShape(r, nb, cb);
    }

    /** `EvictForSizes` with the record's total left to the caller; split off only for proof cost. */
    method EvictForShape(r: Record, ghost nb: nat, ghost cb: nat)
      requires Valid() && r in handles
      requires nb == |r.blocks| && cb == r.capblocks
      modifies buckets, this`table, this`live, this`prev, this`next, this`lruHead, this`lruTail, this`lru, this`pos
      modifies this`bytesCompleted, this`evicts, live`refcnt, live`inLru
      ensures Valid() && handles == old(handles)
      ensures lru <= old(lru) && live <= old(live) && evicts == old(evicts) + (|old(lru)| - |lru|)
      ensures SoftReached(old(lru)) && KeptBut(old(Abstract()), Abstract(), old(lru)[|lru|..])
      ensures nb == |r.blocks| && cb == r.capblocks
    {
      EvictForBlocks(r, nb);
    }

    /** `EvictForShape` with the record's block capacity left to the caller; split off only for proof cost. */
    method EvictForBlocks(r: Record, ghost nb: nat)
      requires Valid() && r in handles
      requires nb == |r.blocks|
      modifies buckets, this`table, this`live, this`prev, this`next, this`lruHead, this`lruTail, this`lru, this`pos
      modifies this`bytesCompleted, this`evicts, live`refcnt, live`inLru
      ensures Valid() && handles == old(handles)
      ensures lru <= old(lru) && live <= old(live) && evicts == old(evicts) + (|old(lru)| - |lru|)
      ensures SoftReached(old(lru)) && KeptBut(old(Abstract()), Abstract(), old(lru)[|lru|..])
      ensures nb == |r.blocks|
    {
      EvictUntilSoft();
    }

    /** The part of `rec_append` after the eviction: refuse the bytes on a canceled or completed record, else store them. */
    method CheckStore(r: Record, buf: seq<byte>, allocs: nat, ghost nb: nat, ghost cb: nat, ghost want: nat, ghost c0: seq<byte>)
      returns (rc: int)
      requires Valid() && r in handles
      requires nb == |r.blocks| && cb == r.capblocks && want == r.total + |buf| && c0 == r.content
      modifies r`blocks, r`capblocks, r`total, r`content
      ensures Valid() && unchanged(this)
      ensures Abstract() == old(Abstract()) || Abstract() == Appended(old(Abstract()), r, r.total)
      ensures rc == 0 || rc == -1
      ensures rc == 0 <==> (!r.canceled && !r.completed && AllocationsNeeded(nb, cb, want) <= allocs)
      ensures rc == 0 ==> r.content == c0 + buf && r.total == want
      ensures rc != 0 ==> r.content == c0 && r.total + |buf| == want
    {
      if r.canceled || r.completed {
        return -1;
      }
      var ok := Store(r, buf, allocs, nb, cb, want);
      rc := if ok then 0 else -1;
    }

    /** The storage part of `rec_append` on a live record that is not completed. */
    method Store(r: Record, buf: seq<byte>, allocs: nat, ghost nb: nat, ghost cb: nat, ghost want: nat) returns (ok: bool)
      requires Valid() && r in handles && !r.completed
      requires nb == |r.blocks| && cb == r.capblocks && want == r.total + |buf|
      modifies r`blocks, r`capblocks, r`total, r`content
      ensures Valid()
      ensures ok <==> AllocationsNeeded(nb, cb, want) <= allocs
      ensures Abstract() == Appended(old(Abstract()), r, r.total)
      ensures ok ==> r.content == old(r.content) + buf && r.total == old(r.total) + |buf|
      ensures !ok ==> r.content == old(r.content) && r.total == old(r.total)
      ensures r.canceled == old(r.canceled) && r.completed == old(r.completed)
    {
      ghost var v := Abstract();
      HeldLive(v, r);
      assert v.recs[r] == r.State();
      ok := StoreBytes(r, buf, allocs, nb, cb, want);
      AppendGood(v, r, r.total);
    }

    /** The writes of `rec_append` to the record. */
    method StoreBytes(r: Record, buf: seq<byte>, allocs: nat, ghost nb: nat, ghost cb: nat, ghost want: nat) returns (ok: bool)
      requires r in live && r.Valid()
      requires nb == |r.blocks| && cb == r.capblocks && want == r.total + |buf|
      modifies r`blocks, r`capblocks, r`total, r`content
      ensures ok <==> AllocationsNeeded(nb, cb, want) <= allocs
      ensures Abstract() == Appended(old(Abstract()), r, r.total)
      ensures ok ==> r.content == old(r.content) + buf && r.total == old(r.total) + |buf|
      ensures !ok ==> r.content == old(r.content) && r.total == old(r.total)
      ensures r.canceled == old(r.canceled) && r.completed == old(r.completed)
    {
      ghost var s := r.State();
      ok := r.AppendBytes(buf, allocs);
      assert r.State() == s.(total := r.total);
      KeepState(r);
      SameBuckets();
    }

    /** The counts of `rec_finish` for a kept record: `bytes_completed += n` and one more store. */
    method CountStored(n: nat)
      modifies this`bytesCompleted, this`stores
      ensures Abstract() == old(Abstract()).(bytes := old(bytesCompleted) + n)
      ensures stores == old(stores) + 1
    {
      ghost var w := Abstract().(bytes := bytesCompleted + n);
      bytesCompleted, stores := bytesCompleted + n, stores + 1;
      KeepAll();
      SameBuckets();
      assert Abstract() == w;
    }

    /** The flag writes of `rec_finish`. */
    method MarkCompleted(r: Record)
      requires r in live
      modifies r`completed, r`hasFetcher
      ensures Abstract() == old(Abstract()).(recs := old(RecMap(live))[r := old(r.State()).(completed := true, hasFetcher := false)])
      ensures r.completed && !r.hasFetcher && r.total == old(r.total)
    {
      r.Complete();
      KeepState(r);
    }

    /**
      `rec_finish`: the record is completed and loses its fetcher; a record
      kept on completion (every record `rec_create` makes) has its total
      added to `bytes_completed`, goes in front of the LRU list and counts
      as a store.
     */
    method Finish(r: Record)
      requires Valid() && r in handles && !r.completed
      modifies r`completed, r`hasFetcher, r`inLru, this`bytesCompleted, this`stores
      modifies this`lruHead, this`lruTail, this`prev, this`next, this`lru, this`pos
      ensures Valid() && Abstract() == Finished(old(Abstract()), r)
      ensures stores == old(stores) + (if r.keepOnComplete then 1 else 0)
    {
      ghost var v := Abstract();
      LiveRecord(v, r);
      HeadLinked(v);
      FinishSteps(r);
      FinishGood(v, r);
    }

    /** The writes of `rec_finish`, in its order. */
    method FinishSteps(r: Record)
      requires r in live && r in prev && r in next
      requires lruHead != null ==> lruHead in prev
      modifies r`completed, r`hasFetcher, r`inLru, this`bytesCompleted, this`stores
      modifies this`lruHead, this`lruTail, this`prev, this`next, this`lru, this`pos
      ensures Abstract() == Finished(old(Abstract()), r)
      ensures stores == old(stores) + (if r.keepOnComplete then 1 else 0)
    {
      MarkCompleted(r);
      if r.keepOnComplete {
        Keep(r);
      }
    }

    /** The part of `rec_finish` for a record kept on completion. */
    method Keep(r: Record)
      requires r in live && r in prev && r in next
      requires lruHead != null ==> lruHead in prev
      modifies r`inLru, this`bytesCompleted, this`stores
      modifies this`lruHead, this`lruTail, this`prev, this`next, this`lru, this`pos
      ensures Abstract() == Pushed(old(Abstract()).(bytes := old(bytesCompleted) + r.total), r)
      ensures stores == old(stores) + 1
    {
      CountStored(r.total);
      LruPushFront(r);
    }

    /**
      The scan of `cache_acquire`: the key's hash and bucket, and the index
      of the first node of the bucket's chain whose hash and key match; the
      index is the chain's length exactly when the key has no entry.
     */
    method Lookup(key: seq<byte>) returns (h: nat, b: nat, j: nat)
      requires Valid()
      ensures h == Fnv1a64(key) && b == BucketOf(h, nbuckets) && b < buckets.Length
      ensures j <= |buckets[b]|
      ensures key in table <==> j < |buckets[b]|
      ensures j < |buckets[b]| ==> buckets[b][j].key == key && buckets[b][j].rec == table[key]
    {
      h := HashKey(key);
      BucketInRange(h, nbuckets);
      b := BucketOf(h, nbuckets);
      var c := buckets[b];
      j := 0;
      while j < |c| && !(c[j].h == h && c[j].key == key)
        invariant j <= |c|
        invariant forall t :: 0 <= t < j ==> !(c[t].h == h && c[t].key == key)
      {
        j := j + 1;
      }
      ChainsFind(buckets[..], table, nbuckets, key, h, j);
    }

    /** The record side of `cache_acquire` on a live record: one reference more, and maybe its fetcher. */
    method JoinRec(r: Record) returns (granted: bool)
      requires r in live
      modifies r`refcnt, r`hasFetcher
      ensures granted <==> old(!r.completed && !r.canceled && !r.hasFetcher)
      ensures Abstract() == old(Abstract()).(recs := old(RecMap(live))[r := old(r.State()).(
                refcnt := old(r.refcnt) + 1, hasFetcher := old(r.hasFetcher) || granted)])
    {
      granted := r.Join();
      KeepState(r);
    }

    /** The caller's reference on a hit. */
    method AddHandle(r: Record)
      modifies this`handles
      ensures Abstract() == old(Abstract()).(handles := old(handles) + multiset{r})
    {
      ghost var w := Abstract().(handles := handles + multiset{r});
      handles := handles + multiset{r};
      KeepAll();
      SameBuckets();
      assert Abstract() == w;
    }

    /** `__atomic_add_fetch` on `hits` after a hit, on `misses` after a miss; nothing else changes. */
    method Count(hit: bool)
      modifies this`hits, this`misses
      ensures Abstract() == old(Abstract())
      ensures hits == old(hits) + (if hit then 1 else 0) && misses == old(misses) + (if hit then 0 else 1)
    {
      if hit {
        hits := hits + 1;
      } else {
        misses := misses + 1;
      }
      KeepAll();
      SameBuckets();
    }

    /** The hit branch of `cache_acquire` on the entry of `key`, whose record is `r`. */
    method HitSteps(key: seq<byte>, r: Record) returns (isFetcher: bool)
      requires key in table && table[key] == r && r in live
      modifies this`handles, r`refcnt, r`hasFetcher
      ensures Abstract() == AcquiredHit(old(Abstract()), key)
      ensures isFetcher <==> old(!r.completed && !r.canceled && !r.hasFetcher)
    {
      isFetcher := false;
      var granted := JoinRec(r);
      if granted {
        isFetcher := true;
      }
      AddHandle(r);
    }

    /** The new node goes in front of chain `b`. */
    method PushNode(b: nat, nd: Node)
      requires b < buckets.Length
      modifies buckets
      ensures Abstract() == old(Abstract()).(chains := old(buckets[..])[b := [nd] + old(buckets[..])[b]])
    {
      ghost var w := Abstract().(chains := buckets[..][b := [nd] + buckets[b]]);
      buckets[b] := [nd] + buckets[b];
      KeepAll();
      assert buckets[..] == w.chains;
      assert Abstract() == w;
    }

    /** The new record `r` gets the table's entry and the caller's reference. */
    method Admit(r: Record)
      requires r !in live
      modifies this`table, this`live, this`handles
      ensures Abstract() == old(Abstract()).(table := old(table)[r.key := r], live := old(live) + {r},
                handles := old(handles) + multiset{r}, recs := old(RecMap(live))[r := r.State()])
    {
      ghost var w := Abstract().(table := table[r.key := r], live := live + {r},
                handles := handles + multiset{r}, recs := RecMap(live)[r := r.State()]);
      table, live, handles := table[r.key := r], live + {r}, handles + multiset{r};
      Adopt(r);
      SameBuckets();
      assert Abstract() == w;
    }

    /** The new record `r` gets cleared links. */
    method ClearLinks(r: Record)
      modifies this`prev, this`next
      ensures Abstract() == old(Abstract()).(prev := old(prev)[r := null], next := old(next)[r := null])
    {
      ghost var w := Abstract().(prev := prev[r := null], next := next[r := null]);
      prev, next := prev[r := null], next[r := null];
      KeepAll();
      SameBuckets();
      assert Abstract() == w;
    }

    /**
      The miss branch of `cache_acquire`: a new record for `key` and a node
      for it in front of bucket `b`; the caller is its fetcher.
     */
    method MissSteps(key: seq<byte>, b: nat) returns (r: Record)
      requires 0 < nbuckets < TWO64 && buckets.Length == nbuckets && b == BucketOf(Fnv1a64(key), nbuckets)
      modifies buckets, this`table, this`live, this`handles, this`prev, this`next
      ensures fresh(r) && r.key == key && r.keepOnComplete && r !in old(live)
      ensures Abstract() == AcquiredMiss(old(Abstract()), r)
    {
      r := new Record(key);
      var granted := r.Join();
      assert r.State() == RecState(false, false, true, 2, false, 0, true);
      BucketInRange(r.h, nbuckets);
      Publish(r, b);
    }

    /** The writes of the miss branch that make the new record reachable. */
    method Publish(r: Record, b: nat)
      requires r !in live && b < buckets.Length
      modifies buckets, this`table, this`live, this`handles, this`prev, this`next
      ensures Abstract() == old(Abstract()).(chains := old(buckets[..])[b := [Node(r.h, r.key, r)] + old(buckets[..])[b]],
                table := old(table)[r.key := r], live := old(live) + {r},
                handles := old(handles) + multiset{r}, recs := old(RecMap(live))[r := r.State()],
                prev := old(prev)[r := null], next := old(next)[r := null])
    {
      PushNode(b, Node(r.h, r.key, r));
      Admit(r);
      ClearLinks(r);
    }

    /**
      `cache_acquire`: the record of `key`, found in its bucket or created
      there with a new entry; the caller holds a reference to it and is its
      fetcher on a miss, or on a hit when the record is neither completed
      nor canceled and had no fetcher.
     */
    method Acquire(key: seq<byte>) returns (r: Record, isFetcher: bool)
      requires Valid()
      modifies buckets, this`table, this`live, this`handles, this`prev, this`next, this`hits, this`misses
      modifies live`refcnt, live`hasFetcher
      ensures Valid() && r in handles
      ensures old(key in table) ==> r == old(table[key]) && Abstract() == AcquiredHit(old(Abstract()), key)
      ensures old(key in table) ==> (isFetcher <==> old(!table[key].completed && !table[key].canceled && !table[key].hasFetcher))
      ensures old(key !in table) ==> fresh(r) && r.key == key && Abstract() == AcquiredMiss(old(Abstract()), r) && isFetcher
      ensures hits == old(hits) + (if old(key in table) then 1 else 0)
      ensures misses == old(misses) + (if old(key in table) then 0 else 1)
    {
      ghost var v := Abstract();
      assert InitGuard(nbuckets);
      var hit;
      r, isFetcher, hit := AcquireSteps(key);
      Count(hit);
      if hit {
        AcquireHitGood(v, key);
      } else {
        AcquireMissGood(v, r);
      }
    }

    /** The steps of `cache_acquire` on the cache and the record: the scan, then the hit or the miss branch. */
    method AcquireSteps(key: seq<byte>) returns (r: Record, isFetcher: bool, hit: bool)
      requires Valid()
      modifies buckets, this`table, this`live, this`handles, this`prev, this`next
      modifies live`refcnt, live`hasFetcher
      ensures hit <==> old(key in table)
      ensures hit ==> r == old(table[key]) && Abstract() == AcquiredHit(old(Abstract()), key)
      ensures hit ==> (isFetcher <==> old(!table[key].completed && !table[key].canceled && !table[key].hasFetcher))
      ensures !hit ==> fresh(r) && r.key == key && r.keepOnComplete && r !in old(live)
      ensures !hit ==> Abstract() == AcquiredMiss(old(Abstract()), r) && isFetcher
    {
      ghost var v := Abstract();
      var h, b, j := Lookup(key);
      hit := j < |buckets[b]|;
      if hit {
        r := buckets[b][j].rec;
        LiveRecord(v, r);
        isFetcher := HitSteps(key, r);
      } else {
        assert InitGuard(nbuckets);
        r := MissSteps(key, b);
        isFetcher := true;
      }
    }
  }
}
