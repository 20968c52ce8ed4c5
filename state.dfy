/**
  The whole of a `cache_t` of 3/cache.c, with the records it reaches, read
  at one moment as a value: the bucket chains and the key map they stand
  for, the records alive (not freed) and the references callers hold on
  them, each record's fields, the LRU list and its links, and
  `bytes_completed`. Good is the invariant the cache keeps between calls;
  each operation of the cache is a function on views here, and a lemma
  shows that it keeps Good.
 */
module CacheState {
  import opened Bits
  import opened Hashing
  import opened Records
  import opened Chains
  import opened Lru

  datatype View = View(
    chains: seq<seq<Node>>, table: map<seq<byte>, Record>, n: nat,
    live: set<Record>, handles: multiset<Record>,
    recs: map<Record, RecState>, prev: map<Record, Record?>, next: map<Record, Record?>,
    lru: seq<Record>, pos: map<Record, nat>, head: Record?, tail: Record?,
    bytes: nat)

  /** A second write to a key of a map overrides the first. */
  lemma Overwrite<K, V>(m: map<K, V>, k: K, a: V, b: V)
    ensures m[k := a][k := b] == m[k := b]
  {
  }

  /** Writing back a key's own value leaves a map unchanged. */
  lemma WriteBack<K, V>(m: map<K, V>, k: K)
    requires k in m
    ensures m[k := m[k]] == m
  {
  }

  /** The committed bytes of the records of `l`, as `bytes_completed` counts them. */
  ghost function Bytes(l: seq<Record>, recs: map<Record, RecState>): nat
  {
    if l == [] then 0 else (if l[0] in recs then recs[l[0]].total else 0) + Bytes(l[1..], recs)
  }

  /** Bytes reads only the totals of the records of `l`. */
  lemma {:induction false} BytesFrame(l: seq<Record>, recs: map<Record, RecState>, recs': map<Record, RecState>)
    requires forall a :: 0 <= a < |l| ==> (l[a] in recs <==> l[a] in recs')
    requires forall a :: 0 <= a < |l| && l[a] in recs ==> recs'[l[a]].total == recs[l[a]].total
    ensures Bytes(l, recs') == Bytes(l, recs)
  {
    if l != [] {
      forall a | 0 <= a < |l[1..]|
        ensures (l[1..][a] in recs <==> l[1..][a] in recs')
        ensures l[1..][a] in recs ==> recs'[l[1..][a]].total == recs[l[1..][a]].total
      {
        assert l[1..][a] == l[a + 1];
      }
      BytesFrame(l[1..], recs, recs');
    }
  }

  /** Changing one record's state, keeping its total or off the list, keeps Bytes. */
  lemma BytesUpdate(l: seq<Record>, recs: map<Record, RecState>, r: Record, s: RecState)
    requires (r in recs && s.total == recs[r].total) || (forall a :: 0 <= a < |l| ==> l[a] != r)
    ensures Bytes(l, recs[r := s]) == Bytes(l, recs)
  {
    BytesFrame(l, recs, recs[r := s]);
  }

  /** Forgetting a record off the list keeps Bytes. */
  lemma BytesRemove(l: seq<Record>, recs: map<Record, RecState>, r: Record)
    requires forall a :: 0 <= a < |l| ==> l[a] != r
    ensures Bytes(l, recs - {r}) == Bytes(l, recs)
  {
    BytesFrame(l, recs, recs - {r});
  }

  /** Taking the element at position `i` out of `l` takes its total out of Bytes. */
  lemma {:induction false} BytesWithout(l: seq<Record>, recs: map<Record, RecState>, i: nat)
    requires i < |l| && l[i] in recs
    ensures Bytes(Without(l, i), recs) + recs[l[i]].total == Bytes(l, recs)
  {
    if i > 0 {
      assert Without(l, i)[1..] == Without(l[1..], i - 1);
      BytesWithout(l[1..], recs, i - 1);
    } else {
      assert Without(l, i) == l[1..];
    }
  }

  /** Putting `r` in front of `l` adds its total to Bytes. */
  lemma BytesCons(l: seq<Record>, recs: map<Record, RecState>, r: Record)
    requires r in recs
    ensures Bytes([r] + l, recs) == recs[r].total + Bytes(l, recs)
  {
    assert ([r] + l)[1..] == l;
  }

  /**
    What a record's fields say about it, given whether it has a table entry,
    how many references callers hold on it and whether it is in the LRU list.
   */
  ghost predicate RecOK(x: Record, s: RecState, inTable: bool, refs: nat, listed: bool)
  {
    && s.stored && x.keepOnComplete
    && s.refcnt == (if inTable then 1 else 0) + refs
    && s.refcnt >= 1
    && (s.hasFetcher <==> !s.completed && !s.canceled)
    && (s.inLru <==> listed)
    && (s.inLru <==> inTable && s.completed)
    && (inTable || s.completed)
  }

  /** The bucket chains hold exactly the entries of `table`, all of live records. */
  ghost predicate TableOK(v: View)
  {
    && ChainsOK(v.chains, v.table, v.n)
    && (forall k :: k in v.table ==> v.table[k] in v.live)
  }

  /** The LRU links of the live records form the list `lru`. */
  ghost predicate LinkedOK(v: View)
  {
    && v.prev.Keys == v.live && v.next.Keys == v.live
    && LinksOK(v.lru, v.pos, v.head, v.tail, v.prev, v.next)
  }

  /** The LRU list is linked, and `bytes_completed` is the sum of the totals of its records. */
  ghost predicate ListOK(v: View)
  {
    LinkedOK(v) && v.bytes == Bytes(v.lru, v.recs)
  }

  /**
    Every reference a caller holds is on a live record, and every live
    record is RecOK, given the table and the members of the LRU list.
   */
  ghost predicate RecsOK(live: set<Record>, handles: multiset<Record>, recs: map<Record, RecState>,
                         table: map<seq<byte>, Record>, listed: set<Record>)
  {
    && recs.Keys == live
    && (forall x :: x in handles ==> x in live)
    && (forall x :: x in live ==> RecOK(x, recs[x], InTable(table, x), handles[x], x in listed))
  }

  /**
    The invariant of the cache:
    - the bucket chains hold exactly the entries of `table`;
    - every record the table or a caller refers to is alive (not freed);
    - the LRU links form the list `lru`, the records with `in_lru` set;
    - `bytes_completed` is the sum of the totals of the records in the LRU;
    - a record's reference count is one for its table entry plus one per
      outstanding `cache_acquire`, and never zero while it is alive;
    - a record has a fetcher exactly while it is neither completed nor
      canceled, sits in the LRU exactly while it is completed and still in
      the table, and leaves the table only once completed.
   */
  ghost predicate Good(v: View)
  {
    TableOK(v) && ListOK(v) && RecsOK(v.live, v.handles, v.recs, v.table, v.pos.Keys)
  }

  /** What Good says about one live record. */
  lemma LiveRecord(v: View, x: Record)
    requires Good(v) && x in v.live
    ensures RecOK(x, v.recs[x], InTable(v.table, x), v.handles[x], x in v.pos)
    ensures x in v.recs && x in v.prev && x in v.next
  {
  }

  /** The head of a linked list has links. */
  lemma HeadLinked(v: View)
    requires LinkedOK(v)
    ensures v.head != null ==> v.head in v.prev && v.head in v.next
  {
  }

  /** A member of the LRU list is alive, completed and in the table. */
  lemma Listed(v: View, x: Record)
    requires Good(v) && x in v.pos
    ensures x in v.live && InTable(v.table, x)
    ensures v.recs[x].completed && v.recs[x].inLru
    ensures v.recs[x].refcnt == 1 + v.handles[x]
  {
    Neighbours(v.lru, v.pos, v.head, v.tail, v.prev, v.next, x);
  }

  /** A record without a position is nowhere in the LRU list. */
  lemma OffList(v: View, x: Record)
    requires LinkedOK(v) && x !in v.pos
    ensures forall a :: 0 <= a < |v.lru| ==> v.lru[a] != x
  {
    forall a | 0 <= a < |v.lru|
      ensures v.lru[a] != x
    {
      assert v.lru[a] in v.pos;
    }
  }

  /** A live record that is not completed is not in the LRU list. */
  lemma Unlisted(v: View, x: Record)
    requires Good(v) && x in v.live && !v.recs[x].completed
    ensures x !in v.pos
    ensures forall a :: 0 <= a < |v.lru| ==> v.lru[a] != x
  {
    LiveRecord(v, x);
    OffList(v, x);
  }

  /** A record that is not alive is not in the LRU list. */
  lemma Dead(v: View, x: Record)
    requires Good(v) && x !in v.live
    ensures x !in v.pos
    ensures forall a :: 0 <= a < |v.lru| ==> v.lru[a] != x
  {
    if x in v.pos {
      Listed(v, x);
    }
    OffList(v, x);
  }

  /** `cache_init` with `nbuckets` buckets: no entries, no records, an empty LRU. */
  ghost function Empty(n: nat): View
  {
    View(seq(n, _ => []), map[], n, {}, multiset{}, map[], map[], map[], [], map[], null, null, 0)
  }

  lemma EmptyGood(n: nat)
    requires InitGuard(n)
    ensures Good(Empty(n))
  {
  }

  /** `rec_cancel`: the record is canceled and loses its fetcher. */
  ghost function Canceled(v: View, r: Record): View
    requires r in v.recs
  {
    v.(recs := v.recs[r := v.recs[r].(canceled := true, hasFetcher := false)])
  }

  /** A record the caller holds a reference to has not been freed. */
  lemma HeldLive(v: View, r: Record)
    requires Good(v) && r in v.handles
    ensures r in v.live
  {
  }

  lemma CancelGood(v: View, r: Record)
    requires Good(v) && r in v.handles
    ensures Good(Canceled(v, r))
  {
    LiveRecord(v, r);
    BytesUpdate(v.lru, v.recs, r, Canceled(v, r).recs[r]);
    CancelRecs(v.live, v.handles, v.recs, v.table, v.pos.Keys, r);
  }

  lemma CancelRecs(live: set<Record>, handles: multiset<Record>, recs: map<Record, RecState>,
                         table: map<seq<byte>, Record>, listed: set<Record>, r: Record)
    requires RecsOK(live, handles, recs, table, listed) && r in handles
    ensures RecsOK(live, handles, recs[r := recs[r].(canceled := true, hasFetcher := false)], table, listed)
  {
    var recs' := recs[r := recs[r].(canceled := true, hasFetcher := false)];
    forall x | x in live
      ensures RecOK(x, recs'[x], InTable(table, x), handles[x], x in listed)
    {
      if x != r {
        assert recs'[x] == recs[x];
      }
    }
  }

  /**
    The storage part of `rec_append` for a record that is neither completed
    nor canceled: its total grows to `total`, and it still holds its stream.
   */
  ghost function Appended(v: View, r: Record, total: nat): View
    requires r in v.recs
  {
    v.(recs := v.recs[r := v.recs[r].(total := total)])
  }

  lemma AppendGood(v: View, r: Record, total: nat)
    requires Good(v) && r in v.live && !v.recs[r].completed
    ensures Good(Appended(v, r, total))
  {
    Unlisted(v, r);
    BytesUpdate(v.lru, v.recs, r, Appended(v, r, total).recs[r]);
    AppendRecs(v.live, v.handles, v.recs, v.table, v.pos.Keys, r, total);
  }

  lemma AppendRecs(live: set<Record>, handles: multiset<Record>, recs: map<Record, RecState>,
                         table: map<seq<byte>, Record>, listed: set<Record>, r: Record, total: nat)
    requires RecsOK(live, handles, recs, table, listed) && r in live
    ensures RecsOK(live, handles, recs[r := recs[r].(total := total)], table, listed)
  {
    var recs' := recs[r := recs[r].(total := total)];
    forall x | x in live
      ensures RecOK(x, recs'[x], InTable(table, x), handles[x], x in listed)
    {
      if x != r {
        assert recs'[x] == recs[x];
      }
    }
  }

  /**
    A hit of `cache_acquire` on key `k`: the caller gets a reference, and
    becomes the fetcher when the record is incomplete, uncanceled and has
    none.
   */
  ghost function AcquiredHit(v: View, k: seq<byte>): View
    requires k in v.table && v.table[k] in v.recs
  {
    var r := v.table[k];
    var s := v.recs[r];
    v.(handles := v.handles + multiset{r},
       recs := v.recs[r := s.(refcnt := s.refcnt + 1, hasFetcher := s.hasFetcher || (!s.completed && !s.canceled))])
  }

  lemma AcquireHitGood(v: View, k: seq<byte>)
    requires Good(v) && k in v.table
    ensures Good(AcquiredHit(v, k))
  {
    LiveRecord(v, v.table[k]);
    BytesUpdate(v.lru, v.recs, v.table[k], AcquiredHit(v, k).recs[v.table[k]]);
    AcquireHitRecs(v.live, v.handles, v.recs, v.table, v.pos.Keys, v.table[k]);
  }

  /** The record's count grows with the caller's reference; its fetcher flag keeps its meaning. */
  lemma AcquireHitRecs(live: set<Record>, handles: multiset<Record>, recs: map<Record, RecState>,
                         table: map<seq<byte>, Record>, listed: set<Record>, r: Record)
    requires RecsOK(live, handles, recs, table, listed) && r in live
    ensures var s := recs[r];
      RecsOK(live, handles + multiset{r},
             recs[r := s.(refcnt := s.refcnt + 1, hasFetcher := s.hasFetcher || (!s.completed && !s.canceled))],
             table, listed)
  {
    var s := recs[r];
    var recs' := recs[r := s.(refcnt := s.refcnt + 1, hasFetcher := s.hasFetcher || (!s.completed && !s.canceled))];
    var handles' := handles + multiset{r};
    forall x | x in live
      ensures RecOK(x, recs'[x], InTable(table, x), handles'[x], x in listed)
    {
      if x != r {
        assert recs'[x] == recs[x] && handles'[x] == handles[x];
      }
    }
  }

  /**
    A miss of `cache_acquire`: a new record `r` for its key, with the
    table's reference and the caller's, whose caller is its fetcher, and a
    node for it at the head of its bucket.
   */
  ghost function AcquiredMiss(v: View, r: Record): View
    requires 0 < v.n < TWO64 && |v.chains| == v.n
  {
    BucketInRange(r.h, v.n);
    var b := BucketOf(r.h, v.n);
    v.(chains := v.chains[b := [Node(r.h, r.key, r)] + v.chains[b]],
       table := v.table[r.key := r],
       live := v.live + {r}, handles := v.handles + multiset{r},
       recs := v.recs[r := RecState(false, false, true, 2, false, 0, true)],
       prev := v.prev[r := null], next := v.next[r := null])
  }

  lemma AcquireMissGood(v: View, r: Record)
    requires Good(v) && r !in v.live && r.key !in v.table && r.keepOnComplete
    ensures Good(AcquiredMiss(v, r))
  {
    Dead(v, r);
    AcquireMissTable(v, r);
    AcquireMissList(v, r);
    AcquireMissRecs(v.live, v.handles, v.recs, v.table, v.pos.Keys, r);
  }

  lemma AcquireMissTable(v: View, r: Record)
    requires TableOK(v) && r.key !in v.table
    ensures TableOK(AcquiredMiss(v, r))
  {
    BucketInRange(r.h, v.n);
    ChainsInsert(v.chains, v.table, v.n, r);
  }

  lemma AcquireMissList(v: View, r: Record)
    requires ListOK(v) && r !in v.live && r !in v.pos && 0 < v.n < TWO64 && |v.chains| == v.n
    ensures ListOK(AcquiredMiss(v, r))
  {
    var v' := AcquiredMiss(v, r);
    OffList(v, r);
    LinksAdd(v.lru, v.pos, v.head, v.tail, v.prev, v.next, r);
    BytesUpdate(v.lru, v.recs, r, v'.recs[r]);
  }

  /** A new record with the table's reference and the caller's joins the live ones. */
  lemma AcquireMissRecs(live: set<Record>, handles: multiset<Record>, recs: map<Record, RecState>,
                         table: map<seq<byte>, Record>, listed: set<Record>, r: Record)
    requires RecsOK(live, handles, recs, table, listed)
    requires r !in live && r.key !in table && r.keepOnComplete && r !in listed
    ensures RecsOK(live + {r}, handles + multiset{r}, recs[r := RecState(false, false, true, 2, false, 0, true)],
                   table[r.key := r], listed)
  {
    var recs', handles', table' := recs[r := RecState(false, false, true, 2, false, 0, true)], handles + multiset{r}, table[r.key := r];
    assert handles[r] == 0;
    forall x | x in live + {r}
      ensures RecOK(x, recs'[x], InTable(table', x), handles'[x], x in listed)
    {
      if x != r {
        assert recs'[x] == recs[x] && handles'[x] == handles[x];
        assert InTable(table', x) == InTable(table, x);
      }
    }
  }

  /**
    One reference on `r` is dropped (`atomic_fetch_sub(&r->refcnt, 1)`),
    and `r` is freed (`rec_free`) when it was the last one.
   */
  ghost function Dropped(v: View, r: Record): View
    requires r in v.recs
  {
    var s := v.recs[r];
    if s.refcnt == 1 then
      v.(live := v.live - {r}, recs := v.recs - {r}, prev := v.prev - {r}, next := v.next - {r})
    else
      v.(recs := v.recs[r := s.(refcnt := s.refcnt - 1)])
  }

  /**
    `cache_release`: the caller's reference is dropped, and the record is
    freed when it was the last one.
   */
  ghost function Released(v: View, r: Record): View
    requires r in v.recs
  {
    Dropped(v.(handles := v.handles - multiset{r}), r)
  }

  lemma ReleaseGood(v: View, r: Record)
    requires Good(v) && r in v.handles
    ensures Good(Released(v, r))
  {
    LiveRecord(v, r);
    if v.recs[r].refcnt == 1 {
      ReleaseLast(v, r);
    } else {
      ReleaseKept(v, r);
    }
  }

  /** A release that leaves other references: only `r`'s count changes. */
  lemma ReleaseKept(v: View, r: Record)
    requires Good(v) && r in v.handles && r in v.recs && v.recs[r].refcnt != 1
    ensures Good(Released(v, r))
  {
    BytesUpdate(v.lru, v.recs, r, Released(v, r).recs[r]);
    ReleaseRecs(v.live, v.handles, v.recs, v.table, v.pos.Keys, r);
  }

  /** The last reference goes: the record had no table entry, and is freed. */
  lemma ReleaseLast(v: View, r: Record)
    requires Good(v) && r in v.handles && v.recs[r].refcnt == 1
    ensures Good(Released(v, r))
  {
    var v' := Released(v, r);
    LiveRecord(v, r);
    assert !InTable(v.table, r) && r !in v.pos;
    OffList(v, r);
    LinksDrop(v.lru, v.pos, v.head, v.tail, v.prev, v.next, r);
    BytesRemove(v.lru, v.recs, r);
    ReleaseLastRecs(v.live, v.handles, v.recs, v.table, v.pos.Keys, r);
  }

  /** The last reference was the caller's: the record leaves no reference behind. */
  lemma ReleaseLastRecs(live: set<Record>, handles: multiset<Record>, recs: map<Record, RecState>,
                         table: map<seq<byte>, Record>, listed: set<Record>, r: Record)
    requires RecsOK(live, handles, recs, table, listed) && r in handles && recs[r].refcnt == 1
    ensures RecsOK(live - {r}, handles - multiset{r}, recs - {r}, table, listed)
  {
    var handles' := handles - multiset{r};
    assert handles'[r] == 0;
    forall x | x in live - {r}
      ensures RecOK(x, (recs - {r})[x], InTable(table, x), handles'[x], x in listed)
    {
      assert (recs - {r})[x] == recs[x] && handles'[x] == handles[x];
    }
  }

  lemma ReleaseRecs(live: set<Record>, handles: multiset<Record>, recs: map<Record, RecState>,
                         table: map<seq<byte>, Record>, listed: set<Record>, r: Record)
    requires RecsOK(live, handles, recs, table, listed) && r in handles && recs[r].refcnt != 1
    ensures RecsOK(live, handles - multiset{r}, recs[r := recs[r].(refcnt := recs[r].refcnt - 1)], table, listed)
  {
    var recs', handles' := recs[r := recs[r].(refcnt := recs[r].refcnt - 1)], handles - multiset{r};
    forall x | x in live
      ensures RecOK(x, recs'[x], InTable(table, x), handles'[x], x in listed)
    {
      if x != r {
        assert recs'[x] == recs[x] && handles'[x] == handles[x];
      }
    }
  }

  /** `lru_remove`: a record with `in_lru` set is unlinked from the LRU list; any other is left alone. */
  ghost function Unlinked(v: View, r: Record): View
    requires r in v.recs && r in v.prev && r in v.next
    requires v.recs[r].inLru ==> r in v.pos && v.pos[r] < |v.lru|
  {
    if !v.recs[r].inLru then v
    else
      var p, n := v.prev[r], v.next[r];
      v.(lru := Without(v.lru, v.pos[r]), pos := RemovePos(v.pos, r, v.pos[r]),
         head := if p == null then n else v.head, tail := if n == null then p else v.tail,
         prev := UnlinkPrev(v.prev, v.next, r), next := UnlinkNext(v.prev, v.next, r),
         recs := v.recs[r := v.recs[r].(inLru := false)])
  }

  /** `lru_push_front`: the record goes in front of the LRU list. */
  ghost function Pushed(v: View, r: Record): View
    requires r in v.recs && r in v.prev && r in v.next
  {
    v.(lru := [r] + v.lru, pos := PushPos(v.pos, r), head := r,
       tail := if v.head == null then r else v.tail,
       prev := LinkPrev(v.prev, r, v.head), next := LinkNext(v.next, r, v.head),
       recs := v.recs[r := v.recs[r].(inLru := true)])
  }

  /** Unlinking a member of the list keeps the links sound and takes its bytes out of the sum. */
  lemma UnlinkedOK(v: View, r: Record)
    requires LinkedOK(v) && r in v.pos && r in v.recs && v.recs[r].inLru
    ensures r in v.prev && r in v.next && v.pos[r] < |v.lru|
    ensures var u := Unlinked(v, r);
      && LinkedOK(u)
      && Bytes(u.lru, u.recs) + v.recs[r].total == Bytes(v.lru, v.recs)
      && u.pos.Keys == v.pos.Keys - {r}
      && u.lru == Without(v.lru, v.pos[r])
      && u.recs == v.recs[r := v.recs[r].(inLru := false)]
  {
    Neighbours(v.lru, v.pos, v.head, v.tail, v.prev, v.next, r);
    UnlinkKeepsLinks(v.lru, v.pos, v.head, v.tail, v.prev, v.next, r);
    var u := Unlinked(v, r);
    BytesWithout(v.lru, v.recs, v.pos[r]);
    forall a | 0 <= a < |u.lru|
      ensures u.lru[a] != r
    {
      assert u.lru[a] in u.pos;
    }
    BytesUpdate(u.lru, v.recs, r, u.recs[r]);
  }

  /** Pushing a non-member in front keeps the links sound and adds its bytes to the sum. */
  lemma PushedOK(v: View, r: Record)
    requires LinkedOK(v) && r in v.live && r in v.recs && r !in v.pos
    ensures var u := Pushed(v, r);
      && LinkedOK(u)
      && Bytes(u.lru, u.recs) == Bytes(v.lru, v.recs) + v.recs[r].total
      && u.pos.Keys == v.pos.Keys + {r}
      && u.lru == [r] + v.lru
      && u.recs == v.recs[r := v.recs[r].(inLru := true)]
  {
    var u := Pushed(v, r);
    LinkKeepsLinks(v.lru, v.pos, v.head, v.tail, v.prev, v.next, r);
    forall a | 0 <= a < |v.lru|
      ensures v.lru[a] != r
    {
      assert v.lru[a] in v.pos;
    }
    BytesUpdate(v.lru, v.recs, r, u.recs[r]);
    BytesCons(v.lru, u.recs, r);
  }

  /** `rec_touch_lru`: a record in the LRU list moves to its front. */
  ghost function Touched(v: View, r: Record): View
    requires r in v.recs && r in v.prev && r in v.next
    requires v.recs[r].inLru ==> r in v.pos && v.pos[r] < |v.lru|
  {
    if v.recs[r].inLru then Pushed(Unlinked(v, r), r) else v
  }

  lemma TouchGood(v: View, r: Record)
    requires Good(v) && r in v.live
    ensures Good(Touched(v, r))
    ensures Touched(v, r).lru == if r in v.pos then [r] + Without(v.lru, v.pos[r]) else v.lru
  {
    LiveRecord(v, r);
    if r in v.pos {
      Listed(v, r);
      TouchList(v, r);
    }
  }

  /** Moving a member to the front keeps the links, the sum, the states and the set of members. */
  lemma TouchList(v: View, r: Record)
    requires LinkedOK(v) && r in v.pos && r in v.live && r in v.recs && v.recs[r].inLru
    ensures Touched(v, r).pos.Keys == v.pos.Keys && Touched(v, r).recs == v.recs
    ensures LinkedOK(Touched(v, r)) && Bytes(Touched(v, r).lru, v.recs) == Bytes(v.lru, v.recs)
    ensures Touched(v, r).lru == [r] + Without(v.lru, v.pos[r])
  {
    UnlinkedOK(v, r);
    var u := Unlinked(v, r);
    PushedOK(u, r);
    Overwrite(v.recs, r, v.recs[r].(inLru := false), v.recs[r]);
    WriteBack(v.recs, r);
  }

  /**
    `rec_finish`: the record is completed and loses its fetcher; being kept
    on completion, its bytes are counted and it goes in front of the LRU.
   */
  ghost function Finished(v: View, r: Record): View
    requires r in v.recs && r in v.prev && r in v.next
  {
    var s := v.recs[r];
    var v1 := v.(recs := v.recs[r := s.(completed := true, hasFetcher := false)]);
    if r.keepOnComplete then Pushed(v1, r).(bytes := v.bytes + s.total) else v1
  }

  lemma FinishGood(v: View, r: Record)
    requires Good(v) && r in v.handles && !v.recs[r].completed
    ensures Good(Finished(v, r))
  {
    LiveRecord(v, r);
    Unlisted(v, r);
    var s := v.recs[r];
    var v1 := v.(recs := v.recs[r := s.(completed := true, hasFetcher := false)]);
    BytesUpdate(v.lru, v.recs, r, v1.recs[r]);
    PushedOK(v1, r);
    Overwrite(v.recs, r, v1.recs[r], s.(completed := true, hasFetcher := false, inLru := true));
    FinishRecs(v.live, v.handles, v.recs, v.table, v.pos.Keys, r);
  }

  /** The completed record, in the table, joins the members of the LRU list. */
  lemma FinishRecs(live: set<Record>, handles: multiset<Record>, recs: map<Record, RecState>,
                         table: map<seq<byte>, Record>, listed: set<Record>, r: Record)
    requires RecsOK(live, handles, recs, table, listed) && r in handles && !recs[r].completed && r !in listed
    ensures RecsOK(live, handles, recs[r := recs[r].(completed := true, hasFetcher := false, inLru := true)],
                   table, listed + {r})
  {
    var recs' := recs[r := recs[r].(completed := true, hasFetcher := false, inLru := true)];
    forall x | x in live
      ensures RecOK(x, recs'[x], InTable(table, x), handles[x], x in listed + {r})
    {
      if x != r {
        assert recs'[x] == recs[x];
      }
    }
  }
}
