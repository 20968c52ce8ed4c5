/**
  `try_evict_until_soft` of 3/cache.c on views: each pass of its loop takes
  the LRU tail out of the list, the byte count and the table, and drops the
  table's reference; the loop runs while the count is above the soft limit
  and the list is not empty, and stops right after a pass frees its record.
 */
module Eviction {
  import opened Bits
  import opened Hashing
  import opened Records
  import opened Chains
  import opened Lru
  import opened CacheState

  /** The tail of a non-empty LRU list is its last member, completed and in the table. */
  lemma TailListed(v: View)
    requires Good(v) && v.tail != null
    ensures v.lru != [] && v.tail == v.lru[|v.lru| - 1]
    ensures v.tail in v.pos && v.pos[v.tail] == |v.lru| - 1
    ensures v.tail in v.live && v.tail in v.recs && v.tail in v.prev && v.tail in v.next
    ensures InTable(v.table, v.tail) && v.recs[v.tail].completed && v.recs[v.tail].inLru
    ensures v.recs[v.tail].refcnt == 1 + v.handles[v.tail]
  {
    Listed(v, v.tail);
  }

  /** Without its last element, a list is its prefix. */
  lemma WithoutLast(l: seq<Record>)
    requires l != []
    ensures Without(l, |l| - 1) == l[..|l| - 1]
  {
  }

  /** Node `j` of chain `b` leaves its chain and key `k` the table. */
  ghost function Unchained(v: View, b: nat, j: nat, k: seq<byte>): View
    requires b < |v.chains| && j < |v.chains[b]|
  {
    v.(chains := v.chains[b := v.chains[b][..j] + v.chains[b][j + 1..]], table := v.table - {k})
  }

  /** `r` is a member of the LRU list whose neighbours have links, and its total is counted. */
  ghost predicate Unlistable(v: View, r: Record)
  {
    && r in v.recs && r in v.prev && r in v.next && v.recs[r].inLru
    && r in v.pos && v.pos[r] < |v.lru|
    && (v.prev[r] != null ==> v.prev[r] in v.next)
    && (v.next[r] != null ==> v.next[r] in v.prev)
    && v.recs[r].total <= v.bytes
  }

  /**
    One pass of the loop on its tail `r`, in the order its body writes: `r`
    is unlinked from the LRU list (`lru_remove`), its total leaves
    `bytes_completed`, node `j` of bucket `b` leaves the chain and its key
    the table, and the table's reference is dropped, freeing `r` when it
    was the last one.
   */
  ghost function Pass(v: View, r: Record, b: nat, j: nat): View
    requires Unlistable(v, r) && b < |v.chains| && j < |v.chains[b]|
  {
    Dropped(Unchained(Unlinked(v, r).(bytes := v.bytes - v.recs[r].total), b, j, r.key), r)
  }

  /** Pass unfolded, for callers that write its steps one by one. */
  lemma PassSteps(v: View, r: Record, b: nat, j: nat)
    requires Unlistable(v, r) && b < |v.chains| && j < |v.chains[b]|
    ensures Pass(v, r, b, j) == Dropped(Unchained(Unlinked(v, r).(bytes := v.bytes - v.recs[r].total), b, j, r.key), r)
  {
  }

  /** The pass on the tail, whose node is the first of its bucket to hold it. */
  ghost function EvictedOne(v: View): View
    requires Good(v) && v.tail != null
  {
    var r: Record := v.tail;
    TailListed(v);
    UnlinkedOK(v, r);
    BucketInRange(r.h, v.n);
    var b := BucketOf(r.h, v.n);
    var j := FindRec(v.chains[b], r);
    ChainsHoldRecord(v.chains, v.table, v.n, r, j);
    Pass(v, r, b, j)
  }

  /** The facts a pass on the tail needs, and the pass itself in terms of Pass. */
  lemma EvictedIsPass(v: View)
    requires Good(v) && v.tail != null
    ensures var r: Record := v.tail; var b := BucketOf(r.h, v.n);
      && Unlistable(v, r) && v.n < TWO64
      && b < |v.chains| && FindRec(v.chains[b], r) < |v.chains[b]|
      && EvictedOne(v) == Pass(v, r, b, FindRec(v.chains[b], r))
  {
    var r: Record := v.tail;
    TailListed(v);
    UnlinkedOK(v, r);
    Neighbours(v.lru, v.pos, v.head, v.tail, v.prev, v.next, r);
    BucketInRange(r.h, v.n);
    ChainsHoldRecord(v.chains, v.table, v.n, r, FindRec(v.chains[BucketOf(r.h, v.n)], r));
  }

  /**
    The table half of a pass, on the parts it touches: with node `j` of
    bucket `b` (the one holding `r`) and `r`'s key gone, the chains still
    agree with the table, whose records stay live even when `r` is freed.
   */
  lemma EvictTableParts(cs: seq<seq<Node>>, table: map<seq<byte>, Record>, n: nat,
                        live: set<Record>, live': set<Record>, r: Record, b: nat, j: nat)
    requires ChainsOK(cs, table, n) && (forall k :: k in table ==> table[k] in live)
    requires b < |cs| && j < |cs[b]| && cs[b][j].key == r.key
    requires live' == live || live' == live - {r}
    ensures ChainsOK(cs[b := cs[b][..j] + cs[b][j + 1..]], table - {r.key}, n)
    ensures forall k :: k in table - {r.key} ==> (table - {r.key})[k] in live'
  {
    ChainsRemove(cs, table, n, b, j);
    forall k | k in table - {r.key}
      ensures (table - {r.key})[k] in live'
    {
      assert table[k].key == k;
    }
  }

  /** The table half of a pass: only node `j` of bucket `b` and the key change, and `r` at most leaves the live set. */
  lemma PassTable(v: View, r: Record, b: nat, j: nat)
    requires Unlistable(v, r) && b < |v.chains| && j < |v.chains[b]|
    ensures var w := Pass(v, r, b, j);
      && w.chains == v.chains[b := v.chains[b][..j] + v.chains[b][j + 1..]]
      && w.table == v.table - {r.key} && w.n == v.n
      && (w.live == v.live || w.live == v.live - {r})
  {
  }

  /** A pass keeps the chains and the table in agreement. */
  lemma EvictTable(v: View)
    requires Good(v) && v.tail != null
    ensures TableOK(EvictedOne(v))
  {
    var r: Record := v.tail;
    EvictedIsPass(v);
    var b := BucketOf(r.h, v.n);
    var j := FindRec(v.chains[b], r);
    var w := Pass(v, r, b, j);
    PassTable(v, r, b, j);
    TailListed(v);
    ChainsHoldRecord(v.chains, v.table, v.n, r, j);
    EvictTableParts(v.chains, v.table, v.n, v.live, w.live, r, b, j);
  }

  lemma EvictList(v: View)
    requires Good(v) && v.tail != null
    ensures ListOK(EvictedOne(v))
  {
    EvictLinks(v);
    EvictBytes(v);
  }

  /** The links of a pass are those of `lru_remove`, less the freed record's. */
  lemma EvictLinks(v: View)
    requires Good(v) && v.tail != null
    ensures LinkedOK(EvictedOne(v))
  {
    var r: Record := v.tail;
    TailListed(v);
    UnlinkedOK(v, r);
    var u := Unlinked(v, r);
    if v.recs[r].refcnt == 1 {
      assert r !in u.pos;
      LinksDrop(u.lru, u.pos, u.head, u.tail, u.prev, u.next, r);
    }
  }

  /** The record states and the list after a pass. */
  lemma EvictedRecs(v: View)
    requires Good(v) && v.tail != null
    ensures var w := EvictedOne(v); var r: Record := v.tail; var s := v.recs[r];
      && r in v.pos && v.pos[r] < |v.lru|
      && w.lru == Without(v.lru, v.pos[r]) && w.pos.Keys == v.pos.Keys - {r}
      && w.recs == (if s.refcnt == 1 then v.recs - {r} else v.recs[r := s.(inLru := false, refcnt := s.refcnt - 1)])
      && w.live == (if s.refcnt == 1 then v.live - {r} else v.live)
      && w.handles == v.handles && w.table == v.table - {r.key}
  {
    var r: Record := v.tail;
    TailListed(v);
    UnlinkedOK(v, r);
    BucketInRange(r.h, v.n);
    var b := BucketOf(r.h, v.n);
    var j := FindRec(v.chains[b], r);
    ChainsHoldRecord(v.chains, v.table, v.n, r, j);
    var x := Unchained(Unlinked(v, r).(bytes := v.bytes - v.recs[r].total), b, j, r.key);
    DroppedParts(x, r, v.recs);
  }

  /** What dropping the table's reference does to a state whose `r` was just unlisted. */
  lemma DroppedParts(x: View, r: Record, recs: map<Record, RecState>)
    requires r in recs && x.recs == recs[r := recs[r].(inLru := false)]
    ensures var w := Dropped(x, r); var s := recs[r];
      && w.recs == (if s.refcnt == 1 then recs - {r} else recs[r := s.(inLru := false, refcnt := s.refcnt - 1)])
      && w.live == (if s.refcnt == 1 then x.live - {r} else x.live)
      && w.lru == x.lru && w.pos == x.pos && w.handles == x.handles && w.table == x.table
  {
    var s := recs[r];
    if s.refcnt != 1 {
      Overwrite(recs, r, s.(inLru := false), s.(inLru := false, refcnt := s.refcnt - 1));
    }
  }

  /** A pass takes exactly the tail's total out of the byte count. */
  lemma EvictBytes(v: View)
    requires Good(v) && v.tail != null
    ensures var w := EvictedOne(v); w.bytes == Bytes(w.lru, w.recs)
  {
    var r: Record := v.tail;
    TailListed(v);
    UnlinkedOK(v, r);
    EvictedRecs(v);
    var u := Unlinked(v, r);
    var s := v.recs[r];
    assert r !in u.pos;
    OffList(u, r);
    EvictBytesParts(u.lru, v.recs, r, s.(inLru := false, refcnt := s.refcnt - 1), s.refcnt == 1);
  }

  /** Off the list, whether the tail's state is dropped or rewritten does not change the byte count. */
  lemma EvictBytesParts(l: seq<Record>, recs: map<Record, RecState>, r: Record, x: RecState, freed: bool)
    requires r in recs && forall a :: 0 <= a < |l| ==> l[a] != r
    ensures Bytes(l, if freed then recs - {r} else recs[r := x]) == Bytes(l, recs[r := recs[r].(inLru := false)])
  {
    BytesUpdate(l, recs, r, recs[r].(inLru := false));
    if freed {
      BytesRemove(l, recs, r);
    } else {
      BytesUpdate(l, recs, r, x);
    }
  }

  /** A pass that leaves other references: `r` stays live, out of the table and the list, one count lower. */
  lemma EvictKeepRecs(live: set<Record>, handles: multiset<Record>, recs: map<Record, RecState>,
                      table: map<seq<byte>, Record>, listed: set<Record>, r: Record)
    requires RecsOK(live, handles, recs, table, listed) && (forall k :: k in table ==> table[k].key == k)
    requires r in live && InTable(table, r) && r in listed && recs[r].refcnt != 1
    ensures RecsOK(live, handles, recs[r := recs[r].(inLru := false, refcnt := recs[r].refcnt - 1)],
                   table - {r.key}, listed - {r})
  {
    var recs', table' := recs[r := recs[r].(inLru := false, refcnt := recs[r].refcnt - 1)], table - {r.key};
    forall x | x in live
      ensures RecOK(x, recs'[x], InTable(table', x), handles[x], x in listed - {r})
    {
      if x != r {
        assert InTable(table', x) == InTable(table, x);
      }
    }
  }

  /** A pass that drops the last reference: `r` is gone from every part of the state. */
  lemma EvictFreeRecs(live: set<Record>, handles: multiset<Record>, recs: map<Record, RecState>,
                      table: map<seq<byte>, Record>, listed: set<Record>, r: Record)
    requires RecsOK(live, handles, recs, table, listed) && (forall k :: k in table ==> table[k].key == k)
    requires r in live && InTable(table, r) && recs[r].refcnt == 1
    ensures r !in handles
    ensures RecsOK(live - {r}, handles, recs - {r}, table - {r.key}, listed - {r})
  {
    var table' := table - {r.key};
    assert RecOK(r, recs[r], true, handles[r], r in listed);
    forall x | x in live - {r}
      ensures RecOK(x, (recs - {r})[x], InTable(table', x), handles[x], x in listed - {r})
    {
      assert InTable(table', x) == InTable(table, x);
    }
  }

  /**
    A pass keeps the cache's invariant; the list loses its last element, the
    byte count the tail's total and the table the tail's key, and the tail
    is freed exactly when the table held its last reference.
   */
  lemma EvictOneGood(v: View)
    requires Good(v) && v.tail != null
    ensures var w := EvictedOne(v); var r: Record := v.tail;
      && Good(w)
      && w.lru == v.lru[..|v.lru| - 1]
      && w.bytes == v.bytes - v.recs[r].total
      && w.table == v.table - {r.key} && r.key in v.table
      && w.live == (if v.recs[r].refcnt == 1 then v.live - {r} else v.live)
      && (r !in w.live <==> v.recs[r].refcnt == 1)
  {
    var r: Record := v.tail;
    TailListed(v);
    WithoutLast(v.lru);
    EvictTable(v);
    EvictList(v);
    EvictRecs(v);
  }

  lemma EvictRecs(v: View)
    requires Good(v) && v.tail != null
    ensures var w := EvictedOne(v); RecsOK(w.live, w.handles, w.recs, w.table, w.pos.Keys)
  {
    var r: Record := v.tail;
    TailListed(v);
    EvictedRecs(v);
    assert forall k :: k in v.table ==> v.table[k].key == k;
    EvictRecsParts(v.live, v.handles, v.recs, v.table, v.pos.Keys, r, EvictedOne(v));
  }

  /** The record half of a pass, on the parts it touches. */
  lemma EvictRecsParts(live: set<Record>, handles: multiset<Record>, recs: map<Record, RecState>,
                       table: map<seq<byte>, Record>, listed: set<Record>, r: Record, w: View)
    requires RecsOK(live, handles, recs, table, listed) && (forall k :: k in table ==> table[k].key == k)
    requires r in live && InTable(table, r) && r in listed
    requires var s := recs[r];
      && w.recs == (if s.refcnt == 1 then recs - {r} else recs[r := s.(inLru := false, refcnt := s.refcnt - 1)])
      && w.live == (if s.refcnt == 1 then live - {r} else live)
      && w.handles == handles && w.table == table - {r.key} && w.pos.Keys == listed - {r}
    ensures RecsOK(w.live, w.handles, w.recs, w.table, w.pos.Keys)
  {
    if recs[r].refcnt == 1 {
      EvictFreeRecs(live, handles, recs, table, listed, r);
    } else {
      EvictKeepRecs(live, handles, recs, table, listed, r);
    }
  }

  /**
    What the passes so far left alone, where `gone` is the part of `v0`'s
    list they took off: every record live in `v0` and not in `gone` is still
    live with the same state, and every table entry of `v0` whose record is
    not in `gone` is still there.
   */
  ghost predicate KeptBut(v0: View, v: View, gone: seq<Record>)
  {
    && (forall x :: x in v0.live && x !in gone ==> x in v.live && x in v0.recs && x in v.recs && v.recs[x] == v0.recs[x])
    && (forall key :: key in v0.table && v0.table[key] !in gone ==> key in v.table && v.table[key] == v0.table[key])
  }

  /** Before any pass, everything is kept. */
  lemma KeptStart(v0: View)
    requires Good(v0)
    ensures KeptBut(v0, v0, [])
  {
    forall x | x in v0.live
      ensures x in v0.recs
    {
      LiveRecord(v0, x);
    }
  }

  /** A pass on the tail adds the tail, and nothing else, to what is gone. */
  lemma KeptOne(v0: View, v: View, r: Record, gone: seq<Record>)
    requires Good(v) && v.tail == r && KeptBut(v0, v, gone)
    ensures KeptBut(v0, EvictedOne(v), [r] + gone)
  {
    TailListed(v);
    EvictedRecs(v);
    var s := v.recs[r];
    KeptParts(v0, v, EvictedOne(v), r, gone, s.refcnt == 1, s.(inLru := false, refcnt := s.refcnt - 1));
  }

  /** The parts of a state a pass on `r` rewrites, seen from the records other than `r`. */
  lemma KeptParts(v0: View, v: View, w: View, r: Record, gone: seq<Record>, freed: bool, s: RecState)
    requires KeptBut(v0, v, gone) && r.key in v.table && v.table[r.key] == r
    requires w.recs == (if freed then v.recs - {r} else v.recs[r := s])
    requires w.live == (if freed then v.live - {r} else v.live) && w.table == v.table - {r.key}
    ensures KeptBut(v0, w, [r] + gone)
  {
    forall x | x in v0.live && x !in [r] + gone
      ensures x in w.live && x in v0.recs && x in w.recs && w.recs[x] == v0.recs[x]
    {
      assert x != r && x !in gone;
    }
    forall key | key in v0.table && v0.table[key] !in [r] + gone
      ensures key in w.table && w.table[key] == v0.table[key]
    {
      assert v0.table[key] != r && v0.table[key] !in gone;
    }
  }

  /** A store into `r` (or a refusal, which changes nothing) keeps everything but `r`. */
  lemma KeptStore(v0: View, v: View, w: View, r: Record, gone: seq<Record>, total: nat)
    requires KeptBut(v0, v, gone) && r in v.recs && (w == v || w == Appended(v, r, total))
    ensures KeptBut(v0, w, gone + [r])
  {
    forall x | x in v0.live && x !in gone + [r]
      ensures x in w.live && x in v0.recs && x in w.recs && w.recs[x] == v0.recs[x]
    {
      assert x != r && x !in gone;
    }
    forall key | key in v0.table && v0.table[key] !in gone + [r]
      ensures key in w.table && w.table[key] == v0.table[key]
    {
      assert v0.table[key] !in gone;
    }
  }

  /** The tail of a prefix `v.lru` of `l0` is the element of `l0` just before the part already gone. */
  lemma TailSuffix(l0: seq<Record>, v: View, r: Record)
    requires Good(v) && v.tail == r && v.lru <= l0
    ensures 0 < |v.lru| <= |l0| && [r] + l0[|v.lru|..] == l0[|v.lru| - 1..]
  {
    TailListed(v);
    assert l0[|v.lru| - 1] == v.lru[|v.lru| - 1];
    SuffixCons(l0, |v.lru| - 1);
  }

  /** A suffix of a list is its first element followed by the rest. */
  lemma SuffixCons(l: seq<Record>, k: nat)
    requires k < |l|
    ensures [l[k]] + l[k + 1..] == l[k..]
  {
  }

  /**
    One more pass of the loop, on views: the list keeps losing a suffix of
    the list `v0` it started from, no caller's reference changes, and the
    taken-off records stay alive unless this pass freed its own.
   */
  lemma EvictNext(v0: View, v: View, rc: int)
    requires Good(v) && v.tail != null && rc == v.recs[v.tail].refcnt && PosOK(v0.lru, v0.pos)
    requires Trimmed(v0, v) && AliveFrom(v0, v, |v.lru|)
    ensures var w := EvictedOne(v);
      && |w.lru| + 1 == |v.lru| && Trimmed(v0, w)
      && (rc == 1 ==> v0.lru[|w.lru|] !in w.live && AliveFrom(v0, w, |w.lru| + 1))
      && (rc != 1 ==> AliveFrom(v0, w, |w.lru|))
  {
    var w := EvictedOne(v);
    var r: Record := v.tail;
    TailListed(v);
    EvictOneGood(v);
    EvictedRecs(v);
    TakeLast(v0.lru, v0.pos, v.lru, v.live, rc == 1);
  }

  /** `v` is `v0` after some passes: its LRU list is a prefix of `v0`'s, the handles are the same and no record came alive. */
  ghost predicate Trimmed(v0: View, v: View)
  {
    v.lru <= v0.lru && v.handles == v0.handles && v.live <= v0.live
  }

  /** The records at positions `from` on of `v0`'s LRU list are alive in `v`. */
  ghost predicate AliveFrom(v0: View, v: View, from: nat)
  {
    forall i :: from <= i < |v0.lru| ==> v0.lru[i] in v.live
  }

  /** Taking the last element `r` off a prefix `l` of `l0`, and freeing it or not. */
  lemma TakeLast(l0: seq<Record>, pos0: map<Record, nat>, l: seq<Record>, live: set<Record>, freed: bool)
    requires PosOK(l0, pos0) && l <= l0 && l != [] && l[|l| - 1] in live
    requires forall i :: |l| <= i < |l0| ==> l0[i] in live
    ensures var k := |l| - 1; var live' := if freed then live - {l[k]} else live;
      && l[..k] <= l0 && l[k] == l0[k]
      && (freed ==> l0[k] !in live')
      && (!freed ==> forall i :: k <= i < |l0| ==> l0[i] in live')
      && (freed ==> forall i :: k < i < |l0| ==> l0[i] in live')
  {
    var k := |l| - 1;
    forall i | k < i < |l0|
      ensures l0[i] != l0[k]
    {
      assert pos0[l0[i]] == i;
    }
  }
}
