/**
  `cache_destroy` of 3/cache.c on views: it walks the buckets in order and
  each chain from its head, drops the table's reference on every node's
  record (freeing the record at its last reference), and frees the nodes.
  The lemmas show what is left: exactly the records callers still hold,
  each with one reference per outstanding `cache_acquire`.
 */
module Teardown {
  import opened Bits
  import opened Hashing
  import opened Records
  import opened Chains
  import opened CacheState

  /** No record occurs twice. */
  ghost predicate Distinct(s: seq<Record>)
  {
    forall i, j :: 0 <= i < j < |s| ==> s[i] != s[j]
  }

  /** The records of a chain's nodes, head first. */
  ghost function ChainRecs(c: seq<Node>): (s: seq<Record>)
    ensures |s| == |c| && forall j :: 0 <= j < |c| ==> s[j] == c[j].rec
  {
    seq(|c|, j requires 0 <= j < |c| => c[j].rec)
  }

  /** The records of a chain's first `k` nodes come first among its records. */
  lemma ChainRecsPrefix(c: seq<Node>, k: nat)
    requires k <= |c|
    ensures ChainRecs(c[..k]) <= ChainRecs(c)
  {
    var a, b := ChainRecs(c[..k]), ChainRecs(c);
    assert a == b[..k];
  }

  /** One node more of a chain adds its record at the end. */
  lemma ChainRecsNext(c: seq<Node>, j: nat)
    requires j < |c|
    ensures ChainRecs(c[..j + 1]) == ChainRecs(c[..j]) + [c[j].rec]
  {
    var a, b := ChainRecs(c[..j + 1]), ChainRecs(c[..j]) + [c[j].rec];
    assert |a| == |b|;
    assert forall k :: 0 <= k < |a| ==> a[k] == b[k];
  }

  /** The records of all nodes of `cs`, in the order `cache_destroy` visits them. */
  ghost function NodeOrder(cs: seq<seq<Node>>): seq<Record>
  {
    if cs == [] then [] else NodeOrder(cs[..|cs| - 1]) + ChainRecs(cs[|cs| - 1])
  }

  /** One reference dropped on each record of `rs` in turn; a record already freed is skipped. */
  ghost function DropAll(v: View, rs: seq<Record>): View
  {
    if rs == [] then v
    else
      var u := DropAll(v, rs[..|rs| - 1]);
      var r := rs[|rs| - 1];
      if r in u.recs then Dropped(u, r) else u
  }

  /** The first `i` chains freed, the others as they were. */
  ghost function Wiped(cs: seq<seq<Node>>, i: nat): (w: seq<seq<Node>>)
    requires i <= |cs|
    ensures |w| == |cs| && (forall b :: 0 <= b < i ==> w[b] == []) && (forall b :: i <= b < |cs| ==> w[b] == cs[b])
  {
    seq(i, _ => []) + cs[i..]
  }

  /** The view once `cache_destroy` has done its first `i` buckets. */
  ghost function Swept(v: View, i: nat): View
    requires i <= |v.chains|
  {
    DropAll(v.(chains := Wiped(v.chains, i)), NodeOrder(v.chains[..i]))
  }

  /** `cache_destroy`: every bucket done, and no key has an entry any more. */
  ghost function Destroyed(v: View): View
  {
    Swept(v, |v.chains|).(table := map[])
  }

  /** Dropping references changes the records and their links, and nothing else. */
  lemma {:induction false} DropAllKeeps(v: View, rs: seq<Record>)
    ensures var w := DropAll(v, rs);
      && w.chains == v.chains && w.table == v.table && w.n == v.n && w.handles == v.handles
      && w.lru == v.lru && w.pos == v.pos && w.head == v.head && w.tail == v.tail && w.bytes == v.bytes
    decreases |rs|
  {
    if rs != [] {
      DropAllKeeps(v, rs[..|rs| - 1]);
    }
  }

  /** Dropping references in a view with other chains is the same as dropping them and then changing the chains. */
  lemma {:induction false} DropAllChains(v: View, rs: seq<Record>, cs: seq<seq<Node>>)
    ensures DropAll(v.(chains := cs), rs) == DropAll(v, rs).(chains := cs)
    decreases |rs|
  {
    if rs != [] {
      var front, r := rs[..|rs| - 1], rs[|rs| - 1];
      DropAllChains(v, front, cs);
      var u := DropAll(v, front);
      if r in u.recs {
        DroppedChains(u, r, cs);
      }
    }
  }

  /** Dropping one reference commutes with changing the chains. */
  lemma DroppedChains(u: View, r: Record, cs: seq<seq<Node>>)
    requires r in u.recs
    ensures Dropped(u.(chains := cs), r) == Dropped(u, r).(chains := cs)
  {
    var u' := u.(chains := cs);
    assert u'.recs == u.recs && u'.live == u.live && u'.prev == u.prev && u'.next == u.next;
    var s := u.recs[r];
    if s.refcnt == 1 {
      assert Dropped(u', r) == u'.(live := u.live - {r}, recs := u.recs - {r}, prev := u.prev - {r}, next := u.next - {r});
    } else {
      assert Dropped(u', r) == u'.(recs := u.recs[r := s.(refcnt := s.refcnt - 1)]);
    }
  }

  /** Dropping the references of `a` and then those of `b` drops those of `a + b`. */
  lemma {:induction false} DropAllConcat(v: View, a: seq<Record>, b: seq<Record>)
    ensures DropAll(DropAll(v, a), b) == DropAll(v, a + b)
    decreases |b|
  {
    if b == [] {
      assert a + b == a;
    } else {
      DropAllConcat(v, a, b[..|b| - 1]);
      assert (a + b)[..|a + b| - 1] == a + b[..|b| - 1];
    }
  }

  /**
    Dropping one reference on each of the distinct records `rs` frees those
    of them that held exactly one, and takes one from the count of the
    others; no other record changes.
   */
  lemma {:induction false} DropAllEffect(v: View, rs: seq<Record>, x: Record)
    requires Distinct(rs)
    ensures var w := DropAll(v, rs);
      && (x in w.recs <==> x in v.recs && !(x in rs && v.recs[x].refcnt == 1))
      && (x in w.recs ==> w.recs[x] == v.recs[x].(refcnt := v.recs[x].refcnt - (if x in rs then 1 else 0)))
    decreases |rs|
  {
    if rs != [] {
      var front, r := rs[..|rs| - 1], rs[|rs| - 1];
      assert rs == front + [r];
      DropAllEffect(v, front, x);
      DropAllEffect(v, front, r);
      assert r !in front by {
        forall t | 0 <= t < |front|
          ensures front[t] != r
        {
          assert rs[t] == front[t];
        }
      }
    }
  }

  /** A view whose records are the live ones keeps that while references are dropped. */
  lemma {:induction false} DropAllLive(v: View, rs: seq<Record>)
    requires v.recs.Keys == v.live
    ensures DropAll(v, rs).recs.Keys == DropAll(v, rs).live
    decreases |rs|
  {
    if rs != [] {
      DropAllLive(v, rs[..|rs| - 1]);
      var u := DropAll(v, rs[..|rs| - 1]);
      if rs[|rs| - 1] in u.recs {
        DroppedLive(u, rs[|rs| - 1]);
      }
    }
  }

  /** Dropping one reference keeps the records those of the live set. */
  lemma DroppedLive(u: View, r: Record)
    requires u.recs.Keys == u.live && r in u.recs
    ensures Dropped(u, r).recs.Keys == Dropped(u, r).live
  {
  }

  /** Some node of `cs` holds `x`. */
  ghost predicate HasRec(cs: seq<seq<Node>>, x: Record)
  {
    exists b, j :: 0 <= b < |cs| && 0 <= j < |cs[b]| && cs[b][j].rec == x
  }

  /** Every node's record is in the visiting order, and every record there is some node's. */
  lemma {:induction false} NodeOrderMembers(cs: seq<seq<Node>>, x: Record)
    ensures x in NodeOrder(cs) <==> HasRec(cs, x)
    decreases |cs|
  {
    if cs != [] {
      NodeOrderMembers(cs[..|cs| - 1], x);
      HasRecSplit(cs, x);
    }
  }

  /** A node of `cs` holding `x` is in its last chain or in the chains before. */
  lemma HasRecSplit(cs: seq<seq<Node>>, x: Record)
    requires cs != []
    ensures HasRec(cs, x) <==> HasRec(cs[..|cs| - 1], x) || x in ChainRecs(cs[|cs| - 1])
  {
    var front, last := cs[..|cs| - 1], cs[|cs| - 1];
    if HasRec(front, x) {
      var b, j :| 0 <= b < |front| && 0 <= j < |front[b]| && front[b][j].rec == x;
      assert cs[b][j].rec == x;
    }
    if x in ChainRecs(last) {
      var j :| 0 <= j < |last| && ChainRecs(last)[j] == x;
      assert cs[|cs| - 1][j].rec == x;
    }
    if HasRec(cs, x) {
      var b, j :| 0 <= b < |cs| && 0 <= j < |cs[b]| && cs[b][j].rec == x;
      if b < |front| {
        assert front[b][j].rec == x;
      } else {
        assert ChainRecs(last)[j] == x;
      }
    }
  }

  /** No record has two nodes of `cs`. */
  ghost predicate Unique(cs: seq<seq<Node>>)
  {
    forall b1, j1, b2, j2 ::
      0 <= b1 < |cs| && 0 <= j1 < |cs[b1]| && 0 <= b2 < |cs| && 0 <= j2 < |cs[b2]| && cs[b1][j1].rec == cs[b2][j2].rec
      ==> b1 == b2 && j1 == j2
  }

  /** When no record has two nodes, the visiting order repeats none. */
  lemma {:induction false} NodeOrderDistinct(cs: seq<seq<Node>>)
    requires Unique(cs)
    ensures Distinct(NodeOrder(cs))
    decreases |cs|
  {
    if cs != [] {
      var front, last := cs[..|cs| - 1], cs[|cs| - 1];
      assert Unique(front) by {
        forall b1, j1, b2, j2 |
          0 <= b1 < |front| && 0 <= j1 < |front[b1]| && 0 <= b2 < |front| && 0 <= j2 < |front[b2]| && front[b1][j1].rec == front[b2][j2].rec
          ensures b1 == b2 && j1 == j2
        {
          assert cs[b1][j1].rec == cs[b2][j2].rec;
        }
      }
      NodeOrderDistinct(front);
      var a, c := NodeOrder(front), ChainRecs(last);
      forall i, j | 0 <= i < j < |a + c|
        ensures (a + c)[i] != (a + c)[j]
      {
        if j >= |a| {
          var k := j - |a|;
          assert (a + c)[j] == cs[|cs| - 1][k].rec;
          if i >= |a| {
            assert (a + c)[i] == cs[|cs| - 1][i - |a|].rec;
          } else {
            NodeOrderMembers(front, a[i]);
            var b, t :| 0 <= b < |front| && 0 <= t < |front[b]| && front[b][t].rec == a[i];
            assert cs[b][t].rec == a[i];
          }
        }
      }
    }
  }

  /** The visiting order of the first `k` buckets is a prefix of the whole order. */
  lemma {:induction false} NodeOrderPrefix(cs: seq<seq<Node>>, k: nat)
    requires k <= |cs|
    ensures NodeOrder(cs[..k]) <= NodeOrder(cs)
    decreases |cs|
  {
    if k < |cs| {
      assert cs[..k] == cs[..|cs| - 1][..k];
      NodeOrderPrefix(cs[..|cs| - 1], k);
    } else {
      assert cs[..k] == cs;
    }
  }

  /** One more bucket extends the visiting order by its chain. */
  lemma NodeOrderNext(cs: seq<seq<Node>>, i: nat)
    requires i < |cs|
    ensures NodeOrder(cs[..i + 1]) == NodeOrder(cs[..i]) + ChainRecs(cs[i])
  {
    assert cs[..i + 1][..i] == cs[..i];
  }

  /** In a good view no record has two nodes. */
  lemma GoodUnique(v: View)
    requires Good(v)
    ensures Unique(v.chains)
  {
    var cs: seq<seq<Node>> := v.chains;
    forall b1, j1, b2, j2 |
      0 <= b1 < |cs| && 0 <= j1 < |cs[b1]| && 0 <= b2 < |cs| && 0 <= j2 < |cs[b2]| && cs[b1][j1].rec == cs[b2][j2].rec
      ensures b1 == b2 && j1 == j2
    {
      NodeUnique(cs, v.table, v.n, b1, j1, b2, j2);
    }
  }

  /** In a good view the records with nodes are those in the table. */
  lemma GoodNodes(v: View, x: Record)
    requires Good(v)
    ensures x in NodeOrder(v.chains) <==> InTable(v.table, x)
  {
    NodeOrderMembers(v.chains, x);
    ChainsNodes(v.chains, v.table, v.n, x);
  }

  /** When the chains agree with the table, the records with nodes are those in the table. */
  lemma ChainsNodes(cs: seq<seq<Node>>, table: map<seq<byte>, Record>, n: nat, x: Record)
    requires ChainsOK(cs, table, n)
    ensures HasRec(cs, x) <==> InTable(table, x)
  {
    if HasRec(cs, x) {
      var b, j :| 0 <= b < |cs| && 0 <= j < |cs[b]| && cs[b][j].rec == x;
      assert Placed(cs[b][j], b, table, n);
    }
    if InTable(table, x) {
      assert HasNode(cs, x.key, x, n);
      var b := BucketOf(x.h, n);
      var j :| 0 <= j < |cs[b]| && cs[b][j] == Node(x.h, x.key, x);
      assert cs[b][j].rec == x;
    }
  }

  /**
    The step of `cache_destroy` at node `j` of bucket `i`: the node's
    record is still alive, and dropping its reference extends the
    records done by that one.
   */
  lemma SweepStep(v: View, i: nat, j: nat)
    requires Good(v) && i < |v.chains| && j < |v.chains[i]|
    ensures var u := DropAll(Swept(v, i), ChainRecs(v.chains[i][..j]));
      var r := v.chains[i][j].rec;
      && r in u.recs && r in u.live
      && Dropped(u, r) == DropAll(Swept(v, i), ChainRecs(v.chains[i][..j + 1]))
  {
    var cs: seq<seq<Node>> := v.chains;
    GoodUnique(v);
    NodeOrderDistinct(cs);
    assert Placed(cs[i][j], i, v.table, v.n);
    SweepOrder(v.(chains := Wiped(cs, i)), cs, i, j);
  }

  /** SweepStep for any view whose records are its live ones, given that the visiting order repeats no record. */
  lemma SweepOrder(v: View, cs: seq<seq<Node>>, i: nat, j: nat)
    requires i < |cs| && j < |cs[i]| && Distinct(NodeOrder(cs))
    requires v.recs.Keys == v.live && cs[i][j].rec in v.live
    ensures var u := DropAll(DropAll(v, NodeOrder(cs[..i])), ChainRecs(cs[i][..j]));
      var r := cs[i][j].rec;
      && r in u.recs && r in u.live
      && Dropped(u, r) == DropAll(DropAll(v, NodeOrder(cs[..i])), ChainRecs(cs[i][..j + 1]))
  {
    var a, b, r := NodeOrder(cs[..i]), ChainRecs(cs[i][..j]), cs[i][j].rec;
    SweepFresh(cs, i, j);
    DropAllConcat(v, a, b);
    DropAllEffect(v, a + b, r);
    DropAllLive(v, a + b);
    DropAllLast(DropAll(v, a), b, r);
  }

  /** Dropping the records of `b` and then `r`, when `r` is still in the view, ends with dropping `r`. */
  lemma DropAllLast(v: View, b: seq<Record>, r: Record)
    requires r in DropAll(v, b).recs
    ensures DropAll(v, b + [r]) == Dropped(DropAll(v, b), r)
  {
    assert (b + [r])[..|b|] == b;
  }

  /** The record of node `j` of chain `i` is met for the first time there in the walk of `cache_destroy`. */
  lemma SweepFresh(cs: seq<seq<Node>>, i: nat, j: nat)
    requires i < |cs| && j < |cs[i]| && Distinct(NodeOrder(cs))
    ensures var done := NodeOrder(cs[..i]) + ChainRecs(cs[i][..j]);
      && Distinct(done) && cs[i][j].rec !in done
      && ChainRecs(cs[i][..j + 1]) == ChainRecs(cs[i][..j]) + [cs[i][j].rec]
  {
    var c := cs[i];
    var r := c[j].rec;
    var done := NodeOrder(cs[..i]) + ChainRecs(c[..j]);
    ChainRecsNext(c, j);
    assert done + [r] <= NodeOrder(cs) by {
      NodeOrderNext(cs, i);
      NodeOrderPrefix(cs, i + 1);
      ChainRecsPrefix(c, j + 1);
    }
    LastFresh(NodeOrder(cs), done, r);
  }

  /** The element after a prefix of a sequence without repeats is not in the prefix, which has none either. */
  lemma LastFresh(all: seq<Record>, done: seq<Record>, r: Record)
    requires Distinct(all) && done + [r] <= all
    ensures Distinct(done) && r !in done
  {
    forall t | 0 <= t < |done|
      ensures done[t] != r
    {
      assert all[t] == done[t] && all[|done|] == r;
    }
    forall a, b | 0 <= a < b < |done|
      ensures done[a] != done[b]
    {
      assert all[a] == done[a] && all[b] == done[b];
    }
  }

  /** The end of a bucket in `cache_destroy`: once its nodes are done and it is freed, the next bucket starts. */
  lemma SweepBucket(v: View, i: nat)
    requires i < |v.chains|
    ensures var u := DropAll(Swept(v, i), ChainRecs(v.chains[i]));
      && u.chains == Wiped(v.chains, i)
      && u.(chains := u.chains[i := []]) == Swept(v, i + 1)
  {
    var cs: seq<seq<Node>> := v.chains;
    var v' := v.(chains := Wiped(cs, i));
    var rs := NodeOrder(cs[..i]) + ChainRecs(cs[i]);
    DropAllConcat(v', NodeOrder(cs[..i]), ChainRecs(cs[i]));
    NodeOrderNext(cs, i);
    DropAllKeeps(v', rs);
    DropAllChains(v, rs, Wiped(cs, i));
    DropAllChains(v, rs, Wiped(cs, i + 1));
    assert Wiped(cs, i)[i := []] == Wiped(cs, i + 1);
  }

  /** Before the first bucket, nothing is done. */
  lemma SweepStart(v: View)
    ensures Swept(v, 0) == v
  {
    assert Wiped(v.chains, 0) == v.chains;
  }

  /** The chains of a partly swept view. */
  lemma SweptChains(v: View, i: nat)
    requires i <= |v.chains|
    ensures Swept(v, i).chains == Wiped(v.chains, i)
  {
    DropAllKeeps(v.(chains := Wiped(v.chains, i)), NodeOrder(v.chains[..i]));
  }

  /**
    What `cache_destroy` leaves of a good cache: a live record survives
    exactly when some caller still holds a reference on it, and then its
    count is the number of references callers hold and its other fields are
    as they were; every chain is freed and the table is empty.
   */
  lemma DestroyedLive(v: View, x: Record)
    requires Good(v) && x in v.live
    ensures var w := Destroyed(v);
      && (x in w.live <==> x in v.handles)
      && (x in w.recs <==> x in w.live)
      && (x in w.recs ==> w.recs[x] == v.recs[x].(refcnt := v.handles[x]))
  {
    var cs: seq<seq<Node>> := v.chains;
    var rs := NodeOrder(cs);
    assert cs[..|cs|] == cs;
    GoodNodes(v, x);
    GoodUnique(v);
    NodeOrderDistinct(cs);
    DropAllEffect(v.(chains := Wiped(cs, |cs|)), rs, x);
    DropAllLive(v.(chains := Wiped(cs, |cs|)), rs);
    LiveRecord(v, x);
  }

  /** Nothing but records leave: the survivors were alive, and the chains, table and callers' references are as stated. */
  lemma DestroyedShape(v: View)
    requires Good(v)
    ensures var w := Destroyed(v);
      && w.live <= v.live && w.recs.Keys == w.live
      && |w.chains| == |v.chains| && (forall b :: 0 <= b < |w.chains| ==> w.chains[b] == [])
      && w.table == map[] && w.handles == v.handles
      && w.lru == v.lru && w.head == v.head && w.tail == v.tail && w.bytes == v.bytes
  {
    var cs: seq<seq<Node>> := v.chains;
    var v' := v.(chains := Wiped(cs, |cs|));
    assert cs[..|cs|] == cs;
    GoodUnique(v);
    NodeOrderDistinct(cs);
    DropAllKeeps(v', NodeOrder(cs));
    DropAllLive(v', NodeOrder(cs));
    forall x | x in Destroyed(v).live
      ensures x in v.live
    {
      DropAllEffect(v', NodeOrder(cs), x);
    }
  }
}
