/**
  The bucket table of 3/cache.c as values: each bucket's chain of `struct
  entry` nodes is a sequence, head first, and `table` maps each key that has
  a node to that node's record. ChainsOK says the chains and the map agree;
  the lemmas are the scans, the insertion and the unlinking the cache does
  on a chain.
 */
module Chains {
  import opened Bits
  import opened Hashing
  import opened Records

  /** A `struct entry` of a bucket chain. */
  datatype Node = Node(h: nat, key: seq<byte>, rec: Record)

  /** The record has a node: its key maps to it. */
  ghost predicate InTable(table: map<seq<byte>, Record>, r: Record)
  {
    r.key in table && table[r.key] == r
  }

  /** Node `nd` may sit in bucket `b`: its key hashes there and `table` maps the key to the node's record. */
  ghost predicate Placed(nd: Node, b: nat, table: map<seq<byte>, Record>, n: nat)
  {
    && nd.key in table && table[nd.key] == nd.rec
    && nd.h == nd.rec.h
    && n < TWO64 && b == BucketOf(nd.h, n)
  }

  /** Key `k` has a node for record `r` in the bucket the record's hash selects. */
  ghost predicate HasNode(cs: seq<seq<Node>>, k: seq<byte>, r: Record, n: nat)
  {
    n < TWO64 && BucketOf(r.h, n) < |cs| && Node(r.h, k, r) in cs[BucketOf(r.h, n)]
  }

  /**
    The bucket chains `cs` and the key-to-record map `table` describe the same
    entries: every node is placed, keys are distinct within a chain, and every
    key of `table` has its node.
   */
  ghost predicate ChainsOK(cs: seq<seq<Node>>, table: map<seq<byte>, Record>, n: nat)
  {
    && |cs| == n && InitGuard(n)
    && (forall b, j :: 0 <= b < |cs| && 0 <= j < |cs[b]| ==> Placed(cs[b][j], b, table, n))
    && (forall b, i, j :: 0 <= b < |cs| && 0 <= i < j < |cs[b]| ==> cs[b][i].key != cs[b][j].key)
    && (forall k :: k in table ==> table[k].key == k && HasNode(cs, k, table[k], n))
  }

  /**
    The scan of `cache_acquire`: when no node before index `j` of bucket
    `BucketOf(h)` matches on hash and key, and node `j` (if any) does, the
    key is in `table` exactly when the scan stopped on a node, and that node
    holds the key's record.
   */
  lemma ChainsFind(cs: seq<seq<Node>>, table: map<seq<byte>, Record>, n: nat, k: seq<byte>, h: nat, j: nat)
    requires ChainsOK(cs, table, n) && h == Fnv1a64(k)
    requires BucketOf(h, n) < n
    requires var c := cs[BucketOf(h, n)];
      && j <= |c|
      && (forall t :: 0 <= t < j ==> !(c[t].h == h && c[t].key == k))
      && (j < |c| ==> c[j].h == h && c[j].key == k)
    ensures k in table <==> j < |cs[BucketOf(h, n)]|
    ensures j < |cs[BucketOf(h, n)]| ==> table[k] == cs[BucketOf(h, n)][j].rec
  {
    var b := BucketOf(h, n);
    var c := cs[b];
    if k in table {
      var r := table[k];
      assert HasNode(cs, k, r, n);
      assert r.h == h;
      var t :| 0 <= t < |c| && c[t] == Node(h, k, r);
      assert j <= t;
    }
    if j < |c| {
      assert Placed(c[j], b, table, n);
    }
  }

  /** A record with a node has it in the bucket of its hash, so a scan there for the record stops on a node with its key. */
  lemma ChainsHoldRecord(cs: seq<seq<Node>>, table: map<seq<byte>, Record>, n: nat, r: Record, j: nat)
    requires ChainsOK(cs, table, n) && r.key in table && table[r.key] == r
    requires BucketOf(r.h, n) < n
    requires var c := cs[BucketOf(r.h, n)];
      j <= |c| && (forall t :: 0 <= t < j ==> c[t].rec != r) && (j < |c| ==> c[j].rec == r)
    ensures j < |cs[BucketOf(r.h, n)]|
    ensures cs[BucketOf(r.h, n)][j].key == r.key
  {
    var b := BucketOf(r.h, n);
    var c := cs[b];
    assert HasNode(cs, r.key, r, n);
    var t :| 0 <= t < |c| && c[t] == Node(r.h, r.key, r);
    assert j <= t;
    assert Placed(c[j], b, table, n);
  }

  /** The insertion of `cache_acquire`: a new node for a new key at the head of its bucket. */
  lemma ChainsInsert(cs: seq<seq<Node>>, table: map<seq<byte>, Record>, n: nat, r: Record)
    requires ChainsOK(cs, table, n) && r.key !in table
    requires BucketOf(r.h, n) < n
    ensures var b := BucketOf(r.h, n);
      ChainsOK(cs[b := [Node(r.h, r.key, r)] + cs[b]], table[r.key := r], n)
  {
    var b, k := BucketOf(r.h, n), r.key;
    var nd := Node(r.h, k, r);
    var cs', t' := cs[b := [nd] + cs[b]], table[k := r];
    forall b2, j | 0 <= b2 < |cs'| && 0 <= j < |cs'[b2]|
      ensures Placed(cs'[b2][j], b2, t', n)
    {
      if b2 == b && j > 0 {
        assert cs'[b2][j] == cs[b][j - 1];
        assert Placed(cs[b][j - 1], b, table, n);
      } else if b2 != b {
        assert Placed(cs[b2][j], b2, table, n);
      }
    }
    forall b2, i, j | 0 <= b2 < |cs'| && 0 <= i < j < |cs'[b2]|
      ensures cs'[b2][i].key != cs'[b2][j].key
    {
      if b2 == b {
        assert cs'[b2][j] == cs[b][j - 1];
        if i > 0 {
          assert cs'[b2][i] == cs[b][i - 1];
        } else {
          assert Placed(cs[b][j - 1], b, table, n);
        }
      }
    }
    forall k2 | k2 in t'
      ensures t'[k2].key == k2 && HasNode(cs', k2, t'[k2], n)
    {
      if k2 != k {
        var r2 := table[k2];
        assert HasNode(cs, k2, r2, n);
        if BucketOf(r2.h, n) == b {
          var t :| 0 <= t < |cs[b]| && cs[b][t] == Node(r2.h, k2, r2);
          assert cs'[b][t + 1] == cs[b][t];
        }
      } else {
        assert cs'[b][0] == nd;
      }
    }
  }

  /** The unlinking of `try_evict_until_soft`: take node `j` out of bucket `b` and its key out of `table`. */
  lemma ChainsRemove(cs: seq<seq<Node>>, table: map<seq<byte>, Record>, n: nat, b: nat, j: nat)
    requires ChainsOK(cs, table, n) && b < |cs| && j < |cs[b]|
    ensures ChainsOK(cs[b := cs[b][..j] + cs[b][j + 1..]], table - {cs[b][j].key}, n)
  {
    var k := cs[b][j].key;
    var cs', t' := cs[b := cs[b][..j] + cs[b][j + 1..]], table - {k};
    assert Placed(cs[b][j], b, table, n);
    forall b2, i | 0 <= b2 < |cs'| && 0 <= i < |cs'[b2]|
      ensures Placed(cs'[b2][i], b2, t', n)
    {
      var i0 := if b2 == b && i >= j then i + 1 else i;
      if b2 == b {
        CutAt(cs[b], j, i);
      }
      assert Placed(cs[b2][i0], b2, table, n);
      assert cs[b2][i0].key != k by {
        if b2 == b {
          assert i0 != j;
        }
      }
    }
    forall b2, i, i' | 0 <= b2 < |cs'| && 0 <= i < i' < |cs'[b2]|
      ensures cs'[b2][i].key != cs'[b2][i'].key
    {
      if b2 == b {
        CutAt(cs[b], j, i);
        CutAt(cs[b], j, i');
      }
    }
    forall k2 | k2 in t'
      ensures t'[k2].key == k2 && HasNode(cs', k2, t'[k2], n)
    {
      var r2 := table[k2];
      assert HasNode(cs, k2, r2, n);
      if BucketOf(r2.h, n) == b {
        OtherNodeStays(cs[b], j, Node(r2.h, k2, r2));
      }
    }
  }

  /** Index `i` of a chain with node `j` cut out is the chain's index `i` before the cut and `i + 1` from it on. */
  lemma CutAt(c: seq<Node>, j: nat, i: nat)
    requires j < |c| && i < |c| - 1
    ensures (c[..j] + c[j + 1..])[i] == c[if i >= j then i + 1 else i]
  {
  }

  /** A node other than node `j` of a chain is still in the chain once node `j` is cut out. */
  lemma OtherNodeStays(c: seq<Node>, j: nat, nd: Node)
    requires j < |c| && nd in c && nd != c[j]
    ensures nd in c[..j] + c[j + 1..]
  {
    var t :| 0 <= t < |c| && c[t] == nd;
    if t < j {
      assert (c[..j] + c[j + 1..])[t] == nd;
    } else {
      assert (c[..j] + c[j + 1..])[t - 1] == nd;
    }
  }

  /**
    The scan of `try_evict_until_soft`: the index of the first node of `c`
    whose record is `r`, or the length of `c` when there is none.
   */
  ghost function FindRec(c: seq<Node>, r: Record): (j: nat)
    ensures j <= |c|
    ensures forall t :: 0 <= t < j ==> c[t].rec != r
    ensures j < |c| ==> c[j].rec == r
  {
    if c == [] then 0
    else if c[0].rec == r then 0
    else 1 + FindRec(c[1..], r)
  }

  /** The first node of `c` whose record is `r` is at `j` (or there is none and `j` is the length). */
  lemma FirstRec(c: seq<Node>, r: Record, j: nat)
    requires j <= |c| && (forall t :: 0 <= t < j ==> c[t].rec != r) && (j < |c| ==> c[j].rec == r)
    ensures j == FindRec(c, r)
  {
  }

  /** No record has two nodes: a node's record determines its bucket and its place in the chain. */
  lemma NodeUnique(cs: seq<seq<Node>>, table: map<seq<byte>, Record>, n: nat, b1: nat, j1: nat, b2: nat, j2: nat)
    requires ChainsOK(cs, table, n)
    requires b1 < |cs| && j1 < |cs[b1]| && b2 < |cs| && j2 < |cs[b2]|
    requires cs[b1][j1].rec == cs[b2][j2].rec
    ensures b1 == b2 && j1 == j2
  {
    assert Placed(cs[b1][j1], b1, table, n) && Placed(cs[b2][j2], b2, table, n);
    assert cs[b1][j1].key == cs[b2][j2].key;
  }

  /** The records of the nodes of a chain. */
  ghost function NodeRecs(c: seq<Node>): set<Record>
  {
    set j | 0 <= j < |c| :: c[j].rec
  }
}
