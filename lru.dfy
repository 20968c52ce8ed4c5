/**
  The LRU list of 3/cache.c as values. The list itself is `lru`, most
  recently used first, and `pos` numbers its members; the pointers the
  source keeps are `head` (`lru_head`), `tail` (`lru_tail`) and the maps
  `prev` and `next`, which give each record's `prev` and `next` fields.
  LinksOK says the pointers form exactly the list; UnlinkPrev/UnlinkNext
  and LinkPrev/LinkNext are the pointer writes of `lru_remove` and
  `lru_push_front`, and the lemmas show that each keeps LinksOK.
 */
module Lru {
  import opened Records

  /** `pos` gives the position of every element of `l`, and of nothing else. */
  ghost predicate PosOK(l: seq<Record>, pos: map<Record, nat>)
  {
    && (forall a :: 0 <= a < |l| ==> l[a] in pos && pos[l[a]] == a)
    && (forall x :: x in pos ==> pos[x] < |l| && l[pos[x]] == x)
  }

  /** `l` without its element at position `i`. */
  ghost function Without(l: seq<Record>, i: nat): (m: seq<Record>)
    requires i < |l|
    ensures |m| == |l| - 1
    ensures forall k {:trigger m[k]} :: 0 <= k < |m| ==> m[k] == if k < i then l[k] else l[k + 1]
  {
    seq(|l| - 1, k requires 0 <= k < |l| - 1 => if k < i then l[k] else l[k + 1])
  }

  /** The positions after `r` is put in front. */
  ghost function PushPos(pos: map<Record, nat>, r: Record): (m: map<Record, nat>)
    ensures m.Keys == pos.Keys + {r} && m[r] == 0
    ensures forall x :: x in pos && x != r ==> m[x] == pos[x] + 1
  {
    (map x | x in pos :: pos[x] + 1)[r := 0]
  }

  lemma PushPosOK(l: seq<Record>, pos: map<Record, nat>, r: Record)
    requires PosOK(l, pos) && r !in pos
    ensures PosOK([r] + l, PushPos(pos, r))
  {
    var l', m := [r] + l, PushPos(pos, r);
    forall a | 0 <= a < |l'|
      ensures l'[a] in m && m[l'[a]] == a
    {
      if a > 0 {
        assert l'[a] == l[a - 1];
      }
    }
  }

  /** The positions after the element at position `i`, which is `r`, is taken out. */
  ghost function RemovePos(pos: map<Record, nat>, r: Record, i: nat): (m: map<Record, nat>)
    ensures m.Keys == pos.Keys - {r}
    ensures forall x :: x in m ==> m[x] == if pos[x] > i then pos[x] - 1 else pos[x]
  {
    map x | x in pos && x != r :: if pos[x] > i then pos[x] - 1 else pos[x]
  }

  lemma RemovePosOK(l: seq<Record>, pos: map<Record, nat>, i: nat)
    requires PosOK(l, pos) && i < |l|
    ensures PosOK(Without(l, i), RemovePos(pos, l[i], i))
  {
    var l', m := Without(l, i), RemovePos(pos, l[i], i);
    forall x | x in m
      ensures m[x] < |l'| && l'[m[x]] == x
    {
      if pos[x] > i {
        assert l'[pos[x] - 1] == l[pos[x]];
      } else {
        assert pos[x] != i;
        assert l'[pos[x]] == l[pos[x]];
      }
    }
  }

  /** Every element of `lru` has a link in `links`. */
  ghost predicate Members(lru: seq<Record>, links: map<Record, Record?>)
  {
    forall a :: 0 <= a < |lru| ==> lru[a] in links
  }

  /**
    `head`, `tail` and the `prev` and `next` links form the doubly-linked
    list `lru`, which has no repeats.
   */
  ghost predicate LinksOK(lru: seq<Record>, pos: map<Record, nat>, head: Record?, tail: Record?, prev: map<Record, Record?>, next: map<Record, Record?>)
  {
    && PosOK(lru, pos)
    && Members(lru, prev) && Members(lru, next)
    && head == (if lru == [] then null else lru[0])
    && tail == (if lru == [] then null else lru[|lru| - 1])
    && NextOK(lru, next) && PrevOK(lru, prev)
  }

  /** Each member's `next` is its successor in `lru`, and the last one's is null. */
  ghost predicate NextOK(lru: seq<Record>, next: map<Record, Record?>)
    requires Members(lru, next)
  {
    forall a {:trigger next[lru[a]]} :: 0 <= a < |lru| ==>
      next[lru[a]] == if a + 1 < |lru| then lru[a + 1] else null
  }

  /** Each member's `prev` is its predecessor in `lru`, and the first one's is null. */
  ghost predicate PrevOK(lru: seq<Record>, prev: map<Record, Record?>)
    requires Members(lru, prev)
  {
    forall a {:trigger prev[lru[a]]} :: 0 <= a < |lru| ==>
      prev[lru[a]] == if a > 0 then lru[a - 1] else null
  }

  /** LinksOK reads only the links of the members of the list. */
  lemma LinksFrame(lru: seq<Record>, pos: map<Record, nat>, head: Record?, tail: Record?, prev: map<Record, Record?>, next: map<Record, Record?>,
                   prev': map<Record, Record?>, next': map<Record, Record?>)
    requires LinksOK(lru, pos, head, tail, prev, next)
    requires forall a :: 0 <= a < |lru| ==> lru[a] in prev' && prev'[lru[a]] == prev[lru[a]]
    requires forall a :: 0 <= a < |lru| ==> lru[a] in next' && next'[lru[a]] == next[lru[a]]
    ensures LinksOK(lru, pos, head, tail, prev', next')
  {
  }

  /** The links of a record outside the list may be dropped. */
  lemma LinksDrop(lru: seq<Record>, pos: map<Record, nat>, head: Record?, tail: Record?, prev: map<Record, Record?>, next: map<Record, Record?>, r: Record)
    requires LinksOK(lru, pos, head, tail, prev, next) && r !in pos
    ensures LinksOK(lru, pos, head, tail, prev - {r}, next - {r})
  {
    forall a | 0 <= a < |lru|
      ensures lru[a] != r
    {
      assert lru[a] in pos;
    }
    LinksFrame(lru, pos, head, tail, prev, next, prev - {r}, next - {r});
  }

  /** A record outside the list may be given cleared links. */
  lemma LinksAdd(lru: seq<Record>, pos: map<Record, nat>, head: Record?, tail: Record?, prev: map<Record, Record?>, next: map<Record, Record?>, r: Record)
    requires LinksOK(lru, pos, head, tail, prev, next) && r !in pos
    ensures LinksOK(lru, pos, head, tail, prev[r := null], next[r := null])
  {
    forall a | 0 <= a < |lru|
      ensures lru[a] != r
    {
      assert lru[a] in pos;
    }
    LinksFrame(lru, pos, head, tail, prev, next, prev[r := null], next[r := null]);
  }

  /** A member's neighbours, read off its links, are the records next to it in `lru`. */
  lemma Neighbours(lru: seq<Record>, pos: map<Record, nat>, head: Record?, tail: Record?, prev: map<Record, Record?>, next: map<Record, Record?>, r: Record)
    requires LinksOK(lru, pos, head, tail, prev, next) && r in pos
    ensures lru[pos[r]] == r && r in prev && r in next
    ensures prev[r] == null <==> r == head
    ensures next[r] == null <==> r == tail
    ensures prev[r] != null ==> prev[r] in pos && pos[prev[r]] == pos[r] - 1 && prev[r] in next
    ensures next[r] != null ==> next[r] in pos && pos[next[r]] == pos[r] + 1 && next[r] in prev
  {
    var i := pos[r];
    assert next[lru[i]] == if i + 1 < |lru| then lru[i + 1] else null;
    assert prev[lru[i]] == if i > 0 then lru[i - 1] else null;
  }

  /** The `next` links after `lru_remove(r)`: the predecessor of `r` skips it and `r`'s own link is cleared. */
  ghost function UnlinkNext(prev: map<Record, Record?>, next: map<Record, Record?>, r: Record): (m: map<Record, Record?>)
    requires r in prev && r in next
    ensures m.Keys == next.Keys
    ensures forall x {:trigger m[x]} :: x in next ==> m[x] == if x == r then null else if x == prev[r] then next[r] else next[x]
  {
    var p, n := prev[r], next[r];
    (if p != null && p in next then next[p := n] else next)[r := null]
  }

  /** The `prev` links after `lru_remove(r)`: the successor of `r` skips it and `r`'s own link is cleared. */
  ghost function UnlinkPrev(prev: map<Record, Record?>, next: map<Record, Record?>, r: Record): (m: map<Record, Record?>)
    requires r in prev && r in next
    ensures m.Keys == prev.Keys
    ensures forall x {:trigger m[x]} :: x in prev ==> m[x] == if x == r then null else if x == next[r] then prev[r] else prev[x]
  {
    var p, n := prev[r], next[r];
    (if n != null && n in prev then prev[n := p] else prev)[r := null]
  }

  /** The `next` links after `lru_push_front(r)` with old head `h`. */
  ghost function LinkNext(next: map<Record, Record?>, r: Record, h: Record?): (m: map<Record, Record?>)
    requires r in next
    ensures m.Keys == next.Keys
    ensures forall x {:trigger m[x]} :: x in next ==> m[x] == if x == r then h else next[x]
  {
    next[r := h]
  }

  /** The `prev` links after `lru_push_front(r)` with old head `h`. */
  ghost function LinkPrev(prev: map<Record, Record?>, r: Record, h: Record?): (m: map<Record, Record?>)
    requires r in prev
    ensures m.Keys == prev.Keys
    ensures forall x {:trigger m[x]} :: x in prev ==> m[x] == if h != null && x == h then r else if x == r then null else prev[x]
  {
    var cleared := prev[r := null];
    if h != null && h in prev then cleared[h := r] else cleared
  }

  /**
    Unlinking member `r` leaves the list without it, renumbered, with the
    head or the tail moved on when `r` was one of them.
   */
  lemma UnlinkKeepsLinks(lru: seq<Record>, pos: map<Record, nat>, head: Record?, tail: Record?, prev: map<Record, Record?>, next: map<Record, Record?>, r: Record)
    requires LinksOK(lru, pos, head, tail, prev, next) && r in pos
    ensures r in prev && r in next
    ensures var p, n, i := prev[r], next[r], pos[r];
      LinksOK(Without(lru, i), RemovePos(pos, r, i),
              if p == null then n else head, if n == null then p else tail,
              UnlinkPrev(prev, next, r), UnlinkNext(prev, next, r))
  {
    Neighbours(lru, pos, head, tail, prev, next, r);
    var i := pos[r];
    var l' := Without(lru, i);
    var prev', next' := UnlinkPrev(prev, next, r), UnlinkNext(prev, next, r);
    RemovePosOK(lru, pos, i);
    forall a | 0 <= a < |l'|
      ensures l'[a] in next' && l'[a] in prev'
      ensures next'[l'[a]] == if a + 1 < |l'| then l'[a + 1] else null
      ensures prev'[l'[a]] == if a > 0 then l'[a - 1] else null
    {
      UnlinkNextAt(lru, pos, head, tail, prev, next, r, a);
      UnlinkPrevAt(lru, pos, head, tail, prev, next, r, a);
    }
    if l' != [] {
      assert l'[0] == if i == 0 then lru[1] else lru[0];
      assert l'[|l'| - 1] == if i == |lru| - 1 then lru[|lru| - 2] else lru[|lru| - 1];
    }
    var p, n := prev[r], next[r];
    assert PosOK(l', RemovePos(pos, r, i));
    assert Members(l', prev') && Members(l', next');
    assert (if p == null then n else head) == (if l' == [] then null else l'[0]);
    assert (if n == null then p else tail) == (if l' == [] then null else l'[|l'| - 1]);
    assert NextOK(l', next');
    assert PrevOK(l', prev');
  }

  /** The `next` link of the element at position `a` after unlinking. */
  lemma UnlinkNextAt(lru: seq<Record>, pos: map<Record, nat>, head: Record?, tail: Record?, prev: map<Record, Record?>, next: map<Record, Record?>, r: Record, a: nat)
    requires LinksOK(lru, pos, head, tail, prev, next) && r in pos && a + 1 < |lru|
    ensures r in prev && r in next
    ensures var l' := Without(lru, pos[r]);
      && l'[a] in next
      && UnlinkNext(prev, next, r)[l'[a]] == (if a + 1 < |l'| then l'[a + 1] else null)
  {
    Neighbours(lru, pos, head, tail, prev, next, r);
    if a + 1 == pos[r] {
      UnlinkNextBefore(lru, pos, head, tail, prev, next, r, a);
    } else {
      UnlinkNextElsewhere(lru, pos, head, tail, prev, next, r, a);
    }
  }

  /** The predecessor of `r` now links to the successor of `r`. */
  lemma UnlinkNextBefore(lru: seq<Record>, pos: map<Record, nat>, head: Record?, tail: Record?, prev: map<Record, Record?>, next: map<Record, Record?>, r: Record, a: nat)
    requires LinksOK(lru, pos, head, tail, prev, next) && r in pos && a + 1 == pos[r]
    requires r in prev && r in next && lru[pos[r]] == r
    ensures var l' := Without(lru, pos[r]);
      && l'[a] in next
      && UnlinkNext(prev, next, r)[l'[a]] == (if a + 1 < |l'| then l'[a + 1] else null)
  {
    var i := pos[r];
    var l' := Without(lru, i);
    assert l'[a] == lru[i - 1] == prev[r];
    assert next[r] == if i + 1 < |lru| then lru[i + 1] else null;
    if a + 1 < |l'| {
      assert l'[a + 1] == lru[i + 1];
    }
  }

  /** Every other member keeps its successor. */
  lemma UnlinkNextElsewhere(lru: seq<Record>, pos: map<Record, nat>, head: Record?, tail: Record?, prev: map<Record, Record?>, next: map<Record, Record?>, r: Record, a: nat)
    requires LinksOK(lru, pos, head, tail, prev, next) && r in pos && a + 1 < |lru| && a + 1 != pos[r]
    requires r in prev && r in next && lru[pos[r]] == r
    requires prev[r] != null ==> pos[prev[r]] == pos[r] - 1
    ensures var l' := Without(lru, pos[r]);
      && l'[a] in next
      && UnlinkNext(prev, next, r)[l'[a]] == (if a + 1 < |l'| then l'[a + 1] else null)
  {
    var i := pos[r];
    var l' := Without(lru, i);
    var b := if a < i then a else a + 1;
    assert l'[a] == lru[b];
    assert lru[b] != r && lru[b] != prev[r];
    assert next[lru[b]] == if b + 1 < |lru| then lru[b + 1] else null;
    if a + 1 < |l'| {
      assert l'[a + 1] == lru[b + 1];
    }
  }

  /** The `prev` link of the element at position `a` after unlinking. */
  lemma UnlinkPrevAt(lru: seq<Record>, pos: map<Record, nat>, head: Record?, tail: Record?, prev: map<Record, Record?>, next: map<Record, Record?>, r: Record, a: nat)
    requires LinksOK(lru, pos, head, tail, prev, next) && r in pos && a + 1 < |lru|
    ensures r in prev && r in next
    ensures var l' := Without(lru, pos[r]);
      && l'[a] in prev
      && UnlinkPrev(prev, next, r)[l'[a]] == (if a > 0 then l'[a - 1] else null)
  {
    Neighbours(lru, pos, head, tail, prev, next, r);
    if a == pos[r] {
      UnlinkPrevAfter(lru, pos, head, tail, prev, next, r, a);
    } else {
      UnlinkPrevElsewhere(lru, pos, head, tail, prev, next, r, a);
    }
  }

  /** The successor of `r` now links back to the predecessor of `r`. */
  lemma UnlinkPrevAfter(lru: seq<Record>, pos: map<Record, nat>, head: Record?, tail: Record?, prev: map<Record, Record?>, next: map<Record, Record?>, r: Record, a: nat)
    requires LinksOK(lru, pos, head, tail, prev, next) && r in pos && a == pos[r] && a + 1 < |lru|
    requires r in prev && r in next && lru[pos[r]] == r
    ensures var l' := Without(lru, pos[r]);
      && l'[a] in prev
      && UnlinkPrev(prev, next, r)[l'[a]] == (if a > 0 then l'[a - 1] else null)
  {
    var i := pos[r];
    var l' := Without(lru, i);
    assert l'[a] == lru[i + 1] == next[r];
    assert prev[r] == if i > 0 then lru[i - 1] else null;
    if a > 0 {
      assert l'[a - 1] == lru[i - 1];
    }
  }

  /** Every other member keeps its predecessor. */
  lemma UnlinkPrevElsewhere(lru: seq<Record>, pos: map<Record, nat>, head: Record?, tail: Record?, prev: map<Record, Record?>, next: map<Record, Record?>, r: Record, a: nat)
    requires LinksOK(lru, pos, head, tail, prev, next) && r in pos && a + 1 < |lru| && a != pos[r]
    requires r in prev && r in next && lru[pos[r]] == r
    requires next[r] != null ==> pos[next[r]] == pos[r] + 1
    ensures var l' := Without(lru, pos[r]);
      && l'[a] in prev
      && UnlinkPrev(prev, next, r)[l'[a]] == (if a > 0 then l'[a - 1] else null)
  {
    var i := pos[r];
    var l' := Without(lru, i);
    var b := if a < i then a else a + 1;
    assert l'[a] == lru[b];
    assert lru[b] != r && lru[b] != next[r];
    assert prev[lru[b]] == if b > 0 then lru[b - 1] else null;
    if a > 0 {
      assert l'[a - 1] == lru[b - 1];
    }
  }

  /** Linking a non-member `r` before the head makes it the new head of the list. */
  lemma LinkKeepsLinks(lru: seq<Record>, pos: map<Record, nat>, head: Record?, tail: Record?, prev: map<Record, Record?>, next: map<Record, Record?>, r: Record)
    requires LinksOK(lru, pos, head, tail, prev, next) && r in prev && r in next && r !in pos
    ensures LinksOK([r] + lru, PushPos(pos, r), r, if head == null then r else tail,
                    LinkPrev(prev, r, head), LinkNext(next, r, head))
  {
    var l' := [r] + lru;
    var prev', next' := LinkPrev(prev, r, head), LinkNext(next, r, head);
    PushPosOK(lru, pos, r);
    forall a | 0 <= a < |l'|
      ensures l'[a] in next' && l'[a] in prev'
      ensures next'[l'[a]] == if a + 1 < |l'| then l'[a + 1] else null
      ensures prev'[l'[a]] == if a > 0 then l'[a - 1] else null
    {
      if a > 0 {
        assert l'[a] == lru[a - 1] != r;
        assert next[lru[a - 1]] == if a < |lru| then lru[a] else null;
        assert prev[lru[a - 1]] == if a > 1 then lru[a - 2] else null;
        if a > 1 {
          assert lru[a - 1] != head;
        }
      }
    }
  }
}
