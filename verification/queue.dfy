/**
  The intrusive circular doubly-linked queue of ngx_queue.h.

  Every queue node is a pair of pointers, prev and next, embedded in some larger object;
  a queue is a sentinel node whose ring of links runs through its elements and back. The
  macros only rewrite link fields, so the model is the memory of all nodes' links, keyed
  by node address, and each macro is its assignments applied one after another, in the
  order the macro writes them, so that aliasing (a node that is its own neighbour)
  behaves as in the source.
 */
module Queue {
  import opened Config

  /** The two pointers of an ngx_queue_t. */
  datatype Link = Link(prev: nat, next: nat)

  /** The link fields of every node in memory, by the node's address. */
  type Links = map<nat, Link>

  function SetPrev(m: Links, a: nat, v: nat): (r: Links)
    requires a in m
  {
    m[a := m[a].(prev := v)]
  }

  function SetNext(m: Links, a: nat, v: nat): (r: Links)
    requires a in m
  {
    m[a := m[a].(next := v)]
  }

  // ---------------------------------------------------------------------------
  // The ring invariant

  /** The nodes of `ring` are pairwise distinct. */
  predicate Distinct(ring: seq<nat>)
  {
    forall i, j | 0 <= i < j < |ring| :: ring[i] != ring[j]
  }

  /**
    m links the nodes of `ring` into one cycle, in order: each node's next is the node
    after it and that node's prev points back, and the last node closes the ring to the
    first. ring[0] is the sentinel; ring[1..] are the queue's elements, head first.
   */
  predicate Ring(m: Links, ring: seq<nat>)
  {
    && |ring| >= 1
    && Distinct(ring)
    && Chained(m, ring)
    && m[ring[|ring| - 1]].next == ring[0]
    && m[ring[0]].prev == ring[|ring| - 1]
  }

  /** Each node of s (all in m) is followed by the next one in s, which points back to it. */
  predicate Chained(m: Links, s: seq<nat>)
  {
    && (forall i | 0 <= i < |s| :: s[i] in m)
    && (forall i | 0 <= i < |s| - 1 :: m[s[i]].next == s[i + 1])
    && (forall i | 0 <= i < |s| - 1 :: m[s[i + 1]].prev == s[i])
  }

  /** The queue with sentinel h holds exactly xs, in order from head to last. */
  predicate QueueIs(m: Links, h: nat, xs: seq<nat>)
  {
    Ring(m, [h] + xs)
  }

  // ---------------------------------------------------------------------------
  // The macros (ngx_queue.h:56-137)

  /** ngx_queue_init: the node points at itself both ways. */
  function Init(m: Links, q: nat): (r: Links)
    ensures r.Keys == m.Keys + {q}
    ensures r[q] == Link(q, q)
    ensures forall a | a in m && a != q :: r[a] == m[a]
  {
    m[q := Link(q, q)]
  }

  /** ngx_queue_empty: the sentinel is its own predecessor. */
  predicate Empty(m: Links, h: nat)
    requires h in m
  {
    h == m[h].prev
  }

  /** ngx_queue_head: the sentinel's successor. */
  function Head(m: Links, h: nat): nat
    requires h in m
  {
    m[h].next
  }

  /** ngx_queue_last: the sentinel's predecessor. */
  function Last(m: Links, h: nat): nat
    requires h in m
  {
    m[h].prev
  }

  /** ngx_queue_sentinel: the queue node itself, where a walk stops. */
  function Sentinel(h: nat): nat
  {
    h
  }

  /** ngx_queue_next. */
  function Next(m: Links, q: nat): nat
    requires q in m
  {
    m[q].next
  }

  /** ngx_queue_prev. */
  function Prev(m: Links, q: nat): nat
    requires q in m
  {
    m[q].prev
  }

  /**
    ngx_queue_insert_head (and ngx_queue_insert_after): x goes right after h. The four
    assignments in the macro's order; afterwards h's successor is x, x's successor is h's
    old successor, whose predecessor is x, and no other node changes.
   */
  function InsertHead(m: Links, h: nat, x: nat): (r: Links)
    requires h in m && x in m && m[h].next in m
    ensures r.Keys == m.Keys
    ensures x != h && x != m[h].next ==>
              var n := m[h].next;
              && r[x] == Link(h, n)
              && r[h] == Link(if n == h then x else m[h].prev, x)
              && (n != h ==> r[n] == Link(x, m[n].next))
    ensures forall a | a in m && a != h && a != x && a != m[h].next :: r[a] == m[a]
  {
    var m1 := SetNext(m, x, m[h].next);
    var m2 := SetPrev(m1, m1[x].next, x);
    var m3 := SetPrev(m2, x, h);
    SetNext(m3, h, x)
  }

  /**
    ngx_queue_insert_tail: x goes right before h. Afterwards h's predecessor is x, x's
    successor is h, x's predecessor is h's old predecessor, whose successor is x, and no
    other node changes.
   */
  function InsertTail(m: Links, h: nat, x: nat): (r: Links)
    requires h in m && x in m && m[h].prev in m
    ensures r.Keys == m.Keys
    ensures x != h && x != m[h].prev ==>
              var p := m[h].prev;
              && r[x] == Link(p, h)
              && r[h] == Link(x, if p == h then x else m[h].next)
              && (p != h ==> r[p] == Link(m[p].prev, x))
    ensures forall a | a in m && a != h && a != x && a != m[h].prev :: r[a] == m[a]
  {
    var m1 := SetPrev(m, x, m[h].prev);
    var m2 := SetNext(m1, m1[x].prev, x);
    var m3 := SetNext(m2, x, h);
    SetPrev(m3, h, x)
  }

  /**
    ngx_queue_remove without NGX_DEBUG: x's neighbours are linked to each other; x's own
    links are left as they were unless x is its own neighbour.
   */
  function Remove(m: Links, x: nat): (r: Links)
    requires x in m && m[x].next in m && m[x].prev in m
    ensures r.Keys == m.Keys
    ensures m[x].next != x && m[x].prev != x ==>
              var n, p := m[x].next, m[x].prev;
              && r[x] == m[x]
              && (n == p ==> r[n] == Link(n, n))
              && (n != p ==> r[n] == Link(p, m[n].next) && r[p] == Link(m[p].prev, n))
    ensures forall a | a in m && a != x && a != m[x].next && a != m[x].prev :: r[a] == m[a]
  {
    var m1 := SetPrev(m, m[x].next, m[x].prev);
    SetNext(m1, m1[x].prev, m1[x].next)
  }

  /** ngx_queue_remove with NGX_DEBUG: as above, then both of x's links are set to NULL. */
  function RemoveDebug(m: Links, x: nat): (r: Links)
    requires x in m && m[x].next in m && m[x].prev in m
    ensures r.Keys == m.Keys
    ensures r[x] == Link(Null, Null)
    ensures forall a | a in m && a != x :: r[a] == Remove(m, x)[a]
  {
    var m1 := Remove(m, x);
    SetNext(SetPrev(m1, x, Null), x, Null)
  }

  // ---------------------------------------------------------------------------
  // The ring through the macros

  /** A freshly initialised node is an empty queue. */
  lemma InitIsEmpty(m: Links, q: nat)
    ensures QueueIs(Init(m, q), q, [])
    ensures Empty(Init(m, q), q)
  {
    assert [q] + [] == [q];
  }

  /** ngx_queue_empty is true exactly when the queue holds no element. */
  lemma EmptyIff(m: Links, h: nat, xs: seq<nat>)
    requires QueueIs(m, h, xs)
    ensures Empty(m, h) <==> xs == []
  {
    var ring := [h] + xs;
    if xs != [] {
      assert ring[|ring| - 1] == xs[|xs| - 1] != h;
    }
  }

  /**
    ngx_queue_head and ngx_queue_last name the first and the last element, and the
    sentinel itself when the queue is empty; ngx_queue_next of the last element and
    ngx_queue_prev of the first are the sentinel, which is where a walk stops.
   */
  lemma HeadAndLast(m: Links, h: nat, xs: seq<nat>)
    requires QueueIs(m, h, xs)
    ensures xs != [] ==> xs[0] in m && xs[|xs| - 1] in m
    ensures xs == [] ==> Head(m, h) == Sentinel(h) && Last(m, h) == Sentinel(h)
    ensures xs != [] ==> Head(m, h) == xs[0] && Last(m, h) == xs[|xs| - 1]
    ensures xs != [] ==> Next(m, xs[|xs| - 1]) == Sentinel(h) && Prev(m, xs[0]) == Sentinel(h)
  {
    var ring := [h] + xs;
    if xs != [] {
      assert ring[1] == xs[0] && ring[|ring| - 1] == xs[|xs| - 1];
    }
  }

  /** Walking with ngx_queue_next and ngx_queue_prev visits the elements in order. */
  lemma Walk(m: Links, h: nat, xs: seq<nat>, i: nat)
    requires QueueIs(m, h, xs) && i < |xs|
    ensures xs[i] in m
    ensures Next(m, xs[i]) == (if i + 1 < |xs| then xs[i + 1] else Sentinel(h))
    ensures Prev(m, xs[i]) == (if i > 0 then xs[i - 1] else Sentinel(h))
  {
    var ring := [h] + xs;
    assert ring[i + 1] == xs[i];
    if i + 1 < |xs| {
      assert ring[i + 2] == xs[i + 1];
    }
    if i > 0 {
      assert ring[i] == xs[i - 1];
    }
  }

  /**
    Inserting a node that is not in the ring right after ring[k] splices it in there:
    the ring invariant is kept and the new ring is the old one with x after position k.
   */
  lemma InsertAfterRing(m: Links, ring: seq<nat>, k: nat, x: nat)
    requires Ring(m, ring) && k < |ring| && x in m && x !in ring
    ensures m[ring[k]].next in m
    ensures Ring(InsertHead(m, ring[k], x), ring[..k + 1] + [x] + ring[k + 1..])
  {
    var n := |ring|;
    var nxt := if k + 1 < n then ring[k + 1] else ring[0];
    assert m[ring[k]].next == nxt;
    var r := InsertHead(m, ring[k], x);
    var s := ring[..k + 1] + [x] + ring[k + 1..];
    SpliceIndices(ring, k, x);
    InsertAfterLinks(m, ring, k, x, s);
    if k + 1 < n {
      assert s[|s| - 1] == ring[n - 1];
      assert ring[n - 1] != ring[k] && ring[n - 1] != x;
      if ring[n - 1] == nxt {
        assert k + 1 == n - 1;
      }
      assert s[0] != x && s[0] != nxt;
      if k != 0 {
        assert s[0] != ring[k];
      }
    } else {
      assert s[|s| - 1] == x;
    }
  }

  /** Where the nodes of a ring with x spliced in after position k sit. */
  lemma SpliceIndices(ring: seq<nat>, k: nat, x: nat)
    requires Distinct(ring) && k < |ring| && x !in ring
    ensures var s := ring[..k + 1] + [x] + ring[k + 1..];
            && |s| == |ring| + 1 && s[k + 1] == x && Distinct(s)
            && (forall i | 0 <= i <= k :: s[i] == ring[i])
            && (forall i | k + 2 <= i < |s| :: s[i] == ring[i - 1])
  {
    var s := ring[..k + 1] + [x] + ring[k + 1..];
    assert forall i | 0 <= i <= k :: s[i] == ring[i];
    assert forall i | k + 2 <= i < |s| :: s[i] == ring[i - 1];
    forall i, j | 0 <= i < j < |s|
      ensures s[i] != s[j]
    {
    }
  }

  /** The consecutive links of a ring with x inserted after ring[k]. */
  lemma InsertAfterLinks(m: Links, ring: seq<nat>, k: nat, x: nat, s: seq<nat>)
    requires Ring(m, ring) && k < |ring| && x in m && x !in ring && m[ring[k]].next in m
    requires s == ring[..k + 1] + [x] + ring[k + 1..]
    ensures Chained(InsertHead(m, ring[k], x), s)
  {
    var n := |ring|;
    var nxt := if k + 1 < n then ring[k + 1] else ring[0];
    assert m[ring[k]].next == nxt;
    var r := InsertHead(m, ring[k], x);
    SpliceIndices(ring, k, x);
    forall i | 0 <= i < |s| - 1
      ensures r[s[i]].next == s[i + 1] && r[s[i + 1]].prev == s[i]
    {
      if i < k {
        assert s[i] == ring[i] && s[i + 1] == ring[i + 1];
        assert s[i] != ring[k] && s[i] != x && s[i + 1] != x && nxt != ring[k];
        if s[i] == nxt {
          assert i == 0 && k + 1 == n;
        }
        if i + 1 < k {
          assert s[i + 1] != ring[k] && s[i + 1] != nxt;
        }
      } else if i == k {
      } else if i == k + 1 {
      } else {
        assert s[i] != ring[k] && s[i] != x;
        if s[i] == nxt {
          assert i == k + 2;
        }
        assert s[i + 1] != ring[k] && s[i + 1] != x && s[i + 1] != nxt;
      }
    }
  }

  /** ngx_queue_insert_head puts x first: the queue holds x, then the old elements. */
  lemma InsertHeadQueue(m: Links, h: nat, xs: seq<nat>, x: nat)
    requires QueueIs(m, h, xs) && x in m && x != h && x !in xs
    ensures m[h].next in m
    ensures QueueIs(InsertHead(m, h, x), h, [x] + xs)
  {
    var ring := [h] + xs;
    InsertAfterRing(m, ring, 0, x);
    assert ring[..1] + [x] + ring[1..] == [h] + ([x] + xs);
  }

  /** ngx_queue_insert_tail puts x last: the queue holds the old elements, then x. */
  lemma InsertTailQueue(m: Links, h: nat, xs: seq<nat>, x: nat)
    requires QueueIs(m, h, xs) && x in m && x != h && x !in xs
    ensures m[h].prev in m
    ensures QueueIs(InsertTail(m, h, x), h, xs + [x])
  {
    var ring := [h] + xs;
    var k := |ring| - 1;
    TailIsAfterLast(m, ring, x);
    InsertAfterRing(m, ring, k, x);
    assert ring[..k + 1] + [x] + ring[k + 1..] == [h] + (xs + [x]);
  }

  /** Inserting at the tail is inserting after the last node of the ring. */
  lemma TailIsAfterLast(m: Links, ring: seq<nat>, x: nat)
    requires Ring(m, ring) && x in m && x !in ring
    ensures m[ring[0]].prev in m && m[ring[|ring| - 1]].next in m
    ensures InsertTail(m, ring[0], x) == InsertHead(m, ring[|ring| - 1], x)
  {
    var h := ring[0];
    var l := ring[|ring| - 1];
    var t := InsertTail(m, h, x);
    var a := InsertHead(m, l, x);
    assert t.Keys == a.Keys;
    forall y | y in t
      ensures t[y] == a[y]
    {
    }
  }

  /**
    Removing the element at position k of the ring (never the sentinel) unlinks it: the
    ring invariant is kept over the remaining nodes, in the same order.
   */
  lemma RemoveRing(m: Links, ring: seq<nat>, k: nat)
    requires Ring(m, ring) && 1 <= k < |ring|
    ensures ring[k] in m && m[ring[k]].next in m && m[ring[k]].prev in m
    ensures Ring(Remove(m, ring[k]), ring[..k] + ring[k + 1..])
  {
    var x := ring[k];
    var n := |ring|;
    var nxt := if k + 1 < n then ring[k + 1] else ring[0];
    var prv := ring[k - 1];
    assert m[x].next == nxt && m[x].prev == prv;
    var r := Remove(m, x);
    var s := ring[..k] + ring[k + 1..];
    CutIndices(ring, k);
    RemoveLinks(m, ring, k, s);
    if k + 1 < n {
      assert s[|s| - 1] == ring[n - 1];
      assert s[0] == ring[0];
      assert ring[n - 1] != x && ring[0] != x;
      if ring[0] == prv {
        assert k == 1;
      }
    } else {
      assert s[|s| - 1] == prv;
      assert s[0] == nxt;
    }
  }

  /** Where the nodes of a ring with position k cut out sit. */
  lemma CutIndices(ring: seq<nat>, k: nat)
    requires Distinct(ring) && k < |ring|
    ensures var s := ring[..k] + ring[k + 1..];
            && |s| == |ring| - 1 && Distinct(s) && ring[k] !in s
            && (forall i | 0 <= i < k :: s[i] == ring[i])
            && (forall i | k <= i < |s| :: s[i] == ring[i + 1])
  {
    var s := ring[..k] + ring[k + 1..];
    assert forall i | 0 <= i < k :: s[i] == ring[i];
    assert forall i | k <= i < |s| :: s[i] == ring[i + 1];
    forall i, j | 0 <= i < j < |s|
      ensures s[i] != s[j]
    {
    }
  }

  /** The consecutive links of a ring with the node at position k removed. */
  lemma RemoveLinks(m: Links, ring: seq<nat>, k: nat, s: seq<nat>)
    requires Ring(m, ring) && 1 <= k < |ring| && m[ring[k]].next in m && m[ring[k]].prev in m
    requires s == ring[..k] + ring[k + 1..]
    ensures Chained(Remove(m, ring[k]), s)
  {
    var x := ring[k];
    var n := |ring|;
    var nxt := if k + 1 < n then ring[k + 1] else ring[0];
    var prv := ring[k - 1];
    assert m[x].next == nxt && m[x].prev == prv;
    var r := Remove(m, x);
    CutIndices(ring, k);
    forall i | 0 <= i < |s| - 1
      ensures r[s[i]].next == s[i + 1] && r[s[i + 1]].prev == s[i]
    {
      if i < k - 1 {
        assert s[i] != x && s[i] != prv;
        if s[i] == nxt {
          assert i == 0 && k + 1 == n;
        }
        assert s[i + 1] != x && s[i + 1] != nxt;
      } else if i == k - 1 {
        assert s[i] == prv && s[i + 1] == nxt;
      } else {
        assert (s[i] != x && s[i] != prv && s[i] != nxt) || i == k;
        assert s[i + 1] != x && s[i + 1] != prv && s[i + 1] != nxt;
      }
    }
  }

  /** ngx_queue_remove of the element at index i leaves the others, in their order. */
  lemma RemoveQueue(m: Links, h: nat, xs: seq<nat>, i: nat)
    requires QueueIs(m, h, xs) && i < |xs|
    ensures xs[i] in m && m[xs[i]].next in m && m[xs[i]].prev in m
    ensures QueueIs(Remove(m, xs[i]), h, xs[..i] + xs[i + 1..])
  {
    var ring := [h] + xs;
    assert ring[i + 1] == xs[i];
    RemoveRing(m, ring, i + 1);
    assert ring[..i + 1] + ring[i + 2..] == [h] + (xs[..i] + xs[i + 1..]);
  }

  /** With NGX_DEBUG, ngx_queue_remove leaves the same queue behind. */
  lemma RemoveDebugQueue(m: Links, h: nat, xs: seq<nat>, i: nat)
    requires QueueIs(m, h, xs) && i < |xs|
    ensures xs[i] in m && m[xs[i]].next in m && m[xs[i]].prev in m
    ensures QueueIs(RemoveDebug(m, xs[i]), h, xs[..i] + xs[i + 1..])
  {
    RemoveQueue(m, h, xs, i);
    var ring := [h] + xs;
    assert ring[i + 1] == xs[i];
    CutIndices(ring, i + 1);
    assert ring[..i + 1] + ring[i + 2..] == [h] + (xs[..i] + xs[i + 1..]);
    RingReadsOnlyItsNodes(Remove(m, xs[i]), RemoveDebug(m, xs[i]), [h] + (xs[..i] + xs[i + 1..]));
  }

  /** Whether nodes form a ring depends only on those nodes' links. */
  lemma RingReadsOnlyItsNodes(m: Links, q: Links, ring: seq<nat>)
    requires Ring(m, ring)
    requires forall i | 0 <= i < |ring| :: ring[i] in q && q[ring[i]] == m[ring[i]]
    ensures Ring(q, ring)
  {
  }

  /**
    Inserting a node at the head and removing it again restores every other node's links;
    only the removed node keeps the links it was given.
   */
  lemma InsertHeadThenRemove(m: Links, h: nat, xs: seq<nat>, x: nat)
    requires QueueIs(m, h, xs) && x in m && x != h && x !in xs
    ensures m[h].next in m
    ensures var r := InsertHead(m, h, x);
            && x in r && r[x].next in r && r[x].prev in r
            && Remove(r, x).Keys == m.Keys
            && forall a | a in m && a != x :: Remove(r, x)[a] == m[a]
  {
    InsertHeadQueue(m, h, xs, x);
    var r := InsertHead(m, h, x);
    RemoveQueue(r, h, [x] + xs, 0);
    assert ([x] + xs)[0] == x;
    var q := Remove(r, x);
    assert ([x] + xs)[..0] + ([x] + xs)[1..] == xs;
    SameRingSameLinks(q, m, [h] + xs);
    assert m[h].next == ([h] + xs)[if xs == [] then 0 else 1];
    forall a | a in m && a != x
      ensures q[a] == m[a]
    {
      if a in [h] + xs {
        var i :| 0 <= i < |[h] + xs| && ([h] + xs)[i] == a;
      }
    }
  }

  /** Inserting a node at the tail and removing it again restores every other node's links. */
  lemma InsertTailThenRemove(m: Links, h: nat, xs: seq<nat>, x: nat)
    requires QueueIs(m, h, xs) && x in m && x != h && x !in xs
    ensures m[h].prev in m
    ensures var r := InsertTail(m, h, x);
            && x in r && r[x].next in r && r[x].prev in r
            && Remove(r, x).Keys == m.Keys
            && forall a | a in m && a != x :: Remove(r, x)[a] == m[a]
  {
    InsertTailQueue(m, h, xs, x);
    var r := InsertTail(m, h, x);
    RemoveQueue(r, h, xs + [x], |xs|);
    assert (xs + [x])[|xs|] == x;
    var q := Remove(r, x);
    assert (xs + [x])[..|xs|] + (xs + [x])[|xs| + 1..] == xs;
    SameRingSameLinks(q, m, [h] + xs);
    forall a | a in m && a != x
      ensures q[a] == m[a]
    {
      if a in [h] + xs {
        var i :| 0 <= i < |[h] + xs| && ([h] + xs)[i] == a;
      }
    }
  }

  /**
    Two link maps that agree off the ring and both link the ring in the same order agree
    everywhere: the ring determines its nodes' links.
   */
  lemma SameRingSameLinks(q: Links, m: Links, ring: seq<nat>)
    requires Ring(q, ring) && Ring(m, ring)
    ensures forall i | 0 <= i < |ring| :: q[ring[i]] == m[ring[i]]
  {
    forall i | 0 <= i < |ring|
      ensures q[ring[i]] == m[ring[i]]
    {
      if i > 0 {
        assert q[ring[i]].prev == ring[i - 1] == m[ring[i]].prev;
      }
      if i < |ring| - 1 {
        assert q[ring[i]].next == ring[i + 1] == m[ring[i]].next;
      }
    }
  }
}
