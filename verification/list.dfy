/**
  The part list of ngx_list.c and ngx_list.h.

  A list is a chain of parts, each a fixed-capacity array of elements allocated from the
  pool. The chain is a sequence in the model: the `next` pointer of each part is stored
  and must name the part after it, and the last part's is NULL. Only the last part takes
  new elements; when it is full a new part is appended.
 */
module List {
  import opened Config
  import opened Palloc

  /** sizeof(ngx_list_part_t) on LP64: elts, nelts and next. */
  const PartHeader: nat := 24

  /** sizeof(ngx_list_t) on LP64: last, the embedded first part, size, nalloc and pool. */
  const ListHeader: nat := 56

  /** Offset of the embedded first part inside ngx_list_t. */
  const FirstPartOffset: nat := 8

  /** An ngx_list_part_t at address `addr`. */
  datatype Part = Part(addr: nat, elts: nat, nelts: nat, next: nat)

  /** An ngx_list_t: its part chain, the `last` pointer, and size and nalloc. */
  datatype PartList = PartList(parts: seq<Part>, last: nat, size: nat, nalloc: nat)

  /** Each part's `next` names the part after it; the last part's is NULL; `last` names the last part. */
  predicate Linked(l: PartList)
  {
    && |l.parts| >= 1
    && (forall k | 0 <= k < |l.parts| - 1 :: l.parts[k].next == l.parts[k + 1].addr)
    && l.parts[|l.parts| - 1].next == Null
    && l.last == l.parts[|l.parts| - 1].addr
  }

  /**
    The list invariant: the chain is linked, every part has a backing array, every part
    before the last is full, and the last part holds at most nalloc elements and at
    least one when it is not the first. Lists are created with a positive part capacity.
   */
  predicate ListWf(l: PartList)
  {
    && Linked(l)
    && l.nalloc >= 1
    && (forall k | 0 <= k < |l.parts| :: l.parts[k].elts != Null && l.parts[k].addr != Null)
    && (forall k | 0 <= k < |l.parts| - 1 :: l.parts[k].nelts == l.nalloc)
    && l.parts[|l.parts| - 1].nelts <= l.nalloc
    && (|l.parts| > 1 ==> l.parts[|l.parts| - 1].nelts >= 1)
  }

  /** The addresses of a part's elements, in order. */
  function PartSlots(p: Part, size: nat): (s: seq<nat>)
    ensures |s| == p.nelts
    ensures forall i | 0 <= i < p.nelts :: s[i] == p.elts + size * i
  {
    seq(p.nelts, (i: int) requires 0 <= i => p.elts + size * i)
  }

  /** Every element's address, part by part: the order the list holds them in. */
  function Slots(ps: seq<Part>, size: nat): (s: seq<nat>)
    decreases |ps|
  {
    if |ps| == 0 then [] else Slots(ps[..|ps| - 1], size) + PartSlots(ps[|ps| - 1], size)
  }

  /** The number of elements in the chain. */
  function Count(ps: seq<Part>): (n: nat)
    decreases |ps|
  {
    if |ps| == 0 then 0 else Count(ps[..|ps| - 1]) + ps[|ps| - 1].nelts
  }

  /** There is one slot per element. */
  lemma {:induction false} SlotsCount(ps: seq<Part>, size: nat)
    ensures |Slots(ps, size)| == Count(ps)
    decreases |ps|
  {
    if |ps| > 0 {
      SlotsCount(ps[..|ps| - 1], size);
    }
  }

  // ---------------------------------------------------------------------------
  // ngx_list_init (ngx_list.h:30-44) and ngx_list_create (ngx_list.c:5-25)

  datatype ListInited = ListInited(rc: int, list: PartList, pool: Pool, heap: Heap)

  /**
    ngx_list_init for the list header at `at`: one embedded part with an n * size byte
    backing array, no elements and no successor, and `last` pointing at it. NGX_ERROR
    exactly when the backing array cannot be allocated.
   */
  function ListInit(at: nat, p: Pool, h: Heap, n: nat, size: nat): (r: ListInited)
    requires WfIn(p, h)
    ensures WfIn(r.pool, r.heap)
    ensures r.rc == Ok || r.rc == Error
    ensures r.rc == Error <==> Palloc.Palloc(p, h, n * size).ptr == Null
    ensures r.rc == Ok ==>
              && r.list.parts == [Part(at + FirstPartOffset, Palloc.Palloc(p, h, n * size).ptr, 0, Null)]
              && r.list.last == at + FirstPartOffset && r.list.size == size && r.list.nalloc == n
              && Linked(r.list) && Slots(r.list.parts, size) == []
  {
    var c := Palloc.Palloc(p, h, n * size);
    var first := Part(at + FirstPartOffset, c.ptr, 0, Null);
    var l := PartList([first], first.addr, size, n);
    assert l.parts[..0] == [];
    ListInited(if c.ptr == Null then Error else Ok, l, c.pool, c.heap)
  }

  /** A list header and its list; hdr is NULL when creation failed. */
  datatype ListCreated = ListCreated(hdr: nat, list: PartList, pool: Pool, heap: Heap)

  /**
    ngx_list_create: the 56-byte header from the pool, then ngx_list_init on it; NULL when
    either allocation fails. A created list with n >= 1 satisfies the list invariant and
    holds no elements.
   */
  function ListCreate(p: Pool, h: Heap, n: nat, size: nat): (r: ListCreated)
    requires WfIn(p, h)
    ensures WfIn(r.pool, r.heap)
    ensures r.hdr == Null <==>
              Palloc.Palloc(p, h, ListHeader).ptr == Null
              || ListInit(Palloc.Palloc(p, h, ListHeader).ptr, Palloc.Palloc(p, h, ListHeader).pool,
                          Palloc.Palloc(p, h, ListHeader).heap, n, size).rc == Error
    ensures r.hdr != Null ==>
              && r.list.size == size && r.list.nalloc == n && r.list.last == r.hdr + FirstPartOffset
              && |r.list.parts| == 1 && Count(r.list.parts) == 0
              && (n >= 1 ==> ListWf(r.list))
  {
    var c := Palloc.Palloc(p, h, ListHeader);
    if c.ptr == Null then ListCreated(Null, PartList([], Null, size, n), c.pool, c.heap)
    else
      var i := ListInit(c.ptr, c.pool, c.heap, n, size);
      assert i.rc == Ok ==> i.list.parts[..0] == [];
      ListCreated(if i.rc == Ok then c.ptr else Null, i.list, i.pool, i.heap)
  }

  // ---------------------------------------------------------------------------
  // ngx_list_push (ngx_list.c:28-63)

  /** What ngx_list_push returns: the slot pointer (NULL on failure) and the new state. */
  datatype ListPushed = ListPushed(elt: nat, list: PartList, pool: Pool, heap: Heap)

  /** The chain with its last part holding one more element. */
  function BumpLast(l: PartList): (r: PartList)
    requires |l.parts| >= 1
  {
    var k := |l.parts| - 1;
    l.(parts := l.parts[k := l.parts[k].(nelts := l.parts[k].nelts + 1)])
  }

  /** The chain with a new one-element part at `addr` linked after the last part. */
  function AppendPart(l: PartList, addr: nat, elts: nat): (r: PartList)
    requires |l.parts| >= 1
  {
    var k := |l.parts| - 1;
    l.(parts := l.parts[k := l.parts[k].(next := addr)] + [Part(addr, elts, 1, Null)], last := addr)
  }

  /**
    ngx_list_push: the next slot of the last part when it has room; otherwise a new part
    (a 24-byte header and an nalloc * size byte array from the pool) linked after the last
    one and made `last`, whose first slot is returned. NULL when either allocation fails,
    with the chain unchanged. A successful push keeps the invariant and appends exactly
    the returned slot to the list's elements.
   */
  function ListPush(l: PartList, p: Pool, h: Heap): (r: ListPushed)
    requires WfIn(p, h) && ListWf(l)
    ensures WfIn(r.pool, r.heap)
    ensures r.elt == Null ==> r.list == l
    ensures r.elt != Null ==>
              && ListWf(r.list) && r.list.size == l.size && r.list.nalloc == l.nalloc
              && Count(r.list.parts) == Count(l.parts) + 1
              && Slots(r.list.parts, l.size) == Slots(l.parts, l.size) + [r.elt]
  {
    var last := l.parts[|l.parts| - 1];
    if last.nelts == l.nalloc then NewPart(l, p, h)
    else
      BumpLastFacts(l);
      ListPushed(last.elts + l.size * last.nelts, BumpLast(l), p, h)
  }

  /**
    ngx_list.c:34-57 and the slot taken after it: a new part header and backing array
    from the pool, the part linked after the full last part, and its first slot taken.
   */
  function NewPart(l: PartList, p: Pool, h: Heap): (r: ListPushed)
    requires WfIn(p, h) && ListWf(l) && l.parts[|l.parts| - 1].nelts == l.nalloc
    ensures WfIn(r.pool, r.heap)
    ensures r.elt == Null ==> r.list == l
    ensures r.elt != Null ==>
              && ListWf(r.list) && r.list.size == l.size && r.list.nalloc == l.nalloc
              && |r.list.parts| == |l.parts| + 1
              && Count(r.list.parts) == Count(l.parts) + 1
              && Slots(r.list.parts, l.size) == Slots(l.parts, l.size) + [r.elt]
  {
    var c1 := Palloc.Palloc(p, h, PartHeader);
    if c1.ptr == Null then ListPushed(Null, l, c1.pool, c1.heap)
    else
      var c2 := Palloc.Palloc(c1.pool, c1.heap, l.nalloc * l.size);
      if c2.ptr == Null then ListPushed(Null, l, c2.pool, c2.heap)
      else
        AppendPartFacts(l, c1.ptr, c2.ptr);
        ListPushed(c2.ptr, AppendPart(l, c1.ptr, c2.ptr), c2.pool, c2.heap)
  }

  lemma BumpLastFacts(l: PartList)
    requires ListWf(l) && l.parts[|l.parts| - 1].nelts < l.nalloc
    ensures var last := l.parts[|l.parts| - 1];
            && ListWf(BumpLast(l))
            && Count(BumpLast(l).parts) == Count(l.parts) + 1
            && Slots(BumpLast(l).parts, l.size) == Slots(l.parts, l.size) + [last.elts + l.size * last.nelts]
  {
    var k := |l.parts| - 1;
    var q := BumpLast(l).parts;
    assert q[..k] == l.parts[..k];
    var last := l.parts[k];
    assert PartSlots(q[k], l.size) == PartSlots(last, l.size) + [last.elts + l.size * last.nelts];
    assert Slots(q, l.size) == Slots(l.parts[..k], l.size) + PartSlots(q[k], l.size);
    assert Slots(l.parts, l.size) == Slots(l.parts[..k], l.size) + PartSlots(last, l.size);
    assert Count(q) == Count(l.parts[..k]) + q[k].nelts;
  }

  lemma AppendPartFacts(l: PartList, addr: nat, elts: nat)
    requires ListWf(l) && l.parts[|l.parts| - 1].nelts == l.nalloc && addr != Null && elts != Null
    ensures && ListWf(AppendPart(l, addr, elts))
            && Count(AppendPart(l, addr, elts).parts) == Count(l.parts) + 1
            && Slots(AppendPart(l, addr, elts).parts, l.size) == Slots(l.parts, l.size) + [elts]
  {
    var k := |l.parts| - 1;
    var q := AppendPart(l, addr, elts).parts;
    var relinked := l.parts[k := l.parts[k].(next := addr)];
    assert q[..|q| - 1] == relinked;
    assert relinked[..k] == l.parts[..k];
    assert Count(relinked) == Count(l.parts);
    assert Slots(relinked, l.size) == Slots(l.parts, l.size);
    assert PartSlots(Part(addr, elts, 1, Null), l.size) == [elts];
  }

  // ---------------------------------------------------------------------------
  // The iteration documented at ngx_list.h:47-70

  /**
    The documented walk over a list: through the elements of a part, then on to its
    successor, which it enters and reads at index 0 without re-testing its length, until
    the part without a successor is exhausted. It visits every element exactly once, part
    by part, in the order the list holds them.
   */
  method Iterate(l: PartList) returns (visited: seq<nat>)
    requires ListWf(l)
    ensures visited == Slots(l.parts, l.size)
  {
    var ps := l.parts;
    var part := 0;
    var i := 0;
    visited := [];
    while true
      invariant 0 <= part < |ps| && i <= ps[part].nelts
      invariant visited == Walked(l, part, i)
      decreases |ps| - part, ps[part].nelts - i
    {
      if i >= ps[part].nelts {
        ChainEnd(l, part);
        if ps[part].next == Null {
          break;
        }
        NextPart(l, part);
        part := part + 1;
        i := 0;
      }
      TakeOneMore(l, part, i);
      visited := visited + [ps[part].elts + l.size * i];
      i := i + 1;
    }
    ChainEnd(l, part);
    WalkedAll(l);
  }

  /** The slots a walk has visited when it stands at index i of part k. */
  function Walked(l: PartList, k: nat, i: nat): seq<nat>
    requires k < |l.parts| && i <= l.parts[k].nelts
  {
    Slots(l.parts[..k], l.size) + PartSlots(l.parts[k], l.size)[..i]
  }

  /** One more element of the current part. */
  lemma TakeOneMore(l: PartList, k: nat, i: nat)
    requires k < |l.parts| && i < l.parts[k].nelts
    ensures Walked(l, k, i + 1) == Walked(l, k, i) + [l.parts[k].elts + l.size * i]
  {
    var p := l.parts[k];
    assert PartSlots(p, l.size)[..i + 1] == PartSlots(p, l.size)[..i] + [p.elts + l.size * i];
  }

  /** Having walked the whole last part, the walk has visited every slot. */
  lemma WalkedAll(l: PartList)
    requires |l.parts| >= 1
    ensures Walked(l, |l.parts| - 1, l.parts[|l.parts| - 1].nelts) == Slots(l.parts, l.size)
  {
    var k := |l.parts| - 1;
    assert l.parts[..k] == l.parts[..|l.parts|][..k];
    assert PartSlots(l.parts[k], l.size)[..l.parts[k].nelts] == PartSlots(l.parts[k], l.size);
  }

  /** Only the last part has no successor. */
  lemma ChainEnd(l: PartList, k: nat)
    requires ListWf(l) && k < |l.parts|
    ensures l.parts[k].next == Null <==> k == |l.parts| - 1
  {
    if k < |l.parts| - 1 {
      assert l.parts[k].next == l.parts[k + 1].addr;
    }
  }

  /** Stepping past an exhausted part: the walk so far is unchanged, and the successor is not empty. */
  lemma NextPart(l: PartList, k: nat)
    requires ListWf(l) && k < |l.parts| - 1
    ensures Walked(l, k + 1, 0) == Walked(l, k, l.parts[k].nelts)
    ensures l.parts[k + 1].nelts >= 1
  {
    assert l.parts[..k + 1][..k] == l.parts[..k];
    assert PartSlots(l.parts[k], l.size)[..l.parts[k].nelts] == PartSlots(l.parts[k], l.size);
  }
}
