/**
  The pool-backed dynamic array of ngx_array.c and ngx_array.h.

  An array lives in a pool: its header (the 40-byte ngx_array_t) and its backing store
  are pool allocations, and growth either extends the store in place, when it is the
  pool's last bump allocation in the first block, or moves it to a fresh allocation of
  twice the size. The pool an array belongs to is the Pool value passed alongside it.
  Memory contents matter only where the source copies them, so they are a Mem.
 */
module Array {
  import opened Config
  import opened Palloc

  /** sizeof(ngx_array_t) on LP64. */
  const ArrayHeader: nat := 40

  /** An ngx_array_t without its pool pointer: elts, nelts, size and nalloc. */
  datatype Arr = Arr(elts: nat, nelts: nat, size: nat, nalloc: nat)

  /**
    What the push operations return: the slot pointer (NULL on failure) and the array,
    pool, heap and memory after the call. PushUndefined is a call whose behaviour the C
    language leaves undefined.
   */
  datatype Pushed = Pushed(elt: nat, arr: Arr, pool: Pool, heap: Heap, mem: Mem) | PushUndefined

  /**
    A usable array: initialised with a backing store and no more elements than room.
    Callers create arrays with a positive capacity; with nalloc == 0 the doubling in
    ngx_array_push would keep the capacity at zero.
   */
  predicate ArrayWf(a: Arr)
  {
    a.elts != Null && a.nelts <= a.nalloc && a.nalloc >= 1
  }

  /** The n bytes of memory at addr. */
  function Bytes(mem: Mem, addr: nat, n: nat): (s: seq<Byte>)
    ensures |s| == n
    ensures forall k | 0 <= k < n :: s[k] == mem(addr + k)
  {
    seq(n, (k: int) requires 0 <= k => mem(addr + k))
  }

  /** The bytes of the stored elements. */
  function Contents(a: Arr, mem: Mem): (s: seq<Byte>)
    ensures |s| == a.size * a.nelts
  {
    Bytes(mem, a.elts, a.size * a.nelts)
  }

  /** ngx_memcpy(dst, src, n): the n bytes at src appear at dst; nothing else changes. */
  function MemCopy(mem: Mem, dst: nat, src: nat, n: nat): (r: Mem)
    ensures forall x: nat | dst <= x < dst + n :: r(x) == mem(src + (x - dst))
    ensures forall x: nat | x < dst || dst + n <= x :: r(x) == mem(x)
  {
    (x: nat) => if dst <= x < dst + n then mem(src + (x - dst)) else mem(x)
  }

  /** A copy puts the source's bytes at the destination. */
  lemma MemCopyBytes(mem: Mem, dst: nat, src: nat, n: nat)
    ensures Bytes(MemCopy(mem, dst, src, n), dst, n) == Bytes(mem, src, n)
  {
    var r := MemCopy(mem, dst, src, n);
    forall k | 0 <= k < n
      ensures Bytes(r, dst, n)[k] == Bytes(mem, src, n)[k]
    {
      assert r(dst + k) == mem(src + (dst + k - dst));
    }
  }

  /** The first m of n bytes at addr are the m bytes at addr. */
  lemma BytesPrefix(mem: Mem, addr: nat, m: nat, n: nat)
    requires m <= n
    ensures Bytes(mem, addr, n)[..m] == Bytes(mem, addr, m)
  {
  }

  /** The pool's own cursor p->d.last and limit p->d.end live in its first block. */
  function PoolLast(p: Pool): nat
    requires |p.blocks| >= 1
  {
    p.blocks[0].last
  }

  function SetPoolLast(p: Pool, last: nat): (q: Pool)
    requires |p.blocks| >= 1
    ensures |q.blocks| == |p.blocks| && q.blocks[1..] == p.blocks[1..]
    ensures q.blocks[0] == p.blocks[0].(last := last)
    ensures q.max == p.max && q.current == p.current && q.large == p.large && q.cleanup == p.cleanup
  {
    p.(blocks := p.blocks[0 := p.blocks[0].(last := last)])
  }

  // ---------------------------------------------------------------------------
  // ngx_array_init (ngx_array.h:24-41) and ngx_array_create (ngx_array.c:5-30)

  datatype Inited = Inited(rc: int, arr: Arr, pool: Pool, heap: Heap)

  /**
    ngx_array_init: records size and capacity with no elements, and asks the pool for a
    backing store of n * size bytes; NGX_ERROR exactly when that allocation fails.
   */
  function ArrayInit(p: Pool, h: Heap, n: nat, size: nat): (r: Inited)
    requires WfIn(p, h)
    ensures WfIn(r.pool, r.heap)
    ensures r.arr.nelts == 0 && r.arr.size == size && r.arr.nalloc == n
    ensures r.rc == Ok || r.rc == Error
    ensures r.rc == Error <==> r.arr.elts == Null
    ensures Alloc(r.arr.elts, r.pool, r.heap) == Palloc.Palloc(p, h, n * size)
  {
    var c := Palloc.Palloc(p, h, n * size);
    Inited(if c.ptr == Null then Error else Ok, Arr(c.ptr, 0, size, n), c.pool, c.heap)
  }

  /** An array header and its array; hdr is NULL when creation failed. */
  datatype ArrCreated = ArrCreated(hdr: nat, arr: Arr, pool: Pool, heap: Heap)

  /**
    ngx_array_create: a 40-byte header from the pool, then ngx_array_init; NULL when either
    allocation fails. On success the array is usable when n >= 1.
   */
  function ArrayCreate(p: Pool, h: Heap, n: nat, size: nat): (r: ArrCreated)
    requires WfIn(p, h)
    ensures WfIn(r.pool, r.heap)
    ensures r.hdr != Null ==> r.arr.nelts == 0 && r.arr.size == size && r.arr.nalloc == n && r.arr.elts != Null
    ensures r.hdr != Null && n >= 1 ==> ArrayWf(r.arr)
    ensures r.hdr == Null <==>
              Palloc.Palloc(p, h, ArrayHeader).ptr == Null
              || ArrayInit(Palloc.Palloc(p, h, ArrayHeader).pool, Palloc.Palloc(p, h, ArrayHeader).heap, n, size).rc == Error
  {
    var c := Palloc.Palloc(p, h, ArrayHeader);
    if c.ptr == Null then ArrCreated(Null, Arr(Null, 0, size, n), c.pool, c.heap)
    else
      var i := ArrayInit(c.pool, c.heap, n, size);
      ArrCreated(if i.rc == Ok then c.ptr else Null, i.arr, i.pool, i.heap)
  }

  // ---------------------------------------------------------------------------
  // ngx_array_destroy (ngx_array.c:33-71)

  /**
    ngx_array_destroy: the pool's cursor steps back over the backing store when the store
    ends at it, and then back over the header when the header ends at it. Nothing but
    that cursor changes.
   */
  function ArrayDestroy(a: Arr, hdr: nat, p: Pool): (r: Pool)
    requires |p.blocks| >= 1
    ensures |r.blocks| == |p.blocks| && r.blocks[1..] == p.blocks[1..]
    ensures r.blocks[0] == p.blocks[0].(last := r.blocks[0].last)
    ensures r.max == p.max && r.current == p.current && r.large == p.large && r.cleanup == p.cleanup
    ensures var l1 := if a.elts + a.size * a.nalloc == PoolLast(p) then a.elts else PoolLast(p);
            PoolLast(r) == (if hdr + ArrayHeader == l1 then hdr else l1)
  {
    var p1 := if a.elts + a.size * a.nalloc == PoolLast(p) then SetPoolLast(p, a.elts) else p;
    if hdr + ArrayHeader == PoolLast(p1) then SetPoolLast(p1, hdr) else p1
  }

  // ---------------------------------------------------------------------------
  // ngx_array_push (ngx_array.c:74-141)

  /** The test of ngx_array.c:92: the store ends at the pool's cursor and `extra` more bytes fit. */
  predicate InPlace(a: Arr, p: Pool, extra: nat)
    requires |p.blocks| >= 1
  {
    a.elts + a.size * a.nalloc == PoolLast(p) && PoolLast(p) + extra <= p.blocks[0].end
  }

  /** Extending the pool's last allocation in place keeps the pool well formed. */
  lemma InPlaceKeepsWf(a: Arr, p: Pool, h: Heap, extra: nat)
    requires WfIn(p, h) && InPlace(a, p, extra)
    ensures WfIn(SetPoolLast(p, PoolLast(p) + extra), h)
  {
    var q := SetPoolLast(p, PoolLast(p) + extra);
    assert BlockSize(q) == BlockSize(p);
    forall i | 0 <= i < |q.blocks|
      ensures BlockOk(q.blocks[i], BlockSize(q))
    {
      if i > 0 {
        assert q.blocks[i] == q.blocks[1..][i - 1] == p.blocks[1..][i - 1] == p.blocks[i];
      }
    }
  }

  /**
    The move both growth paths share: a fresh pool allocation of `request` bytes, the
    stored elements copied there, and the capacity set to nalloc. The full array of
    ngx_array_push copies size * nalloc bytes, which is size * nelts there. NULL when the
    allocation fails, with the array untouched.
   */
  function Relocate(a: Arr, p: Pool, h: Heap, mem: Mem, request: nat, nalloc: nat): (r: Pushed)
    requires WfIn(p, h)
    ensures r.Pushed? && WfIn(r.pool, r.heap)
    ensures Alloc(r.elt, r.pool, r.heap) == Palloc.Palloc(p, h, request)
    ensures r.elt == Null ==> r.arr == a && r.mem == mem
    ensures r.elt != Null ==>
              && r.arr == a.(elts := r.elt, nalloc := nalloc)
              && Contents(r.arr, r.mem) == Contents(a, mem)
  {
    var c := Palloc.Palloc(p, h, request);
    if c.ptr == Null then Pushed(Null, a, c.pool, c.heap, mem)
    else
      var copied := a.nelts * a.size;
      assert copied == a.size * a.nelts;
      MemCopyBytes(mem, c.ptr, a.elts, copied);
      Pushed(c.ptr, a.(elts := c.ptr, nalloc := nalloc), c.pool, c.heap, MemCopy(mem, c.ptr, a.elts, copied))
  }

  /**
    ngx_array.c:79-135, the full-array branch: capacity grows by one in place, or the
    store moves to a fresh allocation of twice its size with its bytes copied and the
    capacity doubled. NULL when that allocation fails, with the array untouched.
   */
  function GrowByOne(a: Arr, p: Pool, h: Heap, mem: Mem): (r: Pushed)
    requires WfIn(p, h) && ArrayWf(a) && a.nelts == a.nalloc
    ensures r.Pushed? && WfIn(r.pool, r.heap)
    ensures r.elt == Null ==> r.arr == a && r.mem == mem
    ensures r.elt != Null ==>
              && r.arr.size == a.size && r.arr.nelts == a.nelts && r.arr.elts != Null
              && r.arr.nalloc > a.nalloc
              && Contents(r.arr, r.mem) == Contents(a, mem)
    ensures InPlace(a, p, a.size) ==>
              && r.elt == a.elts && r.arr == a.(nalloc := a.nalloc + 1) && r.mem == mem
              && r.pool == SetPoolLast(p, PoolLast(p) + a.size) && r.heap == h
    ensures !InPlace(a, p, a.size) ==>
              && Alloc(r.elt, r.pool, r.heap) == Palloc.Palloc(p, h, 2 * (a.size * a.nalloc))
              && (r.elt != Null ==> r.arr.elts == r.elt && r.arr.nalloc == 2 * a.nalloc)
  {
    var size := a.size * a.nalloc;
    if InPlace(a, p, a.size) then
      InPlaceKeepsWf(a, p, h, a.size);
      Pushed(a.elts, a.(nalloc := a.nalloc + 1), SetPoolLast(p, PoolLast(p) + a.size), h, mem)
    else
      Relocate(a, p, h, mem, 2 * size, 2 * a.nalloc)
  }

  /**
    ngx_array_push with the length update its comment describes: the slot after the last
    element, inside the store, with the element count one higher and every stored byte
    kept. NULL when growth fails, with the array and memory untouched.
   */
  function ArrayPush(a: Arr, p: Pool, h: Heap, mem: Mem): (r: Pushed)
    requires WfIn(p, h) && ArrayWf(a)
    ensures r.Pushed? && WfIn(r.pool, r.heap)
    ensures r.elt == Null ==> r.arr == a && r.mem == mem
    ensures r.elt != Null ==>
              && ArrayWf(r.arr) && r.arr.size == a.size && r.arr.nelts == a.nelts + 1
              && r.elt == r.arr.elts + a.size * a.nelts
              && r.elt + a.size <= r.arr.elts + a.size * r.arr.nalloc
              && Contents(a, mem) <= Contents(r.arr, r.mem)
  {
    assert a.size * 1 == a.size;
    if a.nelts == a.nalloc then Claim(a, mem, GrowByOne(a, p, h, mem), 1)
    else Claim(a, mem, Pushed(a.elts, a, p, h, mem), 1)
  }

  /**
    The growth policy of ngx_array_push (ngx_array.c:79-135) as seen by the caller of a push
    that returned r: an array with a free slot keeps its store and pool; a full array whose
    store ends at the pool's cursor, with room for one more element before the block's end,
    gains one slot in place and moves the cursor by one element; any other full array takes
    the pool's allocation of twice its store, with the capacity doubled, and fails exactly
    when that allocation does.
   */
  ghost predicate PushPolicy(a: Arr, p: Pool, h: Heap, mem: Mem, r: Pushed)
    requires WfIn(p, h) && r.Pushed?
  {
    && (a.nelts < a.nalloc ==>
          && r.elt != Null && r.arr.elts == a.elts && r.arr.nalloc == a.nalloc
          && r.pool == p && r.heap == h && r.mem == mem)
    && (a.nelts == a.nalloc && InPlace(a, p, a.size) ==>
          && r.elt != Null && r.arr.elts == a.elts && r.arr.nalloc == a.nalloc + 1
          && r.pool == SetPoolLast(p, PoolLast(p) + a.size) && r.heap == h && r.mem == mem)
    && (a.nelts == a.nalloc && !InPlace(a, p, a.size) ==>
          var c := Palloc.Palloc(p, h, 2 * (a.size * a.nalloc));
          && r.pool == c.pool && r.heap == c.heap && (r.elt == Null <==> c.ptr == Null)
          && (r.elt != Null ==> r.arr.elts == c.ptr && r.arr.nalloc == 2 * a.nalloc))
  }

  /** ngx_array_push follows its growth policy. */
  lemma PushFollowsPolicy(a: Arr, p: Pool, h: Heap, mem: Mem)
    requires WfIn(p, h) && ArrayWf(a)
    ensures PushPolicy(a, p, h, mem, ArrayPush(a, p, h, mem))
  {
    if a.nelts == a.nalloc {
      var g := GrowByOne(a, p, h, mem);
      assert ArrayPush(a, p, h, mem) == Claim(a, mem, g, 1);
    }
  }

  /**
    ngx_array_push as written: line 138 evaluates `a->nelts` without incrementing it, so
    the element count never grows.
   */
  function ArrayPushAsWritten(a: Arr, p: Pool, h: Heap, mem: Mem): (r: Pushed)
    requires WfIn(p, h) && ArrayWf(a)
    ensures r.Pushed?
  {
    var g := if a.nelts == a.nalloc then GrowByOne(a, p, h, mem) else Pushed(a.elts, a, p, h, mem);
    if g.elt == Null then g
    else Pushed(g.arr.elts + a.size * a.nelts, g.arr, g.pool, g.heap, g.mem)
  }

  /**
    The as-written push never counts the element, so a second push hands out the same
    slot again and overwrites the first element; the corrected push hands out the next one.
   */
  lemma PushAsWrittenReusesSlot(a: Arr, p: Pool, h: Heap, mem: Mem)
    requires WfIn(p, h) && ArrayWf(a) && a.nelts + 1 < a.nalloc && a.size >= 1
    ensures var r1 := ArrayPushAsWritten(a, p, h, mem);
            var r2 := ArrayPushAsWritten(r1.arr, r1.pool, r1.heap, r1.mem);
            r1.elt != Null && r1.arr.nelts == a.nelts && r2.elt == r1.elt
    ensures var r1 := ArrayPush(a, p, h, mem);
            var r2 := ArrayPush(r1.arr, r1.pool, r1.heap, r1.mem);
            r1.elt != Null && r2.elt == r1.elt + a.size
  {
    var r1 := ArrayPush(a, p, h, mem);
    assert r1.arr == a.(nelts := a.nelts + 1);
    assert a.size * (a.nelts + 1) == a.size * a.nelts + a.size;
  }

  // ---------------------------------------------------------------------------
  // ngx_array_push_n (ngx_array.c:143-209)

  /**
    ngx_array.c:151-203 as nginx intends it: room for n more elements in place, when the
    store ends at the pool's cursor and n elements fit before the block's end; otherwise
    a fresh store of 2 * max(n, nalloc) elements with the stored elements copied.
   */
  function GrowBy(a: Arr, p: Pool, h: Heap, mem: Mem, n: nat): (r: Pushed)
    requires WfIn(p, h) && ArrayWf(a) && a.nelts + n > a.nalloc
    ensures r.Pushed? && WfIn(r.pool, r.heap)
    ensures r.elt == Null ==> r.arr == a && r.mem == mem
    ensures r.elt != Null ==>
              && r.arr.size == a.size && r.arr.nelts == a.nelts && r.arr.elts != Null
              && r.arr.nalloc >= a.nelts + n && r.arr.nalloc >= a.nalloc
              && Contents(r.arr, r.mem) == Contents(a, mem)
    ensures InPlace(a, p, n * a.size) ==>
              && r.elt == a.elts && r.arr == a.(nalloc := a.nalloc + n) && r.mem == mem
              && r.pool == SetPoolLast(p, PoolLast(p) + n * a.size) && r.heap == h
    ensures !InPlace(a, p, n * a.size) ==>
              && Alloc(r.elt, r.pool, r.heap) == Palloc.Palloc(p, h, 2 * Max(n, a.nalloc) * a.size)
              && (r.elt != Null ==> r.arr.elts == r.elt && r.arr.nalloc == 2 * Max(n, a.nalloc))
  {
    var size := n * a.size;
    if InPlace(a, p, size) then
      InPlaceKeepsWf(a, p, h, size);
      Pushed(a.elts, a.(nalloc := a.nalloc + n), SetPoolLast(p, PoolLast(p) + size), h, mem)
    else
      var nalloc := 2 * Max(n, a.nalloc);
      Relocate(a, p, h, mem, nalloc * a.size, nalloc)
  }

  /**
    ngx_array_push_n with the pool pointer set: the first of n slots after the last element,
    all inside the store, with the element count n higher and every stored byte kept.
   */
  function ArrayPushN(a: Arr, p: Pool, h: Heap, mem: Mem, n: nat): (r: Pushed)
    requires WfIn(p, h) && ArrayWf(a)
    ensures r.Pushed? && WfIn(r.pool, r.heap)
    ensures r.elt == Null ==> r.arr == a && r.mem == mem
    ensures r.elt != Null ==>
              && ArrayWf(r.arr) && r.arr.size == a.size && r.arr.nelts == a.nelts + n
              && r.elt == r.arr.elts + a.size * a.nelts
              && r.elt + a.size * n <= r.arr.elts + a.size * r.arr.nalloc
              && Contents(a, mem) <= Contents(r.arr, r.mem)
  {
    if a.nelts + n > a.nalloc then Claim(a, mem, GrowBy(a, p, h, mem, n), n)
    else Claim(a, mem, Pushed(a.elts, a, p, h, mem), n)
  }

  /**
    The growth policy of ngx_array_push_n (ngx_array.c:151-203) as seen by the caller of a
    push of n that returned r: an array with room for n more keeps its store and pool; one
    without room whose store ends at the pool's cursor, with n more elements fitting
    before the block's end, gains n slots in place and moves the cursor by n elements;
    otherwise the store moves to the pool's allocation of 2 * max(n, nalloc) elements, that
    many becoming the capacity, and the push fails exactly when that allocation does.
   */
  ghost predicate PushNPolicy(a: Arr, p: Pool, h: Heap, mem: Mem, n: nat, r: Pushed)
    requires WfIn(p, h) && r.Pushed?
  {
    && (a.nelts + n <= a.nalloc ==>
          && r.elt != Null && r.arr.elts == a.elts && r.arr.nalloc == a.nalloc
          && r.pool == p && r.heap == h && r.mem == mem)
    && (a.nelts + n > a.nalloc && InPlace(a, p, n * a.size) ==>
          && r.elt != Null && r.arr.elts == a.elts && r.arr.nalloc == a.nalloc + n
          && r.pool == SetPoolLast(p, PoolLast(p) + n * a.size) && r.heap == h && r.mem == mem)
    && (a.nelts + n > a.nalloc && !InPlace(a, p, n * a.size) ==>
          var c := Palloc.Palloc(p, h, 2 * Max(n, a.nalloc) * a.size);
          && r.pool == c.pool && r.heap == c.heap && (r.elt == Null <==> c.ptr == Null)
          && (r.elt != Null ==> r.arr.elts == c.ptr && r.arr.nalloc == 2 * Max(n, a.nalloc)))
  }

  /** ngx_array_push_n follows its growth policy. */
  lemma PushNFollowsPolicy(a: Arr, p: Pool, h: Heap, mem: Mem, n: nat)
    requires WfIn(p, h) && ArrayWf(a)
    ensures PushNPolicy(a, p, h, mem, n, ArrayPushN(a, p, h, mem, n))
  {
    if a.nelts + n > a.nalloc {
      var g := GrowBy(a, p, h, mem, n);
      assert ArrayPushN(a, p, h, mem, n) == Claim(a, mem, g, n);
    }
  }

  /**
    The common tail of ngx_array_push and ngx_array_push_n (ngx_array.c:137-140 and
    205-208): after growth g, when it succeeded, the n slots after the stored elements are
    claimed and counted.
   */
  function Claim(a: Arr, mem: Mem, g: Pushed, n: nat): (r: Pushed)
    requires ArrayWf(a) && g.Pushed?
    requires g.elt == Null ==> g.arr == a && g.mem == mem
    requires g.elt != Null ==>
               && g.arr.elts != Null && g.arr.size == a.size && g.arr.nelts == a.nelts
               && g.arr.nalloc >= a.nalloc && a.nelts + n <= g.arr.nalloc
               && Contents(g.arr, g.mem) == Contents(a, mem)
    ensures r.Pushed? && r.pool == g.pool && r.heap == g.heap
    ensures r.elt == Null ==> r.arr == a && r.mem == mem
    ensures r.elt != Null ==>
              && ArrayWf(r.arr) && r.arr.size == a.size && r.arr.nelts == a.nelts + n
              && r.elt == r.arr.elts + a.size * a.nelts
              && r.elt + a.size * n <= r.arr.elts + a.size * r.arr.nalloc
              && Contents(a, mem) <= Contents(r.arr, r.mem)
    ensures r.elt != Null ==> r.arr.elts == g.arr.elts && r.arr.nalloc == g.arr.nalloc && r.mem == g.mem
  {
    if g.elt == Null then g
    else
      Claimed(a, g.arr, mem, g.mem, n);
      Pushed(g.arr.elts + a.size * a.nelts, g.arr.(nelts := a.nelts + n), g.pool, g.heap, g.mem)
  }

  /**
    Claiming n slots after the stored elements of a store b that holds a's bytes: the
    array stays usable, the slots end inside the store, and the old elements are kept.
   */
  lemma Claimed(a: Arr, b: Arr, mem: Mem, mem1: Mem, n: nat)
    requires ArrayWf(a) && b.elts != Null && b.size == a.size && b.nelts == a.nelts
    requires b.nalloc >= a.nalloc && a.nelts + n <= b.nalloc
    requires Contents(b, mem1) == Contents(a, mem)
    ensures ArrayWf(b.(nelts := a.nelts + n))
    ensures a.size * a.nelts + a.size * n <= a.size * b.nalloc
    ensures Contents(a, mem) <= Contents(b.(nelts := a.nelts + n), mem1)
  {
    MulMonotone(a.nelts + n, b.nalloc, a.size);
    MulMonotone(a.nelts, a.nelts + n, a.size);
    BytesPrefix(mem1, b.elts, a.size * a.nelts, a.size * (a.nelts + n));
  }

  /**
    ngx_array_push_n as written: line 158 reads the pool pointer `p`, which is never
    assigned, so every call that needs to grow the array is undefined.
   */
  function ArrayPushNAsWritten(a: Arr, p: Pool, h: Heap, mem: Mem, n: nat): (r: Pushed)
    requires WfIn(p, h) && ArrayWf(a)
  {
    if a.nelts + n > a.nalloc then PushUndefined
    else Pushed(a.elts + a.size * a.nelts, a.(nelts := a.nelts + n), p, h, mem)
  }

  /** The as-written push_n is undefined exactly when growth is needed, and agrees otherwise. */
  lemma PushNAsWrittenUndefined(a: Arr, p: Pool, h: Heap, mem: Mem, n: nat)
    requires WfIn(p, h) && ArrayWf(a)
    ensures ArrayPushNAsWritten(a, p, h, mem, n).PushUndefined? <==> a.nelts + n > a.nalloc
    ensures a.nelts + n <= a.nalloc ==> ArrayPushNAsWritten(a, p, h, mem, n) == ArrayPushN(a, p, h, mem, n)
  {
  }

  /**
    The in-place test of ngx_array.c:158 as written, had `p` been set: it compares the
    store's end using n * size instead of nalloc * size, and checks room for one element
    while extending by n.
   */
  predicate InPlaceAsWritten(a: Arr, p: Pool, n: nat)
    requires |p.blocks| >= 1
  {
    a.elts + n * a.size == PoolLast(p) && PoolLast(p) + a.size <= p.blocks[0].end
  }

  /**
    The as-written test lets the cursor run past the block: with one byte left in the
    block, a store of one 1-byte element at the cursor, and n == 2, the test passes and
    the cursor would move 2 bytes on, one past d.end. The intended test refuses.
   */
  lemma InPlaceAsWrittenOverruns(p: Pool, h: Heap)
    requires WfIn(p, h) && PoolLast(p) + 1 == p.blocks[0].end && PoolLast(p) >= 2
    ensures var a := Arr(PoolLast(p) - 2, 1, 1, 1);
            InPlaceAsWritten(a, p, 2) && PoolLast(p) + 2 * a.size > p.blocks[0].end
            && !InPlace(a, p, 2 * a.size)
  {
  }

  // ---------------------------------------------------------------------------
  // Create, then destroy

  /** With room in the current first block, ngx_palloc bumps that block's cursor. */
  lemma PallocFromFirst(p: Pool, h: Heap, size: nat)
    requires WfIn(p, h) && p.current == 0 && size <= p.max && Fits(p.blocks[0], size, true)
    ensures var m := Candidate(p.blocks[0], true);
            Palloc.Palloc(p, h, size) == Alloc(m, SetPoolLast(p, m + size), h)
  {
    assert FindFit(p.blocks, 0, size, true) == 0;
    assert Palloc.Palloc(p, h, size) == PallocAligned(p, h, size, true) == PallocSmall(p, h, size, true);
  }

  /** A word-aligned cursor is its own candidate. */
  lemma AlignedCandidate(b: Block)
    requires b.last % Word == 0
    ensures Candidate(b, true) == b.last
  {
    WordIsPow2();
    AlignFixesMultiples(b.last, Word);
  }

  /** Moving the cursor twice is moving it once. */
  lemma SetPoolLastTwice(p: Pool, x: nat, y: nat)
    requires |p.blocks| >= 1
    ensures SetPoolLast(SetPoolLast(p, x), y) == SetPoolLast(p, y)
  {
    assert SetPoolLast(SetPoolLast(p, x), y).blocks == SetPoolLast(p, y).blocks;
  }

  /** ngx_array_create when both of its allocations succeed. */
  lemma CreateSucceeds(p: Pool, h: Heap, n: nat, size: nat, bytes: nat, m: nat)
    requires WfIn(p, h) && bytes == n * size && m != Null
    requires Palloc.Palloc(p, h, ArrayHeader) == Alloc(m, SetPoolLast(p, m + ArrayHeader), h)
    requires Palloc.Palloc(SetPoolLast(p, m + ArrayHeader), h, bytes)
             == Alloc(m + ArrayHeader, SetPoolLast(p, m + ArrayHeader + bytes), h)
    ensures ArrayCreate(p, h, n, size) == ArrCreated(m, Arr(m + ArrayHeader, 0, size, n), SetPoolLast(p, m + ArrayHeader + bytes), h)
  {
  }

  /**
    Creating an array whose header and store both fit in the current first block: the
    header at the aligned cursor, the store right after it, the cursor after the store.
   */
  lemma CreateInFirst(p: Pool, h: Heap, n: nat, size: nat, bytes: nat)
    requires WfIn(p, h) && p.current == 0 && bytes == n * size && bytes <= p.max && ArrayHeader <= p.max
    requires Candidate(p.blocks[0], true) + ArrayHeader + bytes <= p.blocks[0].end
    ensures var m := Candidate(p.blocks[0], true);
            ArrayCreate(p, h, n, size) == ArrCreated(m, Arr(m + ArrayHeader, 0, size, n), SetPoolLast(p, m + ArrayHeader + bytes), h)
  {
    TwoFromFirst(p, h, ArrayHeader, bytes);
  }

  /** The sum of two word multiples is a word multiple. */
  lemma AlignedSum(a: nat, b: nat)
    requires a % Word == 0 && b % Word == 0
    ensures (a + b) % Word == 0
  {
    DivModUnique(a + b, Word, a / Word + b / Word, 0);
  }

  /** Two requests in a row that both fit in the current first block sit side by side. */
  lemma TwoFromFirst(p: Pool, h: Heap, s1: nat, s2: nat)
    requires WfIn(p, h) && p.current == 0 && s1 <= p.max && s2 <= p.max && s1 % Word == 0
    requires Candidate(p.blocks[0], true) + s1 + s2 <= p.blocks[0].end
    ensures var m := Candidate(p.blocks[0], true);
            && Palloc.Palloc(p, h, s1) == Alloc(m, SetPoolLast(p, m + s1), h)
            && Palloc.Palloc(SetPoolLast(p, m + s1), h, s2) == Alloc(m + s1, SetPoolLast(p, m + s1 + s2), h)
  {
    var m := Candidate(p.blocks[0], true);
    PallocFromFirst(p, h, s1);
    var c := Palloc.Palloc(p, h, s1);
    var p1 := SetPoolLast(p, m + s1);
    assert c.pool == p1 && c.heap == h;
    assert WfIn(p1, h);
    AlignedSum(m, s1);
    AlignedCandidate(p1.blocks[0]);
    assert Fits(p1.blocks[0], s2, true);
    PallocFromFirst(p1, h, s2);
    SetPoolLastTwice(p, m + s1, m + s1 + s2);
  }

  /**
    An array created in the first block and destroyed at once leaves the pool as before,
    except that the cursor keeps the word alignment the header allocation gave it.
   */
  lemma CreateThenDestroy(p: Pool, h: Heap, n: nat, size: nat)
    requires WfIn(p, h) && p.current == 0 && n * size <= p.max && ArrayHeader <= p.max
    requires Candidate(p.blocks[0], true) + ArrayHeader + n * size <= p.blocks[0].end
    ensures var c := ArrayCreate(p, h, n, size);
            c.hdr != Null && ArrayDestroy(c.arr, c.hdr, c.pool) == SetPoolLast(p, Candidate(p.blocks[0], true))
  {
    var bytes := n * size;
    CreateInFirst(p, h, n, size, bytes);
    var m := Candidate(p.blocks[0], true);
    assert size * n == bytes;
    SetPoolLastTwice(p, m + ArrayHeader + bytes, m + ArrayHeader);
    SetPoolLastTwice(p, m + ArrayHeader, m);
  }
}
