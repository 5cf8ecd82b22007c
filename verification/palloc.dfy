/**
  The arena ("pool") allocator of ngx_palloc.c with the structures of ngx_palloc.h.

  A pool is a chain of equally sized blocks. The first block also holds the pool header
  (max, current, large list, cleanup list). Small requests are served by bumping a
  block's `last` cursor. Large requests go to the system allocator and are recorded in
  the large list. Addresses are naturals and 0 is NULL. The system allocator behind
  ngx_alloc and ngx_memalign is the bump heap `Heap`: it hands out addresses above
  every address it handed out before, and it fails (NULL) when a request would cross
  `limit`.
 */
module Palloc {
  import opened Config

  /** NGX_POOL_ALIGNMENT (ngx_palloc.h:20). */
  const PoolAlignment: nat := 16
  /** sizeof(ngx_pool_t): the ten words of ngx_palloc.h:42-58. */
  const PoolHeader: nat := 80
  /** sizeof(ngx_pool_data_t): last, end, next, failed. */
  const DataHeader: nat := 32
  /** sizeof(ngx_pool_large_t). */
  const LargeNodeSize: nat := 16
  /** sizeof(ngx_pool_cleanup_t). */
  const CleanupNodeSize: nat := 24

  // ---------------------------------------------------------------------------
  // The system allocator

  /** Everything below `top` has been handed out; `freed` logs every free() in order. */
  datatype Heap = Heap(top: nat, limit: nat, freed: seq<nat>)

  /** malloc/posix_memalign: a fresh, aligned address, or NULL when the request does not fit. */
  function Malloc(h: Heap, size: nat, alignment: nat): (r: (nat, Heap))
    requires h.top >= 1 && IsPow2(alignment)
    ensures r.0 == Null ==> r.1 == h
    ensures r.0 != Null ==> h.top <= r.0 && r.0 % alignment == 0 && r.0 + size <= r.1.top
    ensures r.0 != Null ==> r.0 < r.1.top && r.1.freed == h.freed && r.1.limit == h.limit
    ensures r.1.top >= h.top
  {
    var a := Align(h.top, alignment);
    if a + Max(size, 1) <= h.limit then (a, h.(top := a + Max(size, 1))) else (Null, h)
  }

  /** free(): free(NULL) does nothing. */
  function Free(h: Heap, a: nat): (r: Heap)
    ensures r.top == h.top && r.limit == h.limit
    ensures a == Null ==> r == h
    ensures a != Null ==> r.freed == h.freed + [a]
  {
    if a == Null then h else h.(freed := h.freed + [a])
  }

  // ---------------------------------------------------------------------------
  // Pool state

  /** One block: its start, the bump cursor d.last, d.end and d.failed. */
  datatype Block = Block(base: nat, last: nat, end: nat, failed: nat)

  /** An ngx_pool_large_t: where the node itself lives and the heap block it owns (0 once freed). */
  datatype LargeEntry = LargeEntry(node: nat, alloc: nat)

  /** An ngx_pool_cleanup_t: its own address, the handler (0 is NULL) and the data pointer. */
  datatype CleanupEntry = CleanupEntry(node: nat, handler: nat, data: nat)

  /**
    A pool: the block chain in d.next order, max, current as an index into the chain,
    and the large and cleanup lists in list order (head first).
   */
  datatype Pool = Pool(blocks: seq<Block>, max: nat, current: nat,
                       large: seq<LargeEntry>, cleanup: seq<CleanupEntry>)

  /** The result of an allocation: the pointer (0 is NULL) and the new pool and heap. */
  datatype Alloc = Alloc(ptr: nat, pool: Pool, heap: Heap)

  /** The size of every block: pool->d.end - (u_char *) pool. */
  function BlockSize(p: Pool): int
    requires |p.blocks| >= 1
  {
    p.blocks[0].end - p.blocks[0].base
  }

  predicate BlockOk(b: Block, psize: int)
  {
    && b.base >= 1
    && b.base % PoolAlignment == 0
    && b.base <= b.last <= b.end
    && b.end == b.base + psize
  }

  /** The shape every operation keeps. */
  predicate Wf(p: Pool)
  {
    && |p.blocks| >= 1
    && p.current < |p.blocks|
    && p.max + PoolHeader <= BlockSize(p)
    && (forall i | 0 <= i < |p.blocks| :: BlockOk(p.blocks[i], BlockSize(p)))
  }

  /** The blocks lie one after another in memory, so no two of them overlap. */
  predicate Separate(bs: seq<Block>)
  {
    forall i, j | 0 <= i < j < |bs| :: bs[i].end <= bs[j].base
  }

  /** No heap block is recorded twice in the large list. */
  predicate LargeDistinct(large: seq<LargeEntry>)
  {
    forall i, j | 0 <= i < j < |large| && large[i].alloc != Null :: large[i].alloc != large[j].alloc
  }

  /** The pool is well formed and everything it owns came from the heap. */
  predicate WfIn(p: Pool, h: Heap)
  {
    && Wf(p)
    && h.top >= 1
    && (forall i | 0 <= i < |p.blocks| :: p.blocks[i].end <= h.top)
    && (forall i | 0 <= i < |p.large| :: p.large[i].alloc < h.top)
  }

  /** No live large allocation starts inside a block. */
  predicate LargeOutsideBlocks(p: Pool)
  {
    forall i, k | 0 <= i < |p.large| && 0 <= k < |p.blocks| && p.large[i].alloc != Null ::
      !(p.blocks[k].base <= p.large[i].alloc < p.blocks[k].end)
  }

  /** No two blocks overlap, no heap block is owned twice, and large and small memory are apart. */
  predicate Sound(p: Pool)
  {
    Separate(p.blocks) && LargeDistinct(p.large) && LargeOutsideBlocks(p)
  }

  // ---------------------------------------------------------------------------
  // ngx_create_pool (ngx_palloc.c:8-50)

  datatype Created = NoPool(heap: Heap) | NewPool(pool: Pool, heap: Heap)

  /**
    The first block holds the header, so the cursor starts just past it; `max` is the
    room left after the header, capped at NGX_MAX_ALLOC_FROM_POOL = pagesize - 1.
    The source writes the 80-byte header into the new block, so it needs size >= 80.
   */
  function CreatePool(h: Heap, size: nat, pagesize: nat): (r: Created)
    requires h.top >= 1 && size >= PoolHeader && pagesize >= 1
    ensures r.NoPool? ==> r.heap == h
    ensures r.NewPool? ==> WfIn(r.pool, r.heap)
    ensures r.NewPool? ==> && |r.pool.blocks| == 1
                           && var b := r.pool.blocks[0];
                           && b.base >= h.top && b.last == b.base + PoolHeader && b.end == b.base + size
                           && b.failed == 0
                           && r.pool.max == Min(size - PoolHeader, pagesize - 1)
                           && r.pool.current == 0 && r.pool.large == [] && r.pool.cleanup == []
  {
    WordIsPow2();
    var a := Malloc(h, size, PoolAlignment);
    var m, h1 := a.0, a.1;
    if m == Null then NoPool(h1)
    else
      var room := size - PoolHeader;
      NewPool(Pool([Block(m, m + PoolHeader, m + size, 0)],
                   if room < pagesize - 1 then room else pagesize - 1,
                   0, [], []), h1)
  }

  // ---------------------------------------------------------------------------
  // ngx_palloc_small (ngx_palloc.c:174-222)

  /** Where a request would start in block b: d.last, word-aligned when asked. */
  function Candidate(b: Block, align: bool): (m: nat)
    ensures m >= b.last
    ensures align ==> m % Word == 0 && m < b.last + Word
    ensures !align ==> m == b.last
  {
    WordIsPow2();
    if align then Align(b.last, Word) else b.last
  }

  /**
    The test at ngx_palloc.c:197 with the intended meaning: the candidate lies inside
    the block and at least `size` bytes remain after it.
   */
  predicate Fits(b: Block, size: nat, align: bool)
  {
    Candidate(b, align) <= b.end && b.end - Candidate(b, align) >= size
  }

  /** The block the do/while loop of ngx_palloc_small stops at, or |bs| when none fits. */
  function FindFit(bs: seq<Block>, i: nat, size: nat, align: bool): (j: nat)
    requires i <= |bs|
    ensures i <= j <= |bs|
    ensures j < |bs| ==> Fits(bs[j], size, align)
    ensures forall k | i <= k < j :: !Fits(bs[k], size, align)
    decreases |bs| - i
  {
    if i == |bs| then i
    else if Fits(bs[i], size, align) then i
    else FindFit(bs, i + 1, size, align)
  }

  /**
    Where a request landed: block k holds the `size` bytes at `ptr`, at or after its old
    cursor, and its cursor now ends the request (k is a new block when k == |p.blocks|);
    every other block keeps its place and its cursor.
   */
  ghost predicate Placed(p: Pool, q: Pool, ptr: nat, size: nat, k: nat)
    requires Wf(p)
  {
    && k < |q.blocks|
    && |p.blocks| <= |q.blocks| <= |p.blocks| + 1
    && (k == |p.blocks| ==> |q.blocks| == |p.blocks| + 1)
    && q.blocks[k].last == ptr + size
    && q.blocks[k].base <= ptr
    && ptr + size <= q.blocks[k].end
    && (k < |p.blocks| ==> p.blocks[k].last <= ptr)
    && (forall i | 0 <= i < |p.blocks| ::
          q.blocks[i].base == p.blocks[i].base && q.blocks[i].end == p.blocks[i].end)
    && (forall i | 0 <= i < |p.blocks| && i != k :: q.blocks[i].last == p.blocks[i].last)
  }

  /**
    What a successful small allocation promises: it was placed in block k, the search
    began at `current` and skipped only blocks without room, and the pointer is
    word-aligned when alignment was asked for.
   */
  ghost predicate Served(p: Pool, q: Pool, ptr: nat, size: nat, align: bool, k: nat)
    requires Wf(p)
  {
    && p.current <= k
    && Placed(p, q, ptr, size, k)
    && (align ==> ptr % Word == 0)
    && (forall i | p.current <= i < k && i < |p.blocks| :: !Fits(p.blocks[i], size, align))
  }

  /** ngx_palloc_small: bump allocation from the first block, from `current` on, with room. */
  function PallocSmall(p: Pool, h: Heap, size: nat, align: bool): (r: Alloc)
    requires WfIn(p, h)
    requires size + DataHeader <= BlockSize(p)
    ensures WfIn(r.pool, r.heap)
    ensures r.ptr == Null ==> r.pool == p && r.heap == h
    ensures r.ptr != Null ==> Served(p, r.pool, r.ptr, size, align, FindFit(p.blocks, p.current, size, align))
    ensures r.ptr != Null && align ==> r.ptr % Word == 0
    ensures r.pool.large == p.large && r.pool.cleanup == p.cleanup && r.pool.max == p.max
    ensures r.heap.freed == h.freed && r.heap.top >= h.top && r.heap.limit == h.limit
    ensures FindFit(p.blocks, p.current, size, align) < |p.blocks| ==> r.ptr != Null && r.heap == h
    ensures FindFit(p.blocks, p.current, size, align) < |p.blocks| && !align ==>
              r.ptr == p.blocks[FindFit(p.blocks, p.current, size, align)].last
  {
    var j := FindFit(p.blocks, p.current, size, align);
    if j < |p.blocks| then
      var m := Candidate(p.blocks[j], align);
      BumpKeepsWf(p, h, j, m, size, align);
      Alloc(m, p.(blocks := p.blocks[j := p.blocks[j].(last := m + size)]), h)
    else
      PallocBlock(p, h, size)
  }

  /** Moving block j's cursor past a request that fits there keeps the pool well formed. */
  lemma BumpKeepsWf(p: Pool, h: Heap, j: nat, m: nat, size: nat, align: bool)
    requires WfIn(p, h) && p.current <= j < |p.blocks|
    requires Fits(p.blocks[j], size, align) && m == Candidate(p.blocks[j], align)
    requires forall i | p.current <= i < j :: !Fits(p.blocks[i], size, align)
    ensures var q := p.(blocks := p.blocks[j := p.blocks[j].(last := m + size)]);
            WfIn(q, h) && Served(p, q, m, size, align, j)
  {
    var q := p.(blocks := p.blocks[j := p.blocks[j].(last := m + size)]);
    assert BlockSize(q) == BlockSize(p);
    forall i | 0 <= i < |q.blocks|
      ensures BlockOk(q.blocks[i], BlockSize(q))
    {
    }
  }

  // ---------------------------------------------------------------------------
  // ngx_palloc_block (ngx_palloc.c:233-320)

  /**
    The loop at ngx_palloc.c:311-315: every block from index i up to, but not including,
    the tail gets failed++, and `current` moves to the successor of the last of them
    whose count was already above 4.
   */
  function CountFailures(bs: seq<Block>, i: nat, cur: nat): (r: (seq<Block>, nat))
    requires 1 <= |bs| && i < |bs| && cur < |bs|
    ensures |r.0| == |bs| && r.1 < |bs|
    decreases |bs| - i
  {
    if i == |bs| - 1 then (bs, cur)
    else
      var cur' := if bs[i].failed > 4 then i + 1 else cur;
      CountFailures(bs[i := bs[i].(failed := bs[i].failed + 1)], i + 1, cur')
  }

  /** What the failure loop does, from index i on. */
  lemma {:induction false} CountFailuresSpec(bs: seq<Block>, i: nat, cur: nat)
    requires 1 <= |bs| && i < |bs| && cur < |bs|
    ensures var r := CountFailures(bs, i, cur);
            && (forall k | 0 <= k < |bs| ::
                  r.0[k] == if i <= k < |bs| - 1 then bs[k].(failed := bs[k].failed + 1) else bs[k])
            && (r.1 == cur || (i < r.1 && bs[r.1 - 1].failed > 4))
            && (forall k | i <= k < |bs| - 1 && r.1 <= k :: bs[k].failed <= 4)
    decreases |bs| - i
  {
    if i < |bs| - 1 {
      var cur' := if bs[i].failed > 4 then i + 1 else cur;
      CountFailuresSpec(bs[i := bs[i].(failed := bs[i].failed + 1)], i + 1, cur');
    }
  }

  /** Started at `current`, the loop counts failures as FailuresCounted says and moves no block. */
  lemma CountFailuresFromCurrent(bs: seq<Block>, cur: nat)
    requires cur < |bs|
    ensures var r := CountFailures(bs, cur, cur);
            FailuresCounted(bs, cur, r.0, r.1) && SameLayout(bs, r.0)
  {
    CountFailuresSpec(bs, cur, cur);
  }

  /**
    After a failed search from `current`: every block from `current` up to, but not
    including, the old tail counts one more failure; `current` moves to just past the
    last of them that had already failed more than four times, or stays.
   */
  predicate FailuresCounted(bs: seq<Block>, cur: nat, bs': seq<Block>, cur': nat)
    requires cur < |bs|
  {
    && |bs'| == |bs|
    && cur <= cur' < |bs|
    && (forall k | 0 <= k < |bs| ::
          bs'[k] == if cur <= k < |bs| - 1 then bs[k].(failed := bs[k].failed + 1) else bs[k])
    && (cur' == cur || bs[cur' - 1].failed > 4)
    && (forall k | cur <= k < |bs| - 1 && cur' <= k :: bs[k].failed <= 4)
  }

  /**
    ngx_palloc_block: a new block of the first block's size is appended; the request is
    served at the word-aligned address after its data header. When the system allocator
    fails, NULL comes back and nothing changes.
   */
  function PallocBlock(p: Pool, h: Heap, size: nat): (r: Alloc)
    requires WfIn(p, h)
    requires size + DataHeader <= BlockSize(p)
    ensures WfIn(r.pool, r.heap)
    ensures r.ptr == Null ==> r.pool == p && r.heap == h
    ensures r.ptr != Null ==> Placed(p, r.pool, r.ptr, size, |p.blocks|) && r.ptr % Word == 0
    ensures r.pool.large == p.large && r.pool.cleanup == p.cleanup && r.pool.max == p.max
    ensures r.heap.freed == h.freed && r.heap.top >= h.top && r.heap.limit == h.limit
  {
    WordIsPow2();
    var psize := BlockSize(p);
    var a := Malloc(h, psize, PoolAlignment);
    var m, h1 := a.0, a.1;
    if m == Null then Alloc(Null, p, h)
    else
      NewBlockAligned(m);
      var ptr := Align(m + DataHeader, Word);
      GrowKeepsWf(p, h, h1, m, size, ptr + size);
      Alloc(ptr, Grow(p, m, ptr + size), h1)
  }

  /** The chain after ngx_palloc_block's failure loop, with the block at m appended. */
  function Grow(p: Pool, m: nat, last: nat): Pool
    requires Wf(p)
  {
    var c := CountFailures(p.blocks, p.current, p.current);
    p.(blocks := c.0 + [Block(m, last, m + BlockSize(p), 0)], current := c.1)
  }

  /**
    What growth does to the chain: the new block comes fresh from the heap, has the
    first block's size, and serves the request right after its data header; the old
    blocks count their failures as FailuresCounted says.
   */
  lemma PallocBlockGrows(p: Pool, h: Heap, size: nat)
    requires WfIn(p, h)
    requires size + DataHeader <= BlockSize(p)
    ensures var r := PallocBlock(p, h, size);
            r.ptr != Null ==>
              && |r.pool.blocks| == |p.blocks| + 1
              && var nb := r.pool.blocks[|p.blocks|];
              && nb.base >= h.top
              && nb.end - nb.base == BlockSize(p)
              && r.ptr == nb.base + DataHeader
              && nb.last == r.ptr + size && nb.failed == 0
              && FailuresCounted(p.blocks, p.current, r.pool.blocks[..|p.blocks|], r.pool.current)
  {
    var r := PallocBlock(p, h, size);
    if r.ptr != Null {
      var c := CountFailures(p.blocks, p.current, p.current);
      CountFailuresFromCurrent(p.blocks, p.current);
      var m := Malloc(h, BlockSize(p), PoolAlignment).0;
      NewBlockAligned(m);
      assert r.pool == Grow(p, m, m + DataHeader + size);
      assert r.pool.blocks[..|p.blocks|] == c.0;
    }
  }

  /** The first request in a new block starts right after its data header. */
  lemma NewBlockAligned(m: nat)
    requires m % PoolAlignment == 0
    ensures IsPow2(Word) && Align(m + DataHeader, Word) == m + DataHeader
  {
    WordIsPow2();
    AlignedToMultiple(m, PoolAlignment, Word);
    assert (m + DataHeader) % Word == 0;
    AlignFixesMultiples(m + DataHeader, Word);
  }

  /** Two chains with the same blocks in the same places and the same cursors. */
  predicate SameLayout(a: seq<Block>, b: seq<Block>)
  {
    && |a| == |b|
    && forall k | 0 <= k < |a| :: a[k].base == b[k].base && a[k].last == b[k].last && a[k].end == b[k].end
  }

  /** Failure counts and `current` play no part in the layout invariant. */
  lemma LayoutKeepsWf(p: Pool, h: Heap, bs: seq<Block>, cur: nat)
    requires WfIn(p, h) && SameLayout(p.blocks, bs) && cur < |bs|
    ensures WfIn(p.(blocks := bs, current := cur), h)
    ensures BlockSize(p.(blocks := bs, current := cur)) == BlockSize(p)
  {
    var q := p.(blocks := bs, current := cur);
    assert BlockSize(q) == BlockSize(p);
    forall i | 0 <= i < |bs|
      ensures BlockOk(bs[i], BlockSize(q))
    {
      assert BlockOk(p.blocks[i], BlockSize(p));
    }
  }

  /** A fresh block from the heap, above everything the pool owns, can join the chain. */
  lemma AppendKeepsWf(p: Pool, h: Heap, h1: Heap, nb: Block)
    requires WfIn(p, h) && BlockOk(nb, BlockSize(p))
    requires h.top <= nb.base && nb.end <= h1.top && h.top <= h1.top
    ensures WfIn(p.(blocks := p.blocks + [nb]), h1)
    ensures BlockSize(p.(blocks := p.blocks + [nb])) == BlockSize(p)
  {
    var q := p.(blocks := p.blocks + [nb]);
    assert q.blocks[0] == p.blocks[0];
  }

  /** Appending a fresh block after counting failures keeps the pool well formed. */
  lemma GrowKeepsWf(p: Pool, h: Heap, h1: Heap, m: nat, size: nat, last: nat)
    requires WfIn(p, h) && size + DataHeader <= BlockSize(p)
    requires h.top <= m && m % PoolAlignment == 0 && m + BlockSize(p) <= h1.top && h.top <= h1.top
    requires last == m + DataHeader + size
    ensures WfIn(Grow(p, m, last), h1)
    ensures Placed(p, Grow(p, m, last), last - size, size, |p.blocks|)
  {
    var c := CountFailures(p.blocks, p.current, p.current);
    CountFailuresFromCurrent(p.blocks, p.current);
    var bs, cur := c.0, c.1;
    var nb := Block(m, m + DataHeader + size, m + BlockSize(p), 0);
    LayoutKeepsWf(p, h, bs, cur);
    var p1 := p.(blocks := bs, current := cur);
    AppendKeepsWf(p1, h, h1, nb);
  }

  // ---------------------------------------------------------------------------
  // ngx_palloc_large (ngx_palloc.c:331-380)

  /**
    The slot search of ngx_palloc_large from entry k with the counter at n: the first
    entry whose alloc is NULL, giving up (-1) at the end of the list or once an entry
    is passed while the counter is above 3.
   */
  function ReusableSlot(large: seq<LargeEntry>, k: nat, n: nat): (r: int)
    requires k <= |large|
    ensures r == -1 || (k <= r < |large| && large[r].alloc == Null)
    ensures r != -1 ==> forall j | k <= j < r :: large[j].alloc != Null
    ensures r != -1 && n <= 4 ==> r <= k + 4 - n
    ensures r != -1 && n > 4 ==> r == k
    ensures r == -1 ==> forall j | k <= j < |large| && (j == k || j <= k + 4 - n) :: large[j].alloc != Null
    decreases |large| - k
  {
    if k == |large| then -1
    else if large[k].alloc == Null then k
    else if n > 3 then -1
    else ReusableSlot(large, k + 1, n + 1)
  }

  /** The result of scanning with the counter started at zero: the first five entries. */
  lemma FirstFiveSlots(large: seq<LargeEntry>)
    ensures var r := ReusableSlot(large, 0, 0);
            && (r == -1 <==> forall j | 0 <= j < |large| && j < 5 :: large[j].alloc != Null)
            && (r != -1 ==>
                  r < 5 && large[r].alloc == Null && forall j | 0 <= j < r :: large[j].alloc != Null)
  {
  }

  /**
    ngx_palloc_large: a fresh heap block, recorded in a free large slot among the first
    five entries, or else in a new node pushed at the list head. If the node cannot be
    allocated, the heap block is freed again and NULL comes back.
   */
  function PallocLarge(p: Pool, h: Heap, size: nat): (r: Alloc)
    requires WfIn(p, h)
    ensures WfIn(r.pool, r.heap)
    ensures r.ptr != Null ==> h.top <= r.ptr && r.ptr + size <= r.heap.top
    ensures r.ptr != Null ==>
              var s := ReusableSlot(p.large, 0, 0);
              if s != -1 then r.pool == p.(large := p.large[s := LargeEntry(p.large[s].node, r.ptr)])
              else |r.pool.large| == |p.large| + 1 && r.pool.large[0].alloc == r.ptr
                   && r.pool.large[1..] == p.large
    ensures r.ptr == Null ==> r.pool.large == p.large
    ensures r.pool.cleanup == p.cleanup && r.pool.max == p.max
    ensures |r.heap.freed| >= |h.freed| && r.heap.freed[..|h.freed|] == h.freed
  {
    var c := Malloc(h, size, 1);
    var a, h1 := c.0, c.1;
    if a == Null then Alloc(Null, p, h1)
    else
      var s := ReusableSlot(p.large, 0, 0);
      if s != -1 then
        Alloc(a, p.(large := p.large[s := LargeEntry(p.large[s].node, a)]), h1)
      else
        var n := PallocSmall(p, h1, LargeNodeSize, true);
        if n.ptr == Null then
          Alloc(Null, n.pool, Free(n.heap, a))
        else
          Alloc(a, n.pool.(large := [LargeEntry(n.ptr, a)] + n.pool.large), n.heap)
  }

  // ---------------------------------------------------------------------------
  // ngx_palloc / ngx_pnalloc (ngx_palloc.c:145-165)

  /**
    ngx_palloc and ngx_pnalloc: requests up to `max` are bump-allocated (word-aligned
    for ngx_palloc), larger ones come fresh from the heap and leave the blocks alone.
   */
  function PallocAligned(p: Pool, h: Heap, size: nat, align: bool): (r: Alloc)
    requires WfIn(p, h)
    ensures WfIn(r.pool, r.heap)
    ensures r.ptr != Null && size <= p.max ==>
              Served(p, r.pool, r.ptr, size, align, FindFit(p.blocks, p.current, size, align))
    ensures r.ptr != Null && size <= p.max && align ==> r.ptr % Word == 0
    ensures size <= p.max ==> r.pool.large == p.large && r.heap.freed == h.freed
    ensures r.ptr != Null && size > p.max ==> h.top <= r.ptr && r.ptr + size <= r.heap.top
    ensures size <= p.max && !align && FindFit(p.blocks, p.current, size, align) < |p.blocks| ==>
              r.ptr == p.blocks[FindFit(p.blocks, p.current, size, align)].last
    ensures r.pool.cleanup == p.cleanup && r.pool.max == p.max
    ensures |r.heap.freed| >= |h.freed| && r.heap.freed[..|h.freed|] == h.freed
  {
    if size <= p.max then PallocSmall(p, h, size, align) else PallocLarge(p, h, size)
  }

  /** ngx_palloc: word-aligned. */
  function Palloc(p: Pool, h: Heap, size: nat): (r: Alloc)
    requires WfIn(p, h)
    ensures WfIn(r.pool, r.heap)
    ensures r.ptr != Null && size <= p.max ==> r.ptr % Word == 0
    ensures r.pool.cleanup == p.cleanup && r.pool.max == p.max
    ensures |r.heap.freed| >= |h.freed| && r.heap.freed[..|h.freed|] == h.freed
  {
    PallocAligned(p, h, size, true)
  }

  /**
    ngx_pnalloc: no alignment. A small request is placed exactly at the cursor of the
    first block from `current` on with room for it.
   */
  function Pnalloc(p: Pool, h: Heap, size: nat): (r: Alloc)
    requires WfIn(p, h)
    ensures WfIn(r.pool, r.heap)
    ensures r.ptr != Null && size <= p.max ==>
              Served(p, r.pool, r.ptr, size, false, FindFit(p.blocks, p.current, size, false))
    ensures size <= p.max && FindFit(p.blocks, p.current, size, false) < |p.blocks| ==>
              r.ptr == p.blocks[FindFit(p.blocks, p.current, size, false)].last
    ensures r.pool.cleanup == p.cleanup && r.pool.max == p.max
  {
    PallocAligned(p, h, size, false)
  }

  // ---------------------------------------------------------------------------
  // ngx_pmemalign (ngx_palloc.c:388-408)

  /**
    ngx_memalign over posix_memalign: fails unless the alignment is a power of two and a
    multiple of sizeof(void *), or when the heap is exhausted. A failure is taken as NULL.
   */
  function Memalign(h: Heap, alignment: nat, size: nat): (r: (nat, Heap))
    requires h.top >= 1
    ensures r.0 == Null ==> r.1 == h
    ensures r.0 != Null ==> IsPow2(alignment) && alignment % PtrSize == 0 && r.0 % alignment == 0
    ensures r.0 != Null ==> h.top <= r.0 && r.0 + size <= r.1.top && r.1.freed == h.freed
    ensures r.1.top >= h.top && r.1.limit == h.limit
  {
    if IsPow2(alignment) && alignment % PtrSize == 0 then Malloc(h, size, alignment) else (Null, h)
  }

  /**
    ngx_pmemalign: an aligned heap block, always recorded in a new node at the head of
    the large list (no slot reuse). If the node cannot be allocated, the block is freed
    again and NULL comes back.
   */
  function Pmemalign(p: Pool, h: Heap, size: nat, alignment: nat): (r: Alloc)
    requires WfIn(p, h)
    ensures WfIn(r.pool, r.heap)
    ensures r.ptr != Null ==> IsPow2(alignment) && alignment % PtrSize == 0 && r.ptr % alignment == 0
    ensures r.ptr != Null ==> h.top <= r.ptr && r.ptr + size <= r.heap.top
    ensures r.ptr != Null ==> |r.pool.large| == |p.large| + 1 && r.pool.large[0].alloc == r.ptr
                              && r.pool.large[1..] == p.large
    ensures r.ptr == Null ==> r.pool.large == p.large
    ensures !(IsPow2(alignment) && alignment % PtrSize == 0) ==> r.ptr == Null && r.pool == p && r.heap == h
    ensures r.pool.cleanup == p.cleanup && r.pool.max == p.max
    ensures |r.heap.freed| >= |h.freed| && r.heap.freed[..|h.freed|] == h.freed
  {
    var a := Memalign(h, alignment, size);
    if a.0 == Null then Alloc(Null, p, a.1)
    else
      var n := PallocSmall(p, a.1, LargeNodeSize, true);
      if n.ptr == Null then Alloc(Null, n.pool, Free(n.heap, a.0))
      else Alloc(a.0, n.pool.(large := [LargeEntry(n.ptr, a.0)] + n.pool.large), n.heap)
  }

  // ---------------------------------------------------------------------------
  // ngx_pfree (ngx_palloc.c:412-426)

  /** The first large entry whose alloc equals ptr, or |large| when there is none. */
  function FindLarge(large: seq<LargeEntry>, ptr: nat): (k: nat)
    ensures k <= |large|
    ensures k < |large| ==> large[k].alloc == ptr
    ensures forall j | 0 <= j < k :: large[j].alloc != ptr
  {
    if large == [] then 0
    else if large[0].alloc == ptr then 0
    else 1 + FindLarge(large[1..], ptr)
  }

  datatype Freed = Freed(rc: int, pool: Pool, heap: Heap)

  /**
    ngx_pfree: only large allocations are returned early. The matching entry's block is
    freed and its alloc set to NULL; any other pointer is declined. The walk compares
    with every entry, so ngx_pfree(pool, NULL) "succeeds" on an already freed slot.
   */
  function Pfree(p: Pool, h: Heap, ptr: nat): (r: Freed)
    requires WfIn(p, h)
    ensures WfIn(r.pool, r.heap)
    ensures r.rc == Ok || r.rc == Declined
    ensures r.rc == Ok <==> exists j | 0 <= j < |p.large| :: p.large[j].alloc == ptr
    ensures r.rc == Declined ==> r.pool == p && r.heap == h
    ensures r.rc == Ok ==> && |r.pool.large| == |p.large|
                           && (forall j | 0 <= j < |p.large| ::
                                 r.pool.large[j] == if p.large[j].alloc == ptr && (forall i | 0 <= i < j :: p.large[i].alloc != ptr)
                                                    then LargeEntry(p.large[j].node, Null) else p.large[j])
                           && r.heap == Free(h, ptr)
    ensures r.pool.blocks == p.blocks && r.pool.current == p.current && r.pool.cleanup == p.cleanup
    ensures r.pool.max == p.max
  {
    var k := FindLarge(p.large, ptr);
    if k < |p.large| then
      Freed(Ok, p.(large := p.large[k := LargeEntry(p.large[k].node, Null)]), Free(h, ptr))
    else
      Freed(Declined, p, h)
  }

  // ---------------------------------------------------------------------------
  // ngx_pcalloc (ngx_palloc.c:429-438)

  /** Memory contents, byte by byte. */
  type Mem = nat -> Byte

  /** ngx_pcalloc: ngx_palloc, then the returned bytes are zeroed and nothing else is touched. */
  function Pcalloc(p: Pool, h: Heap, mem: Mem, size: nat): (r: (Alloc, Mem))
    requires WfIn(p, h)
    ensures r.0 == Palloc(p, h, size)
    ensures r.0.ptr != Null ==> forall a: nat | r.0.ptr <= a < r.0.ptr + size :: r.1(a) == 0
    ensures forall a: nat | r.0.ptr == Null || a < r.0.ptr || r.0.ptr + size <= a :: r.1(a) == mem(a)
  {
    var c := Palloc(p, h, size);
    if c.ptr == Null then (c, mem)
    else (c, (a: nat) => if c.ptr <= a < c.ptr + size then 0 else mem(a))
  }

  // ---------------------------------------------------------------------------
  // ngx_pool_cleanup_add (ngx_palloc.c:450-487)

  /**
    ngx_pool_cleanup_add: a cleanup node (and, for size > 0, its data) from the pool,
    pushed at the head of the cleanup list with a NULL handler. When either allocation
    fails NULL comes back and the list is as before (the pool may still have grown).
   */
  function CleanupAdd(p: Pool, h: Heap, size: nat): (r: Alloc)
    requires WfIn(p, h)
    ensures WfIn(r.pool, r.heap)
    ensures r.ptr == Null ==> r.pool.cleanup == p.cleanup
    ensures r.ptr != Null ==> && |r.pool.cleanup| == |p.cleanup| + 1
                              && r.pool.cleanup[1..] == p.cleanup
                              && r.pool.cleanup[0].node == r.ptr
                              && r.pool.cleanup[0].handler == Null
                              && (r.pool.cleanup[0].data == Null <==> size == 0)
    ensures r.pool.max == p.max
    ensures |r.heap.freed| >= |h.freed| && r.heap.freed[..|h.freed|] == h.freed
  {
    var c := Palloc(p, h, CleanupNodeSize);
    if c.ptr == Null then c
    else if size != 0 then
      var d := Palloc(c.pool, c.heap, size);
      if d.ptr == Null then Alloc(Null, d.pool, d.heap)
      else Alloc(c.ptr, d.pool.(cleanup := [CleanupEntry(c.ptr, Null, d.ptr)] + d.pool.cleanup), d.heap)
    else
      Alloc(c.ptr, c.pool.(cleanup := [CleanupEntry(c.ptr, Null, Null)] + c.pool.cleanup), c.heap)
  }

  /** The caller's `c->handler = h` after ngx_pool_cleanup_add: the first entry at node c gets the handler. */
  function SetCleanupHandler(cs: seq<CleanupEntry>, c: nat, handler: nat): (r: seq<CleanupEntry>)
    ensures |r| == |cs|
    ensures forall j | 0 <= j < |cs| :: r[j].node == cs[j].node && r[j].data == cs[j].data
    ensures forall j | 0 <= j < |cs| && cs[j].node != c :: r[j] == cs[j]
    ensures |cs| > 0 && cs[0].node == c ==> r[0].handler == handler && r[1..] == cs[1..]
  {
    if cs == [] then []
    else if cs[0].node == c then [cs[0].(handler := handler)] + cs[1..]
    else [cs[0]] + SetCleanupHandler(cs[1..], c, handler)
  }

  // ---------------------------------------------------------------------------
  // ngx_reset_pool (ngx_palloc.c:123-141)

  /** The live large allocations, in list order. */
  function LiveAllocs(large: seq<LargeEntry>): (r: seq<nat>)
    ensures |r| <= |large|
    ensures forall a | a in r :: a != Null && exists j | 0 <= j < |large| :: large[j].alloc == a
  {
    if large == [] then []
    else (if large[0].alloc == Null then [] else [large[0].alloc]) + LiveAllocs(large[1..])
  }

  /** The loop freeing every live large allocation, in list order. */
  function FreeLarge(h: Heap, large: seq<LargeEntry>): (r: Heap)
    ensures r.top == h.top && r.limit == h.limit
    ensures r.freed == h.freed + LiveAllocs(large)
    decreases |large|
  {
    if large == [] then h
    else
      var r := FreeLarge(Free(h, large[0].alloc), large[1..]);
      assert Free(h, large[0].alloc).freed + LiveAllocs(large[1..])
          == h.freed + LiveAllocs(large);
      r
  }

  /** Every block's cursor back to just past the pool header, and no failures counted. */
  function Rewind(bs: seq<Block>): (r: seq<Block>)
    ensures |r| == |bs|
    ensures forall k | 0 <= k < |bs| ::
              r[k].base == bs[k].base && r[k].end == bs[k].end
              && r[k].last == bs[k].base + PoolHeader && r[k].failed == 0
  {
    seq(|bs|, k requires 0 <= k < |bs| => bs[k].(last := bs[k].base + PoolHeader, failed := 0))
  }

  datatype PoolAndHeap = PoolAndHeap(pool: Pool, heap: Heap)

  /**
    ngx_reset_pool: every live large allocation goes back to the heap, the large list is
    emptied, every block is rewound, and the search starts again at the first block;
    the cleanup list stays.
   */
  function ResetPool(p: Pool, h: Heap): (r: PoolAndHeap)
    requires WfIn(p, h)
    ensures WfIn(r.pool, r.heap)
    ensures |r.pool.blocks| == |p.blocks|
    ensures forall k | 0 <= k < |p.blocks| ::
              && r.pool.blocks[k].base == p.blocks[k].base && r.pool.blocks[k].end == p.blocks[k].end
              && r.pool.blocks[k].last == p.blocks[k].base + PoolHeader && r.pool.blocks[k].failed == 0
    ensures r.pool.current == 0 && r.pool.large == []
    ensures r.pool.cleanup == p.cleanup && r.pool.max == p.max
    ensures r.heap.top == h.top && r.heap.freed == h.freed + LiveAllocs(p.large)
  {
    var q := p.(blocks := Rewind(p.blocks), current := 0, large := []);
    assert BlockSize(q) == BlockSize(p);
    assert forall k | 0 <= k < |q.blocks| :: BlockOk(p.blocks[k], BlockSize(p));
    PoolAndHeap(q, FreeLarge(h, p.large))
  }

  // ---------------------------------------------------------------------------
  // ngx_destroy_pool (ngx_palloc.c:56-120)

  /** What destroying a pool does, in order: a cleanup handler runs on its data, or memory is freed. */
  datatype Event = RunCleanup(handler: nat, data: nat) | Release(addr: nat)

  /** The cleanup walk: each non-NULL handler runs, in list order. */
  function CleanupRuns(cs: seq<CleanupEntry>): (r: seq<Event>)
    ensures |r| <= |cs|
    ensures forall e | e in r :: e.RunCleanup? && e.handler != Null
  {
    if cs == [] then []
    else (if cs[0].handler == Null then [] else [RunCleanup(cs[0].handler, cs[0].data)])
         + CleanupRuns(cs[1..])
  }

  /** The release of a sequence of addresses, in order. */
  function Releases(addrs: seq<nat>): (r: seq<Event>)
    ensures |r| == |addrs|
    ensures forall i | 0 <= i < |addrs| :: r[i] == Release(addrs[i])
  {
    seq(|addrs|, i requires 0 <= i < |addrs| => Release(addrs[i]))
  }

  /** The start of every block, in chain order. */
  function BlockBases(bs: seq<Block>): (r: seq<nat>)
    ensures |r| == |bs|
    ensures forall i | 0 <= i < |bs| :: r[i] == bs[i].base
  {
    seq(|bs|, i requires 0 <= i < |bs| => bs[i].base)
  }

  datatype Teardown = Teardown(events: seq<Event>, heap: Heap)

  /**
    ngx_destroy_pool as intended: cleanup handlers, then live large blocks, then every
    block of the chain once.
   */
  function DestroyPool(p: Pool, h: Heap): (r: Teardown)
    requires Wf(p)
    ensures r.events == CleanupRuns(p.cleanup) + Releases(LiveAllocs(p.large)) + Releases(BlockBases(p.blocks))
    ensures r.heap.freed == h.freed + LiveAllocs(p.large) + BlockBases(p.blocks)
    ensures forall i, j | 0 <= i < j < |r.events| && r.events[j].RunCleanup? :: r.events[i].RunCleanup?
  {
    var runs := CleanupRuns(p.cleanup);
    var frees := LiveAllocs(p.large) + BlockBases(p.blocks);
    assert Releases(LiveAllocs(p.large)) + Releases(BlockBases(p.blocks)) == Releases(frees);
    Teardown(runs + Releases(frees), h.(freed := h.freed + frees))
  }

  /**
    The block loop of ngx_destroy_pool as written (ngx_palloc.c:113-119): it walks the
    chain but passes `pool` to ngx_free on every turn.
   */
  function DestroyBlocksAsWritten(bs: seq<Block>): (r: seq<nat>)
    requires |bs| >= 1
    ensures |r| == |bs|
    ensures forall i | 0 <= i < |r| :: r[i] == bs[0].base
  {
    seq(|bs|, i => bs[0].base)
  }

  /**
    With two blocks the loop as written frees the first block twice and never frees the
    second, while the intended loop frees each once.
   */
  lemma DestroyAsWrittenDoubleFree(p: Pool)
    requires Wf(p) && Separate(p.blocks) && |p.blocks| == 2
    ensures DestroyBlocksAsWritten(p.blocks) == [p.blocks[0].base, p.blocks[0].base]
    ensures p.blocks[1].base !in DestroyBlocksAsWritten(p.blocks)
    ensures BlockBases(p.blocks) == [p.blocks[0].base, p.blocks[1].base]
  {
    assert BlockOk(p.blocks[0], BlockSize(p)) && BlockOk(p.blocks[1], BlockSize(p));
    assert p.blocks[0].base < p.blocks[0].end <= p.blocks[1].base;
    assert DestroyBlocksAsWritten(p.blocks) == [p.blocks[0].base, p.blocks[0].base];
  }

  // ---------------------------------------------------------------------------
  // Soundness: no overlap, no double ownership

  /** The blocks of q occupy the same places as those of p, and the large list is the same. */
  predicate SameFrames(p: Pool, q: Pool)
  {
    && |q.blocks| == |p.blocks|
    && (forall i | 0 <= i < |p.blocks| :: q.blocks[i].base == p.blocks[i].base && q.blocks[i].end == p.blocks[i].end)
    && q.large == p.large
  }

  lemma SameFramesKeepSound(p: Pool, q: Pool)
    requires Sound(p) && SameFrames(p, q)
    ensures Sound(q)
  {
    forall i, j | 0 <= i < j < |q.blocks|
      ensures q.blocks[i].end <= q.blocks[j].base
    {
      assert p.blocks[i].end <= p.blocks[j].base;
    }
    forall i, k | 0 <= i < |q.large| && 0 <= k < |q.blocks| && q.large[i].alloc != Null
      ensures !(q.blocks[k].base <= q.large[i].alloc < q.blocks[k].end)
    {
      assert !(p.blocks[k].base <= p.large[i].alloc < p.blocks[k].end);
    }
  }

  /** One more block, starting at or above `top`, which bounds everything p owns. */
  lemma AppendedFrameKeepsSound(p: Pool, q: Pool, top: nat)
    requires Sound(p) && |q.blocks| == |p.blocks| + 1 && q.large == p.large
    requires forall i | 0 <= i < |p.blocks| :: q.blocks[i].base == p.blocks[i].base && q.blocks[i].end == p.blocks[i].end
    requires forall i | 0 <= i < |p.blocks| :: p.blocks[i].end <= top
    requires forall i | 0 <= i < |p.large| :: p.large[i].alloc < top
    requires top <= q.blocks[|p.blocks|].base
    ensures Sound(q)
  {
    var n := |p.blocks|;
    forall i, j | 0 <= i < j < |q.blocks|
      ensures q.blocks[i].end <= q.blocks[j].base
    {
      if j < n {
        assert p.blocks[i].end <= p.blocks[j].base;
      }
    }
    forall i, k | 0 <= i < |q.large| && 0 <= k < |q.blocks| && q.large[i].alloc != Null
      ensures !(q.blocks[k].base <= q.large[i].alloc < q.blocks[k].end)
    {
      if k < n {
        assert !(p.blocks[k].base <= p.large[i].alloc < p.blocks[k].end);
      }
    }
  }

  /** Small allocation keeps the blocks apart and large memory outside them. */
  lemma SmallKeepsSound(p: Pool, h: Heap, size: nat, align: bool)
    requires WfIn(p, h) && Sound(p) && size + DataHeader <= BlockSize(p)
    ensures Sound(PallocSmall(p, h, size, align).pool)
  {
    var r := PallocSmall(p, h, size, align);
    if r.ptr != Null {
      var k := FindFit(p.blocks, p.current, size, align);
      assert Placed(p, r.pool, r.ptr, size, k);
      if k == |p.blocks| {
        PallocBlockGrows(p, h, size);
        AppendedFrameKeepsSound(p, r.pool, h.top);
      } else {
        SameFramesKeepSound(p, r.pool);
      }
    }
  }

  /**
    Two small allocations in a row never overlap: the second starts at or after the
    first one's end in the same block, or lies in another, separate block.
   */
  lemma SmallAllocationsDisjoint(p: Pool, h: Heap, s1: nat, a1: bool, s2: nat, a2: bool)
    requires WfIn(p, h) && Sound(p)
    requires s1 + DataHeader <= BlockSize(p) && s2 + DataHeader <= BlockSize(p)
    ensures var r1 := PallocSmall(p, h, s1, a1);
            var r2 := PallocSmall(r1.pool, r1.heap, s2, a2);
            r1.ptr != Null && r2.ptr != Null ==> r1.ptr + s1 <= r2.ptr || r2.ptr + s2 <= r1.ptr
  {
    var r1 := PallocSmall(p, h, s1, a1);
    if r1.ptr != Null {
      SmallKeepsSound(p, h, s1, a1);
      assert BlockSize(r1.pool) == BlockSize(p) by {
        assert r1.pool.blocks[0].base == p.blocks[0].base && r1.pool.blocks[0].end == p.blocks[0].end;
      }
      var r2 := PallocSmall(r1.pool, r1.heap, s2, a2);
      if r2.ptr != Null {
        SmallKeepsSound(r1.pool, r1.heap, s2, a2);
        var k1 := FindFit(p.blocks, p.current, s1, a1);
        var k2 := FindFit(r1.pool.blocks, r1.pool.current, s2, a2);
        assert Placed(p, r1.pool, r1.ptr, s1, k1);
        assert Placed(r1.pool, r2.pool, r2.ptr, s2, k2);
        if k1 != k2 {
          var b1, b2 := r2.pool.blocks[k1], r2.pool.blocks[k2];
          assert b1.base <= r1.ptr && r1.ptr + s1 <= b1.end;
          assert b2.base <= r2.ptr && r2.ptr + s2 <= b2.end;
          if k1 < k2 {
            assert b1.end <= b2.base;
          } else {
            assert b2.end <= b1.base;
          }
        }
      }
    }
  }

  /** The large path keeps every recorded heap block distinct and outside the blocks. */
  lemma LargeKeepsSound(p: Pool, h: Heap, size: nat)
    requires WfIn(p, h) && Sound(p)
    ensures Sound(PallocLarge(p, h, size).pool)
  {
    var a := Malloc(h, size, 1);
    if a.0 != Null {
      var s := ReusableSlot(p.large, 0, 0);
      if s != -1 {
        var q := p.(large := p.large[s := LargeEntry(p.large[s].node, a.0)]);
        forall i, j | 0 <= i < j < |q.large| && q.large[i].alloc != Null
          ensures q.large[i].alloc != q.large[j].alloc
        {
          if i != s && j != s {
            assert p.large[i].alloc != p.large[j].alloc;
          }
        }
        forall i, k | 0 <= i < |q.large| && 0 <= k < |q.blocks| && q.large[i].alloc != Null
          ensures !(q.blocks[k].base <= q.large[i].alloc < q.blocks[k].end)
        {
          if i != s {
            assert !(p.blocks[k].base <= p.large[i].alloc < p.blocks[k].end);
          }
        }
      } else {
        NewLargeNodeKeepsSound(p, h, a.1, a.0);
      }
    }
  }

  /** A new head entry for a heap block no entry holds and no block contains keeps soundness. */
  lemma PrependLargeKeepsSound(q: Pool, node: nat, a: nat)
    requires Sound(q)
    requires forall i | 0 <= i < |q.large| :: q.large[i].alloc != a
    requires forall k | 0 <= k < |q.blocks| :: !(q.blocks[k].base <= a < q.blocks[k].end)
    ensures Sound(q.(large := [LargeEntry(node, a)] + q.large))
  {
    var q' := q.(large := [LargeEntry(node, a)] + q.large);
    forall i, j | 0 <= i < j < |q'.large| && q'.large[i].alloc != Null
      ensures q'.large[i].alloc != q'.large[j].alloc
    {
      assert q'.large[j] == q.large[j - 1];
      if i > 0 {
        assert q'.large[i] == q.large[i - 1];
      }
    }
    forall i, k | 0 <= i < |q'.large| && 0 <= k < |q'.blocks| && q'.large[i].alloc != Null
      ensures !(q'.blocks[k].base <= q'.large[i].alloc < q'.blocks[k].end)
    {
      if i > 0 {
        assert q'.large[i] == q.large[i - 1];
      }
    }
  }

  /** Recording a heap block taken after everything the pool owns, in a new node, keeps soundness. */
  lemma NewLargeNodeKeepsSound(p: Pool, h: Heap, h1: Heap, a: nat)
    requires WfIn(p, h) && Sound(p) && h.top <= a < h1.top && h1.top >= h.top
    requires BlockSize(p) >= LargeNodeSize + DataHeader
    ensures var n := PallocSmall(p, h1, LargeNodeSize, true);
            n.ptr != Null ==> Sound(n.pool.(large := [LargeEntry(n.ptr, a)] + n.pool.large))
  {
    assert WfIn(p, h1);
    var n := PallocSmall(p, h1, LargeNodeSize, true);
    if n.ptr != Null {
      SmallKeepsSound(p, h1, LargeNodeSize, true);
      FreshAddressOutsideBlocks(p, h, h1, a);
      PrependLargeKeepsSound(n.pool, n.ptr, a);
    }
  }

  /** An address taken between the old and the new heap top lies in no block after the node allocation. */
  lemma FreshAddressOutsideBlocks(p: Pool, h: Heap, h1: Heap, a: nat)
    requires WfIn(p, h) && WfIn(p, h1) && h.top <= a < h1.top
    requires BlockSize(p) >= LargeNodeSize + DataHeader
    ensures var n := PallocSmall(p, h1, LargeNodeSize, true);
            n.ptr != Null ==> forall k | 0 <= k < |n.pool.blocks| :: !(n.pool.blocks[k].base <= a < n.pool.blocks[k].end)
  {
    var n := PallocSmall(p, h1, LargeNodeSize, true);
    if n.ptr != Null {
      if FindFit(p.blocks, p.current, LargeNodeSize, true) == |p.blocks| {
        PallocBlockGrows(p, h1, LargeNodeSize);
      }
      assert Placed(p, n.pool, n.ptr, LargeNodeSize, FindFit(p.blocks, p.current, LargeNodeSize, true));
      forall k | 0 <= k < |n.pool.blocks|
        ensures !(n.pool.blocks[k].base <= a < n.pool.blocks[k].end)
      {
        if k < |p.blocks| {
          assert n.pool.blocks[k].end == p.blocks[k].end <= h.top;
        }
      }
    }
  }

  /** ngx_palloc and ngx_pnalloc keep the pool sound. */
  lemma PallocKeepsSound(p: Pool, h: Heap, size: nat, align: bool)
    requires WfIn(p, h) && Sound(p)
    ensures Sound(PallocAligned(p, h, size, align).pool)
  {
    if size <= p.max {
      SmallKeepsSound(p, h, size, align);
    } else {
      LargeKeepsSound(p, h, size);
    }
  }

  /** ngx_pmemalign keeps the pool sound. */
  lemma PmemalignKeepsSound(p: Pool, h: Heap, size: nat, alignment: nat)
    requires WfIn(p, h) && Sound(p)
    ensures Sound(Pmemalign(p, h, size, alignment).pool)
  {
    var a := Memalign(h, alignment, size);
    if a.0 != Null {
      NewLargeNodeKeepsSound(p, h, a.1, a.0);
    }
  }

  /** ngx_pfree keeps the pool sound. */
  lemma PfreeKeepsSound(p: Pool, h: Heap, ptr: nat)
    requires WfIn(p, h) && Sound(p)
    ensures Sound(Pfree(p, h, ptr).pool)
  {
    var q := Pfree(p, h, ptr).pool;
    forall i, j | 0 <= i < j < |q.large| && q.large[i].alloc != Null
      ensures q.large[i].alloc != q.large[j].alloc
    {
      assert q.large[i].alloc == p.large[i].alloc;
      if q.large[j].alloc != Null {
        assert q.large[j].alloc == p.large[j].alloc;
      }
    }
    forall i, k | 0 <= i < |q.large| && 0 <= k < |q.blocks| && q.large[i].alloc != Null
      ensures !(q.blocks[k].base <= q.large[i].alloc < q.blocks[k].end)
    {
      assert q.large[i].alloc == p.large[i].alloc;
    }
  }

  /** ngx_reset_pool keeps the pool sound. */
  lemma ResetKeepsSound(p: Pool, h: Heap)
    requires WfIn(p, h) && Sound(p)
    ensures Sound(ResetPool(p, h).pool)
  {
    var q := ResetPool(p, h).pool;
    forall i, j | 0 <= i < j < |q.blocks|
      ensures q.blocks[i].end <= q.blocks[j].base
    {
      assert p.blocks[i].end <= p.blocks[j].base;
    }
  }

  // ---------------------------------------------------------------------------
  // Properties across operations

  /** A pool whose first block is empty and current serves a small request right after the header. */
  lemma EmptyFirstBlockServes(p: Pool, h: Heap, size: nat, align: bool)
    requires WfIn(p, h) && p.current == 0 && p.blocks[0].last == p.blocks[0].base + PoolHeader
    requires size <= p.max
    ensures PallocSmall(p, h, size, align).ptr == p.blocks[0].base + PoolHeader
    ensures PallocSmall(p, h, size, align).pool.blocks[0].last == p.blocks[0].base + PoolHeader + size
    ensures PallocSmall(p, h, size, align).heap == h
  {
    var b := p.blocks[0];
    assert BlockOk(b, BlockSize(p));
    NewBlockAligned(b.base);
    AlignFixesMultiples(b.base + PoolHeader, Word) by {
      assert b.base + PoolHeader == (b.base + DataHeader) + 48;
    }
    assert Candidate(b, align) == b.base + PoolHeader;
    assert Fits(b, size, align);
    assert FindFit(p.blocks, 0, size, align) == 0;
  }

  /** A freshly created pool serves its first small request right after the pool header. */
  lemma CreatedPoolFirstAllocation(h: Heap, size: nat, pagesize: nat, n: nat, align: bool)
    requires h.top >= 1 && size >= PoolHeader && pagesize >= 1
    ensures var c := CreatePool(h, size, pagesize);
            c.NewPool? && n <= c.pool.max ==>
              PallocAligned(c.pool, c.heap, n, align).ptr == c.pool.blocks[0].base + PoolHeader
  {
    var c := CreatePool(h, size, pagesize);
    if c.NewPool? && n <= c.pool.max {
      EmptyFirstBlockServes(c.pool, c.heap, n, align);
    }
  }

  /** After a reset the first small request is served at the start of the first block again. */
  lemma ResetServesFromFirstBlock(p: Pool, h: Heap, size: nat, align: bool)
    requires WfIn(p, h) && size <= p.max
    ensures var q := ResetPool(p, h);
            var r := PallocAligned(q.pool, q.heap, size, align);
            r.ptr == p.blocks[0].base + PoolHeader && r.heap == q.heap
  {
    var q := ResetPool(p, h);
    EmptyFirstBlockServes(q.pool, q.heap, size, align);
  }

  /** Resetting twice is resetting once, and the second reset frees nothing. */
  lemma ResetIdempotent(p: Pool, h: Heap)
    requires WfIn(p, h)
    ensures var q := ResetPool(p, h);
            ResetPool(q.pool, q.heap) == q
  {
    var q := ResetPool(p, h);
    var q2 := ResetPool(q.pool, q.heap);
    assert q2.pool.blocks == q.pool.blocks;
    assert LiveAllocs([]) == [];
  }

  /** ngx_pfree succeeds at most once per pointer: the second call is declined. */
  lemma PfreeTwiceDeclined(p: Pool, h: Heap, ptr: nat)
    requires WfIn(p, h) && Sound(p) && ptr != Null
    ensures var r1 := Pfree(p, h, ptr);
            Pfree(r1.pool, r1.heap, ptr).rc == Declined
  {
    var r1 := Pfree(p, h, ptr);
    if r1.rc == Ok {
      var k := FindLarge(p.large, ptr);
      forall j | 0 <= j < |r1.pool.large|
        ensures r1.pool.large[j].alloc != ptr
      {
      }
    }
  }

  /** A pointer into a block (a small allocation) is never taken by ngx_pfree. */
  lemma PfreeSmallDeclined(p: Pool, h: Heap, ptr: nat, k: nat)
    requires WfIn(p, h) && Sound(p) && ptr != Null
    requires k < |p.blocks| && p.blocks[k].base <= ptr < p.blocks[k].end
    ensures Pfree(p, h, ptr).rc == Declined && Pfree(p, h, ptr).pool == p
  {
    forall j | 0 <= j < |p.large|
      ensures p.large[j].alloc != ptr
    {
    }
  }

  /**
    Cleanup handlers run in reverse registration order: the entry added last, once its
    handler is set, runs before every handler registered earlier.
   */
  lemma LastRegisteredRunsFirst(p: Pool, h: Heap, size: nat, handler: nat)
    requires WfIn(p, h) && handler != Null
    ensures var r := CleanupAdd(p, h, size);
            r.ptr != Null ==>
              CleanupRuns(SetCleanupHandler(r.pool.cleanup, r.ptr, handler))
                == [RunCleanup(handler, r.pool.cleanup[0].data)] + CleanupRuns(p.cleanup)
  {
    var r := CleanupAdd(p, h, size);
    if r.ptr != Null {
      var cs := SetCleanupHandler(r.pool.cleanup, r.ptr, handler);
      assert cs[1..] == p.cleanup;
    }
  }

  /** Every cleanup entry with a handler has its run in the destroy sequence; the rest are skipped. */
  lemma CleanupRunsComplete(cs: seq<CleanupEntry>, j: nat)
    requires j < |cs|
    ensures cs[j].handler != Null <==> RunCleanup(cs[j].handler, cs[j].data) in CleanupRuns(cs)
    decreases j
  {
    if j > 0 {
      CleanupRunsComplete(cs[1..], j - 1);
      assert cs[1..][j - 1] == cs[j];
    }
  }

  // ---------------------------------------------------------------------------
  // The fit test as written (ngx_palloc.c:197)

  /**
    The test as written: (size_t) (p->d.end - m) >= size. When alignment moved m past
    d.end, the difference wraps to a huge unsigned value and the test passes.
   */
  predicate FitsAsWritten(b: Block, size: nat, align: bool)
  {
    (b.end - Candidate(b, align)) % Uint64Modulus >= size
  }

  /**
    A 100-byte pool at address 16 (end 116, max 20, the shape CreatePool gives) after
    ngx_pnalloc(17) has its cursor at 113;
    ngx_palloc(1) aligns to 120, past the end, and the test as written lets it through
    where the intended test refuses.
   */
  lemma FitWrapsAsWritten()
    ensures var p := Pool([Block(16, 96, 116, 0)], 20, 0, [], []);
            && WfIn(p, Heap(116, 1000, []))
            && var r := PallocSmall(p, Heap(116, 1000, []), 17, false);
            && r.pool.blocks[0] == Block(16, 113, 116, 0)
            && FitsAsWritten(r.pool.blocks[0], 1, true)
            && !Fits(r.pool.blocks[0], 1, true)
            && Candidate(r.pool.blocks[0], true) + 1 > r.pool.blocks[0].end
  {
    WordIsPow2();
    var p := Pool([Block(16, 96, 116, 0)], 20, 0, [], []);
    assert BlockOk(p.blocks[0], BlockSize(p));
    assert Fits(p.blocks[0], 17, false);
    assert FindFit(p.blocks, 0, 17, false) == 0;
    var b := Block(16, 113, 116, 0);
    AlignIsLeast(113, Word, 120);
    assert Candidate(b, true) == 120;
  }

  /** On blocks whose end is word-aligned the test as written agrees with the intended one. */
  lemma FitsAgreeOnWordSizedBlocks(b: Block, size: nat, align: bool)
    requires b.last <= b.end < Uint64Modulus && b.end % Word == 0
    ensures FitsAsWritten(b, size, align) <==> Fits(b, size, align)
  {
    WordIsPow2();
    if align {
      AlignIsLeast(b.last, Word, b.end);
    }
  }

  /**
    The large-slot scan as written leaves its counter `n` uninitialised
    (ngx_palloc.c:333); started at 4 or more, the scan gives up after the first entry and
    misses a free slot that the intended scan (counter at 0) reuses.
   */
  lemma LargeScanUninitialisedCounter()
    ensures var large := [LargeEntry(8, 4096), LargeEntry(24, Null)];
            ReusableSlot(large, 0, 0) == 1 && ReusableSlot(large, 0, 4) == -1
  {
  }
}
