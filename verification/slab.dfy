/**
  The shared-memory slab allocator of ngx_slab.c, for the parts the source implements:
  the size parameters, the region layout, page and chunk addresses, the single-page
  split of the free-run list, and the fresh class page for chunk sizes above the
  exact size.

  Page descriptors (ngx_slab_page_t) are records in a sequence indexed by page number.
  Their `next` and `prev` pointers are links: to a slot head, to the free-list head,
  to a page descriptor, or NULL. The low bits that nginx stores in `prev` (the page
  type) are the separate `tag` field.
 */
module Slab {
  import opened Config

  /** NGX_SLAB_PAGE and NGX_SLAB_BIG: the tags kept in the low bits of `prev`. */
  const TagPage: nat := 0
  const TagBig: nat := 1

  /** NGX_SLAB_PAGE_START and NGX_SLAB_MAP_SHIFT on a 64-bit platform. */
  const PageStart: nat := 0x8000_0000_0000_0000
  const MapShift: nat := 32

  /** 1 << NGX_SLAB_MAP_SHIFT: the weight of the first chunk's bit. */
  const MapUnit: nat := 0x1_0000_0000

  /** sizeof(ngx_slab_page_t) and sizeof(ngx_slab_stat_t). */
  const DescSize: nat := 24
  const StatSize: nat := 32

  /** Where a descriptor pointer leads. */
  datatype Link = Nil | SlotHead(slot: nat) | FreeHead | Page(index: nat)

  /** ngx_slab_page_t: slab word, next, and prev with its tag. */
  datatype Desc = Desc(slab: nat, next: Link, prev: Link, tag: nat)

  /** ngx_slab_stat_t. */
  datatype SlabStat = SlabStat(total: nat, used: nat, reqs: nat, fails: nat)

  /** The file-level statics set by ngx_slab_sizes_init. */
  datatype Sizes = Sizes(maxSize: nat, exactSize: nat, exactShift: nat)

  /** ngx_slab_pool_t, with ngx_pagesize = 2^pagesizeShift. */
  datatype SlabPool = SlabPool(
    pagesizeShift: nat,
    minShift: nat, minSize: nat,
    slots: seq<Desc>,
    stats: seq<SlabStat>,
    pages: seq<Desc>,
    free: Desc,
    start: nat, end: nat,
    last: nat, pfree: nat)

  // ---------------------------------------------------------------------------
  // ngx_slab_sizes_init (ngx_slab.c:59-67)

  /** floor(log2 n) for n >= 1, and 0 for 0: how often n can be halved before reaching 0, less one. */
  function Log2(n: nat): nat
  {
    if n <= 1 then 0 else 1 + Log2(n / 2)
  }

  lemma {:induction false} Log2OfPow2(k: nat)
    ensures Log2(Pow2(k)) == k
  {
    if k > 0 {
      Log2OfPow2(k - 1);
      assert Pow2(k) / 2 == Pow2(k - 1);
    }
  }

  /**
    The loop `for (n = exact_size; n >>= 1; exact_shift++)`: the shift grows by one for
    every halving that leaves a non-zero value.
   */
  method ShiftLoop(exactSize: nat, shift0: nat) returns (shift: nat)
    ensures shift == shift0 + Log2(exactSize)
  {
    var n := exactSize;
    shift := shift0;
    n := n / 2;
    while n != 0
      invariant shift + Log2(n) + (if n == 0 then 0 else 1) == shift0 + Log2(exactSize)
      decreases n
    {
      shift := shift + 1;
      n := n / 2;
    }
  }

  /**
    ngx_slab_sizes_init: max_size is half a page and exact_size a page over the 64 bits
    of a bitmap word; exact_shift is the static's starting value plus log2(exact_size).
   */
  method SizesInit(pagesize: nat, shift0: nat) returns (s: Sizes)
    ensures s.maxSize == pagesize / 2
    ensures s.exactSize == pagesize / (8 * PtrSize)
    ensures s.exactShift == shift0 + Log2(s.exactSize)
  {
    var exact := pagesize / (8 * PtrSize);
    var shift := ShiftLoop(exact, shift0);
    s := Sizes(pagesize / 2, exact, shift);
  }

  /** From a zero static and a power-of-two page of at least 64 bytes, 1 << exact_shift == exact_size. */
  lemma ExactShiftMatchesSize(k: nat)
    requires k >= 6
    ensures Pow2(k) / (8 * PtrSize) == Pow2(k - 6)
    ensures Pow2(Log2(Pow2(k) / (8 * PtrSize))) == Pow2(k) / (8 * PtrSize)
    ensures Pow2(k) / 2 == Pow2(k - 1)
  {
    Pow2Split(k - 6, 6);
    assert Pow2(6) == 64;
    Log2OfPow2(k - 6);
  }

  lemma {:induction false} Pow2Split(a: nat, b: nat)
    ensures Pow2(a + b) == Pow2(a) * Pow2(b)
    decreases b
  {
    if b > 0 {
      Pow2Split(a, b - 1);
      assert Pow2(a + b) == 2 * Pow2(a + b - 1);
    }
  }

  // ---------------------------------------------------------------------------
  // ngx_slab_init (ngx_slab.c:70-184)

  /** ngx_slab_page_addr: the address of page i is start + (i << pagesize_shift). */
  function PageAddr(sp: SlabPool, i: nat): (a: nat)
    ensures a >= sp.start
  {
    sp.start + i * Pow2(sp.pagesizeShift)
  }

  /** The free-run list: every run head in list order, linked both ways through the descriptors. */
  predicate FreeChain(sp: SlabPool, rs: seq<nat>)
  {
    && sp.last <= |sp.pages|
    && (forall k | 0 <= k < |rs| :: rs[k] < |sp.pages|)
    && (forall k | 0 <= k < |rs| :: rs[k] + sp.pages[rs[k]].slab <= sp.last && sp.pages[rs[k]].slab >= 1)
    && (forall j, k | 0 <= j < |rs| && 0 <= k < |rs| && j != k ::
          rs[j] < rs[k] || rs[k] + sp.pages[rs[k]].slab <= rs[j])
    && sp.free.next == (if rs == [] then FreeHead else Page(rs[0]))
    && (forall k | 0 <= k < |rs| ::
          sp.pages[rs[k]].next == (if k + 1 < |rs| then Page(rs[k + 1]) else FreeHead))
    && (forall k | 0 <= k < |rs| ::
          sp.pages[rs[k]].prev == (if k == 0 then FreeHead else Page(rs[k - 1])))
  }

  /** What ngx_slab_init needs of the zone: an ordered layout and room for one page with its descriptor. */
  predicate InitRoom(base: nat, header: nat, end: nat, minShift: nat, pagesizeShift: nat)
  {
    && minShift <= pagesizeShift
    && base + header + (pagesizeShift - minShift) * (DescSize + StatSize)
         + Pow2(pagesizeShift) + DescSize <= end
  }

  /**
    ngx_slab_init for a pool header of `header` bytes at `base` and a zone ending at
    `end`: n = pagesize_shift - min_shift slot heads and stats, then as many page
    descriptors and pages as fit, then the pages from the first page-aligned address.
   */
  function SlabInit(base: nat, header: nat, end: nat, minShift: nat, pagesizeShift: nat): (sp: SlabPool)
    requires InitRoom(base, header, end, minShift, pagesizeShift)
    ensures |sp.slots| == pagesizeShift - minShift == |sp.stats|
    ensures forall i | 0 <= i < |sp.slots| :: sp.slots[i] == Desc(0, SlotHead(i), Nil, 0)
    ensures forall i | 0 <= i < |sp.stats| :: sp.stats[i] == SlabStat(0, 0, 0, 0)
    ensures sp.minSize == Pow2(minShift)
    ensures sp.start % Pow2(pagesizeShift) == 0
    ensures PageAddr(sp, sp.last) <= sp.end == end
    ensures sp.last == |sp.pages| || PageAddr(sp, sp.last + 1) > end
    ensures sp.pfree == sp.last
    ensures |sp.pages| >= 1 && sp.free.next == Page(0) && sp.pages[0].slab == sp.last
    ensures FreeChain(sp, [0]) || sp.last == 0
  {
    var n := pagesizeShift - minShift;
    var p := base + header + n * (DescSize + StatSize);
    var g := InitGeometry(p, end, pagesizeShift);
    var descs := seq(g.pages0, i => if i == 0 then Desc(g.pages1, FreeHead, FreeHead, 0) else Desc(0, Nil, Nil, 0));
    SlabPool(pagesizeShift, minShift, Pow2(minShift),
             seq(n, i requires 0 <= i => Desc(0, SlotHead(i), Nil, 0)),
             seq(n, i => SlabStat(0, 0, 0, 0)),
             descs, Desc(0, Page(0), Nil, 0), g.start, end, g.pages1, g.pages1)
  }

  /** The page count, first page address and usable page count that ngx_slab_init derives. */
  datatype Geometry = Geometry(pages0: nat, start: nat, pages1: nat)

  /**
    From the address p after the slot heads and stats: pages0 descriptors and pages fit in
    the rest, start is the first page boundary after the descriptors, and the count is cut
    back (m = pages - (end - start) / pagesize) to the pages that fit between start and end.
   */
  function InitGeometry(p: nat, end: nat, pagesizeShift: nat): (g: Geometry)
    requires p + Pow2(pagesizeShift) + DescSize <= end
    ensures g.pages0 >= 1 && g.pages1 <= g.pages0
    ensures g.start % Pow2(pagesizeShift) == 0
    ensures g.start + g.pages1 * Pow2(pagesizeShift) <= end
    ensures g.pages1 < g.pages0 ==> end < g.start + (g.pages1 + 1) * Pow2(pagesizeShift)
  {
    var psize := Pow2(pagesizeShift);
    var pages0 := (end - p) / (psize + DescSize);
    Pow2IsPow2(pagesizeShift);
    var start := Align(p + pages0 * DescSize, psize);
    InitLayout(p, end, psize, pages0, start);
    Geometry(pages0, start, UsablePages(end - start, psize, pages0))
  }

  /** There is at least one page's worth of room after the descriptors, so start stays below end. */
  lemma InitLayout(p: nat, end: nat, psize: nat, pages0: nat, start: nat)
    requires psize >= 1
    requires pages0 == (end - p) / (psize + DescSize) && p + psize + DescSize <= end
    requires p + pages0 * DescSize <= start < p + pages0 * DescSize + psize
    ensures pages0 >= 1
    ensures start + pages0 * psize <= end + psize
    ensures start < end
  {
    var d := psize + DescSize;
    assert (end - p) >= d;
    DivAtLeastOne(end - p, d);
    assert pages0 * d <= end - p by {
      assert (end - p) == d * pages0 + (end - p) % d;
    }
    assert pages0 * d == pages0 * psize + pages0 * DescSize;
    MulAtLeast(psize, pages0);
  }

  /**
    The cut-back of ngx_slab_init: m = pages - room / pagesize, and when m > 0 the page
    count drops by m. The result is the most pages, up to pages0, that fit in room.
   */
  function UsablePages(room: nat, psize: nat, pages0: nat): (pages1: nat)
    requires psize >= 1
    ensures pages1 <= pages0
    ensures pages1 * psize <= room
    ensures pages1 < pages0 ==> room < (pages1 + 1) * psize
  {
    var m: int := pages0 - room / psize;
    var pages1: nat := if m > 0 then pages0 - m else pages0;
    var q := room / psize;
    assert room == psize * q + room % psize;
    MulMonotone(pages1, q, psize);
    assert pages1 < pages0 ==> (q + 1) * psize == q * psize + psize;
    pages1
  }

  // ---------------------------------------------------------------------------
  // Page and chunk addresses (ngx_slab.c:33-35, 263)

  /** The pool invariants the allocation path relies on, all established by SlabInit. */
  predicate SlabWf(sp: SlabPool)
  {
    && |sp.slots| == sp.pagesizeShift - sp.minShift == |sp.stats|
    && sp.minShift <= sp.pagesizeShift
    && sp.minSize == Pow2(sp.minShift)
    && sp.last <= |sp.pages|
    && sp.start % Pow2(sp.pagesizeShift) == 0
    && PageAddr(sp, sp.last) <= sp.end
    && (forall s | 0 <= s < |sp.slots| ::
          sp.slots[s].next == SlotHead(s) || (sp.slots[s].next.Page? && sp.slots[s].next.index < |sp.pages|))
  }

  lemma InitIsWf(base: nat, header: nat, end: nat, minShift: nat, pagesizeShift: nat)
    requires InitRoom(base, header, end, minShift, pagesizeShift)
    ensures SlabWf(SlabInit(base, header, end, minShift, pagesizeShift))
  {
  }

  /** Chunk i of a page split into chunks of 2^shift bytes: page_addr + (i << shift). */
  function ChunkAddr(sp: SlabPool, page: nat, shift: nat, i: nat): nat
  {
    PageAddr(sp, page) + i * Pow2(shift)
  }

  /** Every usable page lies inside the zone, on a page boundary. */
  lemma PageInZone(sp: SlabPool, page: nat)
    requires SlabWf(sp) && page < sp.last
    ensures PageAddr(sp, page) % Pow2(sp.pagesizeShift) == 0
    ensures PageAddr(sp, page) + Pow2(sp.pagesizeShift) <= sp.end
  {
    var psize := Pow2(sp.pagesizeShift);
    var q := sp.start / psize;
    assert sp.start == psize * q;
    assert PageAddr(sp, page) == psize * (q + page);
    ModOfMultiple(psize, q + page);
    MulMonotone(page + 1, sp.last, psize);
    assert PageAddr(sp, page) + psize == sp.start + (page + 1) * psize;
  }

  /**
    Every chunk of a usable page lies inside that page, on a multiple of its own size;
    a page holds pagesize >> shift = 2^(pagesize_shift - shift) chunks.
   */
  lemma ChunkInPage(sp: SlabPool, page: nat, shift: nat, i: nat)
    requires SlabWf(sp) && page < sp.last
    requires shift <= sp.pagesizeShift && i < Pow2(sp.pagesizeShift - shift)
    ensures PageAddr(sp, page) <= ChunkAddr(sp, page, shift, i)
    ensures ChunkAddr(sp, page, shift, i) + Pow2(shift) <= PageAddr(sp, page) + Pow2(sp.pagesizeShift) <= sp.end
    ensures ChunkAddr(sp, page, shift, i) % Pow2(shift) == 0
  {
    var k := sp.pagesizeShift;
    PageInZone(sp, page);
    Pow2Split(k - shift, shift);
    assert k - shift + shift == k;
    ChunkArith(PageAddr(sp, page), Pow2(shift), Pow2(k - shift), i);
  }

  /** Chunk i of an aligned block of count chunks is aligned and inside the block. */
  lemma ChunkArith(a: nat, csize: nat, count: nat, i: nat)
    requires csize >= 1 && i < count && a % (count * csize) == 0
    ensures (a + i * csize) % csize == 0
    ensures a + i * csize + csize <= a + count * csize
  {
    var q := a / (count * csize);
    assert a == (count * csize) * q;
    assert a + i * csize == csize * (count * q + i);
    ModOfMultiple(csize, count * q + i);
    ChunkOffset(i, count, csize);
  }

  lemma ChunkOffset(i: nat, count: nat, csize: nat)
    requires i < count
    ensures i * csize + csize <= count * csize
  {
    MulMonotone(i + 1, count, csize);
  }

  // ---------------------------------------------------------------------------
  // Size classes (ngx_slab.c:207-213)

  /** The slot a request is served from and the log2 of that slot's chunk size. */
  datatype SizeClass = SizeClass(shift: nat, slot: nat)

  lemma {:induction false} Log2Bounds(n: nat)
    requires n >= 1
    ensures Pow2(Log2(n)) <= n < Pow2(Log2(n) + 1)
  {
    if n > 1 {
      Log2Bounds(n / 2);
    }
  }

  /** A value between consecutive powers of two has exactly one floor logarithm. */
  lemma Log2Unique(n: nat, a: nat)
    requires Pow2(a) <= n < Pow2(a + 1)
    ensures Log2(n) == a
  {
    Log2Bounds(n);
    var b := Log2(n);
    if b < a {
      Pow2Monotone(b + 1, a);
    } else if b > a {
      Pow2Monotone(a + 1, b);
    }
  }

  /**
    The class of a request: above min_size, the least shift whose chunk holds `size`,
    counted by `for (s = size - 1; s >>= 1; shift++)` from shift = 1 (ShiftLoop), in slot
    shift - min_shift; otherwise the smallest class, slot 0.
   */
  function ClassFor(minShift: nat, size: nat): (c: SizeClass)
    ensures size > Pow2(minShift) ==>
              c.shift > minShift && c.slot == c.shift - minShift
              && Pow2(c.shift - 1) < size <= Pow2(c.shift)
    ensures size <= Pow2(minShift) ==> c == SizeClass(minShift, 0)
  {
    if size > Pow2(minShift) then
      var shift := 1 + Log2(size - 1);
      ShiftAboveMin(minShift, size);
      SizeClass(shift, shift - minShift)
    else
      SizeClass(minShift, 0)
  }

  lemma ShiftAboveMin(minShift: nat, size: nat)
    requires size > Pow2(minShift)
    ensures 1 + Log2(size - 1) > minShift
    ensures Pow2(Log2(size - 1)) < size <= Pow2(1 + Log2(size - 1))
  {
    Log2Bounds(size - 1);
    var shift := 1 + Log2(size - 1);
    assert Pow2(shift) == 2 * Pow2(shift - 1);
    if shift <= minShift {
      Pow2Monotone(shift, minShift);
    }
  }

  /** The loop of ngx_slab.c:208-209, as intended, yields the shift of ClassFor. */
  method ClassShift(minShift: nat, size: nat) returns (shift: nat)
    requires size > Pow2(minShift)
    ensures shift == ClassFor(minShift, size).shift
    ensures Pow2(shift - 1) < size <= Pow2(shift)
  {
    shift := ShiftLoop(size - 1, 1);
  }

  /** The class table in the comment at ngx_slab.c:194-205: with min_shift 3, a 1 KiB request is shift 10, slot 7. */
  lemma OneKiBClass()
    ensures ClassFor(3, 1024) == SizeClass(10, 7)
    ensures ClassFor(3, 8) == SizeClass(3, 0)
  {
    assert Pow2(3) == 8;
    assert Pow2(9) == 512 && Pow2(10) == 1024;
    Log2Unique(1023, 9);
  }

  /**
    The loop at ngx_slab.c:209 as written: `s >> 1` is tested but never stored, so s keeps
    its value. The result is the shift the loop leaves, or None when it is still running
    after `fuel` rounds.
   */
  function ShiftLoopAsWritten(s: nat, shift: nat, fuel: nat): Option<nat>
    decreases fuel
  {
    if s / 2 == 0 then Some(shift)
    else if fuel == 0 then None
    else ShiftLoopAsWritten(s, shift + 1, fuel - 1)
  }

  /** Any request of three bytes or more that takes this branch never leaves the loop. */
  lemma {:induction false} ShiftLoopDivergesAsWritten(size: nat, shift: nat, fuel: nat)
    requires size >= 3
    ensures ShiftLoopAsWritten(size - 1, shift, fuel) == None
    decreases fuel
  {
    if fuel > 0 {
      ShiftLoopDivergesAsWritten(size, shift + 1, fuel - 1);
    }
  }

  /**
    The else branch at ngx_slab.c:212 as written: the shift is set to min_size (a byte
    count, not a shift) and the slot is left unset.
   */
  function SmallClassAsWritten(minShift: nat): (nat, Option<nat>)
  {
    (Pow2(minShift), None)
  }

  /** With min_shift 3 an 8-byte request gets 256-byte chunks and no slot, where ClassFor gives 8-byte chunks in slot 0. */
  lemma SmallClassWrongAsWritten()
    ensures SmallClassAsWritten(3).0 == 8 && Pow2(SmallClassAsWritten(3).0) == 256
    ensures SmallClassAsWritten(3).1 == None
    ensures ClassFor(3, 8) == SizeClass(3, 0) && Pow2(3) == 8
  {
    assert Pow2(3) == 8;
    assert Pow2(8) == 256;
  }

  // ---------------------------------------------------------------------------
  // ngx_slab_alloc_pages (ngx_slab.c:309-382)

  /** What ngx_slab_alloc_pages hands back; Undefined where the source's behaviour is not defined. */
  datatype PagesResult = GotPages(sp: SlabPool, page: nat) | NoPages(sp: SlabPool) | PagesUndefined

  /** A link of the free list that can be written through: the free head or a descriptor in range. */
  predicate FreeLink(sp: SlabPool, l: Link)
  {
    l == FreeHead || (l.Page? && l.index < |sp.pages|)
  }

  /** `l->next = v` for a free-list link. */
  function SetNext(sp: SlabPool, l: Link, v: Link): (r: SlabPool)
    requires FreeLink(sp, l)
    ensures r.(pages := sp.pages, free := sp.free) == sp && |r.pages| == |sp.pages|
    ensures l == FreeHead ==> r.free.next == v && r.pages == sp.pages
    ensures l.Page? ==> r.pages == sp.pages[l.index := sp.pages[l.index].(next := v)] && r.free == sp.free
  {
    if l == FreeHead then sp.(free := sp.free.(next := v))
    else sp.(pages := sp.pages[l.index := sp.pages[l.index].(next := v)])
  }

  /** `l->prev = v | tag` for a free-list link. */
  function SetPrev(sp: SlabPool, l: Link, v: Link, tag: nat): (r: SlabPool)
    requires FreeLink(sp, l)
    ensures r.(pages := sp.pages, free := sp.free) == sp && |r.pages| == |sp.pages|
    ensures l == FreeHead ==> r.free.next == sp.free.next && r.pages == sp.pages
    ensures l.Page? ==> r.pages == sp.pages[l.index := sp.pages[l.index].(prev := v, tag := tag)] && r.free == sp.free
  {
    if l == FreeHead then sp.(free := sp.free.(prev := v, tag := tag))
    else sp.(pages := sp.pages[l.index := sp.pages[l.index].(prev := v, tag := tag)])
  }

  /** The link that `next` of descriptor l holds. */
  function NextOf(sp: SlabPool, l: Link): Link
  {
    match l
    case Nil => Nil
    case FreeHead => sp.free.next
    case SlotHead(s) => if s < |sp.slots| then sp.slots[s].next else Nil
    case Page(j) => if j < |sp.pages| then sp.pages[j].next else Nil
  }

  /**
    The walk `for (page = pool->free.next; page != &pool->free; page = page->next)` up to
    the first run of at least n pages. The fuel only bounds the walk; on a well-formed
    list it outlasts the list (FindRunFollowsChain).
   */
  function FindRun(sp: SlabPool, l: Link, n: nat, fuel: nat): (r: Option<nat>)
    ensures r.Some? ==> r.value < |sp.pages| && sp.pages[r.value].slab >= n
    decreases fuel
  {
    if fuel == 0 then None
    else match l
      case Page(i) =>
        if i >= |sp.pages| then None
        else if sp.pages[i].slab >= n then Some(i)
        else FindRun(sp, sp.pages[i].next, n, fuel - 1)
      case _ => None
  }

  /** The link that reaches position t of the chain rs. */
  function LinkAt(rs: seq<nat>, t: nat): Link
  {
    if t < |rs| then Page(rs[t]) else FreeHead
  }

  /** The first run from position t of the chain with at least n pages. */
  function ChainFit(sp: SlabPool, rs: seq<nat>, n: nat, t: nat): (r: Option<nat>)
    requires forall k | 0 <= k < |rs| :: rs[k] < |sp.pages|
    decreases |rs| - t
  {
    if t >= |rs| then None
    else if sp.pages[rs[t]].slab >= n then Some(rs[t])
    else ChainFit(sp, rs, n, t + 1)
  }

  lemma {:induction false} ChainFitSpec(sp: SlabPool, rs: seq<nat>, n: nat, t: nat)
    requires forall k | 0 <= k < |rs| :: rs[k] < |sp.pages|
    ensures ChainFit(sp, rs, n, t).None? <==> forall k | t <= k < |rs| :: sp.pages[rs[k]].slab < n
    ensures ChainFit(sp, rs, n, t).Some? ==>
              exists k | t <= k < |rs| :: ChainFit(sp, rs, n, t) == Some(rs[k]) && sp.pages[rs[k]].slab >= n
                && forall j | t <= j < k :: sp.pages[rs[j]].slab < n
    decreases |rs| - t
  {
    if t < |rs| && sp.pages[rs[t]].slab < n {
      ChainFitSpec(sp, rs, n, t + 1);
    }
  }

  /** On a well-formed free list the walk finds the first run that is large enough, or none. */
  lemma {:induction false} FindRunFollowsChain(sp: SlabPool, rs: seq<nat>, n: nat, t: nat, fuel: nat)
    requires FreeChain(sp, rs) && t <= |rs| && fuel > |rs| - t
    ensures FindRun(sp, LinkAt(rs, t), n, fuel) == ChainFit(sp, rs, n, t)
    decreases |rs| - t
  {
    if t < |rs| && sp.pages[rs[t]].slab < n {
      assert sp.pages[rs[t]].next == LinkAt(rs, t + 1);
      FindRunFollowsChain(sp, rs, n, t + 1, fuel - 1);
    }
  }

  /**
    ngx_slab.c:327-337, shared by both readings of the split: the last page of the run
    points back to the remainder, and the remainder takes over the run's size, less n,
    and its links.
   */
  function CarveRemainder(sp: SlabPool, i: nat, n: nat): (r: SlabPool)
    requires i < |sp.pages| && 1 <= n < sp.pages[i].slab && i + sp.pages[i].slab <= |sp.pages|
    ensures r.(pages := sp.pages) == sp && |r.pages| == |sp.pages|
    ensures r.pages[i + n] == Desc(sp.pages[i].slab - n, sp.pages[i].next, sp.pages[i].prev, sp.pages[i].tag)
    ensures forall x | 0 <= x < |sp.pages| && x != i + n && x != i + sp.pages[i].slab - 1 :: r.pages[x] == sp.pages[x]
  {
    var d := sp.pages[i];
    var e := i + d.slab - 1;
    var s1 := sp.(pages := sp.pages[e := sp.pages[e].(prev := Page(i + n), tag := TagPage)]);
    s1.(pages := s1.pages[i + n := Desc(d.slab - n, d.next, d.prev, d.tag)])
  }

  /**
    The split of ngx_slab.c:327-356 as evidently intended: after carving the remainder,
    the run's neighbours on the list are pointed at the remainder.
   */
  function SplitRun(sp: SlabPool, i: nat, n: nat): (r: SlabPool)
    requires i < |sp.pages| && 1 <= n < sp.pages[i].slab && i + sp.pages[i].slab <= |sp.pages|
    requires FreeLink(sp, sp.pages[i].prev) && FreeLink(sp, sp.pages[i].next)
    ensures r.(pages := sp.pages, free := sp.free) == sp && |r.pages| == |sp.pages|
  {
    var s2 := CarveRemainder(sp, i, n);
    var s3 := SetNext(s2, sp.pages[i].prev, Page(i + n));
    var nx := s3.pages[i].next;
    if FreeLink(s3, nx) then SetPrev(s3, nx, Page(i + n), TagPage) else s3
  }

  /**
    The same lines as written: the neighbours are linked to each other (p->next =
    page->next, page->next->prev = page->prev), so the remainder is left off the list.
   */
  function SplitRunAsWritten(sp: SlabPool, i: nat, n: nat): (r: SlabPool)
    requires i < |sp.pages| && 1 <= n < sp.pages[i].slab && i + sp.pages[i].slab <= |sp.pages|
    requires FreeLink(sp, sp.pages[i].prev) && FreeLink(sp, sp.pages[i].next)
    ensures r.(pages := sp.pages, free := sp.free) == sp && |r.pages| == |sp.pages|
  {
    var d := sp.pages[i];
    var s2 := CarveRemainder(sp, i, n);
    var s3 := SetNext(s2, d.prev, s2.pages[i].next);
    var nx := s3.pages[i].next;
    if FreeLink(s3, nx) then SetPrev(s3, nx, d.prev, d.tag) else s3
  }

  /** ngx_slab.c:361-366: the first page of the run is marked busy and the free count drops. */
  function TakePages(sp: SlabPool, i: nat, n: nat): SlabPool
    requires i < |sp.pages|
  {
    sp.(pages := sp.pages[i := Desc(n + PageStart, Nil, Nil, TagPage)],
        pfree := (sp.pfree - n) % Uint64Modulus)
  }

  /**
    ngx_slab_alloc_pages. A run larger than the request is split; an exact fit only takes
    the run (the unlinking branch at line 358 is empty in the source). Only a single page
    is returned; for more the source stops at the unfinished line 379. When no run is
    large enough the result is NULL, which the source leaves out (see AllocPagesAsWritten).
   */
  function AllocPages(sp: SlabPool, n: nat): (r: PagesResult)
    requires n >= 1
    ensures r.GotPages? ==>
              r.page < |sp.pages| && |r.sp.pages| == |sp.pages|
              && r.sp.slots == sp.slots && r.sp.stats == sp.stats
              && r.sp.pages[r.page] == Desc(n + PageStart, Nil, Nil, TagPage)
              && r.sp.pfree == (sp.pfree - n) % Uint64Modulus
              && r.sp.(pages := sp.pages, free := sp.free, pfree := sp.pfree) == sp
    ensures r.NoPages? ==> r.sp == sp
  {
    match FindRun(sp, sp.free.next, n, |sp.pages| + 1)
    case None => NoPages(sp)
    case Some(i) =>
      var d := sp.pages[i];
      if d.slab > n && (i + d.slab > |sp.pages| || !FreeLink(sp, d.prev) || !FreeLink(sp, d.next)) then
        PagesUndefined
      else
        var s1 := if d.slab > n then SplitRun(sp, i, n) else sp;
        if n == 1 then GotPages(TakePages(s1, i, n), i) else PagesUndefined
  }

  /** What the chain says about its j-th run. */
  lemma ChainAt(sp: SlabPool, rs: seq<nat>, j: nat)
    requires FreeChain(sp, rs) && j < |rs|
    ensures rs[j] < |sp.pages| && rs[j] + sp.pages[rs[j]].slab <= sp.last && sp.pages[rs[j]].slab >= 1
    ensures sp.pages[rs[j]].next == LinkAt(rs, j + 1)
    ensures sp.pages[rs[j]].prev == (if j == 0 then FreeHead else Page(rs[j - 1]))
  {
  }

  /** Distinct heads of a chain are distinct pages. */
  lemma ChainHeadsDistinct(sp: SlabPool, rs: seq<nat>, j: nat, k: nat)
    requires FreeChain(sp, rs) && j < |rs| && k < |rs| && j != k
    ensures rs[j] != rs[k]
    ensures rs[j] < rs[k] || rs[j] >= rs[k] + sp.pages[rs[k]].slab
  {
  }

  /**
    sp' holds the chain rs of sp with its k-th head moved to r: every other head keeps its
    size, and only the links to the k-th position now lead to r.
   */
  predicate HeadMoved(sp: SlabPool, sp': SlabPool, rs: seq<nat>, k: nat, r: nat, slab: nat)
    requires FreeChain(sp, rs) && k < |rs|
  {
    && |sp'.pages| == |sp.pages| && sp'.last == sp.last && r < |sp.pages|
    && sp'.free.next == (if k == 0 then Page(r) else sp.free.next)
    && sp'.pages[r].slab == slab
    && sp'.pages[r].next == sp.pages[rs[k]].next && sp'.pages[r].prev == sp.pages[rs[k]].prev
    && (forall j | 0 <= j < |rs| && j != k ::
          && sp'.pages[rs[j]].slab == sp.pages[rs[j]].slab
          && sp'.pages[rs[j]].next == (if j + 1 == k then Page(r) else sp.pages[rs[j]].next)
          && sp'.pages[rs[j]].prev == (if j == k + 1 then Page(r) else sp.pages[rs[j]].prev))
  }

  /** Moving a head inside its own run, keeping the run's end, keeps the list well formed. */
  lemma HeadMovedKeepsChain(sp: SlabPool, sp': SlabPool, rs: seq<nat>, k: nat, r: nat)
    requires FreeChain(sp, rs) && k < |rs|
    requires rs[k] <= r < rs[k] + sp.pages[rs[k]].slab
    requires HeadMoved(sp, sp', rs, k, r, rs[k] + sp.pages[rs[k]].slab - r)
    ensures FreeChain(sp', rs[k := r])
  {
    var rs' := rs[k := r];
    forall j | 0 <= j < |rs'|
      ensures rs'[j] < |sp'.pages|
      ensures rs'[j] + sp'.pages[rs'[j]].slab <= sp'.last && sp'.pages[rs'[j]].slab >= 1
      ensures sp'.pages[rs'[j]].next == (if j + 1 < |rs'| then Page(rs'[j + 1]) else FreeHead)
      ensures sp'.pages[rs'[j]].prev == (if j == 0 then FreeHead else Page(rs'[j - 1]))
    {
      ChainAt(sp, rs, j);
      ChainAt(sp, rs, k);
    }
    forall j, j' | 0 <= j < |rs'| && 0 <= j' < |rs'| && j != j'
      ensures rs'[j] < rs'[j'] || rs'[j'] + sp'.pages[rs'[j']].slab <= rs'[j]
    {
      ChainHeadsDistinct(sp, rs, j, j');
      ChainHeadsDistinct(sp, rs, j', j);
    }
    assert FreeChain(sp', rs');
  }

  /**
    Splitting the k-th run and taking its first n pages leaves a well-formed free list in
    which the remainder, n pages further on and n pages smaller, stands where the run stood.
   */
  lemma SplitKeepsChain(sp: SlabPool, rs: seq<nat>, k: nat, n: nat)
    requires FreeChain(sp, rs) && k < |rs| && 1 <= n < sp.pages[rs[k]].slab
    ensures rs[k] + sp.pages[rs[k]].slab <= |sp.pages|
    ensures FreeLink(sp, sp.pages[rs[k]].prev) && FreeLink(sp, sp.pages[rs[k]].next)
    ensures var sp' := TakePages(SplitRun(sp, rs[k], n), rs[k], n);
            && FreeChain(sp', rs[k := rs[k] + n])
            && sp'.pages[rs[k] + n].slab == sp.pages[rs[k]].slab - n
            && sp'.last == sp.last
  {
    var i := rs[k];
    var r := i + n;
    SplitMovesHead(sp, rs, k, n);
    HeadMovedKeepsChain(sp, TakePages(SplitRun(sp, i, n), i, n), rs, k, r);
  }

  /** The k-th run's neighbours on the list lie outside the run and are free-list links. */
  lemma RunNeighbours(sp: SlabPool, rs: seq<nat>, k: nat, n: nat)
    requires FreeChain(sp, rs) && k < |rs| && 1 <= n < sp.pages[rs[k]].slab
    ensures rs[k] + sp.pages[rs[k]].slab <= |sp.pages|
    ensures FreeLink(sp, sp.pages[rs[k]].prev) && FreeLink(sp, sp.pages[rs[k]].next)
    ensures sp.pages[rs[k]].prev != Page(rs[k]) && sp.pages[rs[k]].prev != Page(rs[k] + n)
    ensures sp.pages[rs[k]].next != Page(rs[k] + n)
    ensures sp.pages[rs[k]].prev == FreeHead <==> k == 0
  {
    ChainAt(sp, rs, k);
    if k > 0 {
      ChainAt(sp, rs, k - 1);
      ChainHeadsDistinct(sp, rs, k - 1, k);
    }
    if k + 1 < |rs| {
      ChainAt(sp, rs, k + 1);
      ChainHeadsDistinct(sp, rs, k + 1, k);
    }
  }

  /** Where the split leaves the remainder and the head of the free list. */
  lemma SplitRunAtRemainder(sp: SlabPool, rs: seq<nat>, k: nat, n: nat)
    requires FreeChain(sp, rs) && k < |rs| && 1 <= n < sp.pages[rs[k]].slab
    ensures rs[k] + sp.pages[rs[k]].slab <= |sp.pages|
    ensures FreeLink(sp, sp.pages[rs[k]].prev) && FreeLink(sp, sp.pages[rs[k]].next)
    ensures var s4 := SplitRun(sp, rs[k], n);
            && s4.free.next == (if k == 0 then Page(rs[k] + n) else sp.free.next)
            && s4.pages[rs[k] + n] == Desc(sp.pages[rs[k]].slab - n, sp.pages[rs[k]].next, sp.pages[rs[k]].prev, sp.pages[rs[k]].tag)
  {
    RunNeighbours(sp, rs, k, n);
    SplitRunRemainder(sp, rs[k], n);
  }

  /**
    The remainder descriptor after the split, and the free-list head, provided the run's
    neighbours are neither the run's first page nor the remainder.
   */
  lemma SplitRunRemainder(sp: SlabPool, i: nat, n: nat)
    requires i < |sp.pages| && 1 <= n < sp.pages[i].slab && i + sp.pages[i].slab <= |sp.pages|
    requires FreeLink(sp, sp.pages[i].prev) && FreeLink(sp, sp.pages[i].next)
    requires sp.pages[i].prev != Page(i) && sp.pages[i].prev != Page(i + n) && sp.pages[i].next != Page(i + n)
    ensures SplitRun(sp, i, n).free.next == (if sp.pages[i].prev == FreeHead then Page(i + n) else sp.free.next)
    ensures SplitRun(sp, i, n).pages[i + n] == Desc(sp.pages[i].slab - n, sp.pages[i].next, sp.pages[i].prev, sp.pages[i].tag)
  {
    var d := sp.pages[i];
    var r := i + n;
    var s2 := CarveRemainder(sp, i, n);
    assert s2.pages[i] == d;
    var s3 := SetNext(s2, d.prev, Page(r));
    assert s3.pages[i] == d && s3.pages[r] == s2.pages[r];
    var s4 := SetPrev(s3, d.next, Page(r), TagPage);
    assert SplitRun(sp, i, n) == s4;
  }

  /**
    What the split does to a descriptor x outside the run's first page, the remainder and
    the run's last page: only the run's neighbours on the list are re-pointed.
   */
  lemma SplitRunAt(sp: SlabPool, i: nat, n: nat, x: nat)
    requires i < |sp.pages| && 1 <= n < sp.pages[i].slab && i + sp.pages[i].slab <= |sp.pages|
    requires FreeLink(sp, sp.pages[i].prev) && FreeLink(sp, sp.pages[i].next)
    requires x < |sp.pages| && x != i && x != i + n && x != i + sp.pages[i].slab - 1
    requires sp.pages[i].prev != Page(i)
    ensures SplitRun(sp, i, n).pages[x].slab == sp.pages[x].slab
    ensures SplitRun(sp, i, n).pages[x].next == (if sp.pages[i].prev == Page(x) then Page(i + n) else sp.pages[x].next)
    ensures SplitRun(sp, i, n).pages[x].prev == (if sp.pages[i].next == Page(x) then Page(i + n) else sp.pages[x].prev)
  {
    var d := sp.pages[i];
    var r := i + n;
    var s2 := CarveRemainder(sp, i, n);
    assert s2.pages[x] == sp.pages[x] && s2.pages[i] == d;
    var s3 := SetNext(s2, d.prev, Page(r));
    assert s3.pages[i] == d;
    var s4 := SetPrev(s3, d.next, Page(r), TagPage);
    assert SplitRun(sp, i, n) == s4;
  }

  /** The split and the take together move the k-th head n pages on. */
  lemma SplitMovesHead(sp: SlabPool, rs: seq<nat>, k: nat, n: nat)
    requires FreeChain(sp, rs) && k < |rs| && 1 <= n < sp.pages[rs[k]].slab
    ensures rs[k] + sp.pages[rs[k]].slab <= |sp.pages|
    ensures FreeLink(sp, sp.pages[rs[k]].prev) && FreeLink(sp, sp.pages[rs[k]].next)
    ensures HeadMoved(sp, TakePages(SplitRun(sp, rs[k], n), rs[k], n), rs, k, rs[k] + n, sp.pages[rs[k]].slab - n)
  {
    SplitRunAtRemainder(sp, rs, k, n);
    var s4 := SplitRun(sp, rs[k], n);
    var sp' := TakePages(s4, rs[k], n);
    assert sp'.pages[rs[k] + n] == s4.pages[rs[k] + n];
    ChainAt(sp, rs, k);
    forall j | 0 <= j < |rs| && j != k
      ensures sp'.pages[rs[j]].slab == sp.pages[rs[j]].slab
      ensures sp'.pages[rs[j]].next == (if j + 1 == k then Page(rs[k] + n) else sp.pages[rs[j]].next)
      ensures sp'.pages[rs[j]].prev == (if j == k + 1 then Page(rs[k] + n) else sp.pages[rs[j]].prev)
    {
      ChainHeadsDistinct(sp, rs, j, k);
      if k > 0 {
        ChainHeadsDistinct(sp, rs, k - 1, k);
      }
      assert sp.pages[rs[k]].prev == Page(rs[j]) <==> j + 1 == k by {
        if k > 0 && j != k - 1 {
          ChainHeadsDistinct(sp, rs, j, k - 1);
        }
      }
      assert sp.pages[rs[k]].next == Page(rs[j]) <==> j == k + 1 by {
        if k + 1 < |rs| && j != k + 1 {
          ChainHeadsDistinct(sp, rs, j, k + 1);
        }
      }
      SplitRunAt(sp, rs[k], n, rs[j]);
    }
  }

  /** A single page from a list whose first run is longer than one page comes from its front. */
  lemma AllocOnePage(sp: SlabPool, rs: seq<nat>)
    requires FreeChain(sp, rs) && |rs| >= 1 && sp.pages[rs[0]].slab > 1
    ensures rs[0] + sp.pages[rs[0]].slab <= |sp.pages|
    ensures FreeLink(sp, sp.pages[rs[0]].prev) && FreeLink(sp, sp.pages[rs[0]].next)
    ensures var r := AllocPages(sp, 1);
            && r == GotPages(TakePages(SplitRun(sp, rs[0], 1), rs[0], 1), rs[0])
            && FreeChain(r.sp, rs[0 := rs[0] + 1])
            && r.sp.pages[rs[0] + 1].slab == sp.pages[rs[0]].slab - 1
            && r.page < sp.last
  {
    ChainAt(sp, rs, 0);
    SplitKeepsChain(sp, rs, 0, 1);
    var sp' := TakePages(SplitRun(sp, rs[0], 1), rs[0], 1);
    assert AllocPages(sp, 1) == GotPages(sp', rs[0]);
  }

  /**
    An exact fit is taken without unlinking (line 358 is empty in the source): the list
    head still names the page, which is now busy and whose `next` is NULL.
   */
  lemma ExactFitStaysListed(sp: SlabPool, rs: seq<nat>)
    requires FreeChain(sp, rs) && |rs| >= 1 && sp.pages[rs[0]].slab == 1
    ensures var r := AllocPages(sp, 1);
            && r.GotPages? && r.page == rs[0]
            && r.sp.free.next == Page(rs[0]) && r.sp.pages[rs[0]].next == Nil
  {
    ChainAt(sp, rs, 0);
  }

  /** With an empty free list no page is found. */
  lemma EmptyListNoPages(sp: SlabPool, n: nat)
    requires FreeChain(sp, []) && n >= 1
    ensures AllocPages(sp, n) == NoPages(sp)
  {
  }

  /**
    ngx_slab_alloc_pages as written: the split drops the remainder (SplitRunAsWritten),
    and when the walk finds nothing the function runs off its end without a return value.
   */
  function AllocPagesAsWritten(sp: SlabPool, n: nat): (r: PagesResult)
    requires n >= 1
    ensures r.GotPages? ==> r.page < |sp.pages| && |r.sp.pages| == |sp.pages|
  {
    match FindRun(sp, sp.free.next, n, |sp.pages| + 1)
    case None => PagesUndefined
    case Some(i) =>
      var d := sp.pages[i];
      if d.slab > n && (i + d.slab > |sp.pages| || !FreeLink(sp, d.prev) || !FreeLink(sp, d.next)) then
        PagesUndefined
      else
        var s1 := if d.slab > n then SplitRunAsWritten(sp, i, n) else sp;
        if n == 1 then GotPages(TakePages(s1, i, n), i) else PagesUndefined
  }

  /**
    The first page taken from a fresh zone leaves, as written, an empty free list although
    the rest of the run is free; the next page request then has no defined result. With
    the remainder linked in, the list holds the rest of the run.
   */
  lemma SplitAsWrittenLosesRemainder(sp: SlabPool, i: nat)
    requires FreeChain(sp, [i]) && sp.pages[i].slab > 1
    ensures var w := AllocPagesAsWritten(sp, 1);
            && w.GotPages?
            && w.sp.free.next == FreeHead
            && w.sp.pages[i + 1].slab == sp.pages[i].slab - 1
            && AllocPagesAsWritten(w.sp, 1) == PagesUndefined
    ensures var c := AllocPages(sp, 1);
            && c.GotPages? && FreeChain(c.sp, [i + 1])
            && c.sp.pages[i + 1].slab == sp.pages[i].slab - 1
  {
    ChainAt(sp, [i], 0);
    AllocOnePage(sp, [i]);
    var d := sp.pages[i];
    var s2 := CarveRemainder(sp, i, 1);
    assert s2.pages[i] == d;
    var s3 := SetNext(s2, d.prev, s2.pages[i].next);
    assert s3.free.next == FreeHead && s3.pages[i] == d;
    var s4 := SetPrev(s3, d.next, d.prev, d.tag);
    assert SplitRunAsWritten(sp, i, 1) == s4;
    assert s4.pages[i + 1] == s2.pages[i + 1];
  }

  /**
    With no run on the free list the walk as written ends and the function returns no
    value, where the intended definition returns NULL and leaves the zone alone.
   */
  lemma NoRunUndefinedAsWritten(sp: SlabPool, n: nat)
    requires FreeChain(sp, []) && n >= 1
    ensures AllocPagesAsWritten(sp, n) == PagesUndefined
    ensures AllocPages(sp, n) == NoPages(sp)
  {
  }

  // ---------------------------------------------------------------------------
  // ngx_slab_alloc_locked (ngx_slab.c:187-306)

  /** What ngx_slab_alloc_locked hands back; AllocUndefined where the source's result is indeterminate. */
  datatype SlabResult = Chunk(sp: SlabPool, addr: nat) | NoMemory(sp: SlabPool) | AllocUndefined

  /** Bit b of x. */
  predicate Bit(x: nat, b: nat)
  {
    (x / Pow2(b)) % 2 == 1
  }

  /** The bitmap bit of chunk c in a class page's slab word: NGX_SLAB_MAP_SHIFT + c. */
  predicate ChunkBusy(slab: nat, c: nat)
  {
    Bit(slab, MapShift + c)
  }

  /**
    The bitmap scan of ngx_slab.c:243-263 as evidently intended: the first chunk i from i0
    on, among the page's `count` chunks, whose bit NGX_SLAB_MAP_SHIFT + i is clear.
   */
  function FreeChunk(slab: nat, count: nat, i: nat): Option<nat>
    decreases count - i
  {
    if i >= count then None
    else if !ChunkBusy(slab, i) then Some(i)
    else FreeChunk(slab, count, i + 1)
  }

  lemma {:induction false} FreeChunkSpec(slab: nat, count: nat, i: nat)
    ensures FreeChunk(slab, count, i).None? <==> forall c | i <= c < count :: ChunkBusy(slab, c)
    ensures FreeChunk(slab, count, i).Some? ==>
              var c := FreeChunk(slab, count, i).value;
              i <= c < count && !ChunkBusy(slab, c)
              && forall m | i <= m < c :: ChunkBusy(slab, m)
    decreases count - i
  {
    if i < count && ChunkBusy(slab, i) {
      FreeChunkSpec(slab, count, i + 1);
    }
  }

  /** Setting a clear bit adds its weight and sets it. */
  lemma SetBit(x: nat, b: nat)
    requires !Bit(x, b)
    ensures Bit(x + Pow2(b), b)
  {
    AddWeight(x, Pow2(b));
  }

  lemma AddWeight(x: nat, w: nat)
    requires w >= 1 && (x / w) % 2 != 1
    ensures ((x + w) / w) % 2 == 1
  {
    var q := x / w;
    assert x == w * q + x % w;
    assert x + w == w * (q + 1) + x % w;
    DivModUnique(x + w, w, q + 1, x % w);
  }

  /** The loop entry test `m & mask` as written: m stays 1 << 32 and mask is not shifted up. */
  predicate ScanEntersAsWritten(count: nat)
  {
    Bit(Pow2(count) - 1, MapShift)
  }

  /**
    A class page holds at most 32 chunks, so the unshifted mask has no bit at position 32
    and the scan never runs: as written, a page with free chunks is never reused. The
    evidently intended scan finds chunk 1 on a 1 KiB-class page whose chunk 0 is taken.
   */
  lemma ScanAsWrittenNeverEnters(count: nat)
    requires count <= 32
    ensures !ScanEntersAsWritten(count)
  {
    MaskBelowBit(count, MapShift);
  }

  /** A mask of the low `count` bits has no bit at a position `b` at or above `count`. */
  lemma MaskBelowBit(count: nat, b: nat)
    requires count <= b
    ensures !Bit(Pow2(count) - 1, b)
  {
    Pow2Monotone(count, b);
    DivModUnique(Pow2(count) - 1, Pow2(b), 0, Pow2(count) - 1);
  }

  /** On a 1 KiB-class page whose chunk 0 is taken, the intended scan finds chunk 1. */
  lemma ScanFindsSecondChunk()
    ensures FreeChunk(MapUnit + 10, 4, 0) == Some(1)
  {
    var w := Pow2(MapShift);
    MapUnitIsPow2();
    var x := w + 10;
    LowBitsBelow(w, 10);
    assert Pow2(MapShift + 0) == w;
    assert Pow2(MapShift + 1) == 2 * w;
    assert ChunkBusy(x, 0);
    assert !ChunkBusy(x, 1);
    assert FreeChunk(x, 4, 0) == FreeChunk(x, 4, 1);
  }

  lemma MapUnitIsPow2()
    ensures Pow2(MapShift) == MapUnit
  {
    assert Pow2(4) == 16;
    Pow2Split(4, 4);
    Pow2Split(8, 8);
    Pow2Split(16, 16);
  }

  /** Adding less than w to w sets the bit of weight w and nothing above it. */
  lemma LowBitsBelow(w: nat, x: nat)
    requires x < w
    ensures ((w + x) / w) % 2 == 1 && ((w + x) / (2 * w)) % 2 == 0
  {
    DivModUnique(w + x, w, 1, x);
    DivModUnique(w + x, 2 * w, 0, w + x);
  }

  /** stats[slot].reqs++ (ngx_slab.c:215). */
  function CountRequest(sp: SlabPool, slot: nat): SlabPool
    requires slot < |sp.stats|
  {
    sp.(stats := sp.stats[slot := sp.stats[slot].(reqs := sp.stats[slot].reqs + 1)])
  }

  /** An allocation neither adds nor removes page descriptors, slots or statistics entries. */
  predicate SameShape(sp': SlabPool, sp: SlabPool)
  {
    |sp'.pages| == |sp.pages| && |sp'.slots| == |sp.slots| && |sp'.stats| == |sp.stats|
    && sp'.pagesizeShift == sp.pagesizeShift && sp'.minShift == sp.minShift && sp'.minSize == sp.minSize
    && sp'.start == sp.start && sp'.end == sp.end && sp'.last == sp.last
  }

  /** ngx_slab.c:254-267: mark chunk i of class page j busy and return its address. */
  function ClaimChunk(sp: SlabPool, c: SizeClass, j: nat, i: nat): SlabResult
    requires j < |sp.pages| && c.slot < |sp.stats|
  {
    var sp' := sp.(pages := sp.pages[j := sp.pages[j].(slab := sp.pages[j].slab + Pow2(MapShift + i))],
                   stats := sp.stats[c.slot := sp.stats[c.slot].(used := sp.stats[c.slot].used + 1)]);
    Chunk(sp', ChunkAddr(sp, j, c.shift, i))
  }

  /**
    ngx_slab.c:272-299: take a fresh page and make it the head page of the class. A page
    of a class at or below the exact shift is left unfinished in the source, and so is a
    failed page request; the latter evidently means NULL with the failure counted.
   */
  function NewClassPage(sp: SlabPool, exactShift: nat, c: SizeClass): (r: SlabResult)
    requires c.slot < |sp.slots| && c.slot < |sp.stats| && c.shift <= sp.pagesizeShift
    ensures !r.AllocUndefined? ==> SameShape(r.sp, sp)
  {
    match AllocPages(sp, 1)
    case PagesUndefined => AllocUndefined
    case NoPages(sp2) =>
      NoMemory(sp2.(stats := sp2.stats[c.slot := sp2.stats[c.slot].(fails := sp2.stats[c.slot].fails + 1)]))
    case GotPages(sp2, pg) =>
      if c.shift <= exactShift then AllocUndefined
      else
        var st := sp2.stats[c.slot];
        var sp3 := sp2.(pages := sp2.pages[pg := Desc(MapUnit + c.shift, SlotHead(c.slot), SlotHead(c.slot), TagBig)],
                        slots := sp2.slots[c.slot := sp2.slots[c.slot].(next := Page(pg))],
                        stats := sp2.stats[c.slot := st.(total := st.total + Pow2(sp.pagesizeShift - c.shift), used := st.used + 1)]);
        Chunk(sp3, PageAddr(sp3, pg))
  }

  /**
    ngx_slab.c:272-305 as written: when ngx_slab_alloc_pages finds no page, control falls
    through to done and returns p, which nothing has set, and the failure is not counted.
   */
  function NewClassPageAsWritten(sp: SlabPool, exactShift: nat, c: SizeClass): (r: SlabResult)
    requires c.slot < |sp.slots| && c.slot < |sp.stats| && c.shift <= sp.pagesizeShift
    ensures r.Chunk? ==> r == NewClassPage(sp, exactShift, c)
  {
    match AllocPages(sp, 1)
    case GotPages(_, _) => NewClassPage(sp, exactShift, c)
    case _ => AllocUndefined
  }

  /**
    On an exhausted zone the code as written returns an undefined pointer, where the
    intended definition returns NULL and counts one more failure for the class.
   */
  lemma ExhaustedZoneUndefinedAsWritten(sp: SlabPool, exactShift: nat, c: SizeClass)
    requires c.slot < |sp.slots| && c.slot < |sp.stats| && c.shift <= sp.pagesizeShift
    requires FreeChain(sp, [])
    ensures NewClassPageAsWritten(sp, exactShift, c) == AllocUndefined
    ensures var st := sp.stats[c.slot];
            NewClassPage(sp, exactShift, c) == NoMemory(sp.(stats := sp.stats[c.slot := st.(fails := st.fails + 1)]))
  {
    EmptyListNoPages(sp, 1);
  }

  /**
    ngx_slab_alloc_locked, with the class computed as intended (ClassFor) and requests
    above half a page, which the source does not handle, left undefined. A class page at
    the head of the slot's list is scanned for a free chunk (for classes above the exact
    shift); otherwise a fresh page is made the class's head page.
   */
  function AllocLocked(sp: SlabPool, sz: Sizes, size: nat): (r: SlabResult)
    requires SlabWf(sp)
    ensures !r.AllocUndefined? ==> SameShape(r.sp, sp)
  {
    var c := ClassFor(sp.minShift, size);
    if c.slot >= |sp.slots| then AllocUndefined
    else
      var sp1 := CountRequest(sp, c.slot);
      var head := sp1.slots[c.slot].next;
      var found :=
        if head.Page? && sp1.pages[head.index].next != head && c.shift > sz.exactShift
        then FreeChunk(sp1.pages[head.index].slab, Pow2(sp.pagesizeShift - c.shift), 0)
        else None;
      if found.Some? then ClaimChunk(sp1, c, head.index, found.value)
      else NewClassPage(sp1, sz.exactShift, c)
  }

  /** The free list only looks at its heads, the free-list head and the page count. */
  lemma ChainFrame(sp: SlabPool, sp': SlabPool, rs: seq<nat>)
    requires FreeChain(sp, rs)
    requires sp'.free.next == sp.free.next && sp'.last == sp.last && |sp'.pages| == |sp.pages|
    requires forall k | 0 <= k < |rs| :: sp'.pages[rs[k]] == sp.pages[rs[k]]
    ensures FreeChain(sp', rs)
  {
    forall k | 0 <= k < |rs|
      ensures sp'.pages[rs[k]].next == LinkAt(rs, k + 1)
      ensures sp'.pages[rs[k]].prev == (if k == 0 then FreeHead else Page(rs[k - 1]))
    {
      ChainAt(sp, rs, k);
    }
  }

  /** Counting a request leaves the free list alone. */
  lemma CountKeepsChain(sp: SlabPool, rs: seq<nat>, slot: nat)
    requires FreeChain(sp, rs) && slot < |sp.stats|
    ensures FreeChain(CountRequest(sp, slot), rs)
    ensures CountRequest(sp, slot).pages == sp.pages && CountRequest(sp, slot).pagesizeShift == sp.pagesizeShift
  {
    var sp1 := CountRequest(sp, slot);
    assert sp1.pages == sp.pages && sp1.free == sp.free && sp1.last == sp.last;
  }

  /** A class's chunk size holds the request and its page holds a whole number of chunks. */
  lemma ClassFits(sp: SlabPool, size: nat)
    requires SlabWf(sp) && ClassFor(sp.minShift, size).slot < |sp.slots|
    ensures size <= Pow2(ClassFor(sp.minShift, size).shift)
    ensures ClassFor(sp.minShift, size).shift < sp.pagesizeShift
    ensures ClassFor(sp.minShift, size).shift == sp.minShift + ClassFor(sp.minShift, size).slot
  {
  }

  /** A class with no head page goes straight to a fresh page. */
  lemma AllocLockedEmptyClass(sp: SlabPool, sz: Sizes, size: nat, c: SizeClass)
    requires SlabWf(sp) && c == ClassFor(sp.minShift, size) && c.slot < |sp.slots|
    requires sp.slots[c.slot].next == SlotHead(c.slot)
    ensures c.shift <= sp.pagesizeShift
    ensures AllocLocked(sp, sz, size) == NewClassPage(CountRequest(sp, c.slot), sz.exactShift, c)
  {
    ClassFits(sp, size);
    var sp1 := CountRequest(sp, c.slot);
    assert sp1.slots == sp.slots;
  }

  /** A class whose head page has a free chunk (above the exact shift) claims it. */
  lemma AllocLockedHeadPage(sp: SlabPool, sz: Sizes, size: nat, c: SizeClass, j: nat, i: nat)
    requires SlabWf(sp) && c == ClassFor(sp.minShift, size) && c.slot < |sp.slots| && c.shift > sz.exactShift
    requires sp.slots[c.slot].next == Page(j) && sp.pages[j].next != Page(j)
    requires FreeChunk(sp.pages[j].slab, Pow2(sp.pagesizeShift - c.shift), 0) == Some(i)
    ensures j < |sp.pages|
    ensures AllocLocked(sp, sz, size) == ClaimChunk(CountRequest(sp, c.slot), c, j, i)
  {
    var sp1 := CountRequest(sp, c.slot);
    assert sp1.slots == sp.slots && sp1.pages == sp.pages && sp1.pagesizeShift == sp.pagesizeShift;
  }

  /** A fresh page for a class above the exact shift, from a list whose first run is longer than a page. */
  lemma NewClassPageTakes(sp: SlabPool, rs: seq<nat>, exactShift: nat, c: SizeClass)
    requires c.slot < |sp.slots| && c.slot < |sp.stats| && c.shift <= sp.pagesizeShift && c.shift > exactShift
    requires FreeChain(sp, rs) && |rs| >= 1 && sp.pages[rs[0]].slab > 1
    ensures var r := NewClassPage(sp, exactShift, c);
            var st := sp.stats[c.slot];
            && r.Chunk? && r.addr == PageAddr(sp, rs[0])
            && r.sp.pages[rs[0]] == Desc(MapUnit + c.shift, SlotHead(c.slot), SlotHead(c.slot), TagBig)
            && r.sp.slots[c.slot].next == Page(rs[0])
            && r.sp.stats[c.slot] == st.(total := st.total + Pow2(sp.pagesizeShift - c.shift), used := st.used + 1)
            && r.sp.pages[rs[0] + 1].slab == sp.pages[rs[0]].slab - 1
            && FreeChain(r.sp, rs[0 := rs[0] + 1])
  {
    AllocOnePage(sp, rs);
    var sp2 := AllocPages(sp, 1).sp;
    var r := NewClassPage(sp, exactShift, c);
    ChainAt(sp2, rs[0 := rs[0] + 1], 0);
    if |rs| > 1 {
      ChainHeadsDistinct(sp, rs, 0, 1);
    }
    forall k | 0 < k < |rs|
      ensures rs[k] != rs[0]
    {
      ChainHeadsDistinct(sp, rs, k, 0);
    }
    ChainFrame(sp2, r.sp, rs[0 := rs[0] + 1]);
  }

  /**
    The first request of a class above the exact shift takes the first page of the free
    list, marks it as a class page with its first chunk busy, makes it the class's head
    page, and returns its address; the remainder of the run stays on the free list.
   */
  lemma FreshClassPage(sp: SlabPool, rs: seq<nat>, sz: Sizes, size: nat, c: SizeClass)
    requires SlabWf(sp) && FreeChain(sp, rs) && |rs| >= 1 && sp.pages[rs[0]].slab > 1
    requires c == ClassFor(sp.minShift, size) && c.slot < |sp.slots| && c.shift > sz.exactShift
    requires sp.slots[c.slot].next == SlotHead(c.slot)
    ensures var r := AllocLocked(sp, sz, size);
            && r.Chunk? && r.addr == PageAddr(sp, rs[0])
            && size <= Pow2(c.shift)
            && r.addr % Pow2(sp.pagesizeShift) == 0 && r.addr + Pow2(sp.pagesizeShift) <= sp.end
            && r.sp.pages[rs[0]] == Desc(MapUnit + c.shift, SlotHead(c.slot), SlotHead(c.slot), TagBig)
            && r.sp.pages[rs[0] + 1].slab == sp.pages[rs[0]].slab - 1
            && r.sp.slots[c.slot].next == Page(rs[0])
            && FreeChain(r.sp, rs[0 := rs[0] + 1])
  {
    ClassFits(sp, size);
    AllocLockedEmptyClass(sp, sz, size, c);
    var sp1 := CountRequest(sp, c.slot);
    CountKeepsChain(sp, rs, c.slot);
    assert sp1.start == sp.start;
    NewClassPageTakes(sp1, rs, sz.exactShift, c);
    ChainAt(sp, rs, 0);
    PageInZone(sp, rs[0]);
  }

  /**
    The same first request counts itself in the class's statistics: one more request, one
    more used chunk, and a page's worth of chunks added to the total.
   */
  lemma FreshClassPageCounts(sp: SlabPool, rs: seq<nat>, sz: Sizes, size: nat, c: SizeClass)
    requires SlabWf(sp) && FreeChain(sp, rs) && |rs| >= 1 && sp.pages[rs[0]].slab > 1
    requires c == ClassFor(sp.minShift, size) && c.slot < |sp.slots| && c.shift > sz.exactShift
    requires sp.slots[c.slot].next == SlotHead(c.slot)
    ensures var r := AllocLocked(sp, sz, size);
            var st := sp.stats[c.slot];
            && r.Chunk?
            && r.sp.stats[c.slot] == st.(reqs := st.reqs + 1, total := st.total + Pow2(sp.pagesizeShift - c.shift), used := st.used + 1)
  {
    ClassFits(sp, size);
    AllocLockedEmptyClass(sp, sz, size, c);
    var sp1 := CountRequest(sp, c.slot);
    var st := sp.stats[c.slot];
    assert sp1.stats[c.slot] == st.(reqs := st.reqs + 1);
    CountKeepsChain(sp, rs, c.slot);
    NewClassPageTakes(sp1, rs, sz.exactShift, c);
    var st1 := sp1.stats[c.slot];
    var r1 := NewClassPage(sp1, sz.exactShift, c);
    assert r1 == AllocLocked(sp, sz, size);
    var t := Pow2(sp.pagesizeShift - c.shift);
    assert r1.sp.stats[c.slot] == st1.(total := st1.total + t, used := st1.used + 1);
    assert r1.sp.stats[c.slot] == SlabStat(st.total + t, st.used + 1, st.reqs + 1, st.fails);
  }

  /** Claiming chunk i of a usable class page sets its bit and yields an address inside the page. */
  lemma ClaimChunkFacts(sp: SlabPool, c: SizeClass, j: nat, i: nat)
    requires SlabWf(sp) && j < sp.last && c.slot < |sp.stats|
    requires c.shift <= sp.pagesizeShift && i < Pow2(sp.pagesizeShift - c.shift)
    requires !ChunkBusy(sp.pages[j].slab, i)
    ensures var r := ClaimChunk(sp, c, j, i);
            && r.Chunk? && r.addr == ChunkAddr(sp, j, c.shift, i)
            && r.sp.pages[j].slab == sp.pages[j].slab + Pow2(MapShift + i) && ChunkBusy(r.sp.pages[j].slab, i)
            && PageAddr(sp, j) <= r.addr && r.addr + Pow2(c.shift) <= PageAddr(sp, j) + Pow2(sp.pagesizeShift) <= sp.end
            && r.addr % Pow2(c.shift) == 0
            && r.sp.stats[c.slot] == sp.stats[c.slot].(used := sp.stats[c.slot].used + 1)
            && r.sp.free == sp.free && r.sp.slots == sp.slots
    ensures var r := ClaimChunk(sp, c, j, i);
            |r.sp.pages| == |sp.pages| && forall k | 0 <= k < |sp.pages| && k != j :: r.sp.pages[k] == sp.pages[k]
    ensures forall rs: seq<nat> | FreeChain(sp, rs) && j !in rs :: FreeChain(ClaimChunk(sp, c, j, i).sp, rs)
  {
    SetBit(sp.pages[j].slab, MapShift + i);
    ChunkInPage(sp, j, c.shift, i);
    forall rs: seq<nat> | FreeChain(sp, rs) && j !in rs
      ensures FreeChain(ClaimChunk(sp, c, j, i).sp, rs)
    {
      ChainFrame(sp, ClaimChunk(sp, c, j, i).sp, rs);
    }
  }

  /**
    A request whose class has a head page with a free chunk takes the lowest free chunk of
    that page: its bit is set, and its address lies inside the page on a multiple of the
    chunk size. No other descriptor changes, so a free list that does not hold the page
    is still the free list; nothing else changes but the class's counters.
   */
  lemma ReuseClassPage(sp: SlabPool, sz: Sizes, size: nat, c: SizeClass, j: nat, i: nat)
    requires SlabWf(sp) && j < sp.last && c == ClassFor(sp.minShift, size)
    requires c.slot < |sp.slots| && c.shift > sz.exactShift
    requires sp.slots[c.slot].next == Page(j) && sp.pages[j].next != Page(j)
    requires FreeChunk(sp.pages[j].slab, Pow2(sp.pagesizeShift - c.shift), 0) == Some(i)
    ensures i < Pow2(sp.pagesizeShift - c.shift)
    ensures !ChunkBusy(sp.pages[j].slab, i) && forall m | 0 <= m < i :: ChunkBusy(sp.pages[j].slab, m)
    ensures var r := AllocLocked(sp, sz, size);
            var st := sp.stats[c.slot];
            && r.Chunk? && r.addr == ChunkAddr(sp, j, c.shift, i)
            && r.sp.pages[j].slab == sp.pages[j].slab + Pow2(MapShift + i) && ChunkBusy(r.sp.pages[j].slab, i)
            && PageAddr(sp, j) <= r.addr && r.addr + Pow2(c.shift) <= PageAddr(sp, j) + Pow2(sp.pagesizeShift) <= sp.end
            && r.addr % Pow2(c.shift) == 0
            && r.sp.stats[c.slot] == st.(reqs := st.reqs + 1, used := st.used + 1)
            && r.sp.free == sp.free && r.sp.slots == sp.slots
    ensures var r := AllocLocked(sp, sz, size);
            |r.sp.pages| == |sp.pages| && forall k | 0 <= k < |sp.pages| && k != j :: r.sp.pages[k] == sp.pages[k]
    ensures forall rs: seq<nat> | FreeChain(sp, rs) && j !in rs :: FreeChain(AllocLocked(sp, sz, size).sp, rs)
  {
    ClassFits(sp, size);
    FreeChunkSpec(sp.pages[j].slab, Pow2(sp.pagesizeShift - c.shift), 0);
    AllocLockedHeadPage(sp, sz, size, c, j, i);
    var sp1 := CountRequest(sp, c.slot);
    assert sp1.pages == sp.pages && sp1.slots == sp.slots && |sp1.stats| == |sp.stats|;
    assert SlabWf(sp1) && ChunkAddr(sp1, j, c.shift, i) == ChunkAddr(sp, j, c.shift, i);
    ClaimChunkFacts(sp1, c, j, i);
    CountThenClaimFrame(sp, c, j, i);
  }

  /** Counting a request and claiming a chunk of page j leave every other descriptor alone. */
  lemma CountThenClaimFrame(sp: SlabPool, c: SizeClass, j: nat, i: nat)
    requires j < |sp.pages| && c.slot < |sp.stats|
    ensures var r := ClaimChunk(CountRequest(sp, c.slot), c, j, i);
            |r.sp.pages| == |sp.pages| && forall k | 0 <= k < |sp.pages| && k != j :: r.sp.pages[k] == sp.pages[k]
    ensures forall rs: seq<nat> | FreeChain(sp, rs) && j !in rs :: FreeChain(ClaimChunk(CountRequest(sp, c.slot), c, j, i).sp, rs)
  {
    var r := ClaimChunk(CountRequest(sp, c.slot), c, j, i);
    forall rs: seq<nat> | FreeChain(sp, rs) && j !in rs
      ensures FreeChain(r.sp, rs)
    {
      ChainFrame(sp, r.sp, rs);
    }
  }

  /** With no free page and no class page to reuse, the request fails and the failure is counted. */
  lemma ExhaustedZoneFails(sp: SlabPool, sz: Sizes, size: nat)
    requires SlabWf(sp) && FreeChain(sp, [])
    requires ClassFor(sp.minShift, size).slot < |sp.slots|
    requires sp.slots[ClassFor(sp.minShift, size).slot].next == SlotHead(ClassFor(sp.minShift, size).slot)
    ensures var c := ClassFor(sp.minShift, size);
            var st := sp.stats[c.slot];
            AllocLocked(sp, sz, size) == NoMemory(sp.(stats := sp.stats[c.slot := st.(reqs := st.reqs + 1, fails := st.fails + 1)]))
  {
    var c := ClassFor(sp.minShift, size);
    AllocLockedEmptyClass(sp, sz, size, c);
    EmptyListNoPages(CountRequest(sp, c.slot), 1);
  }

  /**
    Every defined outcome of an allocation keeps the zone well formed; only the request's
    class has its slot and counters touched; and a failed request changes nothing but
    those counters.
   */
  lemma AllocLockedKeepsWf(sp: SlabPool, sz: Sizes, size: nat)
    requires SlabWf(sp)
    ensures var r := AllocLocked(sp, sz, size);
            !r.AllocUndefined? ==> SlabWf(r.sp)
    ensures var r := AllocLocked(sp, sz, size);
            var c := ClassFor(sp.minShift, size);
            !r.AllocUndefined? ==>
              forall s | 0 <= s < |sp.slots| && s != c.slot :: r.sp.slots[s] == sp.slots[s] && r.sp.stats[s] == sp.stats[s]
    ensures var r := AllocLocked(sp, sz, size);
            r.NoMemory? ==> r.sp.pages == sp.pages && r.sp.free == sp.free && r.sp.slots == sp.slots
  {
  }

  /**
    The walk-through in the comments of ngx_slab.c:186-299: in a zone of 4 KiB pages with
    8-byte minimum chunks whose free list is one run starting at page 0 (as SlabInit leaves
    it), a first 1 KiB request takes page 0 for slot 7 (shift 10), returns the first page's
    address, records four chunks of which one is used, and leaves the other pages on the
    free list.
   */
  lemma FirstOneKiBAllocation(sp: SlabPool, sz: Sizes)
    requires SlabWf(sp) && sp.pagesizeShift == 12 && sp.minShift == 3 && sz.exactShift == 6
    requires FreeChain(sp, [0]) && sp.pages[0].slab >= 2
    requires sp.slots[7].next == SlotHead(7)
    ensures var r := AllocLocked(sp, sz, 1024);
            && r.Chunk? && r.addr == sp.start
            && r.sp.slots[7].next == Page(0)
            && r.sp.pages[0].slab == MapUnit + 10
            && r.sp.free.next == Page(1) && r.sp.pages[1].slab == sp.pages[0].slab - 1
  {
    OneKiBClass();
    FreshClassPage(sp, [0], sz, 1024, SizeClass(10, 7));
    var r := AllocLocked(sp, sz, 1024);
    assert [0][0 := 0 + 1] == [1];
    assert PageAddr(sp, 0) == sp.start;
    ChainAt(r.sp, [1], 0);
  }

  /** The same request records four chunks for slot 7, one of them used. */
  lemma FirstOneKiBCounts(sp: SlabPool, sz: Sizes)
    requires SlabWf(sp) && sp.pagesizeShift == 12 && sp.minShift == 3 && sz.exactShift == 6
    requires FreeChain(sp, [0]) && sp.pages[0].slab >= 2
    requires sp.slots[7].next == SlotHead(7) && sp.stats[7] == SlabStat(0, 0, 0, 0)
    ensures AllocLocked(sp, sz, 1024).Chunk? && AllocLocked(sp, sz, 1024).sp.stats[7] == SlabStat(4, 1, 1, 0)
  {
    OneKiBClass();
    assert Pow2(12 - 10) == 4;
    FreshClassPageCounts(sp, [0], sz, 1024, SizeClass(10, 7));
  }

  /** A freshly initialised zone of 4 KiB pages with at least two pages is such a zone. */
  lemma InitFitsWalkThrough(base: nat, header: nat, end: nat)
    requires InitRoom(base, header, end, 3, 12) && SlabInit(base, header, end, 3, 12).last >= 2
    ensures var sp := SlabInit(base, header, end, 3, 12);
            && SlabWf(sp) && FreeChain(sp, [0]) && sp.pages[0].slab == sp.last
            && sp.slots[7].next == SlotHead(7) && sp.stats[7] == SlabStat(0, 0, 0, 0)
  {
    InitIsWf(base, header, end, 3, 12);
  }
}
