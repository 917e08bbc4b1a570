/** The slab layer of the kernel heap and kmalloc, kfree and krealloc above it.
    Growth of the heap is not part of this model: where no block is free the
    allocators answer None. */
module SlabHeap {
  import opened Bits
  import opened Defs
  import opened AlignUp
  import opened BuddyBlocks
  import opened BuddyHeap
  import opened SlabBlocks
  import opened SlabLinks

  const SLAB_EXPON_MIN := 4
  const SLAB_EXPON_MAX := 16
  const SLAB_ORDER_COUNT := 13
  const MIN_SLAB_OBJ_AMOUNT := 32
  const MAX_SLAB_PAGE_AMOUNT := 64
  const TWO_GIB := 0x8000_0000

  // ---------------------------------------------------------------- the later pages of slabs

  lemma NewTails(t: Blocks, h: map<nat, nat>, h': map<nat, nat>, p: nat, b: Block)
    requires TailsOk(t, h) && p !in t && b.slab && Separate(t[p := b])
    requires forall x: nat :: x in h' <==> x in h || p < x < p + Pow2(b.order)
    requires forall x: nat :: x in h' ==> h'[x] == if p < x < p + Pow2(b.order) then p else if x in h then h[x] else 0
    ensures TailsOk(t[p := b], h')
  {
    hide Pow2;
    var t' := t[p := b];
    forall x: nat, q: nat ensures (x in h' && h'[x] == q) <==> TailOf(t', q, x) {
      assert (x in h && h[x] == q) <==> TailOf(t, q, x);
      if q != p && TailOf(t, q, x) {
        assert q in t' && p in t' && End(t', q) == End(t, q) && End(t', p) == p + Pow2(b.order);
        assert q < p ==> End(t', q) <= p;
        assert p < q ==> End(t', p) <= q;
      }
      assert x in h ==> TailOf(t, h[x], x);
    }
  }

  lemma DropTails(t: Blocks, h: map<nat, nat>, h': map<nat, nat>, p: nat)
    requires TailsOk(t, h) && p in t && t[p].slab && Separate(t)
    requires forall x: nat :: x in h' <==> x in h && !(p < x < End(t, p))
    requires forall x: nat :: x in h' && x in h ==> h'[x] == h[x]
    ensures TailsOk(t - {p}, h')
  {
    hide Pow2;
    var t' := t - {p};
    forall x: nat, q: nat ensures (x in h' && h'[x] == q) <==> TailOf(t', q, x) {
      assert (x in h && h[x] == q) <==> TailOf(t, q, x);
      assert TailOf(t, p, x) ==> x in h && h[x] == p;
      assert q in t' ==> End(t', q) == End(t, q);
    }
  }

  // Blocks that are not slabs do not matter.
  lemma SameTails(t: Blocks, t': Blocks, h: map<nat, nat>, p: nat)
    requires TailsOk(t, h) && (p in t ==> !t[p].slab) && (p in t' ==> !t'[p].slab)
    requires forall q: nat :: q != p ==> (q in t <==> q in t') && (q in t && q in t' ==> t[q] == t'[q])
    ensures TailsOk(t', h)
  {
    hide Pow2;
    assert forall x: nat, q: nat :: TailOf(t, q, x) <==> TailOf(t', q, x);
  }

  lemma TakenFacts(h: BuddyHeap)
    requires h.Valid()
    ensures Separate(Taken(h.blocks))
    ensures forall p <- Taken(h.blocks).Keys :: p in h.blocks && Taken(h.blocks)[p] == h.blocks[p] && !h.blocks[p].free
    ensures forall p <- Taken(h.blocks).Keys :: Aligned(p, h.blocks[p].order)
    ensures forall p <- Taken(h.blocks).Keys :: h.lo <= p < h.lo + h.descs.Length
    ensures forall p <- Taken(h.blocks).Keys ::
      && h.descs[p - h.lo].buddy == (!h.blocks[p].slab && p !in h.raw)
      && h.descs[p - h.lo].numPages == Pow2(h.blocks[p].order)
  {
    hide Pow2, Aligned, AreLists, Matching, NoFreePairs;
    var t, b := Taken(h.blocks), h.blocks;
    assert Placed(b, h.lo, h.lo + h.descs.Length) && Separate(b);
    forall p <- t.Keys, q <- t.Keys | p < q ensures End(t, p) <= q { assert End(b, p) == End(t, p); }
    assert h.descs[..] == h.descs[..];
  }

  // ---------------------------------------------------------------- the size classes

  // pages_for_obj_size
  function PagesForObjSize(size: nat): nat {
    Min(Pow2(Log2(Max(AlignUpPow2(size * MIN_SLAB_OBJ_AMOUNT % 0x1_0000_0000), PAGE_SIZE))) / PAGE_SIZE,
      MAX_SLAB_PAGE_AMOUNT)
  }

  // The cache of objects of `size` bytes: init_heap_vars and kcreate_slab_cache.
  function OrderFor(size: nat): SlabOrder {
    SlabOrder(size, Log2(PagesForObjSize(size)))
  }

  // align_up_n to the size of a pointer
  function WordAligned(size: nat): (r: nat)
    ensures size <= r < size + 4 && r % 4 == 0
  {
    (size + 3) / 4 * 4
  }

  function StandardOrders(n: nat): (os: seq<SlabOrder>)
    ensures |os| == n
  {
    seq(n, i requires 0 <= i < n => OrderFor(Pow2(SLAB_EXPON_MIN + i)))
  }

  // The number of pages is a power of two that holds 32 objects, up to 64 pages.
  lemma PagesArePow2(size: nat)
    requires 0 < size <= 0x400_0000
    ensures IsPow2(PagesForObjSize(size)) && PagesForObjSize(size) <= MAX_SLAB_PAGE_AMOUNT
    ensures
      || PagesForObjSize(size) == MAX_SLAB_PAGE_AMOUNT
      || PagesForObjSize(size) * PAGE_SIZE >= size * MIN_SLAB_OBJ_AMOUNT
    ensures PagesForObjSize(size) > 1 ==> PagesForObjSize(size) * PAGE_SIZE < 2 * (size * MIN_SLAB_OBJ_AMOUNT)
  {
    hide Pow2, Log2, IsPow2, AlignUpPow2;
    var v := size * MIN_SLAB_OBJ_AMOUNT;
    AlignUpLeast(v);
    AlignUpTight(v);
    Pow2Twelve();
    Log2Pow2(12);
    Log2Pow2(6);
    SixtyFour();
    var m := Max(AlignUpPow2(v), PAGE_SIZE);
    Pow2Log2(m);
    var e := Log2(m);
    if e < 12 { Pow2Mono(e, 11); }
    Pow2Add(e - 12);
    Log2Pow2(e - 12);
    assert m / PAGE_SIZE == Pow2(e - 12);
  }

  lemma AlignUpTight(v: nat)
    requires 0 < v <= TWO_GIB
    ensures AlignUpPow2(v) < 2 * v
  {
    hide Pow2, AlignUpPow2, Log2;
    AlignUpLeast(v);
    var m := AlignUpPow2(v);
    if m > 1 { HalfPow2(m); }
  }

  lemma HalfPow2(m: nat)
    requires IsPow2(m) && m > 1
    ensures IsPow2(m / 2) && m == 2 * (m / 2)
  {
    hide IsPow2, Log2, Pow2;
    Pow2Log2(m);
    var e := Log2(m);
    if e == 0 { Pow2Step(0); }
    Pow2Step(e);
    Log2Pow2(e - 1);
  }

  // A slab is carved into as many objects as fit.
  lemma AsManyAsFit(o: SlabOrder)
    requires o.objSize > 0
    ensures o.objSize * ObjCount(o) <= SlabBytes(o) < o.objSize * (ObjCount(o) + 1)
  {
    hide Pow2;
    DivMod(SlabBytes(o), o.objSize);
    assert o.objSize * (ObjCount(o) + 1) == o.objSize * ObjCount(o) + o.objSize;
  }

  // The pages of a slab: a power of two, at most 64, that holds 32 objects unless it is
  // 64, and of which the half would not.
  lemma SlabPages(size: nat)
    requires 0 < size <= 0x400_0000
    ensures
      var bytes := Pow2(OrderFor(size).pageOrder) * PAGE_SIZE;
      && PAGE_SIZE <= bytes <= 64 * PAGE_SIZE && (bytes == 64 * PAGE_SIZE || 32 * size <= bytes)
      && (bytes > PAGE_SIZE ==> bytes < 2 * (32 * size))
  {
    hide Pow2, Log2, IsPow2, PagesForObjSize;
    PagesArePow2(size);
    Pow2Log2(PagesForObjSize(size));
    Pow2Mono(0, Log2(PagesForObjSize(size)));
    Pow2Step(0);
  }

  lemma SixtyFour()
    ensures Pow2(6) == 64 && Pow2(19) == MAX_PAGES
  {
    assert Pow2(6) == 8 * Pow2(3) && Pow2(12) == 64 * Pow2(6) && Pow2(19) == 128 * Pow2(12);
  }

  // A cache has at least two objects per slab exactly up to 128 KiB.
  lemma OrderUsable(size: nat)
    requires 0 < size <= 0x400_0000
    ensures Usable(OrderFor(size)) <==> size <= 0x2_0000
  {
    hide Pow2, Log2, IsPow2, PagesForObjSize;
    var o, pages := OrderFor(size), PagesForObjSize(size);
    PagesArePow2(size);
    Pow2Log2(pages);
    SixtyFour();
    if o.pageOrder > 6 { Pow2Mono(7, o.pageOrder); Pow2Step(7); }
    TwoFit(SlabBytes(o), size);
  }

  lemma TwoFit(bytes: nat, size: nat)
    requires size > 0
    ensures bytes / size >= 2 <==> 2 * size <= bytes
  {
    var q := bytes / size;
    DivMod(bytes, size);
    assert size * 2 == 2 * size;
    if q < 2 { MulMono(size, q, 2); }
    if q > 2 { MulMono(size, 2, q); }
  }

  lemma StandardUsable()
    ensures forall i: nat :: i < SLAB_ORDER_COUNT ==> Usable(StandardOrders(SLAB_ORDER_COUNT)[i])
  {
    hide OrderFor, Usable, Pow2;
    forall i: nat | i < SLAB_ORDER_COUNT ensures Usable(StandardOrders(SLAB_ORDER_COUNT)[i]) {
      Pow2Mono(SLAB_EXPON_MIN + i, SLAB_EXPON_MAX);
      TwoSixteen();
      OrderUsable(Pow2(SLAB_EXPON_MIN + i));
    }
  }

  lemma TwoSixteen()
    ensures Pow2(4) == 16 && Pow2(16) == 0x1_0000 && Pow2(SLAB_EXPON_MIN) == 16 && Pow2(SLAB_EXPON_MAX) == 0x1_0000
  {
    assert Pow2(8) == 16 * Pow2(4) && Pow2(16) == 256 * Pow2(8);
  }

  // What alloc_buddy is asked for when a slab is made.
  lemma SlabBytesFit(o: SlabOrder)
    requires Usable(o)
    ensures SlabBytes(o) % PAGE_SIZE == 0 && IsPow2(SlabBytes(o)) && SlabBytes(o) < 0x1_0000_0000
    ensures Log2(SlabBytes(o)) - BUDDY_EXPON_MIN == o.pageOrder
  {
    hide Pow2, IsPow2, Log2;
    var k := o.pageOrder;
    Pow2Add(k);
    Log2Pow2(k + 12);
    Pow2Mono(k + 12, 31);
    Pow2Values();
    ModUnique(SlabBytes(o), PAGE_SIZE, Pow2(k), 0);
  }

  // The size of the region kmalloc hands out for a request of n bytes.
  function KmallocSize(n: nat): nat {
    Max(AlignUpPow2(n), Pow2(SLAB_EXPON_MIN))
  }

  // The cache of a request of up to 64 KiB.
  function SlabIndex(n: nat): nat {
    var e := Log2(KmallocSize(n));
    if e < SLAB_EXPON_MIN then 0 else e - SLAB_EXPON_MIN
  }

  function PageOrder(n: nat): nat {
    var e := Log2(KmallocSize(n));
    if e < BUDDY_EXPON_MIN then 0 else e - BUDDY_EXPON_MIN
  }

  // The least power of two of at least 16 that is not below n.
  lemma KmallocLeast(n: nat)
    requires n <= TWO_GIB
    ensures IsPow2(KmallocSize(n)) && n <= KmallocSize(n) && 16 <= KmallocSize(n)
    ensures forall q: nat :: IsPow2(q) && n <= q && 16 <= q ==> KmallocSize(n) <= q
  {
    hide Pow2, IsPow2, Log2, AlignUpPow2;
    AlignUpLeast(n);
    TwoSixteen();
    Log2Pow2(4);
  }

  lemma KmallocSizeFacts(n: nat)
    requires n <= TWO_GIB
    ensures
      var e := Log2(KmallocSize(n));
      && n <= KmallocSize(n) == Pow2(e) && SLAB_EXPON_MIN <= e <= 31 && IsPow2(KmallocSize(n))
      && KmallocSize(n) <= TWO_GIB
      && (n <= 0x1_0000 ==> e <= SLAB_EXPON_MAX)
      && (n > 0x1_0000 ==> KmallocSize(n) == AlignUpPow2(n) && e >= BUDDY_EXPON_MIN && KmallocSize(n) % PAGE_SIZE == 0)
  {
    hide Pow2, IsPow2, Log2, AlignUpPow2;
    AlignUpLeast(n);
    TwoSixteen();
    Log2Pow2(4);
    Log2Pow2(16);
    Pow2Values();
    var m := KmallocSize(n);
    Pow2Log2(m);
    var e := Log2(m);
    if e < 4 { Pow2Mono(e, 3); Pow2Step(4); }
    if e > 31 { Pow2Mono(32, e); }
    if n <= 0x1_0000 {
      if e > 16 { Pow2Mono(16, e); }
    } else {
      if e < 12 { Pow2Mono(e, 16); }
      Pow2Add(e - 12);
      ModUnique(m, PAGE_SIZE, Pow2(e - 12), 0);
    }
  }

  // ---------------------------------------------------------------- what the answers depend on

  // The allocator's state as far as its answers depend on it.
  datatype View = View(blocks: Blocks, raw: set<nat>, slabs: Slabs, heads: seq<Option<nat>>, touched: set<nat>)

  ghost predicate At(orders: seq<SlabOrder>, v: View, p: nat, a: nat, n: nat) {
    LiveAt(orders, Taken(v.blocks), v.slabs, p, a, n)
  }

  // No free block is large enough for a slab or request of 2^k pages.
  ghost predicate Exhausted(b: Blocks, k: nat) {
    forall q <- b.Keys :: b[q].free ==> b[q].order < k
  }

  // Cache `c` has no free object and gets no new slab.
  ghost predicate NoObject(orders: seq<SlabOrder>, v: View, c: nat) {
    c < |orders| && c < |v.heads| && v.heads[c].None? && Exhausted(v.blocks, orders[c].pageOrder)
  }

  // A request of n bytes cannot be met.
  ghost predicate Refused(orders: seq<SlabOrder>, v: View, n: nat) {
    if n <= 0x1_0000 then NoObject(orders, v, SlabIndex(n)) else Exhausted(v.blocks, PageOrder(n))
  }

  // A block handed out whose head has HEAD alone: kfree and krealloc take it for a slab.
  ghost predicate Misrouted(v: View, p: nat) {
    p in v.blocks && !v.blocks[p].slab && p in v.raw
  }

  // A slab of more than one page with one object in use that was never full and never had
  // a slab put in front of it.
  ghost predicate Stuck(orders: seq<SlabOrder>, initPrev: bool, v: View, p: nat) {
    && p in v.slabs && v.slabs[p].used == 1 && p !in v.touched
    && !initPrev && v.slabs[p].cache < |orders| && orders[v.slabs[p].cache].pageOrder > 0
  }

  // The touched slabs once an object of the slab at `p` is freed: a slab that is now empty
  // is gone, and one that was full stands in front of the first slab of its cache.
  ghost function Touched(v: View, p: nat): set<nat>
    requires p in v.slabs
  {
    var s := v.slabs[p];
    var first := if s.cache < |v.heads| && v.heads[s.cache].Some? then {v.heads[s.cache].value} else {};
    if s.used == 1 then v.touched - {p} else if s.used == s.objCount then v.touched + {p} + first else v.touched
  }

  // Two free buddies of equal order stay apart only where line 147 made one of their heads,
  // and with all flags nowhere.
  ghost predicate Coalesced(allFlags: bool, v: View) {
    && (allFlags ==> v.raw == {})
    && forall p <- v.blocks.Keys :: FreeBuddies(v.blocks, p) ==> p in v.raw || BuddyOf(p, v.blocks[p].order) in v.raw
  }

  // Freeing `a` leaves the slabs: it reads a block as one, or writes through a wild link.
  ghost predicate FreeStops(orders: seq<SlabOrder>, initPrev: bool, v: View, a: nat) {
    exists p: nat, n: nat :: At(orders, v, p, a, n) && (Misrouted(v, p) || Stuck(orders, initPrev, v, p))
  }

  ghost predicate Custom(v: View, p: nat) {
    p in v.slabs && v.slabs[p].cache >= SLAB_ORDER_COUNT
  }

  // Growing the allocation at `p` to `size` is answered with NULL.
  ghost predicate GrowthRefused(orders: seq<SlabOrder>, v: View, p: nat, size: nat) {
    if p in v.slabs then Custom(v, p) || Refused(orders, v, size) else Exhausted(v.blocks, PageOrder(size))
  }

  // krealloc of the live allocation of n bytes at `p` stops, or goes on with an undefined value.
  ghost predicate GrowthStops(orders: seq<SlabOrder>, initPrev: bool, v: View, p: nat, n: nat, size: nat) {
    || Misrouted(v, p)
    || (&& n < size && !Custom(v, p)
        && (size > TWO_GIB || (Stuck(orders, initPrev, v, p) && !GrowthRefused(orders, v, p, size))))
  }

  ghost predicate ReallocStops(orders: seq<SlabOrder>, initPrev: bool, v: View, addr: Option<nat>, size: nat) {
    if addr.None? then size > TWO_GIB
    else exists p: nat, n: nat :: At(orders, v, p, addr.value, n) && GrowthStops(orders, initPrev, v, p, n, size)
  }

  ghost predicate ReallocRefused(orders: seq<SlabOrder>, v: View, addr: Option<nat>, size: nat) {
    if addr.None? then Refused(orders, v, size)
    else exists p: nat, n: nat :: At(orders, v, p, addr.value, n) && n < size && GrowthRefused(orders, v, p, size)
  }

  // The place of a live allocation is unique, so these conditions are about that place.
  lemma StopsAt(orders: seq<SlabOrder>, initPrev: bool, v: View, p: nat, a: nat, n: nat, size: nat)
    requires SlabsOk(orders, Taken(v.blocks), v.slabs) && Separate(Taken(v.blocks)) && At(orders, v, p, a, n)
    ensures FreeStops(orders, initPrev, v, a) <==> Misrouted(v, p) || Stuck(orders, initPrev, v, p)
    ensures ReallocStops(orders, initPrev, v, Some(a), size) <==> GrowthStops(orders, initPrev, v, p, n, size)
    ensures ReallocRefused(orders, v, Some(a), size) <==> n < size && GrowthRefused(orders, v, p, size)
  {
    hide LiveAt, SlabsOk, Taken, Misrouted, Stuck, GrowthStops, GrowthRefused;
    LiveUnique(orders, Taken(v.blocks), v.slabs, p, a, n);
  }

  // The first object of the free list of the slab at `p` was handed out.
  ghost predicate FirstTaken(slabs: Slabs, slabs': Slabs, p: nat, a: nat) {
    && p in slabs && slabs[p].free != [] && a == slabs[p].free[0]
    && slabs' == slabs[p := slabs[p].(free := slabs[p].free[1..], used := slabs[p].used + 1)]
  }

  // The object `a` is first on the free list of its slab again, or the slab is gone.
  ghost predicate Returned(slabs: Slabs, slabs': Slabs, p: nat, a: nat) {
    && p in slabs && slabs[p].used > 0
    && slabs' ==
         if slabs[p].used == 1 then slabs - {p}
         else slabs[p := slabs[p].(free := [a] + slabs[p].free, used := slabs[p].used - 1)]
  }

  // Blocks handed out stay, and slabs of other caches than `c` do not change.
  ghost predicate Kept(t: Blocks, slabs: Slabs, t': Blocks, slabs': Slabs, c: nat) {
    && (forall q <- t.Keys :: q in t' && t'[q] == t[q])
    && (forall q <- slabs.Keys :: q in slabs' && (slabs[q].cache != c ==> slabs'[q] == slabs[q]))
    && forall q <- t.Keys :: q in slabs' ==> q in slabs
  }

  // The thirteen power-of-two caches, and one for each custom size, rounded up to a
  // multiple of four.
  ghost predicate Caches(orders: seq<SlabOrder>, custom: seq<nat>) {
    && |orders| == SLAB_ORDER_COUNT + |custom|
    && orders[..SLAB_ORDER_COUNT] == StandardOrders(SLAB_ORDER_COUNT)
    && forall i :: 0 <= i < |custom| ==>
         var o := orders[SLAB_ORDER_COUNT + i];
         HoldsObject(o.objSize, custom[i]) && o == OrderFor(o.objSize)
  }

  // The caches of init_heap_vars and of kcreate_slab_cache.
  function MadeOrders(custom: seq<nat>): (os: seq<SlabOrder>)
    ensures |os| == SLAB_ORDER_COUNT + |custom|
  {
    StandardOrders(SLAB_ORDER_COUNT) + seq(|custom|, i requires 0 <= i < |custom| => OrderFor(WordAligned(custom[i])))
  }

  lemma CachesMade(custom: seq<nat>)
    requires forall i :: 0 <= i < |custom| ==> 8 <= custom[i] <= 0x2_0000
    ensures Caches(MadeOrders(custom), custom)
    ensures forall c :: 0 <= c < |MadeOrders(custom)| ==> Usable(MadeOrders(custom)[c])
  {
    hide OrderFor, Usable, WordAligned, HoldsObject;
    var orders := MadeOrders(custom);
    StandardUsable();
    forall i | 0 <= i < |custom|
      ensures
        var o := orders[SLAB_ORDER_COUNT + i];
        Usable(o) && HoldsObject(o.objSize, custom[i]) && o == OrderFor(o.objSize)
    {
      WordHolds(custom[i]);
      OrderUsable(WordAligned(custom[i]));
      OrderForSize(WordAligned(custom[i]));
    }
    forall c | SLAB_ORDER_COUNT <= c < |orders| ensures Usable(orders[c]) {
      assert Usable(orders[SLAB_ORDER_COUNT + (c - SLAB_ORDER_COUNT)]);
    }
  }

  lemma NothingLive(orders: seq<SlabOrder>, initPrev: bool, hs: seq<Option<nat>>, ls: seq<seq<nat>>)
    requires |hs| == |ls| == |orders| && (forall c :: 0 <= c < |orders| ==> Usable(orders[c]))
    requires forall c :: 0 <= c < |orders| ==> hs[c].None? && ls[c] == []
    ensures SlabsOk(orders, map[], map[]) && LinksOk(|orders|, map[], map[], hs, ls) && TailsOk(map[], map[])
    ensures WildIff(orders, map[], map[], {}, initPrev) && forall a: nat, n: nat :: !Live(orders, map[], map[], a, n)
  {
    hide Usable;
  }

  lemma WordHolds(n: nat)
    requires 8 <= n <= 0x2_0000
    ensures HoldsObject(WordAligned(n), n) && 0 < WordAligned(n) <= 0x2_0000
  {
  }

  // The least multiple of four that is not below n.
  ghost predicate HoldsObject(size: nat, n: nat) {
    n <= size < n + 4 && size % 4 == 0
  }

  class SlabHeap {
    const heap: BuddyHeap
    // The thirteen power-of-two caches, then the custom ones.
    const orders: seq<SlabOrder>
    // The object sizes that the custom caches were created for.
    const custom: seq<nat>
    // false: a new slab's link before is left as it was, as line 464 does; true: it is cleared.
    const initPrev: bool
    // Per cache, the first page of its first slab with a free object.
    var freeSlabs: seq<Option<nat>>
    var slabs: Slabs
    var links: LinkMap
    // slab_head of the later pages of slabs; these are the pages with BUDDY cleared.
    var headOf: map<nat, nat>
    // The byte at each address.
    var mem: nat -> bv8
    // Per cache, the list that starts at freeSlabs.
    ghost var lists: seq<seq<nat>>
    // The slabs that have been put at the front of their list again, or had a slab put in front of them.
    ghost var touched: set<nat>

    ghost predicate Valid()
      reads this, heap, heap.descs, heap.freeBuddies
    {
      heap.Valid() && State(Taken(heap.blocks))
    }

    ghost predicate State(t: Blocks)
      reads this
    {
      && SlabsOk(orders, t, slabs) && LinksOk(|orders|, slabs, links, freeSlabs, lists) && TailsOk(t, headOf)
      && WildIff(orders, slabs, links, touched, initPrev)
      && Caches(orders, custom)
    }

    ghost predicate Allocated(a: nat, n: nat)
      reads this, heap
    {
      Live(orders, Taken(heap.blocks), slabs, a, n)
    }

    ghost function Now(): View
      reads this, heap
    {
      View(heap.blocks, heap.raw, slabs, freeSlabs, touched)
    }

    constructor (heap: BuddyHeap, custom: seq<nat>, initPrev: bool)
      requires heap.Valid() && Taken(heap.blocks) == map[]
      requires forall i :: 0 <= i < |custom| ==> 8 <= custom[i] <= 0x2_0000
      ensures Valid() && this.heap == heap && this.custom == custom && this.initPrev == initPrev
      ensures |orders| == SLAB_ORDER_COUNT + |custom|
      ensures forall i :: 0 <= i < |custom| ==> HoldsObject(orders[SLAB_ORDER_COUNT + i].objSize, custom[i])
      ensures forall a: nat, n: nat :: !Allocated(a, n)
      ensures slabs == map[] && forall i :: 0 <= i < |freeSlabs| ==> freeSlabs[i].None?
    {
      hide Inv, MadeOrders, Caches, HoldsObject, SlabsOk, LinksOk, TailsOk, WildIff, Live;
      this.heap := heap;
      this.initPrev := initPrev;
      this.custom := custom;
      orders := MadeOrders(custom);
      freeSlabs := seq(SLAB_ORDER_COUNT + |custom|, _ => None);
      slabs := map[];
      links := map[];
      headOf := map[];
      mem := _ => 0;
      lists := seq(SLAB_ORDER_COUNT + |custom|, _ => []);
      touched := {};
      new;
      CachesMade(custom);
      CachesHold(orders, custom);
      NothingLive(orders, initPrev, freeSlabs, lists);
    }

    // init_slab_free_list
    method Carve(o: SlabOrder, p: nat) returns (l: seq<nat>)
      requires Usable(o)
      ensures l == Objects(o, p, ObjCount(o))
      ensures o.objSize * |l| <= Pow2(o.pageOrder) * PAGE_SIZE < o.objSize * (|l| + 1)
      ensures forall i :: 0 <= i < |l| ==> l[i] == p * PAGE_SIZE + i * o.objSize
    {
      hide ObjCount;
      AsManyAsFit(o);
      var at := p * PAGE_SIZE;
      l := [at];
      for i := 1 to ObjCount(o)
        invariant |l| == i && at == ObjAddr(o, p, i - 1) && forall j :: 0 <= j < i ==> l[j] == ObjAddr(o, p, j)
      {
        at := at + o.objSize;
        assert ObjAddr(o, p, i) == ObjAddr(o, p, i - 1) + o.objSize;
        l := l + [at];
      }
    }

    // The later pages of a new slab.
    method SetTails(p: nat, n: nat)
      requires n > 0
      modifies this`headOf
      ensures forall x: nat :: x in headOf <==> x in old(headOf) || p < x < p + n
      ensures forall x: nat :: x in headOf ==>
        headOf[x] == if p < x < p + n then p else if x in old(headOf) then old(headOf)[x] else 0
    {
      for i := 1 to n
        invariant forall x: nat :: x in headOf <==> x in old(headOf) || p < x < p + i
        invariant forall x: nat :: x in headOf ==>
          headOf[x] == if p < x < p + i then p else if x in old(headOf) then old(headOf)[x] else 0
      {
        headOf := headOf[p + i := p];
      }
    }

    method ClearTails(p: nat, n: nat)
      requires n > 0
      modifies this`headOf
      ensures forall x: nat :: x in headOf <==> x in old(headOf) && !(p < x < p + n)
      ensures forall x: nat :: x in headOf && x in old(headOf) ==> headOf[x] == old(headOf)[x]
    {
      for i := 1 to n
        invariant forall x: nat :: x in headOf <==> x in old(headOf) && !(p < x < p + i)
        invariant forall x: nat :: x in headOf && x in old(headOf) ==> headOf[x] == old(headOf)[x]
      {
        headOf := headOf - {p + i};
      }
    }

    // alloc_slab on the first slab of a list that is not empty.
    method AllocFromSlab(c: nat) returns (a: nat)
      requires Valid() && c < |orders| && c < |freeSlabs| && freeSlabs[c].Some?
      modifies this`slabs, this`freeSlabs, this`links, this`lists
      ensures Valid() && Gained(orders, Taken(heap.blocks), old(slabs), Taken(heap.blocks), slabs, a, orders[c].objSize)
      ensures Kept(Taken(heap.blocks), old(slabs), Taken(heap.blocks), slabs, c)
      ensures FirstTaken(old(slabs), slabs, old(freeSlabs[c]).value, a)
    {
      hide Inv, SlabsOk, TailsOk, LinksOk, WildIff, Gained, Taken, Separate;
      ghost var t := Taken(heap.blocks);
      TakenFacts(heap);
      var p := freeSlabs[c].value;
      ListFacts(|orders|, slabs, links, freeSlabs, lists, c);
      PopObject(orders, t, slabs, p);
      UsedBounded(orders, t, slabs, p);
      var s := Pop(slabs[p]);
      a := slabs[p].free[0];
      if s.used == s.objCount {
        PopListed(|orders|, slabs, links, freeSlabs, lists, c, s);
        PopWild(orders, slabs, links, touched, initPrev, freeSlabs[c], lists[c], s);
        var next := links[p].next;
        links := SetPrevSlab(links, next, Null);
        freeSlabs := freeSlabs[c := next];
        lists := lists[c := lists[c][1..]];
      } else {
        KeepListed(|orders|, slabs, links, freeSlabs, lists, p, s);
        KeepWild(orders, slabs, links, touched, initPrev, p, s);
      }
      slabs := slabs[p := s];
    }

    // The object at `a` is the only one of a slab of cache `c` that has just been made.
    ghost predicate Lone(a: nat, c: nat)
      reads this, heap
    {
      var p := a / PAGE_SIZE;
      && p in slabs && slabs[p].cache == c < |orders| && slabs[p].used == 1 && p !in touched
      && At(orders, Now(), p, a, orders[c].objSize)
    }

    // alloc_slab
    method AllocSlab(c: nat) returns (r: Option<nat>)
      requires Valid() && c < |orders|
      modifies this`slabs, this`freeSlabs, this`links, this`lists, this`headOf, heap, heap.descs, heap.freeBuddies
      ensures Valid() && heap.raw == old(heap.raw)
      ensures r.None? <==> old(NoObject(orders, Now(), c))
      ensures r.Some? ==>
        Gained(orders, old(Taken(heap.blocks)), old(slabs), Taken(heap.blocks), slabs, r.value, orders[c].objSize)
      ensures r.Some? ==> Kept(old(Taken(heap.blocks)), old(slabs), Taken(heap.blocks), slabs, c)
      ensures r.Some? && c < old(|freeSlabs|) && old(freeSlabs[c]).None? ==> Lone(r.value, c)
      ensures c < old(|freeSlabs|) && old(freeSlabs[c]).Some? ==>
        r.Some? && FirstTaken(old(slabs), slabs, old(freeSlabs[c]).value, r.value)
      ensures r.None? ==> Now() == old(Now())
    {
      hide Inv, SlabsOk, TailsOk, LinksOk, WildIff, Gained, Taken, Separate, Kept, At;
      ListFacts(|orders|, slabs, links, freeSlabs, lists, c);
      if freeSlabs[c].Some? {
        var a := AllocFromSlab(c);
        return Some(a);
      }
      r := MakeSlab(c);
    }

    // The rest of alloc_slab: a block becomes a slab.
    method MakeSlab(c: nat) returns (r: Option<nat>)
      requires Valid() && c < |orders| && c < |freeSlabs| && freeSlabs[c].None?
      modifies this`slabs, this`freeSlabs, this`links, this`lists, this`headOf, heap, heap.descs, heap.freeBuddies
      ensures Valid() && heap.raw == old(heap.raw)
      ensures r.None? <==> old(Exhausted(heap.blocks, orders[c].pageOrder))
      ensures r.Some? ==>
        Gained(orders, old(Taken(heap.blocks)), old(slabs), Taken(heap.blocks), slabs, r.value, orders[c].objSize)
      ensures r.Some? ==> Kept(old(Taken(heap.blocks)), old(slabs), Taken(heap.blocks), slabs, c) && Lone(r.value, c)
      ensures r.None? ==> Now() == old(Now())
    {
      hide Inv, SlabsOk, TailsOk, LinksOk, WildIff, Gained, Taken, Separate, Pow2, IsPow2, Log2, Usable, Kept, Lone;
      var o := orders[c];
      ghost var t := Taken(heap.blocks);
      OrdersUsable(orders, t, slabs, c);
      SlabBytesFit(o);
      var b := heap.AllocBuddy(SlabBytes(o));
      if b.None? { return None; }
      var p := b.value;
      heap.TagSlab(p, true);
      TakenFacts(heap);
      assert Taken(heap.blocks) == t[p := Block(o.pageOrder, false, true)];
      var a := InitSlab(c, p, t);
      r := Some(a);
    }

    // The block at `p` becomes the only slab on list `c`, with one object taken.
    method InitSlab(c: nat, p: nat, ghost t: Blocks) returns (a: nat)
      requires heap.Valid() && State(t) && c < |orders| && c < |freeSlabs| && freeSlabs[c].None?
      requires p !in t && Taken(heap.blocks) == t[p := Block(orders[c].pageOrder, false, true)]
      modifies this`slabs, this`freeSlabs, this`links, this`lists, this`headOf
      ensures Valid() && Gained(orders, t, old(slabs), Taken(heap.blocks), slabs, a, orders[c].objSize)
      ensures Kept(t, old(slabs), Taken(heap.blocks), slabs, c) && Lone(a, c)
    {
      hide Inv, SlabsOk, TailsOk, LinksOk, WildIff, Gained, Taken, Separate, Pow2, Usable, FreshSlab, LiveAt, Kept,
        StandardOrders, ObjCount, Objects, IsChain;
      var o := orders[c];
      ghost var t' := Taken(heap.blocks);
      TakenFacts(heap);
      OrdersUsable(orders, t, slabs, c);
      ghost var h := headOf;
      SetTails(p, Pow2(o.pageOrder));
      NewTails(t, h, headOf, p, Block(o.pageOrder, false, true));
      NewSlab(orders, t, slabs, p, c);
      FreshSlabShape(o, c, p);
      ListFacts(|orders|, slabs, links, freeSlabs, lists, c);
      var l := Carve(o, p);
      FirstObject(o, p);
      a := l[0];
      var s := Slab(c, ObjCount(o), 1, l[1..]);
      assert s == FreshSlab(o, c, p) by { FreshSlabIs(o, c, p); }
      FreshLone(orders, t', slabs[p := s], p, c);
      TouchedSlabs(orders, slabs, links, touched, initPrev, p);
      KeptNew(t, slabs, p, Block(o.pageOrder, false, true), s, c);
      Enlist(p, s);
    }

    // A new slab starts the empty list of its cache.
    method Enlist(p: nat, s: Slab)
      requires LinksOk(|orders|, slabs, links, freeSlabs, lists) && WildIff(orders, slabs, links, touched, initPrev)
      requires s.cache < |orders| && s.cache < |freeSlabs| && freeSlabs[s.cache].None?
      requires p !in slabs && s.used < s.objCount
      modifies this`slabs, this`freeSlabs, this`links, this`lists
      ensures LinksOk(|orders|, slabs, links, freeSlabs, lists) && WildIff(orders, slabs, links, touched, initPrev)
      ensures slabs == old(slabs)[p := s]
    {
      hide LinksOk, WildIff, IsChain;
      var c, x := s.cache, FreshLinks(orders[s.cache].pageOrder, initPrev);
      ListFacts(|orders|, slabs, links, freeSlabs, lists, c);
      AddListed(|orders|, slabs, links, freeSlabs, lists, p, s, x);
      AddWild(orders, slabs, links, touched, initPrev, p, s);
      slabs := slabs[p := s];
      links := links[p := x];
      freeSlabs := freeSlabs[c := Some(p)];
      lists := lists[c := [p]];
    }

    // The first page of the block that holds `a`: its own page or the slab_head of it.
    method SlabHead(a: nat, ghost p: nat, ghost n: nat) returns (q: nat)
      requires Valid() && At(orders, Now(), p, a, n)
      ensures q == p
    {
      hide Inv, SlabsOk, Taken, Pow2;
      TakenFacts(heap);
      LiveWithin(orders, Taken(heap.blocks), slabs, p, a, n);
      SlabIff(orders, Taken(heap.blocks), slabs, p);
      PageOf(heap, headOf, p, a);
      var x := a / PAGE_SIZE;
      q := if heap.descs[x - heap.lo].head then x else headOf[x];
    }

    // A slab that was full goes to the front of its list.
    method Relist(p: nat, c: nat, ghost s: Slab)
      requires p in slabs && slabs[p].cache == s.cache == c < |orders| && slabs[p].used == slabs[p].objCount
      requires s.used < s.objCount
      requires LinksOk(|orders|, slabs, links, freeSlabs, lists) && WildIff(orders, slabs, links, touched, initPrev)
      modifies this`freeSlabs, this`links, this`lists, this`touched
      ensures LinksOk(|orders|, slabs[p := s], links, freeSlabs, lists)
      ensures WildIff(orders, slabs[p := s], links, touched, initPrev)
      ensures |old(freeSlabs)| == |orders|
      ensures touched == old(touched) + {p} + (if old(freeSlabs)[c].Some? then {old(freeSlabs)[c].value} else {})
    {
      hide LinksOk, WildIff;
      ListFacts(|orders|, slabs, links, freeSlabs, lists, c);
      PushListed(|orders|, slabs, links, freeSlabs, lists, p, s);
      RelistWild(orders, slabs, links, touched, initPrev, freeSlabs[c], p, s);
      touched := touched + {p} + (if freeSlabs[c].Some? then {freeSlabs[c].value} else {});
      links := Relisted(links, freeSlabs[c], p);
      freeSlabs := freeSlabs[c := Some(p)];
      lists := lists[c := [p] + lists[c]];
    }

    // free_slab of a live object. `ok` is false where the link before is followed and is wild.
    method FreeSlab(a: nat, ghost p0: nat, ghost n: nat) returns (ok: bool)
      requires Valid() && p0 in slabs && At(orders, Now(), p0, a, n)
      modifies this`slabs, this`freeSlabs, this`links, this`lists, this`touched, this`headOf, heap, heap.descs,
        heap.freeBuddies
      ensures ok <==> !old(Stuck(orders, initPrev, Now(), p0))
      ensures ok ==> Valid() && Lost(orders, old(Taken(heap.blocks)), old(slabs), Taken(heap.blocks), slabs, a)
      ensures ok ==>
        && touched == Touched(old(Now()), p0)
        && heap.raw == (if old(slabs[p0]).used == 1 then old(heap.raw) - {p0} else old(heap.raw))
      ensures ok ==> Returned(old(slabs), slabs, p0, a)
    {
      hide Inv, SlabsOk, TailsOk, LinksOk, WildIff, Lost, Taken, Separate, LiveAt, StandardOrders;
      ghost var t := Taken(heap.blocks);
      TakenFacts(heap);
      var p := SlabHead(a, p0, n);
      var s := slabs[p];
      SlabFacts(orders, t, slabs, p, a, n);
      ListFacts(|orders|, slabs, links, freeSlabs, lists, s.cache);
      var s' := Push(s, a);
      if s.used == s.objCount {
        Relist(p, s.cache, s');
      } else if s'.used != 0 {
        KeepListed(|orders|, slabs, links, freeSlabs, lists, p, s');
        KeepWild(orders, slabs, links, touched, initPrev, p, s');
      }
      ghost var was := slabs;
      slabs := slabs[p := s'];
      if s'.used != 0 {
        PushObject(orders, t, was, p, a, n);
        return true;
      }
      WildAt(orders, was, links, touched, initPrev, p);
      ok := ReleaseSlab(p, was, a, n);
    }

    // The end of free_slab: the block of a slab with no object in use goes back.
    method ReleaseSlab(p: nat, ghost was: Slabs, ghost a: nat, ghost n: nat) returns (ok: bool)
      requires heap.Valid() && p in was && was[p].used == 1 && slabs == was[p := Push(was[p], a)] && p in links
      requires SlabsOk(orders, Taken(heap.blocks), was) && LinksOk(|orders|, was, links, freeSlabs, lists)
      requires TailsOk(Taken(heap.blocks), headOf)
      requires WildIff(orders, was, links, touched, initPrev) && LiveAt(orders, Taken(heap.blocks), was, p, a, n)
      requires Caches(orders, custom)
      modifies this`slabs, this`freeSlabs, this`links, this`lists, this`touched, this`headOf, heap, heap.descs,
        heap.freeBuddies
      ensures ok <==> !old(links)[p].prev.Wild?
      ensures ok ==> Valid() && Lost(orders, old(Taken(heap.blocks)), was, Taken(heap.blocks), slabs, a)
      ensures ok ==> slabs == was - {p} && touched == old(touched) - {p} && heap.raw == old(heap.raw) - {p}
    {
      hide Inv, SlabsOk, TailsOk, LinksOk, WildIff, Lost, Taken, Separate, LiveAt, StandardOrders, Pow2, Log2, And,
        Aligned;
      ghost var t := Taken(heap.blocks);
      TakenFacts(heap);
      SlabFacts(orders, t, was, p, a, n);
      LiveWithin(orders, t, was, p, a, n);
      var s := slabs[p];
      var numPages := heap.descs[p - heap.lo].numPages;
      var order := Log2(numPages);
      Log2Pow2(t[p].order);
      MaskedBase(p, order, a);
      var start := s.free[0] - And(s.free[0], Pow2(order + BUDDY_EXPON_MIN) - 1);
      var base := start / PAGE_SIZE;
      assert base == p;
      ghost var h := headOf;
      ClearTails(base, numPages);
      DropTails(t, h, headOf, p);
      DropSlab(orders, t, was, p, a, n);
      heap.TagSlab(p, false);
      if links[p].prev.Wild? { return false; }
      Unlist(p, was, s.cache);
      slabs := slabs - {p};
      assert slabs == was - {p};
      heap.FreeBuddy(base);
      assert Taken(heap.blocks) == t - {p};
      ok := true;
    }

    // The three writes that take a slab out of its list.
    method Unlist(p: nat, ghost was: Slabs, c: nat)
      requires p in was && was[p].cache == c < |orders| && was[p].used < was[p].objCount && p in links
      requires !links[p].prev.Wild?
      requires LinksOk(|orders|, was, links, freeSlabs, lists) && WildIff(orders, was, links, touched, initPrev)
      modifies this`freeSlabs, this`links, this`lists, this`touched
      ensures LinksOk(|orders|, was - {p}, links, freeSlabs, lists)
      ensures WildIff(orders, was - {p}, links, touched, initPrev)
      ensures touched == old(touched) - {p}
    {
      hide LinksOk, WildIff;
      ListFacts(|orders|, was, links, freeSlabs, lists, c);
      ghost var j := ListIndex(|orders|, was, links, freeSlabs, lists, p);
      DropListed(|orders|, was, links, freeSlabs, lists, c, j);
      DropWild(orders, was, links, touched, initPrev, freeSlabs[c], lists[c], j);
      var x := links[p];
      links := SetNextSlab(links, x.prev, x.next);
      links := SetPrevSlab(links, x.next, x.prev);
      assert freeSlabs == freeSlabs[c := freeSlabs[c]];
      if freeSlabs[c] == Some(p) { freeSlabs := freeSlabs[c := x.next]; }
      links := links - {p};
      lists := lists[c := lists[c][..j] + lists[c][j + 1..]];
      touched := touched - {p};
    }

    // alloc_buddy, as an allocation.
    method AllocBlock(size: nat) returns (r: Option<nat>)
      requires Valid() && size % PAGE_SIZE == 0 && IsPow2(size) && size < 0x1_0000_0000
      modifies heap, heap.descs, heap.freeBuddies
      ensures Valid() && Log2(size) >= BUDDY_EXPON_MIN && heap.raw == old(heap.raw)
      ensures r.None? <==> old(Exhausted(heap.blocks, Log2(size) - BUDDY_EXPON_MIN))
      ensures r.Some? ==> Gained(orders, old(Taken(heap.blocks)), slabs, Taken(heap.blocks), slabs, r.value, size)
      ensures r.Some? ==> forall c: nat :: Kept(old(Taken(heap.blocks)), slabs, Taken(heap.blocks), slabs, c)
      ensures r.None? ==> heap.blocks == old(heap.blocks)
    {
      hide Inv, SlabsOk, LinksOk, WildIff, TailsOk, Gained, Taken, Separate, Pow2, IsPow2, Log2;
      ghost var t := Taken(heap.blocks);
      var b := heap.AllocBuddy(size);
      if b.None? { return None; }
      var p := b.value;
      ghost var k := Log2(size) - BUDDY_EXPON_MIN;
      TakenFacts(heap);
      TakeBlock(orders, t, slabs, p, k);
      SameTails(t, Taken(heap.blocks), headOf, p);
      r := Some(p * PAGE_SIZE);
    }

    method FreeBlock(p: nat)
      requires Valid() && p in Taken(heap.blocks) && !Taken(heap.blocks)[p].slab && p !in heap.raw
      modifies heap, heap.descs, heap.freeBuddies
      ensures Valid() && Lost(orders, old(Taken(heap.blocks)), slabs, Taken(heap.blocks), slabs, p * PAGE_SIZE)
    {
      hide Inv, SlabsOk, LinksOk, WildIff, TailsOk, Lost, Taken, Separate, Pow2;
      ghost var t := Taken(heap.blocks);
      TakenFacts(heap);
      GiveBlock(orders, t, slabs, p);
      SameTails(t, t - {p}, headOf, p);
      heap.FreeBuddy(p);
    }

    // kmalloc; a request above 2 GiB fails the assertion on its rounded size.
    method Kmalloc(n: nat) returns (r: Option<nat>)
      requires Valid() && n <= TWO_GIB
      modifies this`slabs, this`freeSlabs, this`links, this`lists, this`headOf, heap, heap.descs, heap.freeBuddies
      ensures Valid() && KmallocSize(n) >= n && KmallocSize(n) > 0 && heap.raw == old(heap.raw)
      ensures forall q: nat :: IsPow2(q) && n <= q && 16 <= q ==> KmallocSize(n) <= q
      ensures r.None? <==> old(Refused(orders, Now(), n))
      ensures r.None? ==> Now() == old(Now())
      ensures r.Some? ==>
        Gained(orders, old(Taken(heap.blocks)), old(slabs), Taken(heap.blocks), slabs, r.value, KmallocSize(n))
      ensures r.Some? ==> r.value % KmallocSize(n) == 0
      ensures n > 0x1_0000 ==> slabs == old(slabs)
      ensures r.Some? && n <= 0x1_0000 && SlabIndex(n) < old(|freeSlabs|) && old(freeSlabs[SlabIndex(n)]).None? ==>
        Lone(r.value, SlabIndex(n))
    {
      hide Inv, SlabsOk, LinksOk, WildIff, TailsOk, Gained, Taken, Separate, Pow2, IsPow2, Log2, AlignUpPow2, OrderFor,
        Aligned, NoObject, Exhausted, Kept, Lone;
      KmallocSizeFacts(n);
      KmallocLeast(n);
      ghost var e := Log2(KmallocSize(n));
      if n > 0x1_0000 {
        r := AllocBlock(AlignUpPow2(n));
      } else {
        var size := AlignUpPow2(n);
        if size < Pow2(SLAB_EXPON_MIN) { size := Pow2(SLAB_EXPON_MIN); }
        var order := Log2(size) - SLAB_EXPON_MIN;
        assert orders[order] == orders[..SLAB_ORDER_COUNT][order] == OrderFor(Pow2(e));
        OrderForSize(Pow2(e));
        r := AllocSlab(order);
      }
      if r.Some? {
        TakenFacts(heap);
        GainedLive(orders, old(Taken(heap.blocks)), old(slabs), Taken(heap.blocks), slabs, r.value, Pow2(e));
        LiveAligned(orders, Taken(heap.blocks), slabs, r.value, e);
      }
    }

    // kmalloc_aligned
    method KmallocAligned(alignment: nat, size: nat) returns (r: Option<nat>)
      requires Valid() && IsPow2(alignment) && alignment <= TWO_GIB && size <= TWO_GIB
      modifies this`slabs, this`freeSlabs, this`links, this`lists, this`headOf, heap, heap.descs, heap.freeBuddies
      ensures Valid() && alignment > 0 && KmallocSize(Max(alignment, size)) >= size
      ensures r.None? <==> old(Refused(orders, Now(), Max(alignment, size)))
      ensures r.Some? ==> Gained(orders, old(Taken(heap.blocks)), old(slabs), Taken(heap.blocks), slabs, r.value,
          KmallocSize(Max(alignment, size)))
      ensures r.Some? ==> r.value % alignment == 0
      ensures r.None? ==> Now() == old(Now())
    {
      hide Inv, SlabsOk, LinksOk, WildIff, TailsOk, Gained, Taken, IsPow2, AlignUpPow2, KmallocSize, Refused, Lone;
      var n := Max(alignment, size);
      KmallocSizeFacts(n);
      r := Kmalloc(n);
      IsPow2Double(alignment);
      if r.Some? { Divides(r.value, alignment, KmallocSize(n)); }
    }

    // The BUDDY flag of a page.
    function BuddyFlag(x: nat): bool
      reads this, heap.descs
      requires heap.lo <= x < heap.lo + heap.descs.Length
    {
      x !in headOf && heap.descs[x - heap.lo].buddy
    }

    // The flag of the page of a live allocation tells blocks from slab objects, except
    // where the block's head has HEAD alone.
    lemma Routed(p: nat, a: nat, n: nat)
      requires Valid() && At(orders, Now(), p, a, n)
      ensures heap.lo <= a / PAGE_SIZE < heap.lo + heap.descs.Length && p in Taken(heap.blocks) && p in heap.blocks
      ensures Taken(heap.blocks)[p] == heap.blocks[p]
      ensures p in slabs <==> heap.blocks[p].slab
      ensures BuddyFlag(a / PAGE_SIZE) <==> p !in slabs && !Misrouted(Now(), p)
      ensures p !in slabs ==> a == p * PAGE_SIZE && a / PAGE_SIZE == p && n == Pow2(heap.blocks[p].order) * PAGE_SIZE
      ensures n > 0
    {
      hide Inv, SlabsOk, LinksOk, WildIff, TailsOk, Separate, Pow2;
      ghost var t := Taken(heap.blocks);
      TakenFacts(heap);
      LiveWithin(orders, t, slabs, p, a, n);
      PageOf(heap, headOf, p, a);
      SlabIff(orders, t, slabs, p);
    }

    // kfree of a live allocation. `ok` is false where free_slab gets a block, or follows a
    // wild link.
    method Kfree(a: nat, ghost n: nat) returns (ok: bool)
      requires Valid() && Allocated(a, n)
      modifies this`slabs, this`freeSlabs, this`links, this`lists, this`touched, this`headOf, heap, heap.descs,
        heap.freeBuddies
      ensures ok <==> !old(FreeStops(orders, initPrev, Now(), a))
      ensures ok ==> Valid() && Lost(orders, old(Taken(heap.blocks)), old(slabs), Taken(heap.blocks), slabs, a)
    {
      hide Inv, SlabsOk, LinksOk, WildIff, TailsOk, Lost, Taken, Separate, Pow2, LiveAt, FreeStops, ReallocStops,
        ReallocRefused;
      ghost var p: nat :| LiveAt(orders, Taken(heap.blocks), slabs, p, a, n);
      assert At(orders, Now(), p, a, n);
      TakenFacts(heap);
      StopsAt(orders, initPrev, Now(), p, a, n, 0);
      Routed(p, a, n);
      var x := a / PAGE_SIZE;
      if BuddyFlag(x) {
        FreeBlock(x);
        return true;
      }
      var q := SlabHead(a, p, n);
      if q !in slabs { return false; }
      ok := FreeSlab(a, p, n);
    }

    // kmalloc of an object of a cache without free objects, then kfree: what line 464
    // leaves in prev_slab is followed in every slab of more than one page.
    method MallocFree(n: nat) returns (r: Option<nat>, ok: bool)
      requires Valid() && n <= 0x1_0000 && SlabIndex(n) < |freeSlabs| && freeSlabs[SlabIndex(n)].None?
      modifies this`slabs, this`freeSlabs, this`links, this`lists, this`touched, this`headOf, heap, heap.descs,
        heap.freeBuddies
      ensures r.None? <==> old(Refused(orders, Now(), n))
      ensures ok <==> r.None? || initPrev || n <= 128
    {
      hide Inv, SlabsOk, LinksOk, WildIff, TailsOk, Lost, Gained, Taken, Separate, Pow2, Log2, KmallocSize, LiveAt,
        FreeStops, ReallocStops, ReallocRefused, StandardOrders, Refused;
      r := Kmalloc(n);
      if r.None? { return None, true; }
      OnePageUpTo128(n);
      StandardIs(orders, SlabIndex(n));
      var a := r.value;
      ghost var size := orders[SlabIndex(n)].objSize;
      TakenFacts(heap);
      StopsAt(orders, initPrev, Now(), a / PAGE_SIZE, a, size, 0);
      Routed(a / PAGE_SIZE, a, size);
      LiveFrom(orders, Taken(heap.blocks), slabs, a / PAGE_SIZE, a, size);
      ok := Kfree(a, size);
    }

    // memcpy
    method Copy(dst: nat, src: nat, n: nat)
      requires src + n <= dst || dst + n <= src
      modifies this`mem
      ensures Copied(old(mem), mem, src, dst, n)
      ensures forall x: nat :: x < dst || dst + n <= x ==> mem(x) == old(mem)(x)
    {
      for i := 0 to n
        invariant forall x: nat :: dst <= x < dst + i ==> mem(x) == old(mem)(src + (x - dst))
        invariant forall x: nat :: x < dst || dst + i <= x ==> mem(x) == old(mem)(x)
      {
        var was := mem;
        mem := (x: nat) => if x == dst + i then was(src + i) else was(x);
      }
    }

    // The size of the live allocation at `a`, as get_buddy_size and get_slab_order find it;
    // `ok` is false where a block is read as a slab.
    method SizeOf(a: nat, ghost p: nat, ghost n: nat) returns (size: nat, cache: Option<nat>, ok: bool)
      requires Valid() && At(orders, Now(), p, a, n)
      ensures ok <==> !Misrouted(Now(), p)
      ensures ok ==> size == n > 0
      ensures ok && cache.Some? ==>
        p in slabs && slabs[p].cache == cache.value < |orders| && size == orders[cache.value].objSize
      ensures ok && cache.None? ==> p !in slabs && size >= PAGE_SIZE && IsPow2(size)
      ensures ok && cache.None? ==>
        a == p * PAGE_SIZE && p in Taken(heap.blocks) && !Taken(heap.blocks)[p].slab && p !in heap.raw
    {
      hide Inv, SlabsOk, LinksOk, WildIff, TailsOk, Taken, Separate, Pow2, Log2, IsPow2;
      ghost var t := Taken(heap.blocks);
      Routed(p, a, n);
      var x := a / PAGE_SIZE;
      if BuddyFlag(x) {
        BlockDesc(heap, p);
        Pow2Add(t[p].order);
        Log2Pow2(t[p].order + BUDDY_EXPON_MIN);
        return Pow2(heap.descs[x - heap.lo].order + BUDDY_EXPON_MIN), None, true;
      }
      var q := SlabHead(a, p, n);
      if q !in slabs { return 0, None, false; }
      return orders[slabs[q].cache].objSize, Some(slabs[q].cache), true;
    }

    // krealloc. `n` is the size of the live allocation at `addr`.
    method Krealloc(addr: Option<nat>, size: nat, ghost n: nat) returns (r: Option<nat>, ok: bool)
      requires Valid() && size < TWO_32 && (addr.Some? ==> Allocated(addr.value, n))
      modifies this`slabs, this`freeSlabs, this`links, this`lists, this`touched, this`headOf, this`mem, heap,
        heap.descs, heap.freeBuddies
      ensures ok <==> !old(ReallocStops(orders, initPrev, Now(), addr, size))
      ensures ok ==> Valid() && (r.None? <==> old(ReallocRefused(orders, Now(), addr, size)))
      ensures ok && (r.None? || r == addr) ==> Now() == old(Now()) && mem == old(mem)
      ensures ok && addr.None? && r.Some? ==>
        && Gained(orders, old(Taken(heap.blocks)), old(slabs), Taken(heap.blocks), slabs, r.value, KmallocSize(size))
        && mem == old(mem)
      ensures ok && addr.Some? && n >= size ==> r == addr
      ensures ok && addr.Some? && n < size && r.Some? ==>
        && r != addr
        && Moved(orders, old(Taken(heap.blocks)), old(slabs), Taken(heap.blocks), slabs, addr.value, r.value,
                 KmallocSize(size))
        && Copied(old(mem), mem, addr.value, r.value, n)
        && Untouched(orders, old(Taken(heap.blocks)), old(slabs), old(mem), mem, addr.value)
      ensures ok && r.Some? && r != addr ==>
        size <= KmallocSize(size) && KmallocSize(size) > 0 && r.value % KmallocSize(size) == 0
    {
      hide Inv, SlabsOk, LinksOk, WildIff, TailsOk, Gained, Lost, Moved, Taken, Separate, Pow2, IsPow2, Log2,
        AlignUpPow2, KmallocSize, Live, LiveAt, FreeStops, ReallocStops, ReallocRefused, Refused, Lone,
        Copied, Untouched;
      if addr.None? {
        NullStops(orders, initPrev, Now(), size);
        if size > TWO_GIB { return None, false; }
        r := Kmalloc(size);
        return r, true;
      }
      var a := addr.value;
      ghost var p := LivePlace(orders, Now(), a, n);
      TakenFacts(heap);
      StopsAt(orders, initPrev, Now(), p, a, n, size);
      r, ok := Resize(a, size, p, n);
    }

    // krealloc of the live allocation (a, n) at `p`.
    method Resize(a: nat, size: nat, ghost p: nat, ghost n: nat) returns (r: Option<nat>, ok: bool)
      requires Valid() && size < TWO_32 && At(orders, Now(), p, a, n)
      modifies this`slabs, this`freeSlabs, this`links, this`lists, this`touched, this`headOf, this`mem, heap,
        heap.descs, heap.freeBuddies
      ensures ok <==> !old(GrowthStops(orders, initPrev, Now(), p, n, size))
      ensures ok ==> Valid() && (r.None? <==> old(n < size && GrowthRefused(orders, Now(), p, size)))
      ensures ok && (r.None? || r == Some(a)) ==> Now() == old(Now()) && mem == old(mem)
      ensures ok && n >= size ==> r == Some(a)
      ensures ok && n < size && r.Some? ==>
        && Moved(orders, old(Taken(heap.blocks)), old(slabs), Taken(heap.blocks), slabs, a, r.value, KmallocSize(size))
        && r != Some(a)
        && Copied(old(mem), mem, a, r.value, n)
        && Untouched(orders, old(Taken(heap.blocks)), old(slabs), old(mem), mem, a)
      ensures ok && r.Some? && r != Some(a) ==>
        size <= KmallocSize(size) && KmallocSize(size) > 0 && r.value % KmallocSize(size) == 0
    {
      hide Inv, SlabsOk, LinksOk, WildIff, TailsOk, Gained, Lost, Moved, Taken, Separate, Pow2, IsPow2, Log2,
        AlignUpPow2, KmallocSize, Live, LiveAt, Refused, Kept, Exhausted, Copied, Untouched, Caches;
      var oldSize, cache, routed := SizeOf(a, p, n);
      if !routed { return None, false; }
      if oldSize >= size { return Some(a), true; }
      if cache.Some? && cache.value >= SLAB_ORDER_COUNT { return None, true; }
      if size > TWO_GIB { return None, false; }
      ghost var t0, s0 := Taken(heap.blocks), slabs;
      ghost var d: nat := 0;
      if cache.None? {
        r := Regrow(size);
      } else {
        r, d := RegrowSlab(cache.value, size);
      }
      if r.None? { return None, true; }
      KeptLive(orders, t0, s0, Taken(heap.blocks), slabs, p, a, n, d);
      ok := Relocate(a, r.value, oldSize, size, cache.None?, t0, s0, p);
    }

    // The end of krealloc: the bytes go to the new region, and the old one is freed.
    method Relocate(a: nat, b: nat, n: nat, size: nat, block: bool, ghost t: Blocks, ghost s: Slabs, ghost p: nat)
      returns (ok: bool)
      requires Valid() && Gained(orders, t, s, Taken(heap.blocks), slabs, b, KmallocSize(size)) && n < size <= TWO_GIB
      requires n > 0
      requires LiveAt(orders, t, s, p, a, n) && At(orders, Now(), p, a, n) && (block <==> p !in slabs)
      requires block ==> a == p * PAGE_SIZE && p in Taken(heap.blocks) && !Taken(heap.blocks)[p].slab && p !in heap.raw
      modifies this`slabs, this`freeSlabs, this`links, this`lists, this`touched, this`headOf, this`mem, heap,
        heap.descs, heap.freeBuddies
      ensures ok <==> !old(Stuck(orders, initPrev, Now(), p))
      ensures ok ==> Valid() && Moved(orders, t, s, Taken(heap.blocks), slabs, a, b, KmallocSize(size)) && b != a
      ensures ok ==> Copied(old(mem), mem, a, b, n) && Untouched(orders, t, s, old(mem), mem, a)
      ensures ok ==> size <= KmallocSize(size) && KmallocSize(size) > 0 && b % KmallocSize(size) == 0
    {
      hide Inv, SlabsOk, LinksOk, WildIff, TailsOk, Gained, Lost, Moved, Taken, Separate, Pow2, IsPow2, Log2,
        KmallocSize, Live, LiveAt, Copied, Untouched;
      ghost var t1, s1, m0 := Taken(heap.blocks), slabs, mem;
      KmallocSizeFacts(size);
      LiveFrom(orders, t, s, p, a, n);
      GainedApart(orders, t, s, t1, s1, b, KmallocSize(size), a, n);
      Copy(b, a, n);
      CopyKeeps(orders, t, s, t1, s1, m0, mem, b, KmallocSize(size), n, a);
      if block {
        FreeBlock(a / PAGE_SIZE);
        ok := true;
      } else {
        ok := FreeSlab(a, p, n);
      }
      if ok {
        MovedBy(orders, t, s, t1, s1, Taken(heap.blocks), slabs, a, n, b, KmallocSize(size));
        TakenFacts(heap);
        MovedAligned(orders, t, s, Taken(heap.blocks), slabs, a, b, KmallocSize(size));
      }
    }

    // krealloc of a whole block asks for a larger block.
    method Regrow(size: nat) returns (r: Option<nat>)
      requires Valid() && PAGE_SIZE < size <= TWO_GIB
      modifies heap, heap.descs, heap.freeBuddies
      ensures Valid() && heap.raw == old(heap.raw)
      ensures r.None? <==> old(Exhausted(heap.blocks, PageOrder(size)))
      ensures r.Some? ==>
        Gained(orders, old(Taken(heap.blocks)), slabs, Taken(heap.blocks), slabs, r.value, KmallocSize(size))
      ensures r.Some? ==> forall c: nat :: Kept(old(Taken(heap.blocks)), slabs, Taken(heap.blocks), slabs, c)
      ensures r.None? ==> heap.blocks == old(heap.blocks)
    {
      hide Inv, SlabsOk, LinksOk, WildIff, TailsOk, Gained, Taken, Pow2, IsPow2, Log2, AlignUpPow2, Kept, Exhausted;
      RoundedPages(size);
      r := AllocBlock(AlignUpPow2(size));
    }

    // krealloc of a slab object asks the cache of the rounded size, or for a block.
    method RegrowSlab(c: nat, size: nat) returns (r: Option<nat>, ghost d: nat)
      requires Valid() && c < SLAB_ORDER_COUNT && c < |orders| && orders[c].objSize < size <= TWO_GIB
      modifies this`slabs, this`freeSlabs, this`links, this`lists, this`headOf, heap, heap.descs, heap.freeBuddies
      ensures Valid() && heap.raw == old(heap.raw)
      ensures r.None? <==> old(Refused(orders, Now(), size))
      ensures r.Some? ==>
        Gained(orders, old(Taken(heap.blocks)), old(slabs), Taken(heap.blocks), slabs, r.value, KmallocSize(size))
      ensures r.Some? ==> d != c && Kept(old(Taken(heap.blocks)), old(slabs), Taken(heap.blocks), slabs, d)
      ensures r.None? ==> Now() == old(Now())
    {
      hide Inv, SlabsOk, LinksOk, WildIff, TailsOk, Gained, Taken, Pow2, IsPow2, Log2, AlignUpPow2, OrderFor, Kept,
        Exhausted, Lone;
      assert orders[c] == orders[..SLAB_ORDER_COUNT][c] == OrderFor(Pow2(SLAB_EXPON_MIN + c));
      OrderForSize(Pow2(SLAB_EXPON_MIN + c));
      Pow2Mono(SLAB_EXPON_MIN, SLAB_EXPON_MIN + c);
      TwoSixteen();
      KmallocSizeFacts(size);
      AlignUpLeast(size);
      var rounded := AlignUpPow2(size);
      assert rounded == KmallocSize(size);
      var index := Log2(rounded) - SLAB_EXPON_MIN;
      if index < SLAB_ORDER_COUNT {
        assert orders[index] == orders[..SLAB_ORDER_COUNT][index] == OrderFor(rounded);
        OrderForSize(rounded);
        Pow2Mono(Log2(rounded), SLAB_EXPON_MAX);
        r := AllocSlab(index);
        d := index;
      } else {
        Pow2Mono(SLAB_EXPON_MAX, Log2(rounded));
        RoundedPages(size);
        r := AllocBlock(rounded);
        d := c + 1;
      }
    }

    // Every run of the allocator: the live allocations are those that the answers say, each
    // new one misses all that are live at that moment and is aligned, and NULL is answered
    // exactly where nothing is free. `trace` holds the states before the steps; the run
    // ends early exactly at a step that stops.
    method Run(ops: seq<Op>, start: map<nat, nat>)
      returns (live: map<nat, nat>, answers: seq<Option<nat>>, ghost trace: seq<View>)
      requires Valid() && Recorded(orders, Now(), start) && forall i :: 0 <= i < |ops| ==> SizeFits(ops[i])
      modifies this`slabs, this`freeSlabs, this`links, this`lists, this`touched, this`headOf, this`mem, heap,
        heap.descs, heap.freeBuddies
      ensures |answers| <= |ops| && |trace| == |answers| + 1 && trace[0] == old(Now())
      ensures live == LiveAfter(orders, start, ops[..|answers|], answers)
      ensures forall i :: 0 <= i < |answers| ==>
        Right(orders, custom, initPrev, trace[i], LiveAfter(orders, start, ops[..i], answers[..i]), ops[i], answers[i])
      ensures Recorded(orders, trace[|answers|], live)
      ensures forall i :: 0 <= i < |trace| ==> Coalesced(heap.allFlags, trace[i])
      ensures |answers| < |ops| ==> Stops(orders, initPrev, trace[|answers|], live, ops[|answers|])
      ensures |answers| == |ops| ==> Valid() && trace[|ops|] == Now()
      ensures heap.allFlags && initPrev && (forall i :: 0 <= i < |ops| ==> Modest(ops[i])) ==> |answers| == |ops|
    {
      hide Valid, Recorded, Right, LiveStep, LiveAfter, Stops, Modest, SizeFits, Coalesced;
      LiveAfterNone(orders, start);
      NowCoalesced();
      live, answers, trace := start, [], [Now()];
      for i := 0 to |ops|
        invariant Valid() && |answers| == i && |trace| == i + 1 && trace[0] == old(Now()) && trace[i] == Now()
        invariant live == LiveAfter(orders, start, ops[..i], answers) && Recorded(orders, Now(), live)
        invariant forall j :: 0 <= j <= i ==> Coalesced(heap.allFlags, trace[j])
        invariant forall j :: 0 <= j < i ==>
          Right(orders, custom, initPrev, trace[j], LiveAfter(orders, start, ops[..j], answers[..j]), ops[j],
                answers[j])
      {
        ghost var before := answers;
        var r, ok := Perform(ops[i], live);
        if !ok { return; }
        answers := answers + [r];
        live := LiveStep(orders, live, ops[i], r);
        NowCoalesced();
        trace := trace + [Now()];
        assert ops[..i + 1] == ops[..i] + [ops[i]] && answers[..i] == before;
        LiveAfterStep(orders, start, ops[..i], before, ops[i], r);
        assert forall j :: 0 <= j < i ==> answers[..j] == before[..j];
      }
    }

    lemma NowCoalesced()
      requires Valid()
      ensures Coalesced(heap.allFlags, Now())
    {
      hide Tiled, Described, AreLists, Matching, SlabsOk, LinksOk, WildIff, TailsOk;
    }

    // One step. An address that is not live, or a cache that does not exist, is no step.
    method Perform(op: Op, live: map<nat, nat>) returns (r: Option<nat>, ok: bool)
      requires Valid() && Recorded(orders, Now(), live) && SizeFits(op)
      modifies this`slabs, this`freeSlabs, this`links, this`lists, this`touched, this`headOf, this`mem, heap,
        heap.descs, heap.freeBuddies
      ensures ok <==> !old(Stops(orders, initPrev, Now(), live, op))
      ensures ok ==>
        && Valid() && Recorded(orders, Now(), LiveStep(orders, live, op, r))
        && Right(orders, custom, initPrev, old(Now()), live, op, r)
      ensures heap.allFlags && initPrev && Modest(op) ==> ok
    {
      hide Valid, Recorded, Right, LiveStep, Stops;
      match op {
        case Malloc(n) => r, ok := PerformMalloc(n, live);
        case CacheAlloc(i) => r, ok := PerformCacheAlloc(i, live);
        case Free(a) => r, ok := PerformFree(a, live);
        case Realloc(addr, n) => r, ok := PerformRealloc(addr, n, live);
      }
    }

    method PerformMalloc(n: nat, live: map<nat, nat>) returns (r: Option<nat>, ok: bool)
      requires Valid() && Recorded(orders, Now(), live)
      modifies this`slabs, this`freeSlabs, this`links, this`lists, this`touched, this`headOf, this`mem, heap,
        heap.descs, heap.freeBuddies
      ensures ok <==> !old(Stops(orders, initPrev, Now(), live, Malloc(n)))
      ensures ok ==>
        && Valid() && Recorded(orders, Now(), LiveStep(orders, live, Malloc(n), r))
        && Right(orders, custom, initPrev, old(Now()), live, Malloc(n), r)
      ensures n <= TWO_GIB ==> ok
    {
      hide Inv, SlabsOk, LinksOk, WildIff, TailsOk, Taken, KmallocSize, Live, LiveAt, Gained, Lost, Recorded, FreeStops,
        Refused, NoObject, Lone, StandardOrders;
      ghost var v := Now();
      if n > TWO_GIB { return None, false; }
      r := Kmalloc(n);
      ok := true;
      if r.Some? { RecordGain(orders, v, Now(), live, r.value, KmallocSize(n)); }
    }

    method PerformCacheAlloc(i: nat, live: map<nat, nat>) returns (r: Option<nat>, ok: bool)
      requires Valid() && Recorded(orders, Now(), live)
      modifies this`slabs, this`freeSlabs, this`links, this`lists, this`touched, this`headOf, this`mem, heap,
        heap.descs, heap.freeBuddies
      ensures ok <==> !old(Stops(orders, initPrev, Now(), live, CacheAlloc(i)))
      ensures ok ==>
        && Valid() && Recorded(orders, Now(), LiveStep(orders, live, CacheAlloc(i), r))
        && Right(orders, custom, initPrev, old(Now()), live, CacheAlloc(i), r)
      ensures ok
    {
      hide Inv, SlabsOk, LinksOk, WildIff, TailsOk, Taken, Live, Gained, Recorded, NoObject, Caches, Kept, FirstTaken,
        Lone, OrderFor, StandardOrders, Misses;
      ghost var v := Now();
      r, ok := None, true;
      CacheOrder(orders, custom, i);
      if i < |custom| {
        var c := SLAB_ORDER_COUNT + i;
        r := AllocSlab(c);
        if r.Some? {
          OrdersPositive(orders, Taken(v.blocks), v.slabs, c);
          RecordGain(orders, v, Now(), live, r.value, orders[c].objSize);
        }
      }
    }

    method PerformFree(a: nat, live: map<nat, nat>) returns (r: Option<nat>, ok: bool)
      requires Valid() && Recorded(orders, Now(), live)
      modifies this`slabs, this`freeSlabs, this`links, this`lists, this`touched, this`headOf, this`mem, heap,
        heap.descs, heap.freeBuddies
      ensures ok <==> !old(Stops(orders, initPrev, Now(), live, Free(a)))
      ensures ok ==>
        && Valid() && Recorded(orders, Now(), LiveStep(orders, live, Free(a), r))
        && Right(orders, custom, initPrev, old(Now()), live, Free(a), r)
      ensures heap.allFlags && initPrev ==> ok
    {
      hide Inv, SlabsOk, LinksOk, WildIff, TailsOk, Taken, KmallocSize, Live, LiveAt, Gained, Lost, Recorded, FreeStops,
        Refused, NoObject, Lone, StandardOrders;
      ghost var v := Now();
      NeverStops(heap, orders, v);
      r, ok := None, true;
      RecordLoss(orders, v, live, a);
      if a in live {
        ok := Kfree(a, live[a]);
        if ok { RecordLost(orders, v, Now(), live, a); }
      }
    }

    method PerformRealloc(addr: Option<nat>, n: nat, live: map<nat, nat>) returns (r: Option<nat>, ok: bool)
      requires Valid() && Recorded(orders, Now(), live) && n < TWO_32
      modifies this`slabs, this`freeSlabs, this`links, this`lists, this`touched, this`headOf, this`mem, heap,
        heap.descs, heap.freeBuddies
      ensures ok <==> !old(Stops(orders, initPrev, Now(), live, Realloc(addr, n)))
      ensures ok ==>
        && Valid() && Recorded(orders, Now(), LiveStep(orders, live, Realloc(addr, n), r))
        && Right(orders, custom, initPrev, old(Now()), live, Realloc(addr, n), r)
      ensures heap.allFlags && initPrev && n <= TWO_GIB ==> ok
    {
      hide Inv, SlabsOk, LinksOk, WildIff, TailsOk, Taken, KmallocSize, Live, LiveAt, Gained, Lost, Moved, Recorded,
        FreeStops, ReallocStops, ReallocRefused, Refused, NoObject, Lone, Caches, Copied, Untouched;
      ghost var v := Now();
      NeverStops(heap, orders, v);
      r, ok := None, true;
      if addr.Some? { RecordLoss(orders, v, live, addr.value); }
      NullStops(orders, initPrev, v, n);
      if addr.None? || addr.value in live {
        r, ok := Krealloc(addr, n, if addr.Some? then live[addr.value] else 0);
        if ok && addr.None? && r.Some? { RecordGain(orders, v, Now(), live, r.value, KmallocSize(n)); }
        if ok && addr.Some? && r.Some? && live[addr.value] < n {
          RecordMoved(orders, v, Now(), live, addr.value, r.value, KmallocSize(n));
        }
      }
    }
  }

  // kmalloc, kalloc_cache of custom cache i, kfree and krealloc.
  datatype Op = Malloc(n: nat) | CacheAlloc(i: nat) | Free(a: nat) | Realloc(addr: Option<nat>, n: nat)

  predicate SizeFits(op: Op) {
    op.Realloc? ==> op.n < TWO_32
  }

  // The size asked for is at most 2 GiB.
  predicate Modest(op: Op) {
    (op.Malloc? ==> op.n <= TWO_GIB) && (op.Realloc? ==> op.n <= TWO_GIB)
  }

  // The code fails an assertion, reads a block as a slab or follows a wild link.
  ghost predicate Stops(orders: seq<SlabOrder>, initPrev: bool, v: View, live: map<nat, nat>, op: Op) {
    match op
    case Malloc(n) => n > TWO_GIB
    case CacheAlloc(_) => false
    case Free(a) => a in live && FreeStops(orders, initPrev, v, a)
    case Realloc(addr, n) => (addr.Some? ==> addr.value in live) && ReallocStops(orders, initPrev, v, addr, n)
  }

  function LiveStep(orders: seq<SlabOrder>, live: map<nat, nat>, op: Op, r: Option<nat>): map<nat, nat> {
    match op
    case Malloc(n) => if r.Some? then live[r.value := KmallocSize(n)] else live
    case CacheAlloc(i) =>
      if r.Some? && SLAB_ORDER_COUNT + i < |orders| then live[r.value := orders[SLAB_ORDER_COUNT + i].objSize] else live
    case Free(a) => live - {a}
    case Realloc(None, n) => if r.Some? then live[r.value := KmallocSize(n)] else live
    case Realloc(Some(a), n) =>
      if a in live && live[a] < n && r.Some? then (live - {a})[r.value := KmallocSize(n)] else live
  }

  ghost function LiveAfter(orders: seq<SlabOrder>, start: map<nat, nat>,
                           ops: seq<Op>, answers: seq<Option<nat>>): map<nat, nat>
    requires |ops| == |answers|
  {
    if ops == [] then start
    else
      var last := |ops| - 1;
      LiveStep(orders, LiveAfter(orders, start, ops[..last], answers[..last]), ops[last], answers[last])
  }

  // The live allocations are the entries of `live`, sizes by address.
  ghost predicate Recorded(orders: seq<SlabOrder>, v: View, live: map<nat, nat>) {
    forall a: nat, n: nat :: Live(orders, Taken(v.blocks), v.slabs, a, n) <==> a in live && live[a] == n
  }

  // A new region of `size` bytes misses everything live.
  ghost predicate Misses(live: map<nat, nat>, r: nat, size: nat) {
    size > 0 && forall a <- live.Keys :: a + live[a] <= r || r + size <= a
  }

  // A new region for n bytes is large enough too, and aligned to its size.
  ghost predicate NewRegion(live: map<nat, nat>, r: nat, n: nat) {
    Misses(live, r, KmallocSize(n)) && n <= KmallocSize(n) && r % KmallocSize(n) == 0
  }

  ghost predicate Answered(orders: seq<SlabOrder>, custom: seq<nat>, v: View, live: map<nat, nat>, op: Op,
                           r: Option<nat>)
  {
    match op
    case Malloc(n) => (r.None? <==> Refused(orders, v, n)) && (r.Some? ==> NewRegion(live, r.value, n))
    case CacheAlloc(i) =>
      var c := SLAB_ORDER_COUNT + i;
      i < |custom| && c < |orders| ==>
        && (r.None? <==> NoObject(orders, v, c))
        && (r.Some? ==> Misses(live, r.value, orders[c].objSize) && custom[i] <= orders[c].objSize)
    case Free(_) => true
    case Realloc(None, n) => (r.None? <==> Refused(orders, v, n)) && (r.Some? ==> NewRegion(live, r.value, n))
    case Realloc(Some(a), n) =>
      a in live ==>
        if live[a] >= n then r == Some(a)
        else (r.None? <==> ReallocRefused(orders, v, Some(a), n)) && (r.Some? ==> NewRegion(live, r.value, n))
  }

  // What every step of a run is.
  ghost predicate Right(orders: seq<SlabOrder>, custom: seq<nat>, initPrev: bool, v: View, live: map<nat, nat>, op: Op,
                        r: Option<nat>)
  {
    Recorded(orders, v, live) && !Stops(orders, initPrev, v, live, op) && Answered(orders, custom, v, live, op, r)
  }

  lemma LiveAfterNone(orders: seq<SlabOrder>, start: map<nat, nat>)
    ensures LiveAfter(orders, start, [], []) == start
  {
  }

  lemma LiveAfterStep(orders: seq<SlabOrder>, start: map<nat, nat>,
                      ops: seq<Op>, answers: seq<Option<nat>>, op: Op, r: Option<nat>)
    requires |ops| == |answers|
    ensures LiveAfter(orders, start, ops + [op], answers + [r]) ==
      LiveStep(orders, LiveAfter(orders, start, ops, answers), op, r)
  {
    assert (ops + [op])[..|ops|] == ops && (answers + [r])[..|ops|] == answers;
  }

  lemma RecordGain(orders: seq<SlabOrder>, v: View, v': View, live: map<nat, nat>, a: nat, n: nat)
    requires SlabsOk(orders, Taken(v.blocks), v.slabs) && Recorded(orders, v, live) && n > 0
    requires Gained(orders, Taken(v.blocks), v.slabs, Taken(v'.blocks), v'.slabs, a, n)
    ensures Recorded(orders, v', live[a := n]) && Misses(live, a, n)
  {
    hide Live, SlabsOk, Taken;
    var t := Taken(v.blocks);
    assert forall x <- live.Keys :: Live(orders, t, v.slabs, x, live[x]);
    if a in live { LivePositive(orders, t, v.slabs, a, live[a]); }
  }

  lemma LivePositive(orders: seq<SlabOrder>, t: Blocks, slabs: Slabs, a: nat, n: nat)
    requires SlabsOk(orders, t, slabs) && Live(orders, t, slabs, a, n)
    ensures n > 0
  {
    hide SlabsOk, LiveAt;
    var p: nat :| LiveAt(orders, t, slabs, p, a, n);
    LiveWithin(orders, t, slabs, p, a, n);
  }

  lemma RecordLoss(orders: seq<SlabOrder>, v: View, live: map<nat, nat>, a: nat)
    requires Recorded(orders, v, live)
    ensures a in live ==> Live(orders, Taken(v.blocks), v.slabs, a, live[a])
    ensures a !in live ==> live - {a} == live
  {
    hide Live, Taken;
  }

  lemma RecordLost(orders: seq<SlabOrder>, v: View, v': View, live: map<nat, nat>, a: nat)
    requires Recorded(orders, v, live) && Lost(orders, Taken(v.blocks), v.slabs, Taken(v'.blocks), v'.slabs, a)
    ensures Recorded(orders, v', live - {a})
  {
    hide Live, Taken;
  }

  lemma RecordMoved(orders: seq<SlabOrder>, v: View, v': View, live: map<nat, nat>, a: nat, b: nat, n: nat)
    requires Recorded(orders, v, live) && Moved(orders, Taken(v.blocks), v.slabs, Taken(v'.blocks), v'.slabs, a, b, n)
    requires b != a && n > 0
    requires SlabsOk(orders, Taken(v.blocks), v.slabs)
    ensures Recorded(orders, v', (live - {a})[b := n]) && Misses(live, b, n)
  {
    hide Live, SlabsOk, Taken;
    var t := Taken(v.blocks);
    assert forall x <- live.Keys :: Live(orders, t, v.slabs, x, live[x]);
    if b in live { LivePositive(orders, t, v.slabs, b, live[b]); }
  }

  // With both repairs nothing stops, except sizes above 2 GiB.
  lemma NeverStops(heap: BuddyHeap, orders: seq<SlabOrder>, v: View)
    requires heap.Valid() && v.raw == heap.raw
    ensures heap.allFlags ==> forall a: nat :: !FreeStops(orders, true, v, a)
    ensures heap.allFlags ==> forall addr, n: nat :: n <= TWO_GIB ==> !ReallocStops(orders, true, v, addr, n)
  {
    hide Inv, At;
  }

  // ---------------------------------------------------------------- the code as written

  // The first kmalloc of up to 64 KiB and its kfree, on a heap of 64 pages.
  method LoneObject(n: nat, allFlags: bool, initPrev: bool) returns (ok: bool)
    requires n <= 0x1_0000
    ensures ok <==> initPrev || n <= 128
  {
    hide Inv, Pow2, Log2, Taken, Tiled, Maximal, StandardOrders, KmallocSize, Live, Refused;
    SixtyFour();
    var h := new BuddyHeap(0, 64, allFlags);
    HeapTiled(h);
    OneTile(h.blocks, 6);
    var k := new SlabHeap(h, [], initPrev);
    OnePageUpTo128(n);
    LoneServed(k, n);
    var r;
    r, ok := k.MallocFree(n);
  }

  lemma LoneServed(k: SlabHeap, n: nat)
    requires k.Valid() && n <= 0x1_0000 && 0 in k.heap.blocks && k.heap.blocks[0].order == 6 && k.heap.blocks[0].free
    ensures !Refused(k.orders, k.Now(), n) && SlabIndex(n) < |k.freeSlabs|
  {
    hide Inv, Pow2, Log2, Taken, SlabsOk, TailsOk, WildIff, StandardOrders, KmallocSize, OrderFor;
    OnePageUpTo128(n);
    StandardIs(k.orders, SlabIndex(n));
    SlabOrderSmall(n);
  }

  lemma SlabOrderSmall(n: nat)
    requires n <= 0x1_0000
    ensures OrderFor(Pow2(SLAB_EXPON_MIN + SlabIndex(n))).pageOrder <= 6
  {
    hide Pow2, Log2, IsPow2, PagesForObjSize, AlignUpPow2;
    KmallocSizeFacts(n);
    TwoSixteen();
    var size := KmallocSize(n);
    Pow2Mono(Log2(size), SLAB_EXPON_MAX);
    PagesArePow2(size);
    SixtyFour();
    Pow2Log2(PagesForObjSize(size));
    if Log2(PagesForObjSize(size)) > 6 { Pow2Mono(6, Log2(PagesForObjSize(size))); }
  }

  // kmalloc of a whole heap of 32 pages and its kfree: with the flags of line 147 the block
  // is sent to free_slab.
  method WholeBlock(allFlags: bool, initPrev: bool) returns (r: Option<nat>, ok: bool)
    ensures r == Some(0) && (ok <==> allFlags)
  {
    hide Inv, Pow2, Log2, Tiled, Maximal, StandardOrders, LiveAt, FreeStops, ReallocStops, ReallocRefused, SlabsOk,
      LinksOk, WildIff, TailsOk, Taken, Separate, KmallocSize, PageOrder;
    ThirtyTwo();
    var h := new BuddyHeap(0, 32, allFlags);
    HeapTiled(h);
    OneTile(h.blocks, 5);
    var k := new SlabHeap(h, [], initPrev);
    r := k.Kmalloc(0x2_0000);
    GainedLive(k.orders, map[], map[], Taken(h.blocks), k.slabs, r.value, 0x2_0000);
    TakenFacts(h);
    WholePlace(k, r.value);
    StopsAt(k.orders, initPrev, k.Now(), 0, 0, 0x2_0000, 0);
    ok := k.Kfree(0, 0x2_0000);
  }

  lemma WholePlace(k: SlabHeap, a: nat)
    requires k.Valid() && k.slabs == map[] && k.heap.lo == 0 && k.heap.descs.Length == 32 && k.Allocated(a, 0x2_0000)
    ensures a == 0 && At(k.orders, k.Now(), 0, 0, 0x2_0000) && 0 in k.heap.blocks && !k.heap.blocks[0].slab
  {
    hide SlabsOk, LinksOk, WildIff, TailsOk, Described, AreLists, Matching, NoFreePairs, LiveAt, Pow2, Aligned, Covered;
    var p := LivePlace(k.orders, k.Now(), a, 0x2_0000);
    k.Routed(p, a, 0x2_0000);
    assert p <= End(k.heap.blocks, p) <= 32;
  }

  lemma ThirtyTwo()
    ensures Pow2(5) == 32 && KmallocSize(0x2_0000) == 0x2_0000 && PageOrder(0x2_0000) == 5
  {
    Log2Pow2(17);
    AlignUpLeast(0x2_0000);
  }

  // What the list of a cache starts with.
  lemma ListFacts(n: nat, slabs: Slabs, m: LinkMap, hs: seq<Option<nat>>, ls: seq<seq<nat>>, c: nat)
    requires LinksOk(n, slabs, m, hs, ls) && c < n
    ensures |hs| == |ls| == n && IsChain(m, hs[c], ls[c]) && NoDup(ls[c]) && m.Keys == slabs.Keys
    ensures
      if hs[c].None? then ls[c] == []
      else ls[c] != [] && ls[c][0] == hs[c].value && Listable(slabs, c, hs[c].value)
  {
    if ls[c] != [] { assert ls[c][0] in ls[c]; }
  }

  lemma ListIndex(n: nat, slabs: Slabs, m: LinkMap, hs: seq<Option<nat>>, ls: seq<seq<nat>>, p: nat) returns (j: nat)
    requires LinksOk(n, slabs, m, hs, ls) && p in slabs && slabs[p].cache < n && slabs[p].used < slabs[p].objCount
    ensures |ls| == n && j < |ls[slabs[p].cache]| && ls[slabs[p].cache][j] == p
  {
    assert Listable(slabs, slabs[p].cache, p);
    j :| 0 <= j < |ls[slabs[p].cache]| && ls[slabs[p].cache][j] == p;
  }

  lemma KeptNew(t: Blocks, slabs: Slabs, p: nat, b: Block, s: Slab, c: nat)
    requires p !in t && p !in slabs
    ensures Kept(t, slabs, t[p := b], slabs[p := s], c)
  {
  }

  lemma TouchedSlabs(orders: seq<SlabOrder>, slabs: Slabs, m: LinkMap, touched: set<nat>, initPrev: bool, p: nat)
    requires WildIff(orders, slabs, m, touched, initPrev) && p !in slabs
    ensures p !in touched
  {
  }

  lemma WildAt(orders: seq<SlabOrder>, slabs: Slabs, m: LinkMap, touched: set<nat>, initPrev: bool, p: nat)
    requires WildIff(orders, slabs, m, touched, initPrev) && p in slabs
    ensures p in m && slabs[p].cache < |orders|
    ensures m[p].prev.Wild? <==> !initPrev && orders[slabs[p].cache].pageOrder > 0 && p !in touched
  {
  }

  // The first object of a new slab.
  lemma FreshLone(orders: seq<SlabOrder>, t: Blocks, slabs: Slabs, p: nat, c: nat)
    requires c < |orders| && Usable(orders[c]) && p in t && t[p].slab && p in slabs
    requires slabs[p] == FreshSlab(orders[c], c, p)
    ensures LiveAt(orders, t, slabs, p, p * PAGE_SIZE, orders[c].objSize) && slabs[p].used == 1 && slabs[p].cache == c
  {
    hide ObjCount, IsObject, Objects;
    FreshSlabOk(orders[c], c, p);
  }

  // A slab has one page exactly up to objects of 128 bytes.
  lemma OnePage(size: nat)
    requires 0 < size <= 0x1_0000
    ensures OrderFor(size).pageOrder == 0 <==> size <= 128
  {
    hide Pow2, Log2, IsPow2, AlignUpPow2;
    var v := size * MIN_SLAB_OBJ_AMOUNT;
    PagesArePow2(size);
    AlignUpLeast(v);
    Pow2Twelve();
    Log2Pow2(12);
    Log2Pow2(0);
    Pow2Step(1);
    Pow2Log2(PagesForObjSize(size));
    if Log2(PagesForObjSize(size)) > 0 { Pow2Mono(0, Log2(PagesForObjSize(size))); }
  }

  lemma OnePageUpTo128(n: nat)
    requires n <= 0x1_0000
    ensures SlabIndex(n) < SLAB_ORDER_COUNT
    ensures OrderFor(Pow2(SLAB_EXPON_MIN + SlabIndex(n))).pageOrder == 0 <==> n <= 128
  {
    hide Pow2, Log2, IsPow2, AlignUpPow2, OrderFor;
    KmallocSizeFacts(n);
    AlignUpLeast(n);
    TwoSixteen();
    Log2Pow2(7);
    Pow2Mono(Log2(KmallocSize(n)), SLAB_EXPON_MAX);
    OneTwentyEight();
    OnePage(KmallocSize(n));
  }

  lemma OneTwentyEight()
    ensures Pow2(7) == 128
  {
    assert Pow2(7) == 8 * Pow2(4);
  }

  lemma StandardIs(orders: seq<SlabOrder>, i: nat)
    requires |orders| >= SLAB_ORDER_COUNT && orders[..SLAB_ORDER_COUNT] == StandardOrders(SLAB_ORDER_COUNT)
    requires i < SLAB_ORDER_COUNT
    ensures orders[i] == OrderFor(Pow2(SLAB_EXPON_MIN + i))
  {
    hide OrderFor, Pow2;
    assert orders[i] == orders[..SLAB_ORDER_COUNT][i];
  }

  lemma LiveFrom(orders: seq<SlabOrder>, t: Blocks, slabs: Slabs, p: nat, a: nat, n: nat)
    requires LiveAt(orders, t, slabs, p, a, n)
    ensures Live(orders, t, slabs, a, n)
  {
  }

  lemma LivePlace(orders: seq<SlabOrder>, v: View, a: nat, n: nat) returns (p: nat)
    requires Live(orders, Taken(v.blocks), v.slabs, a, n)
    ensures At(orders, v, p, a, n)
  {
    p :| LiveAt(orders, Taken(v.blocks), v.slabs, p, a, n);
  }

  lemma NullStops(orders: seq<SlabOrder>, initPrev: bool, v: View, size: nat)
    ensures ReallocStops(orders, initPrev, v, None, size) <==> size > TWO_GIB
    ensures ReallocRefused(orders, v, None, size) <==> Refused(orders, v, size)
  {
  }

  lemma KeptLive(orders: seq<SlabOrder>, t: Blocks, slabs: Slabs, t': Blocks, slabs': Slabs, p: nat, a: nat, n: nat,
                 d: nat)
    requires LiveAt(orders, t, slabs, p, a, n) && Kept(t, slabs, t', slabs', d) && (p in slabs ==> slabs[p].cache != d)
    ensures LiveAt(orders, t', slabs', p, a, n) && p in t && p in t' && t'[p] == t[p]
    ensures p in slabs <==> p in slabs'
    ensures p in slabs ==> slabs'[p] == slabs[p]
  {
    hide LiveIn, LiveBlock;
  }

  // The n bytes from `to` on are what those from `from` on were.
  ghost predicate Copied(m: nat -> bv8, m': nat -> bv8, from: nat, to: nat, n: nat) {
    forall x: nat :: to <= x < to + n ==> m'(x) == m(from + (x - to))
  }

  // The bytes of every live allocation but the one at `a` are the same.
  ghost predicate Untouched(orders: seq<SlabOrder>, t: Blocks, slabs: Slabs, m: nat -> bv8, m': nat -> bv8, a: nat) {
    forall y: nat, k: nat, x: nat :: Live(orders, t, slabs, y, k) && y != a && y <= x < y + k ==> m'(x) == m(x)
  }

  // Writing inside a new region keeps the bytes of every earlier allocation.
  lemma CopyKeeps(orders: seq<SlabOrder>, t: Blocks, slabs: Slabs, t': Blocks, slabs': Slabs,
                  m: nat -> bv8, m': nat -> bv8, b: nat, size: nat, n: nat, a: nat)
    requires Gained(orders, t, slabs, t', slabs', b, size) && n <= size
    requires forall x: nat :: x < b || b + n <= x ==> m'(x) == m(x)
    ensures Untouched(orders, t, slabs, m, m', a)
  {
    hide Live;
  }

  lemma MovedAligned(orders: seq<SlabOrder>, t: Blocks, slabs: Slabs, t': Blocks, slabs': Slabs, a: nat, b: nat, n: nat)
    requires Moved(orders, t, slabs, t', slabs', a, b, n) && SlabsOk(orders, t', slabs') && IsPow2(n)
    requires forall p <- t'.Keys :: Aligned(p, t'[p].order)
    ensures n > 0 && b % n == 0
  {
    hide Pow2, IsPow2, Log2, Aligned, SlabsOk;
    Pow2Log2(n);
    assert Live(orders, t', slabs', b, n);
    LiveAligned(orders, t', slabs', b, Log2(n));
  }

  lemma BlockDesc(heap: BuddyHeap, p: nat)
    requires heap.Valid() && p in Taken(heap.blocks)
    ensures heap.lo <= p < heap.lo + heap.descs.Length && heap.descs[p - heap.lo].order == Taken(heap.blocks)[p].order
  {
    hide Pow2, Aligned, AreLists, Matching, NoFreePairs;
    assert Placed(heap.blocks, heap.lo, heap.lo + heap.descs.Length);
    assert heap.descs[..][p - heap.lo] == heap.descs[p - heap.lo];
  }

  // A request of more than one page is rounded to whole pages.
  lemma RoundedPages(size: nat)
    requires PAGE_SIZE / 2 < size <= TWO_GIB
    ensures KmallocSize(size) == AlignUpPow2(size) && IsPow2(AlignUpPow2(size)) && AlignUpPow2(size) % PAGE_SIZE == 0
    ensures AlignUpPow2(size) < 0x1_0000_0000
  {
    hide Pow2, IsPow2, Log2, AlignUpPow2;
    AlignUpLeast(size);
    TwoSixteen();
    Pow2Twelve();
    var m := AlignUpPow2(size);
    Pow2Log2(m);
    var e := Log2(m);
    if e < 12 { Pow2Mono(e, 11); }
    Pow2Add(e - 12);
    ModUnique(m, PAGE_SIZE, Pow2(e - 12), 0);
  }

  // The allocation at `a` ended, (b, n) is new, and nothing else changed.
  ghost predicate Moved(orders: seq<SlabOrder>, t: Blocks, slabs: Slabs, t': Blocks, slabs': Slabs, a: nat, b: nat,
                        n: nat) {
    && Apart(orders, t, slabs, b, n)
    && forall x: nat, m: nat ::
         Live(orders, t', slabs', x, m) <==> (Live(orders, t, slabs, x, m) && x != a) || (x == b && m == n)
  }

  lemma GainedApart(orders: seq<SlabOrder>, t: Blocks, slabs: Slabs, t': Blocks, slabs': Slabs, b: nat, m: nat, a: nat,
                    n: nat)
    requires Gained(orders, t, slabs, t', slabs', b, m) && Live(orders, t, slabs, a, n) && n <= m
    ensures Live(orders, t', slabs', a, n) && (a + n <= b || b + n <= a)
  {
    hide Live;
  }

  lemma MovedBy(orders: seq<SlabOrder>, t0: Blocks, s0: Slabs, t1: Blocks, s1: Slabs, t2: Blocks, s2: Slabs, a: nat,
                n: nat, b: nat, m: nat)
    requires Gained(orders, t0, s0, t1, s1, b, m) && Lost(orders, t1, s1, t2, s2, a) && Live(orders, t0, s0, a, n)
    requires n > 0 && m > 0
    ensures Moved(orders, t0, s0, t2, s2, a, b, m) && a != b
  {
    hide Live;
  }

  // The page of an address in a block, and what its descriptor says.
  lemma PageOf(heap: BuddyHeap, headOf: map<nat, nat>, p: nat, a: nat)
    requires heap.Valid() && TailsOk(Taken(heap.blocks), headOf) && p in Taken(heap.blocks)
    requires p * PAGE_SIZE <= a < End(Taken(heap.blocks), p) * PAGE_SIZE
    ensures heap.lo <= a / PAGE_SIZE < heap.lo + heap.descs.Length
    ensures heap.descs[a / PAGE_SIZE - heap.lo].head <==> a / PAGE_SIZE == p
    ensures a / PAGE_SIZE == p ==> a / PAGE_SIZE !in headOf
    ensures a / PAGE_SIZE != p && Taken(heap.blocks)[p].slab ==> a / PAGE_SIZE in headOf && headOf[a / PAGE_SIZE] == p
  {
    hide Pow2, Aligned, AreLists, Matching, NoFreePairs;
    var x, t, b := a / PAGE_SIZE, Taken(heap.blocks), heap.blocks;
    var u := End(t, p);
    TakenFacts(heap);
    assert p <= x < u == End(b, p);
    assert Placed(b, heap.lo, heap.lo + heap.descs.Length) && Separate(b);
    assert x in b ==> x == p;
    assert x in headOf ==> TailOf(t, headOf[x], x);
    assert TailOf(t, p, x) ==> x in headOf && headOf[x] == p;
    assert heap.descs[..][x - heap.lo] == heap.descs[x - heap.lo];
  }

  lemma SlabIff(orders: seq<SlabOrder>, t: Blocks, slabs: Slabs, p: nat)
    requires SlabsOk(orders, t, slabs) && p in t
    ensures p in slabs <==> t[p].slab
  {
    assert PageOk(orders, t, slabs, p);
  }

  lemma SlabFacts(orders: seq<SlabOrder>, t: Blocks, slabs: Slabs, p: nat, a: nat, n: nat)
    requires SlabsOk(orders, t, slabs) && p in slabs && LiveAt(orders, t, slabs, p, a, n)
    ensures slabs[p].cache < |orders| && 0 < slabs[p].used <= slabs[p].objCount && slabs[p].objCount >= 2 && p in t
    ensures t[p].slab
  {
    assert PageOk(orders, t, slabs, p);
    assert Usable(orders[slabs[p].cache]);
  }

  lemma OrderForSize(size: nat)
    ensures OrderFor(size).objSize == size
  {
  }

  lemma GainedLive(orders: seq<SlabOrder>, t: Blocks, slabs: Slabs, t': Blocks, slabs': Slabs, a: nat, n: nat)
    requires Gained(orders, t, slabs, t', slabs', a, n)
    ensures Live(orders, t', slabs', a, n)
  {
  }

  // A multiple of a power of two is a multiple of every smaller one.
  lemma Divides(a: nat, m: nat, n: nat)
    requires IsPow2(m) && IsPow2(n) && m <= n && a % n == 0
    ensures a % m == 0
  {
    hide Pow2, IsPow2, Log2, Aligned;
    Pow2Log2(m);
    Pow2Log2(n);
    if Log2(n) < Log2(m) { Pow2Mono(Log2(n), Log2(m)); }
    AlignedMod(a, Log2(n));
    AlignedMod(a, Log2(m));
    AlignedLess(a, Log2(n), Log2(m));
  }

  lemma UsedBounded(orders: seq<SlabOrder>, t: Blocks, slabs: Slabs, p: nat)
    requires SlabsOk(orders, t, slabs) && p in slabs
    ensures slabs[p].used <= slabs[p].objCount
  {
    assert PageOk(orders, t, slabs, p);
  }

  lemma CachesHold(orders: seq<SlabOrder>, custom: seq<nat>)
    requires Caches(orders, custom)
    ensures |orders| == SLAB_ORDER_COUNT + |custom|
    ensures forall i :: 0 <= i < |custom| ==> HoldsObject(orders[SLAB_ORDER_COUNT + i].objSize, custom[i])
  {
    hide OrderFor, StandardOrders, HoldsObject;
  }

  lemma CacheOrder(orders: seq<SlabOrder>, custom: seq<nat>, i: nat)
    requires Caches(orders, custom)
    ensures i < |custom| <==> SLAB_ORDER_COUNT + i < |orders|
    ensures i < |custom| ==> HoldsObject(orders[SLAB_ORDER_COUNT + i].objSize, custom[i])
  {
    hide OrderFor, StandardOrders;
  }

  lemma OrdersPositive(orders: seq<SlabOrder>, t: Blocks, slabs: Slabs, c: nat)
    requires SlabsOk(orders, t, slabs) && c < |orders|
    ensures orders[c].objSize > 0
  {
    OrdersUsable(orders, t, slabs, c);
  }

  lemma OrdersUsable(orders: seq<SlabOrder>, t: Blocks, slabs: Slabs, c: nat)
    requires SlabsOk(orders, t, slabs) && c < |orders|
    ensures Usable(orders[c])
  {
  }

  lemma FreshSlabIs(o: SlabOrder, c: nat, p: nat)
    requires ObjCount(o) > 0
    ensures FreshSlab(o, c, p) == Slab(c, ObjCount(o), 1, Objects(o, p, ObjCount(o))[1..])
  {
  }
}
