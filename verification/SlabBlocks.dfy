/** Slabs over the buddy heap, on values: blocks carved into equal objects, the
    allocations that are live, and what one step does to them. The list of free
    objects of a slab and the lists of slabs are sequences. */
module SlabBlocks {
  import opened Defs
  import opened Bits
  import opened BuddyBlocks
  import opened BuddyHeap

  // heap_slab_order_t: the object size and the order of the blocks that are carved.
  datatype SlabOrder = SlabOrder(objSize: nat, pageOrder: nat)

  // heap_slab_page_metadata_t; `cache` is the index of its SlabOrder.
  datatype Slab = Slab(cache: nat, objCount: nat, used: nat, free: seq<nat>)

  function SlabBytes(o: SlabOrder): (n: nat)
    ensures n > 0
  {
    Pow2(o.pageOrder) * PAGE_SIZE
  }

  function ObjCount(o: SlabOrder): nat {
    if o.objSize == 0 then 0 else SlabBytes(o) / o.objSize
  }

  // Address of object `i` of a slab whose first page is `p`.
  function ObjAddr(o: SlabOrder, p: nat, i: nat): nat {
    p * PAGE_SIZE + i * o.objSize
  }

  ghost predicate IsObject(o: SlabOrder, p: nat, a: nat) {
    exists i: nat :: i < ObjCount(o) && a == ObjAddr(o, p, i)
  }

  // At least two objects fit, so a new slab is not full after its first allocation.
  predicate Usable(o: SlabOrder) {
    o.objSize > 0 && ObjCount(o) >= 2 && o.pageOrder < 19
  }

  // The free list holds distinct objects of the slab, and together with the used ones all of them.
  ghost predicate SlabOk(o: SlabOrder, p: nat, s: Slab) {
    && s.objCount == ObjCount(o) && s.used + |s.free| == s.objCount && NoDup(s.free)
    && forall i :: 0 <= i < |s.free| ==> IsObject(o, p, s.free[i])
  }

  // ---------------------------------------------------------------- addresses

  lemma ObjInSlab(o: SlabOrder, p: nat, a: nat)
    requires IsObject(o, p, a)
    ensures p * PAGE_SIZE <= a && a + o.objSize <= p * PAGE_SIZE + SlabBytes(o)
  {
    hide Pow2;
    var i: nat :| i < ObjCount(o) && a == ObjAddr(o, p, i);
    var n := ObjCount(o);
    DivMod(SlabBytes(o), o.objSize);
    MulMono(o.objSize, i, n);
    assert o.objSize * i == i * o.objSize && o.objSize * n <= SlabBytes(o);
  }

  lemma ObjectsApart(o: SlabOrder, p: nat, a: nat, b: nat)
    requires IsObject(o, p, a) && IsObject(o, p, b) && a < b
    ensures a + o.objSize <= b
  {
    var i: nat :| i < ObjCount(o) && a == ObjAddr(o, p, i);
    var j: nat :| j < ObjCount(o) && b == ObjAddr(o, p, j);
    assert o.objSize * i == i * o.objSize && o.objSize * j == j * o.objSize;
    if j < i { MulMono(o.objSize, j, i); }
    MulMono(o.objSize, i, j);
  }

  // Masking any address of an aligned block gives the block's base.
  lemma MaskedBase(p: nat, k: nat, a: nat)
    requires Aligned(p, k) && p * PAGE_SIZE <= a < p * PAGE_SIZE + Pow2(k) * PAGE_SIZE
    ensures Pow2(k + BUDDY_EXPON_MIN) > 0 && a - And(a, Pow2(k + BUDDY_EXPON_MIN) - 1) == p * PAGE_SIZE
  {
    hide Pow2, And, Aligned;
    var m := Pow2(k + 12);
    Pow2Add(k);
    Log2Pow2(k + 12);
    AndMask(a, m);
    AlignedMod(p, k);
    DivMod(p, Pow2(k));
    var q := p / Pow2(k);
    MulShift(Pow2(k), q, PAGE_SIZE);
    ModUnique(a, m, q, a - p * PAGE_SIZE);
  }

  lemma MulShift(c: nat, q: nat, s: nat)
    ensures c * q * s == c * s * q
  {
  }

  // ---------------------------------------------------------------- the slab layer as a value

  type Slabs = map<nat, Slab>

  // `t` holds the blocks that the buddy layer has handed out.
  ghost predicate SlabsOk(orders: seq<SlabOrder>, t: Blocks, slabs: Slabs) {
    && (forall c :: 0 <= c < |orders| ==> Usable(orders[c]))
    && forall p: nat :: PageOk(orders, t, slabs, p)
  }

  ghost predicate PageOk(orders: seq<SlabOrder>, t: Blocks, slabs: Slabs, p: nat) {
    && (p in slabs <==> p in t && t[p].slab)
    && (p in slabs && p in t ==> SlabAt(orders, t[p].order, p, slabs[p]))
  }

  ghost predicate SlabAt(orders: seq<SlabOrder>, k: nat, p: nat, s: Slab) {
    && s.cache < |orders| && k == orders[s.cache].pageOrder
    && SlabOk(orders[s.cache], p, s) && s.used > 0
  }

  // List c holds exactly the slabs of order c that are not full.
  ghost predicate ListsOk(n: nat, slabs: Slabs, fs: seq<seq<nat>>) {
    |fs| == n && forall c: nat :: c < n ==> NoDup(fs[c]) && forall p: nat :: p in fs[c] <==> Listable(slabs, c, p)
  }

  ghost predicate Listable(slabs: Slabs, c: nat, p: nat) {
    p in slabs && slabs[p].cache == c && slabs[p].used < slabs[p].objCount
  }

  // The later pages of slabs, and no others, lead back to the first page of their slab.
  ghost predicate TailsOk(t: Blocks, headOf: map<nat, nat>) {
    forall x: nat, p: nat :: (x in headOf && headOf[x] == p) <==> TailOf(t, p, x)
  }

  ghost predicate TailOf(t: Blocks, p: nat, x: nat) {
    p in t && t[p].slab && p < x < End(t, p)
  }

  // ---------------------------------------------------------------- live allocations

  // [a, a + size) has been handed out, by a slab or as a whole block.
  ghost predicate Live(orders: seq<SlabOrder>, t: Blocks, slabs: Slabs, a: nat, size: nat) {
    exists p: nat :: LiveAt(orders, t, slabs, p, a, size)
  }

  ghost predicate LiveAt(orders: seq<SlabOrder>, t: Blocks, slabs: Slabs, p: nat, a: nat, size: nat) {
    p in t && if t[p].slab then p in slabs && LiveIn(orders, p, slabs[p], a, size) else LiveBlock(t[p], p, a, size)
  }

  ghost predicate LiveIn(orders: seq<SlabOrder>, p: nat, s: Slab, a: nat, size: nat) {
    s.cache < |orders| && IsObject(orders[s.cache], p, a) && a !in s.free && size == orders[s.cache].objSize
  }

  ghost predicate LiveBlock(x: Block, p: nat, a: nat, size: nat) {
    a == p * PAGE_SIZE && size == Pow2(x.order) * PAGE_SIZE
  }

  // A live allocation lies inside its block.
  lemma LiveWithin(orders: seq<SlabOrder>, t: Blocks, slabs: Slabs, p: nat, a: nat, size: nat)
    requires SlabsOk(orders, t, slabs) && LiveAt(orders, t, slabs, p, a, size)
    ensures p in t && p * PAGE_SIZE <= a && a + size <= End(t, p) * PAGE_SIZE && size > 0
  {
    hide Pow2;
    assert PageOk(orders, t, slabs, p);
    if p in slabs { ObjInSlab(orders[slabs[p].cache], p, a); }
  }

  // Any two live allocations are disjoint.
  lemma LiveDisjoint(orders: seq<SlabOrder>, t: Blocks, slabs: Slabs, a: nat, n: nat, a': nat, n': nat)
    requires SlabsOk(orders, t, slabs) && Separate(t)
    requires Live(orders, t, slabs, a, n) && Live(orders, t, slabs, a', n') && (a, n) != (a', n')
    ensures a + n <= a' || a' + n' <= a
  {
    hide Pow2, SlabsOk;
    var p: nat :| LiveAt(orders, t, slabs, p, a, n);
    var q: nat :| LiveAt(orders, t, slabs, q, a', n');
    LiveWithin(orders, t, slabs, p, a, n);
    LiveWithin(orders, t, slabs, q, a', n');
    if p < q {
      assert End(t, p) <= q;
    } else if q < p {
      assert End(t, q) <= p;
    } else if t[p].slab {
      if a < a' { ObjectsApart(orders[slabs[p].cache], p, a, a'); }
      if a' < a { ObjectsApart(orders[slabs[p].cache], p, a', a); }
    }
  }

  // An address identifies its live allocation.
  lemma LiveUnique(orders: seq<SlabOrder>, t: Blocks, slabs: Slabs, p: nat, a: nat, n: nat)
    requires SlabsOk(orders, t, slabs) && Separate(t) && LiveAt(orders, t, slabs, p, a, n)
    ensures forall q: nat, n': nat :: LiveAt(orders, t, slabs, q, a, n') ==> q == p && n' == n
  {
    hide Pow2, SlabsOk, LiveAt;
    forall q: nat, n': nat | LiveAt(orders, t, slabs, q, a, n') ensures q == p && n' == n {
      LiveWithin(orders, t, slabs, p, a, n);
      LiveWithin(orders, t, slabs, q, a, n');
      assert Live(orders, t, slabs, a, n) && Live(orders, t, slabs, a, n');
      if n' != n { LiveDisjoint(orders, t, slabs, a, n, a, n'); }
      SeparatePages(t, p, q, a);
    }
  }

  lemma SeparatePages(t: Blocks, p: nat, q: nat, a: nat)
    requires Separate(t) && p in t && q in t
    requires p * PAGE_SIZE <= a < End(t, p) * PAGE_SIZE && q * PAGE_SIZE <= a < End(t, q) * PAGE_SIZE
    ensures p == q
  {
    var u, v := End(t, p), End(t, q);
    assert (p < q ==> u <= q) && (q < p ==> v <= p);
  }

  // ---------------------------------------------------------------- steps

  // Two states that agree on every block but the one at `p`.
  ghost predicate SameBut(t: Blocks, slabs: Slabs, t': Blocks, slabs': Slabs, p: nat) {
    && (forall q: nat :: q != p ==> (q in t <==> q in t') && (q in t && q in t' ==> t[q] == t'[q]))
    && (forall q: nat :: q != p ==> (q in slabs <==> q in slabs') && (q in slabs && q in slabs' ==>
         slabs[q] == slabs'[q]))
  }

  // A step at one block keeps the rest, and its effect on the live set is its effect at that block.
  lemma ChangeAt(orders: seq<SlabOrder>, t: Blocks, slabs: Slabs, t': Blocks, slabs': Slabs, p: nat)
    requires SlabsOk(orders, t, slabs) && SameBut(t, slabs, t', slabs', p) && PageOk(orders, t', slabs', p)
    ensures SlabsOk(orders, t', slabs')
    ensures forall q: nat, a: nat, n: nat :: q != p ==>
      (LiveAt(orders, t', slabs', q, a, n) <==> LiveAt(orders, t, slabs, q, a, n))
  {
    hide SlabAt, LiveIn, LiveBlock, Usable;
    forall q: nat ensures PageOk(orders, t', slabs', q) { assert PageOk(orders, t, slabs, q); }
  }

  // [a, a + n) misses every live allocation.
  ghost predicate Apart(orders: seq<SlabOrder>, t: Blocks, slabs: Slabs, a: nat, n: nat) {
    forall x: nat, m: nat :: Live(orders, t, slabs, x, m) ==> x + m <= a || a + n <= x
  }

  // (a, n) is a new allocation: it misses every earlier one, and nothing else changed.
  ghost predicate Gained(orders: seq<SlabOrder>, t: Blocks, slabs: Slabs, t': Blocks, slabs': Slabs, a: nat, n: nat) {
    && Apart(orders, t, slabs, a, n)
    && forall x: nat, m: nat :: Live(orders, t', slabs', x, m) <==> Live(orders, t, slabs, x, m) || (x == a && m == n)
  }

  // A step that makes exactly (a, n) live at `p` is a new allocation.
  lemma GainAt(orders: seq<SlabOrder>, t: Blocks, slabs: Slabs, t': Blocks, slabs': Slabs, p: nat, a: nat, n: nat)
    requires SlabsOk(orders, t, slabs) && SameBut(t, slabs, t', slabs', p) && PageOk(orders, t', slabs', p)
    requires Separate(t')
    requires forall x: nat, m: nat :: LiveAt(orders, t', slabs', p, x, m) <==>
      LiveAt(orders, t, slabs, p, x, m) || (x == a && m == n)
    requires forall m: nat :: !LiveAt(orders, t, slabs, p, a, m)
    ensures SlabsOk(orders, t', slabs') && Gained(orders, t, slabs, t', slabs', a, n)
  {
    hide LiveAt, SlabsOk, PageOk, SameBut, Separate;
    ChangeAt(orders, t, slabs, t', slabs', p);
    forall x: nat, m: nat
      ensures Live(orders, t', slabs', x, m) <==> Live(orders, t, slabs, x, m) || (x == a && m == n)
    {
      if q: nat :| LiveAt(orders, t', slabs', q, x, m) { assert q == p || LiveAt(orders, t, slabs, q, x, m); }
      if q: nat :| LiveAt(orders, t, slabs, q, x, m) { assert LiveAt(orders, t', slabs', q, x, m); }
      if x == a && m == n { assert LiveAt(orders, t', slabs', p, x, m); }
    }
    assert LiveAt(orders, t', slabs', p, a, n);
    LiveUnique(orders, t', slabs', p, a, n);
    forall x: nat, m: nat | Live(orders, t, slabs, x, m) ensures x + m <= a || a + n <= x {
      var q: nat :| LiveAt(orders, t, slabs, q, x, m);
      assert LiveAt(orders, t', slabs', q, x, m);
      assert (x, m) != (a, n);
      LiveDisjoint(orders, t', slabs', x, m, a, n);
    }
  }

  ghost predicate Lost(orders: seq<SlabOrder>, t: Blocks, slabs: Slabs, t': Blocks, slabs': Slabs, a: nat) {
    forall x: nat, m: nat :: Live(orders, t', slabs', x, m) <==> Live(orders, t, slabs, x, m) && x != a
  }

  // The converse, for an allocation that ends.
  lemma LoseAt(orders: seq<SlabOrder>, t: Blocks, slabs: Slabs, t': Blocks, slabs': Slabs, p: nat, a: nat, n: nat)
    requires SlabsOk(orders, t, slabs) && Separate(t) && SameBut(t, slabs, t', slabs', p)
    requires PageOk(orders, t', slabs', p)
    requires LiveAt(orders, t, slabs, p, a, n)
    requires forall x: nat, m: nat :: LiveAt(orders, t', slabs', p, x, m) <==>
      LiveAt(orders, t, slabs, p, x, m) && x != a
    ensures SlabsOk(orders, t', slabs') && Lost(orders, t, slabs, t', slabs', a)
  {
    hide LiveAt, SlabsOk, PageOk, SameBut, Separate;
    ChangeAt(orders, t, slabs, t', slabs', p);
    LiveUnique(orders, t, slabs, p, a, n);
    forall x: nat, m: nat ensures Live(orders, t', slabs', x, m) <==> Live(orders, t, slabs, x, m) && x != a {
      if q: nat :| LiveAt(orders, t', slabs', q, x, m) { assert LiveAt(orders, t, slabs, q, x, m); }
      if q: nat :| LiveAt(orders, t, slabs, q, x, m) && x != a { assert LiveAt(orders, t', slabs', q, x, m); }
    }
  }

  function Pop(s: Slab): Slab
    requires s.free != []
  {
    s.(free := s.free[1..], used := s.used + 1)
  }

  function Push(s: Slab, a: nat): Slab
    requires s.used > 0
  {
    s.(free := [a] + s.free, used := s.used - 1)
  }

  // Taking the first object off a slab's free list.
  lemma PopObject(orders: seq<SlabOrder>, t: Blocks, slabs: Slabs, p: nat)
    requires SlabsOk(orders, t, slabs) && Separate(t) && p in slabs && slabs[p].used < slabs[p].objCount
    ensures slabs[p].free != [] && slabs[p].cache < |orders|
    ensures
      var s := slabs[p];
      var slabs' := slabs[p := Pop(s)];
      SlabsOk(orders, t, slabs') && Gained(orders, t, slabs, t, slabs', s.free[0], orders[s.cache].objSize)
  {
    hide Live, Gained, Separate, Pow2, Usable, IsObject;
    assert PageOk(orders, t, slabs, p);
    var s, o := slabs[p], orders[slabs[p].cache];
    var s' := Pop(s);
    assert forall i :: 0 <= i < |s'.free| ==> s'.free[i] == s.free[i + 1];
    assert s.free == [s.free[0]] + s'.free;
    assert forall x: nat :: x in s.free <==> x == s.free[0] || x in s'.free;
    GainAt(orders, t, slabs, t, slabs[p := s'], p, s.free[0], o.objSize);
  }

  lemma PushOk(o: SlabOrder, p: nat, s: Slab, a: nat)
    requires SlabOk(o, p, s) && s.used > 0 && IsObject(o, p, a) && a !in s.free
    ensures SlabOk(o, p, Push(s, a))
  {
    hide IsObject;
    var s' := Push(s, a);
    assert forall i :: 0 < i < |s'.free| ==> s'.free[i] == s.free[i - 1];
  }

  // Putting a live object back in front of its slab's free list, others staying live.
  lemma PushObject(orders: seq<SlabOrder>, t: Blocks, slabs: Slabs, p: nat, a: nat, n: nat)
    requires SlabsOk(orders, t, slabs) && Separate(t) && p in slabs && LiveAt(orders, t, slabs, p, a, n)
    requires slabs[p].used > 1
    ensures
      var slabs' := slabs[p := Push(slabs[p], a)];
      SlabsOk(orders, t, slabs') && Lost(orders, t, slabs, t, slabs', a)
  {
    hide Live, Lost, Separate, Pow2, Usable, IsObject, SlabOk;
    assert PageOk(orders, t, slabs, p);
    PushOk(orders[slabs[p].cache], p, slabs[p], a);
    assert forall x: nat :: x in Push(slabs[p], a).free <==> x == a || x in slabs[p].free;
    LoseAt(orders, t, slabs, t, slabs[p := Push(slabs[p], a)], p, a, n);
  }

  // ---------------------------------------------------------------- a slab appears and disappears

  function Objects(o: SlabOrder, p: nat, n: nat): (l: seq<nat>)
    ensures |l| == n
  {
    seq(n, i requires 0 <= i < n => ObjAddr(o, p, i))
  }

  lemma ObjectsDistinct(o: SlabOrder, p: nat)
    requires o.objSize > 0
    ensures NoDup(Objects(o, p, ObjCount(o)))
    ensures forall a: nat :: a in Objects(o, p, ObjCount(o)) <==> IsObject(o, p, a)
  {
    hide ObjCount;
    var l := Objects(o, p, ObjCount(o));
    forall i, j | 0 <= i < j < |l| ensures l[i] != l[j] { MulMono(o.objSize, i, j); }
    forall a: nat ensures a in l <==> IsObject(o, p, a) {
      if a in l { var i: nat :| i < |l| && l[i] == a; }
      if i: nat :| i < ObjCount(o) && a == ObjAddr(o, p, i) { assert l[i] == a; }
    }
  }

  function FreshSlab(o: SlabOrder, c: nat, p: nat): Slab
    requires ObjCount(o) > 0
  {
    Slab(c, ObjCount(o), 1, Objects(o, p, ObjCount(o))[1..])
  }

  lemma FreshSlabOk(o: SlabOrder, c: nat, p: nat)
    requires o.objSize > 0 && ObjCount(o) > 0
    ensures SlabOk(o, p, FreshSlab(o, c, p))
    ensures forall a: nat :: IsObject(o, p, a) && a !in FreshSlab(o, c, p).free <==> a == p * PAGE_SIZE
  {
    hide IsObject, ObjCount, Objects, NoDup;
    var l := Objects(o, p, ObjCount(o));
    ObjectsDistinct(o, p);
    Rest(l);
    FirstObject(o, p);
    assert forall i :: 0 <= i < |l[1..]| ==> l[1..][i] in l[1..];
  }

  lemma FirstObject(o: SlabOrder, p: nat)
    requires ObjCount(o) > 0
    ensures Objects(o, p, ObjCount(o))[0] == p * PAGE_SIZE
  {
    hide ObjCount;
  }

  lemma Rest(l: seq<nat>)
    requires NoDup(l) && l != []
    ensures NoDup(l[1..]) && l[0] in l && forall a: nat :: a in l[1..] <==> a in l && a != l[0]
  {
    var f := l[1..];
    assert forall i :: 0 <= i < |f| ==> f[i] == l[i + 1];
    assert l == [l[0]] + f;
  }

  // A fresh block becomes a slab whose first object is handed out.
  lemma NewSlab(orders: seq<SlabOrder>, t: Blocks, slabs: Slabs, p: nat, c: nat)
    requires SlabsOk(orders, t, slabs) && p !in t && c < |orders|
    requires Separate(t[p := Block(orders[c].pageOrder, false, true)])
    ensures ObjCount(orders[c]) >= 2 && p !in slabs
    ensures
      var o := orders[c];
      var t', slabs' := t[p := Block(o.pageOrder, false, true)], slabs[p := FreshSlab(o, c, p)];
      SlabsOk(orders, t', slabs') && Gained(orders, t, slabs, t', slabs', p * PAGE_SIZE, o.objSize)
  {
    hide Live, Gained, Separate, Pow2, IsObject, ObjCount, FreshSlab, SlabOk;
    assert PageOk(orders, t, slabs, p);
    assert Usable(orders[c]);
    var o := orders[c];
    FreshSlabOk(o, c, p);
    FreshSlabShape(o, c, p);
    GainAt(orders, t, slabs, t[p := Block(o.pageOrder, false, true)], slabs[p := FreshSlab(o, c, p)], p, p * PAGE_SIZE,
      o.objSize);
  }

  lemma FreshSlabShape(o: SlabOrder, c: nat, p: nat)
    requires ObjCount(o) > 0
    ensures FreshSlab(o, c, p).cache == c && FreshSlab(o, c, p).used == 1 && FreshSlab(o, c, p).objCount == ObjCount(o)
  {
  }

  // With one object used, a live object is the only one.
  lemma LastObject(o: SlabOrder, p: nat, s: Slab, a: nat)
    requires SlabOk(o, p, s) && o.objSize > 0 && s.used == 1 && IsObject(o, p, a) && a !in s.free
    ensures forall x: nat :: IsObject(o, p, x) && x != a ==> x in s.free
  {
    hide ObjCount, IsObject;
    var l := Objects(o, p, ObjCount(o));
    ObjectsDistinct(o, p);
    var f := [a] + s.free;
    assert forall i :: 0 < i < |f| ==> f[i] == s.free[i - 1];
    assert forall i :: 0 <= i < |f| ==> f[i] in l;
    forall x: nat | IsObject(o, p, x) && x != a ensures x in s.free {
      PigeonHole(f, l, x);
      assert x in f;
    }
  }

  lemma {:induction false} SeqSize(l: seq<nat>)
    requires NoDup(l)
    ensures |Elems(l)| == |l|
  {
    if l != [] {
      var m, z := l[..|l| - 1], l[|l| - 1];
      SeqSize(m);
      assert l == m + [z];
      assert Elems(l) == Elems(m) + {z};
      assert z !in Elems(m);
    }
  }

  // Distinct members of l, as many as l has, are all of them.
  lemma PigeonHole(f: seq<nat>, l: seq<nat>, x: nat)
    requires NoDup(f) && NoDup(l) && |f| == |l| && (forall i :: 0 <= i < |f| ==> f[i] in l) && x in l
    ensures x in f
  {
    SeqSize(f);
    SeqSize(l);
    if x !in f {
      SubsetSize(Elems(f), Elems(l) - {x});
    }
  }

  // The block of a slab whose last object is freed goes back.
  lemma DropSlab(orders: seq<SlabOrder>, t: Blocks, slabs: Slabs, p: nat, a: nat, n: nat)
    requires SlabsOk(orders, t, slabs) && Separate(t) && p in slabs && LiveAt(orders, t, slabs, p, a, n)
    requires slabs[p].used == 1
    ensures SlabsOk(orders, t - {p}, slabs - {p}) && Lost(orders, t, slabs, t - {p}, slabs - {p}, a)
  {
    hide Live, Lost, Separate, Pow2, IsObject, SlabOk, ObjCount;
    assert PageOk(orders, t, slabs, p);
    assert Usable(orders[slabs[p].cache]);
    LastObject(orders[slabs[p].cache], p, slabs[p], a);
    LoseAt(orders, t, slabs, t - {p}, slabs - {p}, p, a, n);
  }

  lemma TakeBlock(orders: seq<SlabOrder>, t: Blocks, slabs: Slabs, p: nat, k: nat)
    requires SlabsOk(orders, t, slabs) && p !in t && Separate(t[p := Block(k, false, false)])
    ensures
      var t' := t[p := Block(k, false, false)];
      SlabsOk(orders, t', slabs) && Gained(orders, t, slabs, t', slabs, p * PAGE_SIZE, Pow2(k) * PAGE_SIZE)
  {
    hide Live, Gained, Separate, Pow2, IsObject, SlabOk, Usable;
    assert PageOk(orders, t, slabs, p);
    GainAt(orders, t, slabs, t[p := Block(k, false, false)], slabs, p, p * PAGE_SIZE, Pow2(k) * PAGE_SIZE);
  }

  lemma GiveBlock(orders: seq<SlabOrder>, t: Blocks, slabs: Slabs, p: nat)
    requires SlabsOk(orders, t, slabs) && Separate(t) && p in t && !t[p].slab
    ensures SlabsOk(orders, t - {p}, slabs) && Lost(orders, t, slabs, t - {p}, slabs, p * PAGE_SIZE)
  {
    hide Live, Lost, Separate, Pow2, IsObject, SlabOk, Usable;
    assert PageOk(orders, t, slabs, p);
    LoseAt(orders, t, slabs, t - {p}, slabs, p, p * PAGE_SIZE, Pow2(t[p].order) * PAGE_SIZE);
  }

  // ---------------------------------------------------------------- alignment

  lemma MultipleAligned(x: nat, e: nat, i: nat)
    requires Aligned(x, e)
    ensures Aligned(x + i * Pow2(e), e)
  {
    hide Pow2, Aligned;
    var m := Pow2(e);
    AlignedMod(x, e);
    DivMod(x, m);
    var q := x / m;
    assert m * (q + i) == m * q + i * m;
    ModUnique(x + i * m, m, q + i, 0);
    AlignedMod(x + i * m, e);
  }

  lemma PageAligned(p: nat, k: nat, e: nat)
    requires Aligned(p, k) && e <= k + BUDDY_EXPON_MIN
    ensures Aligned(p * PAGE_SIZE, e)
  {
    hide Pow2, Aligned;
    AlignedShift(p, k, 12);
    PageShift(p);
    AlignedLess(p * PAGE_SIZE, k + 12, e);
  }

  lemma FitsExponent(o: SlabOrder, e: nat)
    requires Usable(o) && o.objSize == Pow2(e)
    ensures e <= o.pageOrder + BUDDY_EXPON_MIN
  {
    hide Pow2;
    var k := o.pageOrder + 12;
    Pow2Add(o.pageOrder);
    DivMod(SlabBytes(o), o.objSize);
    MulMono(o.objSize, 1, ObjCount(o));
    if k < e { Pow2Mono(k, e); }
  }

  // An allocation whose size is a power of two is aligned to it.
  lemma LiveAligned(orders: seq<SlabOrder>, t: Blocks, slabs: Slabs, a: nat, e: nat)
    requires SlabsOk(orders, t, slabs) && Live(orders, t, slabs, a, Pow2(e))
    requires forall p <- t.Keys :: Aligned(p, t[p].order)
    ensures Aligned(a, e) && a % Pow2(e) == 0
  {
    hide Pow2, Aligned, SlabOk, Usable;
    var p: nat :| LiveAt(orders, t, slabs, p, a, Pow2(e));
    assert PageOk(orders, t, slabs, p);
    var k := t[p].order;
    AlignedMod(a, e);
    if p in slabs {
      var o := orders[slabs[p].cache];
      FitsExponent(o, e);
      PageAligned(p, k, e);
      var i: nat :| i < ObjCount(o) && a == ObjAddr(o, p, i);
      MultipleAligned(p * PAGE_SIZE, e, i);
    } else {
      Pow2Add(k);
      Log2Pow2(k + 12);
      Log2Pow2(e);
      PageAligned(p, k, e);
    }
  }
}
