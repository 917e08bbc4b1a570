/** The buddy heap on values: page descriptors with doubly linked free lists, and the
    abstract partition of the heap into naturally aligned power-of-two blocks.
    Addresses are page numbers. */
module BuddyBlocks {
  import opened Bits
  import opened Defs

  const ORDER_COUNT := 20
  // init_heap asserts a size below 2^31 bytes, that is 2^19 pages.
  const MAX_PAGES := 0x8_0000

  // The heap part of page_t. `cache` is the index of the list that buddy_cache points at.
  datatype Desc = Desc(vfree: bool, buddy: bool, head: bool, numPages: nat, virtAddr: nat, order: nat,
                       cache: nat, prev: Option<nat>, next: Option<nat>)

  predicate In(lo: nat, d: seq<Desc>, p: nat) {
    lo <= p < lo + |d|
  }

  // ---------------------------------------------------------------- doubly linked lists

  function SetPrev(lo: nat, d: seq<Desc>, p: Option<nat>, v: Option<nat>): (d': seq<Desc>)
    ensures |d'| == |d|
  {
    if p.None? || !In(lo, d, p.value) then d else d[p.value - lo := d[p.value - lo].(prev := v)]
  }

  function SetNext(lo: nat, d: seq<Desc>, p: Option<nat>, v: Option<nat>): (d': seq<Desc>)
    ensures |d'| == |d|
  {
    if p.None? || !In(lo, d, p.value) then d else d[p.value - lo := d[p.value - lo].(next := v)]
  }

  // Inserting `p` before the first element `h`.
  function PushMem(lo: nat, d: seq<Desc>, h: Option<nat>, p: nat): (d': seq<Desc>)
    ensures |d'| == |d|
  {
    SetPrev(lo, SetNext(lo, SetPrev(lo, d, h, Some(p)), Some(p), h), Some(p), None)
  }

  // Taking `p` out from between its neighbours.
  function UnlinkMem(lo: nat, d: seq<Desc>, p: nat): (d': seq<Desc>)
    requires In(lo, d, p)
    ensures |d'| == |d|
  {
    var x := d[p - lo];
    var d1 := SetPrev(lo, d, x.next, x.prev);
    SetNext(lo, d1, d1[p - lo].prev, d1[p - lo].next)
  }

  // Element `j` of `l` is linked to its neighbours.
  ghost predicate Linked(lo: nat, d: seq<Desc>, l: seq<nat>, j: nat)
    requires j < |l|
  {
    && In(lo, d, l[j])
    && d[l[j] - lo].next == (if j + 1 < |l| then Some(l[j + 1]) else None)
    && d[l[j] - lo].prev == (if j > 0 then Some(l[j - 1]) else None)
  }

  // `l` is the list that starts at `h`.
  ghost predicate IsList(lo: nat, d: seq<Desc>, h: Option<nat>, l: seq<nat>) {
    && h == (if l == [] then None else Some(l[0]))
    && NoDup(l) && forall j: nat :: j < |l| ==> Linked(lo, d, l, j)
  }

  lemma PushList(lo: nat, d: seq<Desc>, h: Option<nat>, l: seq<nat>, p: nat)
    requires IsList(lo, d, h, l) && In(lo, d, p) && p !in l
    ensures IsList(lo, PushMem(lo, d, h, p), Some(p), [p] + l)
  {
    var d', l' := PushMem(lo, d, h, p), [p] + l;
    forall j: nat | j < |l'| ensures Linked(lo, d', l', j) {
      if j > 0 { assert Linked(lo, d, l, j - 1) && l'[j] == l[j - 1]; }
      if j > 1 { assert l[j - 1] != l[0]; }
    }
  }

  lemma UnlinkList(lo: nat, d: seq<Desc>, h: Option<nat>, l: seq<nat>, j: nat)
    requires IsList(lo, d, h, l) && j < |l| && In(lo, d, l[j])
    ensures IsList(lo, UnlinkMem(lo, d, l[j]), if h == Some(l[j]) then d[l[j] - lo].next else h, l[..j] + l[j + 1..])
  {
    var d', l' := UnlinkMem(lo, d, l[j]), l[..j] + l[j + 1..];
    assert Linked(lo, d, l, j);
    forall i: nat | i < |l'| ensures Linked(lo, d', l', i) {
      UnlinkOne(lo, d, l, j, if i < j then i else i + 1);
    }
  }

  lemma UnlinkOne(lo: nat, d: seq<Desc>, l: seq<nat>, j: nat, i: nat)
    requires NoDup(l) && (forall k: nat :: k < |l| ==> Linked(lo, d, l, k)) && j < |l| && i < |l| && i != j
    requires In(lo, d, l[j])
    ensures
      var d', l' := UnlinkMem(lo, d, l[j]), l[..j] + l[j + 1..];
      Linked(lo, d', l', if i < j then i else i - 1)
  {
    assert Linked(lo, d, l, i) && Linked(lo, d, l, j);
    if j > 0 { assert Linked(lo, d, l, j - 1); }
    if j + 1 < |l| { assert Linked(lo, d, l, j + 1); }
  }

  // The link fields of `p` are the same in both.
  ghost predicate SameLinks(lo: nat, d: seq<Desc>, d': seq<Desc>, p: nat) {
    In(lo, d, p) && In(lo, d', p) && d'[p - lo].prev == d[p - lo].prev && d'[p - lo].next == d[p - lo].next
  }

  lemma ListFrame(lo: nat, d: seq<Desc>, d': seq<Desc>, h: Option<nat>, l: seq<nat>)
    requires IsList(lo, d, h, l) && forall p :: p in l ==> SameLinks(lo, d, d', p)
    ensures IsList(lo, d', h, l)
  {
    forall j: nat | j < |l| ensures Linked(lo, d', l, j) {
      assert Linked(lo, d, l, j) && SameLinks(lo, d, d', l[j]);
    }
  }

  // ---------------------------------------------------------------- all free lists

  type Heads = seq<Option<nat>>
  type Lists = seq<seq<nat>>

  ghost predicate AreLists(lo: nat, d: seq<Desc>, f: Heads, ls: Lists) {
    && |f| == |ls| == ORDER_COUNT
    && (forall k: nat :: k < ORDER_COUNT ==> IsList(lo, d, f[k], ls[k]))
    && (forall k: nat, k': nat, p :: k < k' < ORDER_COUNT && p in ls[k] ==> p !in ls[k'])
  }

  ghost predicate Listed(ls: Lists, p: nat) {
    exists k: nat :: k < |ls| && p in ls[k]
  }

  lemma PushLists(lo: nat, d: seq<Desc>, f: Heads, ls: Lists, k: nat, p: nat)
    requires AreLists(lo, d, f, ls) && k < ORDER_COUNT && In(lo, d, p) && !Listed(ls, p)
    ensures AreLists(lo, PushMem(lo, d, f[k], p), f[k := Some(p)], ls[k := [p] + ls[k]])
  {
    var d', f', ls' := PushMem(lo, d, f[k], p), f[k := Some(p)], ls[k := [p] + ls[k]];
    PushList(lo, d, f[k], ls[k], p);
    forall i: nat | i < ORDER_COUNT && i != k ensures IsList(lo, d', f'[i], ls'[i]) {
      forall q | q in ls[i] ensures SameLinks(lo, d, d', q) {
        var j: nat :| j < |ls[i]| && ls[i][j] == q;
        assert Linked(lo, d, ls[i], j);
        assert f[k].Some? ==> f[k].value in ls[k];
      }
      ListFrame(lo, d, d', f[i], ls[i]);
    }
  }

  lemma UnlinkLists(lo: nat, d: seq<Desc>, f: Heads, ls: Lists, k: nat, j: nat)
    requires AreLists(lo, d, f, ls) && k < ORDER_COUNT && j < |ls[k]| && In(lo, d, ls[k][j])
    ensures
      var p := ls[k][j];
      AreLists(lo, UnlinkMem(lo, d, p), f[k := if f[k] == Some(p) then d[p - lo].next else f[k]],
        ls[k := ls[k][..j] + ls[k][j + 1..]])
  {
    var p := ls[k][j];
    var d', ls' := UnlinkMem(lo, d, p), ls[k := ls[k][..j] + ls[k][j + 1..]];
    UnlinkList(lo, d, f[k], ls[k], j);
    assert Linked(lo, d, ls[k], j);
    forall i: nat | i < ORDER_COUNT && i != k ensures IsList(lo, d', f[i], ls[i]) {
      forall q | q in ls[i] ensures SameLinks(lo, d, d', q) {
        var n: nat :| n < |ls[i]| && ls[i][n] == q;
        assert Linked(lo, d, ls[i], n);
        UnlinkFrame(lo, d, ls[k], j, q);
      }
      ListFrame(lo, d, d', f[i], ls[i]);
    }
  }

  lemma UnlinkFrame(lo: nat, d: seq<Desc>, l: seq<nat>, j: nat, q: nat)
    requires j < |l| && Linked(lo, d, l, j) && q !in l && In(lo, d, q)
    ensures SameLinks(lo, d, UnlinkMem(lo, d, l[j]), q)
  {
  }

  // Everything but the links is the same.
  ghost predicate SameMeta(d: seq<Desc>, d': seq<Desc>) {
    |d'| == |d| && forall i :: 0 <= i < |d| ==> d'[i] == d[i].(prev := d'[i].prev, next := d'[i].next)
  }

  lemma PushSameMeta(lo: nat, d: seq<Desc>, h: Option<nat>, p: nat)
    ensures SameMeta(d, PushMem(lo, d, h, p))
  {
  }

  lemma UnlinkSameMeta(lo: nat, d: seq<Desc>, p: nat)
    requires In(lo, d, p)
    ensures SameMeta(d, UnlinkMem(lo, d, p))
  {
  }

  // ---------------------------------------------------------------- blocks

  // `slab` marks a block handed to the slab layer.
  datatype Block = Block(order: nat, free: bool, slab: bool)

  type Blocks = map<nat, Block>

  ghost function End(b: Blocks, p: nat): nat
    requires p in b
  {
    p + Pow2(b[p].order)
  }

  // The blocks are aligned to their size and tile [lo, hi).
  ghost predicate Tiled(b: Blocks, lo: nat, hi: nat) {
    Placed(b, lo, hi) && Separate(b) && forall x: nat :: lo <= x < hi ==> Covered(b, x)
  }

  ghost predicate Placed(b: Blocks, lo: nat, hi: nat) {
    forall p <- b.Keys :: lo <= p && End(b, p) <= hi && b[p].order < ORDER_COUNT && Aligned(p, b[p].order)
  }

  ghost predicate Separate(b: Blocks) {
    forall p <- b.Keys, q <- b.Keys :: p < q ==> End(b, p) <= q
  }

  ghost predicate Covered(b: Blocks, x: nat) {
    exists p <- b.Keys :: p <= x < End(b, p)
  }

  // A descriptor is a head exactly where a block starts, and says what the block is. The
  // heads in `raw` carry HEAD alone: line 147 of heap.c made them, and they have not
  // been given the other flags since.
  ghost predicate Described(lo: nat, d: seq<Desc>, b: Blocks, raw: set<nat>) {
    forall p: nat :: In(lo, d, p) ==>
      && (d[p - lo].head <==> p in b)
      && (p in b ==> var x := d[p - lo];
            && x.numPages == Pow2(b[p].order) && x.order == b[p].order && x.cache == b[p].order && x.virtAddr == p
            && x.vfree == (b[p].free && p !in raw) && x.buddy == (!b[p].slab && p !in raw) && !(b[p].free && b[p].slab))
  }

  // List k holds exactly the free blocks of order k.
  ghost predicate Matching(ls: Lists, b: Blocks) {
    && |ls| == ORDER_COUNT
    && forall k: nat, p: nat :: k < ORDER_COUNT ==> (p in ls[k] <==> p in b && b[p].free && b[p].order == k)
  }

  function BuddyOf(p: nat, k: nat): nat {
    Xor(p, Pow2(k))
  }

  // No two free buddies of the same order that carry all flags, except where `c` is one of
  // the two.
  ghost predicate NoFreePairs(b: Blocks, raw: set<nat>, c: Option<nat>) {
    forall p <- b.Keys :: FreePair(b, raw, p) ==> c == Some(p) || c == Some(BuddyOf(p, b[p].order))
  }

  ghost predicate FreePair(b: Blocks, raw: set<nat>, p: nat) {
    FreeBuddies(b, p) && p !in raw && BuddyOf(p, b[p].order) !in raw
  }

  // The block at `p` and its buddy are both free and of the same order.
  ghost predicate FreeBuddies(b: Blocks, p: nat) {
    p in b && b[p].free &&
    var q := BuddyOf(p, b[p].order);
    q in b && b[q].free && b[q].order == b[p].order
  }

  // What clients see: the blocks handed out.
  ghost function Taken(b: Blocks): Blocks {
    map p <- b.Keys | !b[p].free :: b[p]
  }

  ghost function Split(b: Blocks, p: nat): Blocks
    requires p in b && b[p].order > 0
  {
    var k := b[p].order - 1;
    b[p := Block(k, true, false)][p + Pow2(k) := Block(k, true, false)]
  }

  ghost function Merge(b: Blocks, p: nat): Blocks
    requires p in b
  {
    var k := b[p].order;
    (b - {p + Pow2(k)})[p := Block(k + 1, true, false)]
  }

  lemma SplitTiled(b: Blocks, lo: nat, hi: nat, p: nat)
    requires Tiled(b, lo, hi) && p in b && b[p].order > 0
    ensures Tiled(Split(b, p), lo, hi) && p + Pow2(b[p].order - 1) !in b
    ensures Aligned(p + Pow2(b[p].order - 1), b[p].order - 1)
    ensures p + Pow2(b[p].order - 1) == BuddyOf(p, b[p].order - 1) && p + Pow2(b[p].order - 1) < hi
  {
    hide Pow2, Aligned, Xor, Separate, Covered, Split;
    var k := b[p].order - 1;
    Pow2Step(k + 1);
    AlignedLess(p, k + 1, k);
    XorBuddy(p, k);
    SplitSeparate(b, p);
    SplitPlaced(b, lo, hi, p);
    forall x: nat | lo <= x < hi ensures Covered(Split(b, p), x) { SplitCovers(b, p, x); }
  }

  lemma SplitPlaced(b: Blocks, lo: nat, hi: nat, p: nat)
    requires Placed(b, lo, hi) && Separate(b) && p in b && b[p].order > 0
    requires Aligned(p, b[p].order - 1) && Aligned(p + Pow2(b[p].order - 1), b[p].order - 1)
    ensures Placed(Split(b, p), lo, hi)
  {
    hide Pow2, Aligned, Separate;
    SplitEnds(b, p);
  }

  lemma SplitSeparate(b: Blocks, p: nat)
    requires Separate(b) && p in b && b[p].order > 0
    ensures Separate(Split(b, p)) && p + Pow2(b[p].order - 1) !in b
  {
    hide Pow2, End, Split;
    var k := b[p].order - 1;
    var u, b' := p + Pow2(k), Split(b, p);
    SplitEnds(b, p);
    forall x <- b'.Keys, y <- b'.Keys | x < y ensures End(b', x) <= y {
      if x != p && x != u { SplitApart(b, p, x); }
      if y != p && y != u { SplitApart(b, p, y); }
    }
  }

  lemma SplitEnds(b: Blocks, p: nat)
    requires Separate(b) && p in b && b[p].order > 0
    ensures
      var u, b' := p + Pow2(b[p].order - 1), Split(b, p);
      && p < u < End(b, p) && u !in b && b'.Keys == b.Keys + {u} && End(b', p) == u && End(b', u) == End(b, p)
      && forall q <- b.Keys :: q != p ==> End(b', q) == End(b, q)
  {
    hide Pow2;
    Pow2Step(b[p].order);
    SplitApartUpper(b, p);
  }

  lemma SplitApartUpper(b: Blocks, p: nat)
    requires Separate(b) && p in b && b[p].order > 0
    ensures p + Pow2(b[p].order - 1) !in b
  {
    hide Pow2;
    Pow2Step(b[p].order);
    var u := p + Pow2(b[p].order - 1);
    assert p < u < End(b, p);
  }

  // Another block lies before or behind the one that is split.
  lemma SplitApart(b: Blocks, p: nat, q: nat)
    requires Separate(b) && p in b && q in b && q != p
    ensures End(b, q) <= p || End(b, p) <= q
    ensures forall r <- b.Keys :: r < q ==> End(b, r) <= q
    ensures forall r <- b.Keys :: q < r ==> End(b, q) <= r
  {
    hide End;
  }

  lemma SplitCovers(b: Blocks, p: nat, x: nat)
    requires Separate(b) && p in b && b[p].order > 0 && Covered(b, x)
    ensures Covered(Split(b, p), x)
  {
    hide Pow2;
    var k := b[p].order - 1;
    var u, b' := p + Pow2(k), Split(b, p);
    SplitEnds(b, p);
    var q :| q in b && q <= x < End(b, q);
    if q == p {
      assert if x < u then p in b' && x < End(b', p) else u in b' && x < End(b', u);
    } else {
      assert q in b' && End(b', q) == End(b, q);
    }
  }

  lemma MergeTiled(b: Blocks, lo: nat, hi: nat, p: nat)
    requires Tiled(b, lo, hi) && p in b && hi < lo + MAX_PAGES
    requires var u := p + Pow2(b[p].order); u in b && b[u].order == b[p].order && Aligned(p, b[p].order + 1)
    ensures Tiled(Merge(b, p), lo, hi) && b[p].order + 1 < ORDER_COUNT
  {
    hide Pow2, Aligned;
    var k := b[p].order;
    var b' := Merge(b, p);
    Pow2Step(k + 1);
    SmallOrder(k + 1);
    MergeEnds(b, p);
    MergeSeparate(b, p);
    forall x: nat | lo <= x < hi ensures Covered(b', x) { MergeCovers(b, p, x); }
  }

  lemma MergeEnds(b: Blocks, p: nat)
    requires p in b && p + Pow2(b[p].order) in b && b[p + Pow2(b[p].order)].order == b[p].order
    ensures p in Merge(b, p) && End(Merge(b, p), p) == End(b, p + Pow2(b[p].order))
    ensures forall q <- Merge(b, p).Keys :: q != p ==>
      q in b && q != p + Pow2(b[p].order) && End(Merge(b, p), q) == End(b, q)
  {
    hide Pow2;
    Pow2Step(b[p].order + 1);
  }

  lemma MergeSeparate(b: Blocks, p: nat)
    requires Separate(b) && p in b && p + Pow2(b[p].order) in b && b[p + Pow2(b[p].order)].order == b[p].order
    ensures Separate(Merge(b, p))
  {
    hide Merge, End;
    var u, b' := p + Pow2(b[p].order), Merge(b, p);
    MergeEnds(b, p);
    forall x <- b'.Keys, y <- b'.Keys | x < y ensures End(b', x) <= y {
      assert x in b && y in b;
      if x == p { assert u < y by { MergeFirst(b, p, y); } }
    }
  }

  // A block after `p` other than its neighbour starts after the neighbour.
  lemma MergeFirst(b: Blocks, p: nat, y: nat)
    requires Separate(b) && p in b && p + Pow2(b[p].order) in b && y in b && p < y && y != p + Pow2(b[p].order)
    ensures p + Pow2(b[p].order) < y
  {
  }

  lemma MergeCovers(b: Blocks, p: nat, x: nat)
    requires p in b && p + Pow2(b[p].order) in b && b[p + Pow2(b[p].order)].order == b[p].order && Covered(b, x)
    ensures Covered(Merge(b, p), x)
  {
    hide Pow2;
    var u, b' := p + Pow2(b[p].order), Merge(b, p);
    Pow2Step(b[p].order + 1);
    var q :| q in b && q <= x < End(b, q);
    if q == p || q == u {
      assert p in b' && p <= x < End(b', p);
    } else {
      assert q in b' && End(b', q) == End(b, q);
    }
  }

  lemma Pow2Nineteen()
    ensures Pow2(19) == MAX_PAGES
  {
    assert Pow2(4) == 16 && Pow2(8) == 16 * Pow2(4) && Pow2(12) == 16 * Pow2(8) && Pow2(16) == 16 * Pow2(12);
  }

  // A block that fits the heap has an order with a list.
  lemma SmallOrder(k: nat)
    requires Pow2(k) < MAX_PAGES
    ensures k < 19
  {
    Pow2Nineteen();
    if k >= 19 { Pow2Mono(19, k); }
  }

  // ---------------------------------------------------------------- free pairs

  lemma SplitPairs(b: Blocks, raw: set<nat>, lo: nat, hi: nat, p: nat)
    requires Tiled(b, lo, hi) && p in b && b[p].order > 0 && b[p].free && NoFreePairs(b, raw, Some(p))
    ensures NoFreePairs(Split(b, p), raw, Some(p + Pow2(b[p].order - 1)))
  {
    hide Pow2, Aligned, Xor, Tiled;
    var k := b[p].order - 1;
    var u, b' := p + Pow2(k), Split(b, p);
    SplitTiled(b, lo, hi, p);
    forall x | x in b' && FreePair(b', raw, x) ensures u == x || u == BuddyOf(x, b'[x].order) {
      BuddyBack(b', lo, hi, x);
      BuddyBack(b', lo, hi, p);
      var y := BuddyOf(x, b'[x].order);
      assert x != p && x != u && y != u && y != p ==> x in b && FreePair(b, raw, x);
    }
  }

  // The buddy of the buddy is the block itself.
  lemma BuddyBack(b: Blocks, lo: nat, hi: nat, p: nat)
    requires Tiled(b, lo, hi) && p in b
    ensures BuddyOf(BuddyOf(p, b[p].order), b[p].order) == p
  {
    hide Xor, Pow2;
    XorBuddy(p, b[p].order);
  }

  lemma MergePairs(b: Blocks, raw: set<nat>, p: nat, c: nat)
    requires p in b && NoFreePairs(b, raw, Some(c)) && (c == p || c == p + Pow2(b[p].order))
    ensures NoFreePairs(Merge(b, p), raw, Some(p))
  {
    hide Pow2, Xor;
    var u, b' := p + Pow2(b[p].order), Merge(b, p);
    forall x | x in b' && FreePair(b', raw, x) ensures p == x || p == BuddyOf(x, b'[x].order) {
      var y := BuddyOf(x, b'[x].order);
      assert x != p && y != p ==> x in b && x != u && y != u && FreePair(b, raw, x);
    }
  }

  lemma StopPairs(b: Blocks, raw: set<nat>, lo: nat, hi: nat, p: nat)
    requires Tiled(b, lo, hi) && p in b && NoFreePairs(b, raw, Some(p)) && !FreePair(b, raw, p)
    ensures NoFreePairs(b, raw, None)
  {
    hide Xor, Pow2, Tiled;
    forall x | x in b && FreePair(b, raw, x) ensures false { BuddyBack(b, lo, hi, x); }
  }

  // ---------------------------------------------------------------- changing one block

  lemma RetagTiled(b: Blocks, lo: nat, hi: nat, p: nat, x: Block)
    requires Tiled(b, lo, hi) && p in b && x.order == b[p].order
    ensures Tiled(b[p := x], lo, hi)
  {
    var b' := b[p := x];
    assert forall q <- b'.Keys :: q in b && End(b', q) == End(b, q);
    forall y: nat | lo <= y < hi ensures Covered(b', y) {
      assert Covered(b, y);
      var q :| q in b && q <= y < End(b, q);
      assert q in b' && End(b', q) == End(b, q);
    }
  }

  // ---------------------------------------------------------------- the whole heap

  ghost predicate Inv(lo: nat, d: seq<Desc>, f: Heads, ls: Lists, b: Blocks, raw: set<nat>, c: Option<nat>) {
    && |d| < MAX_PAGES && AreLists(lo, d, f, ls) && Matching(ls, b) && Described(lo, d, b, raw)
    && Tiled(b, lo, lo + |d|) && NoFreePairs(b, raw, c) && raw <= b.Keys
  }

  // A listed page is a free block inside the heap.
  lemma ListedIn(lo: nat, d: seq<Desc>, f: Heads, ls: Lists, k: nat, j: nat)
    requires AreLists(lo, d, f, ls) && k < ORDER_COUNT && j < |ls[k]|
    ensures In(lo, d, ls[k][j]) && ls[k][j] in ls[k]
  {
    assert IsList(lo, d, f[k], ls[k]);
    assert Linked(lo, d, ls[k], j);
  }

  // Writing a page that is on no list, or fields other than the links.
  lemma MetaLists(lo: nat, d: seq<Desc>, f: Heads, ls: Lists, p: nat, x: Desc)
    requires AreLists(lo, d, f, ls) && In(lo, d, p)
    requires !Listed(ls, p) || (x.prev == d[p - lo].prev && x.next == d[p - lo].next)
    ensures AreLists(lo, d[p - lo := x], f, ls)
  {
    var d' := d[p - lo := x];
    forall k: nat | k < ORDER_COUNT ensures IsList(lo, d', f[k], ls[k]) {
      assert IsList(lo, d, f[k], ls[k]);
      forall q | q in ls[k] ensures SameLinks(lo, d, d', q) {
        var j: nat :| j < |ls[k]| && ls[k][j] == q;
        assert Linked(lo, d, ls[k], j);
      }
      ListFrame(lo, d, d', f[k], ls[k]);
    }
  }

  lemma DescribedSame(lo: nat, d: seq<Desc>, d': seq<Desc>, b: Blocks, raw: set<nat>)
    requires Described(lo, d, b, raw) && SameMeta(d, d')
    ensures Described(lo, d', b, raw)
  {
    forall p: nat | In(lo, d', p) ensures d'[p - lo] == d[p - lo].(prev := d'[p - lo].prev, next := d'[p - lo].next) {
    }
  }

  // Taking element `j` off list `k`.
  ghost function Without(ls: Lists, k: nat, j: nat): Lists
    requires k < |ls| && j < |ls[k]|
  {
    ls[k := ls[k][..j] + ls[k][j + 1..]]
  }

  lemma WithoutMembers(lo: nat, d: seq<Desc>, f: Heads, ls: Lists, k: nat, j: nat)
    requires AreLists(lo, d, f, ls) && k < ORDER_COUNT && j < |ls[k]|
    ensures forall i: nat, p :: i < ORDER_COUNT ==> (p in Without(ls, k, j)[i] <==> p in ls[i] && p != ls[k][j])
    ensures !Listed(Without(ls, k, j), ls[k][j])
  {
    var l, l' := ls[k], ls[k][..j] + ls[k][j + 1..];
    assert IsList(lo, d, f[k], l);
    forall p ensures p in l' <==> p in l && p != l[j] {
      if p in l && p != l[j] {
        var i: nat :| i < |l| && l[i] == p;
        assert l'[if i < j then i else i - 1] == p;
      }
    }
  }

  // ---------------------------------------------------------------- splitting

  // The descriptors of the two halves of block `p`, now of order `k`.
  ghost function SplitDesc(lo: nat, d: seq<Desc>, p: nat, k: nat): seq<Desc>
    requires In(lo, d, p) && In(lo, d, p + Pow2(k))
  {
    var half, u := d[p - lo].numPages / 2, p + Pow2(k);
    var d1 := d[p - lo := d[p - lo].(numPages := half, order := k, cache := k)];
    d1[u - lo := Desc(true, true, true, half, u, k, k, None, None)]
  }

  lemma SplitDescribed(lo: nat, d: seq<Desc>, b: Blocks, raw: set<nat>, p: nat)
    requires Described(lo, d, b, raw) && raw <= b.Keys && Tiled(b, lo, lo + |d|) && p in b && b[p].order > 0
    requires b[p].free && In(lo, d, p)
    ensures In(lo, d, p + Pow2(b[p].order - 1)) && Described(lo, SplitDesc(lo, d, p, b[p].order - 1), Split(b, p), raw)
  {
    hide Pow2, Tiled, Aligned, Xor;
    SplitTiled(b, lo, lo + |d|, p);
    Pow2Step(b[p].order);
  }

  lemma SplitMatching(lo: nat, d: seq<Desc>, f: Heads, ls: Lists, b: Blocks, p: nat)
    requires AreLists(lo, d, f, ls) && Matching(ls, b) && Tiled(b, lo, lo + |d|)
    requires p in b && 0 < b[p].order < ORDER_COUNT && b[p].free && ls[b[p].order] != [] && ls[b[p].order][0] == p
    ensures
      var k, u := b[p].order - 1, p + Pow2(b[p].order - 1);
      var ls1 := Without(ls, k + 1, 0);
      && !Listed(ls1, u) && !Listed(ls1[k := [p] + ls1[k]], u)
      && Matching(ls1[k := [u] + ([p] + ls1[k])], Split(b, p))
  {
    hide Pow2, Tiled, AreLists;
    SplitTiled(b, lo, lo + |d|, p);
    WithoutMembers(lo, d, f, ls, b[p].order, 0);
  }

  lemma SplitTaken(b: Blocks, lo: nat, hi: nat, p: nat)
    requires Tiled(b, lo, hi) && p in b && b[p].order > 0 && b[p].free
    ensures Taken(Split(b, p)) == Taken(b)
  {
    hide Pow2, Tiled;
    SplitTiled(b, lo, hi, p);
  }

  // ---------------------------------------------------------------- merging

  // The descriptors once `p` has swallowed its upper buddy.
  ghost function MergeDesc(lo: nat, d: seq<Desc>, p: nat, u: nat, k: nat): seq<Desc>
    requires In(lo, d, p) && In(lo, d, u)
  {
    var d1 := d[u - lo := d[u - lo].(head := false)];
    d1[p - lo := d1[p - lo].(cache := k + 1, order := k + 1, numPages := 2 * d1[p - lo].numPages)]
  }

  lemma MergeDescribed(lo: nat, d: seq<Desc>, b: Blocks, raw: set<nat>, p: nat)
    requires Described(lo, d, b, raw) && p in b && b[p].free && In(lo, d, p) && In(lo, d, p + Pow2(b[p].order))
    ensures Described(lo, MergeDesc(lo, d, p, p + Pow2(b[p].order), b[p].order), Merge(b, p), raw)
  {
    hide Pow2;
    Pow2Step(b[p].order + 1);
    var k := b[p].order;
    var u, d', b' := p + Pow2(k), MergeDesc(lo, d, p, p + Pow2(k), k), Merge(b, p);
    forall q: nat | In(lo, d', q) ensures d'[q - lo].head <==> q in b' {
      assert d[q - lo].head <==> q in b;
    }
  }

  lemma MergeMatching(ls: Lists, ls': Lists, b: Blocks, p: nat)
    requires Matching(ls, b) && |ls'| == ORDER_COUNT && p in b && b[p].free && b[p].order + 1 < ORDER_COUNT
    requires p + Pow2(b[p].order) in b && b[p + Pow2(b[p].order)].order == b[p].order
    requires forall i: nat, q :: i < ORDER_COUNT ==>
      (q in ls'[i] <==> q in ls[i] && q != p && q != p + Pow2(b[p].order))
    ensures Matching(ls'[b[p].order + 1 := [p] + ls'[b[p].order + 1]], Merge(b, p))
  {
    hide Pow2;
  }

  // The neighbour test of resolve_merge is the test for a free buddy with all flags.
  lemma MergeTest(lo: nat, d: seq<Desc>, b: Blocks, raw: set<nat>, p: nat)
    requires Described(lo, d, b, raw) && Tiled(b, lo, lo + |d|) && p in b && b[p].free && p !in raw && In(lo, d, p)
    ensures
      var q := BuddyOf(p, b[p].order);
      FreePair(b, raw, p) <==>
        In(lo, d, q) && d[q - lo].vfree && d[q - lo].buddy && d[q - lo].head && d[q - lo].numPages == d[p - lo].numPages
  {
    hide Xor, Pow2, Aligned;
    var q := BuddyOf(p, b[p].order);
    if q in b && Pow2(b[q].order) == Pow2(b[p].order) { Pow2Injective(b[q].order, b[p].order); }
  }

  lemma Pow2Injective(a: nat, b: nat)
    requires Pow2(a) == Pow2(b)
    ensures a == b
  {
    if a < b { Pow2Mono(a, b); }
    if b < a { Pow2Mono(b, a); }
  }

  // The lower of two free buddies, and its upper neighbour.
  lemma LowerBuddy(b: Blocks, lo: nat, hi: nat, p: nat)
    requires Tiled(b, lo, hi) && FreeBuddies(b, p)
    ensures
      var k, q := b[p].order, BuddyOf(p, b[p].order);
      var low := if q < p then q else p;
      var up := if q < p then p else q;
      && low in b && b[low].free && b[low].order == k && up == low + Pow2(k) && Aligned(low, k + 1)
      && up in b && b[up].free && b[up].order == k
  {
    hide Xor, Pow2, Aligned;
    XorBuddy(p, b[p].order);
  }

  lemma MergeTaken(b: Blocks, p: nat)
    requires p in b && b[p].free && p + Pow2(b[p].order) in b && b[p + Pow2(b[p].order)].free
    ensures Taken(Merge(b, p)) == Taken(b)
  {
    hide Pow2;
  }

  // ---------------------------------------------------------------- taking and giving back

  lemma TakeTaken(b: Blocks, p: nat, slab: bool)
    requires p in b && b[p].free
    ensures Taken(b[p := Block(b[p].order, false, slab)]) == Taken(b)[p := Block(b[p].order, false, slab)]
    ensures p !in Taken(b)
  {
  }

  lemma GiveTaken(b: Blocks, p: nat)
    requires p in b && !b[p].free
    ensures Taken(b[p := Block(b[p].order, true, false)]) == Taken(b) - {p}
  {
  }

  lemma TakePairs(b: Blocks, raw: set<nat>, p: nat)
    requires p in b && NoFreePairs(b, raw, Some(p))
    ensures NoFreePairs(b[p := Block(b[p].order, false, false)], raw, None)
  {
    var b' := b[p := Block(b[p].order, false, false)];
    forall x | x in b' && FreePair(b', raw, x) ensures false { assert FreePair(b, raw, x); }
  }

  lemma GivePairs(b: Blocks, raw: set<nat>, p: nat)
    requires p in b && NoFreePairs(b, raw, None)
    ensures NoFreePairs(b[p := Block(b[p].order, true, false)], raw, Some(p))
  {
    hide Xor;
    var b' := b[p := Block(b[p].order, true, false)];
    forall x | x in b' && FreePair(b', raw, x) ensures x == p || BuddyOf(x, b'[x].order) == p {
      assert x != p && BuddyOf(x, b'[x].order) != p ==> FreePair(b, raw, x);
    }
  }

  // The block of order k at `p` is the top of `q`, a free block.
  ghost predicate TopOf(b: Blocks, q: nat, p: nat, k: nat) {
    q in b && b[q].free && k <= b[q].order && p + Pow2(k) == q + Pow2(b[q].order)
  }

  // `q` is the first block of the smallest order, from k on, that has a free block.
  ghost predicate BestFit(b: Blocks, ls: Lists, q: nat, k: nat) {
    && q in b && b[q].free && b[q].order < |ls| && ls[b[q].order] != [] && ls[b[q].order][0] == q
    && forall x <- b.Keys :: b[x].free && k <= b[x].order ==> b[q].order <= b[x].order
  }

  // A head with HEAD alone is handed out only with its whole block.
  lemma RawUnsplit(b: Blocks, raw: set<nat>, q: nat, p: nat, k: nat)
    requires Separate(b) && raw <= b.Keys && TopOf(b, q, p, k) && p in raw
    ensures p == q && k == b[q].order
  {
    hide Pow2;
    if k < b[q].order { Pow2Mono(k, b[q].order); }
  }

  // ---------------------------------------------------------------- greedy tiling

  // No block could have been chosen one order larger inside [.., hi).
  ghost predicate Maximal(b: Blocks, hi: nat) {
    forall p <- b.Keys :: !(Aligned(p, b[p].order + 1) && p + Pow2(b[p].order + 1) <= hi)
  }

  lemma AppendTiled(b: Blocks, lo: nat, a: nat, k: nat)
    requires Tiled(b, lo, a) && lo <= a && Aligned(a, k) && k < ORDER_COUNT
    ensures a !in b && Tiled(b[a := Block(k, true, false)], lo, a + Pow2(k))
  {
    hide Pow2, Aligned, Covered, Separate;
    var b' := b[a := Block(k, true, false)];
    assert forall q <- b.Keys :: q < End(b, q) <= a;
    AppendSeparate(b, a, k);
    forall x: nat | lo <= x < a + Pow2(k) ensures Covered(b', x) { AppendCovers(b, lo, a, k, x); }
  }

  lemma AppendSeparate(b: Blocks, a: nat, k: nat)
    requires Separate(b) && a !in b && forall q <- b.Keys :: q < End(b, q) <= a
    ensures Separate(b[a := Block(k, true, false)])
    ensures
      var b' := b[a := Block(k, true, false)];
      forall q <- b.Keys :: q in b' && End(b', q) == End(b, q)
  {
    hide Pow2;
    var b' := b[a := Block(k, true, false)];
    assert forall q <- b'.Keys :: q != a ==> q in b && End(b', q) == End(b, q);
  }

  lemma AppendCovers(b: Blocks, lo: nat, a: nat, k: nat, x: nat)
    requires a !in b && x < a + Pow2(k) && (x < a ==> Covered(b, x))
    ensures Covered(b[a := Block(k, true, false)], x)
  {
    hide Pow2;
    var b' := b[a := Block(k, true, false)];
    if x < a {
      var q :| q in b && q <= x < End(b, q);
      assert q in b' && End(b', q) == End(b, q);
    } else {
      assert a in b' && a <= x < End(b', a);
    }
  }

  // A greedy tiling has no two free buddies.
  lemma MaximalNoPairs(b: Blocks, lo: nat, hi: nat)
    requires Tiled(b, lo, hi) && Maximal(b, hi)
    ensures forall p <- b.Keys :: !FreeBuddies(b, p)
    ensures forall raw :: NoFreePairs(b, raw, None)
  {
    hide Xor, Pow2, Aligned;
    forall p | p in b && FreeBuddies(b, p) ensures false {
      LowerBuddy(b, lo, hi, p);
      var k, q := b[p].order, BuddyOf(p, b[p].order);
      var low := if q < p then q else p;
      Pow2Step(k + 1);
    }
  }

  // A heap of 2^k pages from page 0 on is one block.
  lemma OneTile(b: Blocks, k: nat)
    requires Tiled(b, 0, Pow2(k)) && Maximal(b, Pow2(k)) && Taken(b) == map[]
    ensures b.Keys == {0} && b[0].order == k && b[0].free
  {
    hide Pow2, Aligned, Maximal, Covered;
    FirstTile(b, k);
    assert 0 !in Taken(b);
    forall q | q in b ensures q == 0 {
      if q > 0 { AfterFirst(b, Pow2(k), q); }
    }
  }

  lemma FirstTile(b: Blocks, k: nat)
    requires Tiled(b, 0, Pow2(k)) && Maximal(b, Pow2(k))
    ensures 0 in b && b[0].order == k
  {
    hide Pow2, Aligned, Tiled;
    FirstThere(b, Pow2(k));
    var j := b[0].order;
    if j > k { Pow2Mono(k, j); }
    AlignedAll(j + 1);
    if j + 1 < k { Pow2Mono(j + 1, k); }
  }

  lemma FirstThere(b: Blocks, hi: nat)
    requires Tiled(b, 0, hi) && hi > 0
    ensures 0 in b && End(b, 0) <= hi
  {
    hide Pow2, Aligned, Separate;
    assert Covered(b, 0);
  }

  lemma AfterFirst(b: Blocks, hi: nat, q: nat)
    requires Tiled(b, 0, hi) && 0 in b && q in b && q > 0
    ensures End(b, 0) <= q < hi
  {
    hide Pow2, Aligned, Covered;
    assert q < End(b, q) <= hi;
  }

  lemma {:induction false} AlignedAll(k: nat)
    ensures Aligned(0, k)
  {
    if k > 0 { AlignedAll(k - 1); }
  }

  // The two ways to tile the pages 0 and 1.
  lemma TwoPages(b: Blocks)
    requires Tiled(b, 0, 2)
    ensures 0 in b && (b[0].order == 1 || (b[0].order == 0 && 1 in b && b[1].order == 0))
    ensures b[0].order == 1 ==> b.Keys == {0}
    ensures b[0].order == 0 ==> b.Keys == {0, 1}
    ensures BuddyOf(0, 0) == 1 && BuddyOf(1, 0) == 0
  {
    assert Covered(b, 0) && Covered(b, 1);
    var p :| p in b && p <= 0 < End(b, p);
    var q :| q in b && q <= 1 < End(b, q);
    assert Pow2(0) == 1 && Pow2(1) == 2 && Pow2(2) == 4;
    if b[0].order > 1 { Pow2Mono(1, b[0].order); }
  }
}
