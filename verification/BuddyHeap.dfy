/** The buddy allocator of the kernel heap, on its array of page descriptors and its
    array of free-list heads. Growth of the heap is not part of this model: where the
    code would grow, AllocBuddy answers None. */
module BuddyHeap {
  import opened Bits
  import opened Defs
  import opened BuddyBlocks

  const BUDDY_EXPON_MIN := 12

  class BuddyHeap {
    // The heap occupies the pages lo, lo + 1, ...; descs[i] describes page lo + i.
    const lo: nat
    const descs: array<Desc>
    const freeBuddies: array<Option<nat>>
    // false: blocks enter the heap with HEAD alone, as line 147 writes; true: with the
    // flags of line 309.
    const allFlags: bool
    ghost var lists: Lists
    ghost var blocks: Blocks
    // The heads that carry HEAD alone.
    ghost var raw: set<nat>

    ghost predicate Holds(c: Option<nat>)
      reads this, descs, freeBuddies
    {
      Inv(lo, descs[..], freeBuddies[..], lists, blocks, raw, c) && (allFlags ==> raw == {})
    }

    ghost predicate Valid()
      reads this, descs, freeBuddies
    {
      Holds(None)
    }

    // init_heap and add_buddies: the heap of `pages` zeroed descriptors is tiled
    // greedily from `lo` on.
    constructor (lo: nat, pages: nat, allFlags: bool)
      requires 0 < pages < MAX_PAGES
      ensures Valid() && this.lo == lo && descs.Length == pages && fresh(descs) && fresh(freeBuddies)
      ensures this.allFlags == allFlags
      ensures Taken(blocks) == map[] && Maximal(blocks, lo + pages) && raw == if allFlags then {} else blocks.Keys
    {
      this.lo := lo;
      this.allFlags := allFlags;
      descs := new Desc[pages](_ => Desc(false, false, false, 0, 0, 0, 0, None, None));
      freeBuddies := new Option<nat>[ORDER_COUNT](_ => None);
      lists := seq(ORDER_COUNT, _ => []);
      blocks := map[];
      raw := {};
      new;
      hide AreLists, Matching, Described, Tiled, Taken, Maximal, Filling, Inv;
      EmptyHeap(lo, descs[..], freeBuddies[..], lists);
      NothingFilled(pages);
      AddBuddies(lo, pages);
      AllFilled(lo + pages);
    }

    // add_buddies
    method AddBuddies(start: nat, pages: nat)
      requires start == lo && pages == descs.Length < MAX_PAGES && Filling(start, start + pages)
      modifies this, descs, freeBuddies
      ensures Filling(start + pages, start + pages)
    {
      hide Filling, Pow2, Aligned;
      var remaining, addr := pages, start;
      while remaining > 0
        invariant addr + remaining == lo + pages && addr >= lo && remaining >= 0 && Filling(addr, lo + pages)
      {
        var order := ChooseOrder(addr, remaining);
        AddBlock(addr, order, addr + remaining);
        remaining := remaining - Pow2(order);
        addr := addr + Pow2(order);
      }
    }

    // The pages before `addr` are tiled by blocks as large as they can be, all of them free.
    ghost predicate Filling(addr: nat, hi: nat)
      reads this, descs, freeBuddies
    {
      && AreLists(lo, descs[..], freeBuddies[..], lists) && Matching(lists, blocks)
      && Described(lo, descs[..], blocks, raw) && Tiled(blocks, lo, addr) && Maximal(blocks, hi)
      && Taken(blocks) == map[] && raw == (if allFlags then {} else blocks.Keys) && lo <= addr
      && forall i :: addr - lo <= i < descs.Length ==> !descs[i].vfree && !descs[i].buddy
    }

    lemma NothingFilled(pages: nat)
      requires AreLists(lo, descs[..], freeBuddies[..], lists) && Matching(lists, map[]) && raw == {} && blocks == map[]
      requires Described(lo, descs[..], map[], {}) && Tiled(map[], lo, lo) && Taken(map[]) == map[]
      requires Maximal(map[], lo + pages) && forall i :: 0 <= i < descs.Length ==> !descs[i].vfree && !descs[i].buddy
      ensures Filling(lo, lo + pages)
    {
      hide AreLists, Matching, Described, Tiled, Maximal, Taken;
    }

    lemma AllFilled(hi: nat)
      requires Filling(hi, hi) && hi == lo + descs.Length && descs.Length < MAX_PAGES
      ensures Valid() && Taken(blocks) == map[] && Maximal(blocks, hi) && raw == if allFlags then {} else blocks.Keys
    {
      hide AreLists, Matching, Described, Tiled, Maximal, Taken, NoFreePairs;
      MaximalNoPairs(blocks, lo, hi);
    }

    // The block size add_buddies picks at `addr` with `remaining` pages left.
    static method ChooseOrder(addr: nat, remaining: nat) returns (order: nat)
      requires 0 < remaining < MAX_PAGES
      ensures order < ORDER_COUNT && Pow2(order) <= remaining && Aligned(addr, order)
      ensures !(Aligned(addr, order + 1) && Pow2(order + 1) <= remaining)
    {
      hide Pow2, Log2, Aligned, And;
      PagesOrder(remaining);
      order := Min(Log2(remaining * PAGE_SIZE) - BUDDY_EXPON_MIN, ORDER_COUNT - 1);
      Pow2Step(order + 1);
      PageMask(addr, order);
      while order > 0 && And(addr * PAGE_SIZE, Pow2(order + BUDDY_EXPON_MIN) - 1) != 0
        invariant order < ORDER_COUNT && Pow2(order) <= remaining
        invariant And(addr * PAGE_SIZE, Pow2(order + BUDDY_EXPON_MIN) - 1) == 0 <==> Aligned(addr, order)
        invariant !(Aligned(addr, order + 1) && Pow2(order + 1) <= remaining)
      {
        Pow2Step(order);
        order := order - 1;
        PageMask(addr, order);
      }
      if order == 0 { AlignedZero(addr); }
    }

    // One turn of add_buddies: the descriptor at `addr` becomes the head of a free block.
    method AddBlock(addr: nat, order: nat, ghost hi: nat)
      requires Filling(addr, hi)
      requires lo <= addr < lo + descs.Length && order < ORDER_COUNT && Aligned(addr, order)
      requires !(Aligned(addr, order + 1) && Pow2(order + 1) <= hi - addr)
      modifies this, descs, freeBuddies
      ensures Filling(addr + Pow2(order), hi)
    {
      hide AreLists, Matching, Described, Tiled, Listed, Pow2, Aligned;
      ghost var d, f, ls, b := descs[..], freeBuddies[..], lists, blocks;
      ghost var x := Block(order, true, false);
      AppendTiled(b, lo, addr, order);
      AbsentNotListed(ls, b, addr);
      ghost var y := Desc(allFlags, allFlags, true, Pow2(order), addr, order, order, d[addr - lo].prev,
        d[addr - lo].next);
      ghost var raw' := if allFlags then raw else raw + {addr};
      MetaLists(lo, d, f, ls, addr, y);
      NewDescribed(lo, d, b, raw, raw', addr, y, x);
      if allFlags {
        descs[addr - lo] := descs[addr - lo].(vfree := true, buddy := true);
      }
      descs[addr - lo] := descs[addr - lo].(head := true, cache := order, order := order, virtAddr := addr,
        numPages := Pow2(order));
      assert descs[..] == d[addr - lo := y];
      ghost var d1 := descs[..];
      Add(order, addr);
      DescribedSame(lo, d1, descs[..], b[addr := x], raw');
      NewMatching(ls, b, addr, x);
      blocks := b[addr := x];
      raw := raw';
      assert forall i :: addr - lo < i < descs.Length ==> d1[i] == d[i];
    }

    // Links `p` in front of list `k`.
    method Push(k: nat, p: nat)
      requires k < freeBuddies.Length && lo <= p < lo + descs.Length
      requires freeBuddies[k].Some? ==> lo <= freeBuddies[k].value < lo + descs.Length
      modifies descs, freeBuddies
      ensures descs[..] == PushMem(lo, old(descs[..]), old(freeBuddies[k]), p)
      ensures freeBuddies[..] == old(freeBuddies[..])[k := Some(p)]
    {
      var first := freeBuddies[k];
      if first.Some? {
        descs[first.value - lo] := descs[first.value - lo].(prev := Some(p));
      }
      descs[p - lo] := descs[p - lo].(next := first);
      descs[p - lo] := descs[p - lo].(prev := None);
      freeBuddies[k] := Some(p);
    }

    // Takes `p` out of list `k`.
    method Unlink(k: nat, p: nat)
      requires k < freeBuddies.Length && lo <= p < lo + descs.Length
      requires descs[p - lo].next.Some? ==>
        lo <= descs[p - lo].next.value < lo + descs.Length && descs[p - lo].next.value != p
      requires descs[p - lo].prev.Some? ==>
        lo <= descs[p - lo].prev.value < lo + descs.Length && descs[p - lo].prev.value != p
      modifies descs, freeBuddies
      ensures descs[..] == UnlinkMem(lo, old(descs[..]), p)
      ensures
        var first := old(freeBuddies[k]);
        freeBuddies[..] == old(freeBuddies[..])[k := if first == Some(p) then old(descs[p - lo].next) else first]
    {
      var x := descs[p - lo];
      if x.next.Some? {
        descs[x.next.value - lo] := descs[x.next.value - lo].(prev := x.prev);
      }
      if x.prev.Some? {
        descs[x.prev.value - lo] := descs[x.prev.value - lo].(next := x.next);
      }
      if freeBuddies[k] == Some(p) {
        freeBuddies[k] := x.next;
      }
    }

    // Taking the element `j` of list `k` off, with the ghost lists.
    method Remove(k: nat, p: nat, ghost j: nat)
      requires AreLists(lo, descs[..], freeBuddies[..], lists) && k < ORDER_COUNT && j < |lists[k]| && p == lists[k][j]
      modifies this`lists, descs, freeBuddies
      ensures AreLists(lo, descs[..], freeBuddies[..], lists) && |lists| == |old(lists)| == ORDER_COUNT
      ensures lists == Without(old(lists), k, j)
      ensures SameMeta(old(descs[..]), descs[..])
    {
      hide AreLists, SameMeta, UnlinkMem;
      ghost var d, f := descs[..], freeBuddies[..];
      ListedIn(lo, d, f, lists, k, j);
      ListedLinks(lo, d, f, lists, k, j);
      UnlinkLists(lo, d, f, lists, k, j);
      UnlinkSameMeta(lo, d, p);
      Unlink(k, p);
      lists := Without(lists, k, j);
      ListsLength(lo, descs[..], freeBuddies[..], lists, k);
    }

    // Putting an unlisted page in front of list `k`, with the ghost lists.
    method Add(k: nat, p: nat)
      requires AreLists(lo, descs[..], freeBuddies[..], lists) && k < ORDER_COUNT && lo <= p < lo + descs.Length
      requires !Listed(lists, p)
      modifies this`lists, descs, freeBuddies
      ensures AreLists(lo, descs[..], freeBuddies[..], lists) && |old(lists)| == ORDER_COUNT
      ensures lists == old(lists)[k := [p] + old(lists)[k]]
      ensures SameMeta(old(descs[..]), descs[..])
    {
      hide AreLists, SameMeta, PushMem, Listed;
      ghost var d, f := descs[..], freeBuddies[..];
      ListsLength(lo, d, f, lists, k);
      PushLists(lo, d, f, lists, k, p);
      PushSameMeta(lo, d, f[k], p);
      Push(k, p);
      lists := lists[k := [p] + lists[k]];
    }

    // One turn of the splitting loop of alloc_buddy: the first block of list
    // `order` becomes two blocks of the next lower order.
    method SplitFirst(order: nat)
      requires 0 < order < ORDER_COUNT && |lists| == ORDER_COUNT && lists[order] != [] && Holds(Some(lists[order][0]))
      modifies this, descs, freeBuddies
      ensures |lists| == ORDER_COUNT && lists[order - 1] != [] && Holds(Some(lists[order - 1][0]))
      ensures Taken(blocks) == old(Taken(blocks)) && raw == old(raw)
      ensures lists[order - 1][0] == old(lists[order][0]) + Pow2(order - 1)
    {
      hide AreLists, Matching, Described, Tiled, NoFreePairs, SameMeta, Listed, Without, Pow2, Split, Taken, SplitDesc;
      ghost var d, f, ls, b := descs[..], freeBuddies[..], lists, blocks;
      ListsLength(lo, d, f, ls, order);
      var cur := freeBuddies[order].value;
      HeadIsFree(lo, d, ls, b, order);
      SplitMatching(lo, d, f, ls, b, cur);
      SplitInvariants(lo, d, b, raw, cur);
      SplitTaken(b, lo, lo + |d|, cur);

      Remove(order, cur, 0);
      DescribedSame(lo, d, descs[..], b, raw);
      WithoutMembers(lo, d, f, ls, order, 0);
      SplitDescribed(lo, descs[..], b, raw, cur);
      ghost var d1 := descs[..];
      MetaOf(lo, d1, b, raw, cur);

      var neighbor := descs[cur - lo].virtAddr + Pow2(order - 1);
      WriteHalves(cur, neighbor, order - 1);
      ghost var d3 := descs[..];

      Add(order - 1, cur);
      DescribedSame(lo, d3, descs[..], Split(b, cur), raw);
      ghost var d4 := descs[..];
      Add(order - 1, neighbor);
      DescribedSame(lo, d4, descs[..], Split(b, cur), raw);
      ghost var ls1 := Without(ls, order, 0);
      assert lists == ls1[order - 1 := [neighbor] + ([cur] + ls1[order - 1])];
      blocks := Split(b, cur);
    }

    // The descriptors of the two halves of an unlisted block.
    method WriteHalves(cur: nat, neighbor: nat, order: nat)
      requires AreLists(lo, descs[..], freeBuddies[..], lists) && !Listed(lists, cur) && !Listed(lists, neighbor)
      requires In(lo, descs[..], cur) && In(lo, descs[..], neighbor) && neighbor == cur + Pow2(order)
      modifies descs
      ensures AreLists(lo, descs[..], freeBuddies[..], lists)
      ensures descs[..] == SplitDesc(lo, old(descs[..]), cur, order)
    {
      hide AreLists, Listed, Pow2;
      ghost var d1 := descs[..];
      var half := descs[cur - lo].numPages / 2;
      MetaLists(lo, d1, freeBuddies[..], lists, cur, d1[cur - lo].(numPages := half, order := order, cache := order));
      descs[cur - lo] := descs[cur - lo].(numPages := half, order := order, cache := order);
      assert descs[..] == d1[cur - lo := descs[cur - lo]];
      ghost var d2 := descs[..];
      MetaLists(lo, d2, freeBuddies[..], lists, neighbor,
        Desc(true, true, true, half, neighbor, order, order, None, None));
      descs[neighbor - lo] := Desc(true, true, true, half, neighbor, order, order, None, None);
      assert descs[..] == d2[neighbor - lo := descs[neighbor - lo]];
    }

    // The end of alloc_buddy: the first block of list `order` is handed out.
    method TakeFirst(order: nat) returns (p: nat)
      requires order < ORDER_COUNT && |lists| == ORDER_COUNT && lists[order] != [] && Holds(Some(lists[order][0]))
      modifies this, descs, freeBuddies
      ensures Valid() && p !in old(Taken(blocks))
      ensures Taken(blocks) == old(Taken(blocks))[p := Block(order, false, false)]
      ensures p in blocks && blocks[p] == Block(order, false, false) && raw == old(raw) && p == old(lists[order][0])
    {
      hide AreLists, Matching, Described, Tiled, NoFreePairs, SameMeta, Listed, Without, Pow2, Taken;
      ghost var d, f, ls, b := descs[..], freeBuddies[..], lists, blocks;
      ListsLength(lo, d, f, ls, order);
      p := freeBuddies[order].value;
      HeadIsFree(lo, d, ls, b, order);
      ghost var b' := b[p := Block(order, false, false)];
      RetagTiled(b, lo, lo + |d|, p, Block(order, false, false));
      TakePairs(b, raw, p);
      TakeTaken(b, p, false);
      Remove(order, p, 0);
      DescribedSame(lo, d, descs[..], b, raw);
      ghost var d1 := descs[..];
      WithoutMembers(lo, d, f, ls, order, 0);
      WithoutMatching(ls, lists, b, p, Block(order, false, false));
      MetaLists(lo, d1, freeBuddies[..], lists, p, descs[p - lo].(vfree := false));
      RetagDescribed(lo, d1, b, raw, raw, p, d1[p - lo].(vfree := false), Block(order, false, false));
      descs[p - lo] := descs[p - lo].(vfree := false);
      assert descs[..] == d1[p - lo := d1[p - lo].(vfree := false)];
      blocks := b';
    }

    // alloc_buddy
    method AllocBuddy(size: nat) returns (r: Option<nat>)
      requires Valid() && size % PAGE_SIZE == 0 && IsPow2(size) && size < 0x1_0000_0000
      modifies this, descs, freeBuddies
      ensures Valid() && Log2(size) >= BUDDY_EXPON_MIN
      ensures
        var order := Log2(size) - BUDDY_EXPON_MIN;
        match r
        case Some(p) =>
          && p !in old(Taken(blocks)) && Taken(blocks) == old(Taken(blocks))[p := Block(order, false, false)]
          && p in blocks && blocks[p] == Block(order, false, false) && Pow2(order) * PAGE_SIZE == size
          && raw == old(raw)
          && (exists q :: TopOf(old(blocks), q, p, order) && BestFit(old(blocks), old(lists), q, order))
        case None =>
          && blocks == old(blocks) && raw == old(raw)
          && forall q <- blocks.Keys :: blocks[q].free ==> blocks[q].order < order
    {
      hide Inv, Taken, Pow2, IsPow2, Log2;
      SizeOrder(size);
      var order := Log2(size) - BUDDY_EXPON_MIN;
      var wanted := order;
      ghost var d, f := descs[..], freeBuddies[..];
      InvParts(lo, d, f, lists, blocks, raw, None);
      while order < ORDER_COUNT && freeBuddies[order].None?
        invariant wanted <= order <= ORDER_COUNT
        invariant forall k: nat :: wanted <= k < order ==> freeBuddies[k].None?
      {
        order := order + 1;
      }
      if order == ORDER_COUNT {
        NoneFree(lo, d, f, lists, blocks, raw, wanted);
        return None;
      }
      FirstMayPair(lo, d, f, lists, blocks, raw, order);
      FirstFits(lo, d, f, lists, blocks, raw, wanted, order);
      ghost var q := lists[order][0];
      ghost var end := q + Pow2(order);
      while order != wanted
        invariant wanted <= order < ORDER_COUNT && |lists| == ORDER_COUNT && lists[order] != []
        invariant Holds(Some(lists[order][0]))
        invariant raw == old(raw) && lists[order][0] + Pow2(order) == end
        invariant Taken(blocks) == old(Taken(blocks))
        decreases order
      {
        Pow2Step(order);
        SplitFirst(order);
        order := order - 1;
      }
      var p := TakeFirst(order);
      assert TopOf(old(blocks), q, p, wanted) && BestFit(old(blocks), old(lists), q, wanted);
      r := Some(p);
    }

    // resolve_merge: the merged block, or None. It merges exactly where the buddy is free
    // and its head carries all flags.
    method ResolveMerge(p: nat, order: nat) returns (r: Option<nat>)
      requires Holds(Some(p)) && p in blocks && blocks[p].free && blocks[p].order == order && p !in raw
      modifies this, descs, freeBuddies
      ensures Taken(blocks) == old(Taken(blocks)) && raw == old(raw)
      ensures r.Some? <==> old(FreePair(blocks, raw, p))
      ensures r.None? ==> Valid() && blocks == old(blocks)
      ensures r.Some? ==> Holds(r) && r.value in blocks && blocks[r.value].free && blocks[r.value].order == order + 1
      ensures r.Some? ==> r.value !in raw && order + 1 < ORDER_COUNT
    {
      hide AreLists, Matching, Described, Tiled, NoFreePairs, SameMeta, Listed, Without, Pow2, Taken, Xor, FreePair,
        FreeBuddies;
      ghost var d, f, ls, b := descs[..], freeBuddies[..], lists, blocks;
      BlockIn(lo, d, b, p);
      MetaOf(lo, d, b, raw, p);
      MergeTest(lo, d, b, raw, p);
      var neighbor := Xor(descs[p - lo].virtAddr, Pow2(order));
      if neighbor < lo || neighbor >= lo + descs.Length {
        StopPairs(b, raw, lo, lo + |d|, p);
        return None;
      }
      var x := descs[neighbor - lo];
      if !(x.vfree && x.buddy && x.head) || x.numPages != descs[p - lo].numPages {
        StopPairs(b, raw, lo, lo + |d|, p);
        return None;
      }
      BothWhole(b, raw, p);
      LowerBuddy(b, lo, lo + |d|, p);
      var low := if neighbor < p then neighbor else p;
      var up := if neighbor < p then p else neighbor;
      FreeNotSlab(lo, d, b, raw, low);
      FreeNotSlab(lo, d, b, raw, up);
      MergePair(low, up, order, p);
      r := Some(low);
    }

    // Both blocks leave their list.
    method RemovePair(low: nat, up: nat, order: nat)
      requires AreLists(lo, descs[..], freeBuddies[..], lists) && Matching(lists, blocks) && low != up
      requires order < ORDER_COUNT
      requires low in blocks && blocks[low] == Block(order, true, false) && up in blocks
      requires blocks[up] == Block(order, true, false)
      modifies this`lists, descs, freeBuddies
      ensures AreLists(lo, descs[..], freeBuddies[..], lists) && SameMeta(old(descs[..]), descs[..])
      ensures |lists| == |old(lists)| == ORDER_COUNT
      ensures forall i: nat, q :: i < ORDER_COUNT ==> (q in lists[i] <==> q in old(lists)[i] && q != low && q != up)
    {
      hide AreLists, Matching, Without;
      ghost var d, f, ls, b := descs[..], freeBuddies[..], lists, blocks;
      ghost var j := IndexOf(ls, b, low);
      ListsLength(lo, d, f, ls, order);
      Remove(order, low, j);
      WithoutMembers(lo, d, f, ls, order, j);
      ghost var d1, f1, ls1 := descs[..], freeBuddies[..], lists;
      ghost var j1 := IndexIn(ls, ls1, b, low, up);
      Remove(order, up, j1);
      WithoutMembers(lo, d1, f1, ls1, order, j1);
    }

    // The descriptors of two buddies become that of one block.
    method WriteMerged(low: nat, up: nat, order: nat)
      requires AreLists(lo, descs[..], freeBuddies[..], lists) && In(lo, descs[..], low) && In(lo, descs[..], up)
      modifies descs
      ensures AreLists(lo, descs[..], freeBuddies[..], lists)
      ensures descs[..] == MergeDesc(lo, old(descs[..]), low, up, order)
    {
      hide AreLists;
      ghost var d2 := descs[..];
      MetaLists(lo, d2, freeBuddies[..], lists, up, d2[up - lo].(head := false));
      descs[up - lo] := descs[up - lo].(head := false);
      assert descs[..] == d2[up - lo := d2[up - lo].(head := false)];
      ghost var d3 := descs[..];
      ghost var x := d3[low - lo].(cache := order + 1, order := order + 1, numPages := 2 * d3[low - lo].numPages);
      MetaLists(lo, d3, freeBuddies[..], lists, low, x);
      descs[low - lo] := descs[low - lo].(cache := order + 1, order := order + 1,
        numPages := 2 * descs[low - lo].numPages);
      assert descs[..] == d3[low - lo := x];
    }

    // The writes of resolve_merge once the buddy is known to be free.
    method MergePair(low: nat, up: nat, order: nat, ghost c: nat)
      requires Holds(Some(c)) && (c == low || c == up) && low in blocks && up in blocks && up == low + Pow2(order)
      requires blocks[low] == Block(order, true, false) && blocks[up] == Block(order, true, false)
      requires Aligned(low, order + 1)
      requires low !in raw && up !in raw
      modifies this, descs, freeBuddies
      ensures Taken(blocks) == old(Taken(blocks)) && raw == old(raw) && order + 1 < ORDER_COUNT
      ensures Holds(Some(low)) && low in blocks && blocks[low] == Block(order + 1, true, false)
    {
      hide AreLists, Matching, Described, Tiled, NoFreePairs, SameMeta, Listed, Without, Pow2, Taken, Aligned,
        MergeDesc;
      ghost var d, f, ls, b := descs[..], freeBuddies[..], lists, blocks;
      BlockIn(lo, d, b, low);
      BlockIn(lo, d, b, up);
      MergeTiled(b, lo, lo + |d|, low);
      MergePairs(b, raw, low, c);
      MergeTaken(b, low);

      RemovePair(low, up, order);
      DescribedSame(lo, d, descs[..], b, raw);
      ghost var d2, ls2 := descs[..], lists;
      MergeMatching(ls, ls2, b, low);
      MergeDescribed(lo, d2, b, raw, low);
      WriteMerged(low, up, order);
      ghost var d4 := descs[..];
      NotListed(ls2, low);
      Add(order + 1, low);
      DescribedSame(lo, d4, descs[..], Merge(b, low), raw);
      blocks := Merge(b, low);
    }

    // merge_upwards
    method MergeUpwards(p: nat, order: nat)
      requires Holds(Some(p)) && p in blocks && blocks[p].free && blocks[p].order == order && p !in raw
      modifies this, descs, freeBuddies
      ensures Valid() && Taken(blocks) == old(Taken(blocks)) && raw == old(raw)
      ensures !old(FreePair(blocks, raw, p)) ==> blocks == old(blocks)
    {
      hide Inv, Taken, FreePair;
      InvParts(lo, descs[..], freeBuddies[..], lists, blocks, raw, Some(p));
      var cur, k := Some(p), order;
      while cur.Some?
        invariant Taken(blocks) == old(Taken(blocks)) && raw == old(raw)
        invariant cur.None? ==> Valid()
        invariant !old(FreePair(blocks, raw, p)) ==> blocks == old(blocks) && (cur.Some? ==> cur.value == p)
        invariant cur.Some? ==> cur.value !in raw
        invariant cur.Some? ==>
          Holds(cur) && cur.value in blocks && blocks[cur.value].free && blocks[cur.value].order == k < ORDER_COUNT
        decreases if cur.Some? then ORDER_COUNT - k else -1
      {
        cur := ResolveMerge(cur.value, k);
        k := k + 1;
      }
    }

    // free_buddy; its assertions are the precondition.
    method FreeBuddy(p: nat)
      requires Valid() && p in blocks && !blocks[p].free && !blocks[p].slab && p !in raw
      modifies this, descs, freeBuddies
      ensures Valid() && Taken(blocks) == old(Taken(blocks)) - {p} && raw == old(raw)
      ensures
        var b := old(blocks)[p := Block(old(blocks)[p].order, true, false)];
        blocks == b <==> !FreePair(b, raw, p)
    {
      hide AreLists, Matching, Described, Tiled, NoFreePairs, SameMeta, Listed, Pow2, Taken, Log2, FreePair;
      ghost var d, f, ls, b := descs[..], freeBuddies[..], lists, blocks;
      BlockIn(lo, d, b, p);
      MetaAll(lo, d, b, raw, p);
      var order := Log2(descs[p - lo].numPages);
      Log2Pow2(b[p].order);
      ghost var x := Block(order, true, false);
      RetagTiled(b, lo, lo + |d|, p, x);
      GivePairs(b, raw, p);
      GiveTaken(b, p);
      TakenNotListed(ls, b, p);
      MetaLists(lo, d, f, ls, p, d[p - lo].(vfree := true, virtAddr := p, order := order));
      RetagDescribed(lo, d, b, raw, raw, p, d[p - lo].(vfree := true, virtAddr := p, order := order), x);
      descs[p - lo] := descs[p - lo].(vfree := true, virtAddr := p, order := order);
      assert descs[..] == d[p - lo := d[p - lo].(vfree := true, virtAddr := p, order := order)];
      ghost var d1 := descs[..];
      Add(order, p);
      DescribedSame(lo, d1, descs[..], b[p := x], raw);
      AddMatching(ls, b, p, x);
      blocks := b[p := x];
      MergeUpwards(p, order);
      NoPairAt(blocks, raw, p);
    }

    // The BUDDY flag of a block's head: cleared when the block becomes a slab, set when it stops being one.
    method TagSlab(p: nat, slab: bool)
      requires Valid() && p in blocks && !blocks[p].free
      modifies this`blocks, this`raw, descs
      ensures Valid() && raw == (if slab then old(raw) else old(raw) - {p})
      ensures blocks == old(blocks)[p := Block(old(blocks)[p].order, false, slab)]
      ensures Taken(blocks) == old(Taken(blocks))[p := Block(old(blocks)[p].order, false, slab)]
    {
      hide AreLists, Matching, Described, Tiled, NoFreePairs, Pow2;
      ghost var d, f, ls, b := descs[..], freeBuddies[..], lists, blocks;
      BlockIn(lo, d, b, p);
      ghost var y := Block(b[p].order, false, slab);
      MetaAll(lo, d, b, raw, p);
      RetagTiled(b, lo, lo + |d|, p, y);
      ghost var raw' := if slab then raw else raw - {p};
      TagPairs(b, raw, raw', p, y);
      TagMatching(ls, b, p, y);
      MetaLists(lo, d, f, ls, p, d[p - lo].(buddy := !slab));
      RetagDescribed(lo, d, b, raw, raw', p, d[p - lo].(buddy := !slab), y);
      descs[p - lo] := descs[p - lo].(buddy := !slab);
      assert descs[..] == d[p - lo := d[p - lo].(buddy := !slab)];
      blocks := b[p := y];
      raw := raw';
    }
  }

  // A heap of two pages: one page is taken and given back, then both are wanted. With the
  // flags of line 147 the two free pages never become one block again.
  method UnmergedRun(allFlags: bool) returns (first: Option<nat>, both: Option<nat>)
    ensures first == Some(1) && (both == if allFlags then Some(0) else None)
  {
    hide Inv, Taken, Pow2, IsPow2, Log2, Tiled, Maximal;
    TwoPageSizes();
    var h;
    h, first := UpperPage(allFlags);
    h.FreeBuddy(1);
    HeapTiled(h);
    TwoPages(h.blocks);
    ghost var b := h.blocks;
    TakenNone(b);
    both := h.AllocBuddy(8192);
    ghost var q' :| both.Some? ==> TopOf(b, q', both.value, 1);
  }

  // The upper of two pages is taken.
  method UpperPage(allFlags: bool) returns (h: BuddyHeap, first: Option<nat>)
    ensures fresh(h) && fresh(h.descs) && fresh(h.freeBuddies) && h.Valid() && h.allFlags == allFlags
    ensures h.lo == 0 && h.descs.Length == 2 && h.raw == if allFlags then {} else {0}
    ensures first == Some(1) && h.blocks.Keys == {0, 1}
    ensures h.blocks[0].free && h.blocks[0].order == 0 && h.blocks[1] == Block(0, false, false)
    ensures Taken(h.blocks) == map[1 := Block(0, false, false)]
  {
    hide Inv, Taken, Pow2, IsPow2, Log2, Tiled, Maximal;
    TwoPageSizes();
    h := new BuddyHeap(0, 2, allFlags);
    HeapTiled(h);
    OneTile(h.blocks, 1);
    ghost var b0 := h.blocks;
    first := h.AllocBuddy(4096);
    HeapTiled(h);
    TwoPages(h.blocks);
    ghost var q :| first.Some? ==> TopOf(b0, q, first.value, 0);
    TakenOnly(h.blocks, 1, Block(0, false, false));
  }

  lemma TwoPageSizes()
    ensures IsPow2(4096) && Log2(4096) == 12 && IsPow2(8192) && Log2(8192) == 13 && Pow2(0) == 1 && Pow2(1) == 2
  {
    Pow2Twelve();
    Log2Pow2(12);
    Log2Pow2(13);
  }

  lemma HeapTiled(h: BuddyHeap)
    requires h.Valid()
    ensures Tiled(h.blocks, h.lo, h.lo + h.descs.Length) && NoFreePairs(h.blocks, h.raw, None) && h.raw <= h.blocks.Keys
  {
  }

  lemma TakenOnly(b: Blocks, p: nat, x: Block)
    requires Taken(b) == map[p := x]
    ensures p in b && b[p] == x && forall q <- b.Keys :: q != p ==> b[q].free
  {
    assert p in Taken(b) && Taken(b)[p] == x;
    assert forall q <- b.Keys :: !b[q].free ==> q in Taken(b);
  }

  lemma TakenNone(b: Blocks)
    requires Taken(b) == map[]
    ensures forall q <- b.Keys :: b[q].free
  {
    assert forall q <- b.Keys :: !b[q].free ==> q in Taken(b);
  }

  lemma NoPairAt(b: Blocks, raw: set<nat>, p: nat)
    requires NoFreePairs(b, raw, None)
    ensures !FreePair(b, raw, p)
  {
  }

  lemma BothWhole(b: Blocks, raw: set<nat>, p: nat)
    requires FreePair(b, raw, p)
    ensures FreeBuddies(b, p) && p !in raw && BuddyOf(p, b[p].order) !in raw
  {
  }

  lemma ListsLength(lo: nat, d: seq<Desc>, f: Heads, ls: Lists, k: nat)
    requires AreLists(lo, d, f, ls) && k < ORDER_COUNT
    ensures |f| == |ls| == ORDER_COUNT && f[k] == (if ls[k] == [] then None else Some(ls[k][0]))
    ensures f[k].Some? ==> In(lo, d, f[k].value)
  {
    assert IsList(lo, d, f[k], ls[k]);
    if ls[k] != [] { assert Linked(lo, d, ls[k], 0); }
  }

  lemma ListedLinks(lo: nat, d: seq<Desc>, f: Heads, ls: Lists, k: nat, j: nat)
    requires AreLists(lo, d, f, ls) && k < ORDER_COUNT && j < |ls[k]|
    ensures |f| == |ls| == ORDER_COUNT && In(lo, d, ls[k][j])
    ensures
      var p := ls[k][j];
      var x := d[p - lo];
      && (x.next.Some? ==> In(lo, d, x.next.value) && x.next.value != p)
      && (x.prev.Some? ==> In(lo, d, x.prev.value) && x.prev.value != p)
  {
    assert IsList(lo, d, f[k], ls[k]);
    assert Linked(lo, d, ls[k], j);
    if j > 0 { assert Linked(lo, d, ls[k], j - 1); }
    if j + 1 < |ls[k]| { assert Linked(lo, d, ls[k], j + 1); }
  }

  lemma HeadIsFree(lo: nat, d: seq<Desc>, ls: Lists, b: Blocks, k: nat)
    requires Matching(ls, b) && k < ORDER_COUNT && ls[k] != []
    ensures ls[k][0] in b && b[ls[k][0]].free && b[ls[k][0]].order == k
  {
    assert ls[k][0] in ls[k];
  }

  lemma SplitInvariants(lo: nat, d: seq<Desc>, b: Blocks, raw: set<nat>, p: nat)
    requires Tiled(b, lo, lo + |d|) && p in b && b[p].order > 0 && b[p].free && NoFreePairs(b, raw, Some(p))
    requires raw <= b.Keys
    ensures raw <= Split(b, p).Keys
    ensures Tiled(Split(b, p), lo, lo + |d|) && NoFreePairs(Split(b, p), raw, Some(p + Pow2(b[p].order - 1)))
    ensures In(lo, d, p)
  {
    hide Tiled, NoFreePairs, Pow2;
    BlockIn(lo, d, b, p);
    SplitTiled(b, lo, lo + |d|, p);
    SplitPairs(b, raw, lo, lo + |d|, p);
  }

  lemma MetaOf(lo: nat, d: seq<Desc>, b: Blocks, raw: set<nat>, p: nat)
    requires Described(lo, d, b, raw) && In(lo, d, p) && p in b
    ensures d[p - lo].virtAddr == p
  {
  }

  lemma InvParts(lo: nat, d: seq<Desc>, f: Heads, ls: Lists, b: Blocks, raw: set<nat>, c: Option<nat>)
    requires Inv(lo, d, f, ls, b, raw, c)
    ensures |f| == |ls| == ORDER_COUNT && forall p <- b.Keys :: b[p].order < ORDER_COUNT
  {
  }

  lemma FreeNotSlab(lo: nat, d: seq<Desc>, b: Blocks, raw: set<nat>, p: nat)
    requires Described(lo, d, b, raw) && Tiled(b, lo, lo + |d|) && p in b && b[p].free
    ensures b[p] == Block(b[p].order, true, false)
  {
    assert In(lo, d, p);
  }

  // A block lies in the heap and has a list.
  lemma BlockIn(lo: nat, d: seq<Desc>, b: Blocks, p: nat)
    requires Tiled(b, lo, lo + |d|) && p in b
    ensures In(lo, d, p) && b[p].order < ORDER_COUNT
  {
  }

  lemma MetaAll(lo: nat, d: seq<Desc>, b: Blocks, raw: set<nat>, p: nat)
    requires Described(lo, d, b, raw) && In(lo, d, p) && p in b
    ensures d[p - lo].head && d[p - lo].virtAddr == p && d[p - lo].numPages == Pow2(b[p].order)
    ensures d[p - lo].buddy == (!b[p].slab && p !in raw) && d[p - lo].vfree == (b[p].free && p !in raw)
    ensures d[p - lo].order == d[p - lo].cache == b[p].order
  {
  }

  lemma RetagDescribed(lo: nat, d: seq<Desc>, b: Blocks, raw: set<nat>, raw': set<nat>, p: nat, x: Desc, y: Block)
    requires Described(lo, d, b, raw) && (raw' == raw || raw' == raw - {p}) && In(lo, d, p) && p in b
    requires y.order == b[p].order && !(y.free && y.slab)
    requires x.head && x.numPages == d[p - lo].numPages && x.order == y.order && x.cache == d[p - lo].cache
    requires x.virtAddr == p
    requires x.vfree == (y.free && p !in raw') && x.buddy == (!y.slab && p !in raw')
    ensures Described(lo, d[p - lo := x], b[p := y], raw')
  {
  }

  lemma WithoutMatching(ls: Lists, ls': Lists, b: Blocks, p: nat, x: Block)
    requires Matching(ls, b) && p in b && |ls'| == ORDER_COUNT && !x.free
    requires forall i: nat, q :: i < ORDER_COUNT ==> (q in ls'[i] <==> q in ls[i] && q != p)
    ensures Matching(ls', b[p := x])
  {
  }

  lemma AddMatching(ls: Lists, b: Blocks, p: nat, x: Block)
    requires Matching(ls, b) && p in b && !b[p].free && x.free && x.order < ORDER_COUNT
    ensures Matching(ls[x.order := [p] + ls[x.order]], b[p := x])
  {
  }

  lemma TakenNotListed(ls: Lists, b: Blocks, p: nat)
    requires Matching(ls, b) && p in b && !b[p].free
    ensures !Listed(ls, p)
  {
  }

  lemma NotListed(ls: Lists, p: nat)
    requires |ls| == ORDER_COUNT && forall i: nat :: i < ORDER_COUNT ==> p !in ls[i]
    ensures !Listed(ls, p)
  {
  }

  lemma IndexOf(ls: Lists, b: Blocks, p: nat) returns (j: nat)
    requires Matching(ls, b) && p in b && b[p].free && b[p].order < ORDER_COUNT
    ensures |ls| == ORDER_COUNT && j < |ls[b[p].order]| && ls[b[p].order][j] == p
  {
    assert p in ls[b[p].order];
    j :| 0 <= j < |ls[b[p].order]| && ls[b[p].order][j] == p;
  }

  lemma IndexIn(ls: Lists, ls1: Lists, b: Blocks, low: nat, up: nat) returns (j: nat)
    requires Matching(ls, b) && |ls1| == ORDER_COUNT && up in b && b[up].free && b[up].order < ORDER_COUNT && up != low
    requires forall i: nat, q :: i < ORDER_COUNT ==> (q in ls1[i] <==> q in ls[i] && q != low)
    ensures j < |ls1[b[up].order]| && ls1[b[up].order][j] == up
  {
    assert up in ls[b[up].order];
    j :| 0 <= j < |ls1[b[up].order]| && ls1[b[up].order][j] == up;
  }

  lemma NoneFree(lo: nat, d: seq<Desc>, f: Heads, ls: Lists, b: Blocks, raw: set<nat>, k: nat)
    requires Inv(lo, d, f, ls, b, raw, None) && |f| == ORDER_COUNT
    requires forall i: nat :: k <= i < ORDER_COUNT ==> f[i].None?
    ensures forall q <- b.Keys :: b[q].free ==> b[q].order < k
  {
    forall q | q in b && b[q].free ensures b[q].order < k {
      BlockIn(lo, d, b, q);
      ListsLength(lo, d, f, ls, b[q].order);
      assert q in ls[b[q].order];
    }
  }

  lemma FirstFits(lo: nat, d: seq<Desc>, f: Heads, ls: Lists, b: Blocks, raw: set<nat>, wanted: nat, k: nat)
    requires Inv(lo, d, f, ls, b, raw, None) && wanted <= k < ORDER_COUNT && |f| == |ls| == ORDER_COUNT && ls[k] != []
    requires forall i: nat :: wanted <= i < k ==> f[i].None?
    ensures BestFit(b, ls, ls[k][0], wanted)
  {
    hide Described, Tiled, NoFreePairs;
    HeadIsFree(lo, d, ls, b, k);
    forall i: nat | wanted <= i < k ensures ls[i] == [] { ListsLength(lo, d, f, ls, i); }
    assert forall q <- b.Keys :: b[q].free && b[q].order < k ==> q in ls[b[q].order];
  }

  lemma FirstMayPair(lo: nat, d: seq<Desc>, f: Heads, ls: Lists, b: Blocks, raw: set<nat>, k: nat)
    requires Inv(lo, d, f, ls, b, raw, None) && k < ORDER_COUNT && |f| == ORDER_COUNT && f[k].Some?
    ensures |ls| == ORDER_COUNT && ls[k] != [] && Inv(lo, d, f, ls, b, raw, Some(ls[k][0]))
    ensures ls[k][0] in b && b[ls[k][0]].free && b[ls[k][0]].order == k
  {
    assert |ls| == ORDER_COUNT && ls[k] != [] ==> ls[k][0] in ls[k];
    ListsLength(lo, d, f, ls, k);
  }

  lemma SizeOrder(size: nat)
    requires size % PAGE_SIZE == 0 && IsPow2(size) && size < 0x1_0000_0000
    ensures BUDDY_EXPON_MIN <= Log2(size) < BUDDY_EXPON_MIN + ORDER_COUNT
    ensures Pow2(Log2(size) - BUDDY_EXPON_MIN) * PAGE_SIZE == size
  {
    hide Log2, IsPow2, Pow2;
    var e := Log2(size);
    Pow2Log2(size);
    Pow2Step(12);
    Pow2Twelve();
    if e < 12 { Pow2Mono(e, 11); }
    if e >= 32 { Pow2Mono(32, e); }
    Pow2Add(e - 12);
  }

  lemma Pow2Twelve()
    ensures Pow2(11) == 2048 && Pow2(12) == 4096 && Pow2(32) == 0x1_0000_0000
  {
    assert Pow2(4) == 16 && Pow2(8) == 16 * Pow2(4) && Pow2(11) == 8 * Pow2(8);
    assert Pow2(12) == 2 * Pow2(11) && Pow2(16) == 16 * Pow2(12) && Pow2(20) == 16 * Pow2(16);
    assert Pow2(24) == 16 * Pow2(20) && Pow2(28) == 16 * Pow2(24) && Pow2(32) == 16 * Pow2(28);
  }

  lemma {:induction false} Pow2Add(k: nat)
    ensures Pow2(k + 12) == Pow2(k) * PAGE_SIZE
  {
    if k == 0 { Pow2Twelve(); } else { Pow2Add(k - 1); }
  }

  lemma EmptyHeap(lo: nat, d: seq<Desc>, f: Heads, ls: Lists)
    requires |f| == |ls| == ORDER_COUNT && (forall k: nat :: k < ORDER_COUNT ==> f[k].None? && ls[k] == [])
    requires forall i :: 0 <= i < |d| ==> !d[i].head
    ensures AreLists(lo, d, f, ls) && Matching(ls, map[]) && Described(lo, d, map[], {})
    ensures Tiled(map[], lo, lo) && Taken(map[]) == map[] && forall hi: nat :: Maximal(map[], hi)
  {
  }

  lemma AbsentNotListed(ls: Lists, b: Blocks, p: nat)
    requires Matching(ls, b) && p !in b
    ensures !Listed(ls, p)
  {
  }

  lemma NewDescribed(lo: nat, d: seq<Desc>, b: Blocks, raw: set<nat>, raw': set<nat>, p: nat, x: Desc, y: Block)
    requires Described(lo, d, b, raw) && (raw' == raw || raw' == raw + {p}) && p !in raw && In(lo, d, p) && y.free
    requires !y.slab
    requires x.head && x.numPages == Pow2(y.order) && x.order == x.cache == y.order && x.virtAddr == p
    requires x.vfree == x.buddy == (p !in raw')
    ensures Described(lo, d[p - lo := x], b[p := y], raw')
  {
  }

  lemma NewMatching(ls: Lists, b: Blocks, p: nat, x: Block)
    requires Matching(ls, b) && p !in b && x.free && x.order < ORDER_COUNT
    ensures Matching(ls[x.order := [p] + ls[x.order]], b[p := x])
  {
  }

  lemma PagesOrder(r: nat)
    requires 0 < r < MAX_PAGES
    ensures BUDDY_EXPON_MIN <= Log2(r * PAGE_SIZE) < BUDDY_EXPON_MIN + 19
    ensures Pow2(Log2(r * PAGE_SIZE) - BUDDY_EXPON_MIN) <= r < Pow2(Log2(r * PAGE_SIZE) - BUDDY_EXPON_MIN + 1)
  {
    hide Pow2, Log2;
    var e := Log2(r * PAGE_SIZE);
    Pow2Twelve();
    Pow2Step(12);
    if e < 12 { Pow2Mono(e, 11); }
    Pow2Add(e - 12);
    Pow2Step(e - 11);
    SmallOrder(e - 12);
  }

  // The byte mask tests the alignment of the page number.
  lemma PageMask(addr: nat, k: nat)
    ensures Pow2(k + BUDDY_EXPON_MIN) > 0
    ensures And(addr * PAGE_SIZE, Pow2(k + BUDDY_EXPON_MIN) - 1) == 0 <==> Aligned(addr, k)
  {
    hide Pow2, And;
    Log2Pow2(k + 12);
    AndMask(addr * PAGE_SIZE, Pow2(k + 12));
    AlignedMod(addr * PAGE_SIZE, k + 12);
    AlignedShift(addr, k, 12);
    Pow2Twelve();
    PageShift(addr);
  }

  lemma {:induction false} AlignedShift(p: nat, k: nat, n: nat)
    ensures Aligned(Pow2(n) * p, k + n) <==> Aligned(p, k)
  {
    if n > 0 {
      AlignedShift(p, k, n - 1);
      AlignedDouble(Pow2(n - 1) * p, k + n - 1);
      assert 2 * (Pow2(n - 1) * p) == Pow2(n) * p;
    }
  }

  lemma PageShift(p: nat)
    ensures Pow2(12) * p == p * PAGE_SIZE
  {
    Pow2Twelve();
  }

  lemma TagPairs(b: Blocks, raw: set<nat>, raw': set<nat>, p: nat, y: Block)
    requires p in b && NoFreePairs(b, raw, None) && !b[p].free && !y.free && (raw' == raw || raw' == raw - {p})
    ensures NoFreePairs(b[p := y], raw', None)
  {
    hide Xor;
    var b' := b[p := y];
    assert forall x <- b'.Keys :: FreePair(b', raw', x) ==> FreePair(b, raw, x);
  }

  lemma TagMatching(ls: Lists, b: Blocks, p: nat, y: Block)
    requires p in b && Matching(ls, b) && !b[p].free && !y.free
    ensures Matching(ls, b[p := y])
  {
  }
}
