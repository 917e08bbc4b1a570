/** Early mapping of physical memory: the bitmap allocator and the page-table mapper
    together. Both take their frames from the same bitmap. */
module EarlyMap {
  import opened Defs
  import opened Paging
  import Bitmap

  // The pages from v on are mapped to the frames fs, which were free at the start, are
  // pairwise distinct, and are now neither free nor page tables; nothing else is mapped anew.
  ghost predicate Backed(m0: Frames, g0: seq<bv8>, m: Frames, g: seq<bv8>, dir: nat, v: nat, fs: seq<nat>, flags: nat) {
    && (forall w: nat :: w < MAPPABLE_PAGES ==>
          Page(m, dir, w) == if v <= w < v + |fs| then Some(FrameEntry(fs[w - v], flags)) else Page(m0, dir, w))
    && (forall k :: 0 <= k < |fs| ==> Bitmap.Free(g0, fs[k]) && !Bitmap.Free(g, fs[k]) && Spare(m, dir, fs[k]))
    && (forall k, l :: 0 <= k < l < |fs| ==> fs[k] != fs[l])
  }

  ghost predicate Fewer(g0: seq<bv8>, g: seq<bv8>) {
    forall f: nat :: Bitmap.Free(g, f) ==> Bitmap.Free(g0, f)
  }

  function Range(start: nat, n: nat): (fs: seq<nat>)
    ensures |fs| == n
  {
    seq(n, i requires 0 <= i < n => start + i)
  }

  // One turn: a run from the bitmap, then its pages mapped.
  lemma BackedStep(m0: Frames, g0: seq<bv8>, m1: Frames, g1: seq<bv8>, g2: seq<bv8>, m3: Frames, g3: seq<bv8>,
                   dir: nat, v: nat, fs: seq<nat>, flags: nat, start: nat, n: nat)
    requires Backed(m0, g0, m1, g1, dir, v, fs, flags) && Fewer(g0, g1) && Pool(m1, dir, g1)
    requires Bitmap.Took(g1, g2, start, n) && v + |fs| + n <= MAPPABLE_PAGES
    requires Mapped(m1, m3, dir, v + |fs|, start, n, flags) && Keeps(m1, g2, m3, g3, dir)
    ensures Backed(m0, g0, m3, g3, dir, v, fs + Range(start, n), flags)
  {
    hide Page, FrameEntry, Spare, Bitmap.Free;
    var fs' := fs + Range(start, n);
    forall w: nat | w < MAPPABLE_PAGES
      ensures Page(m3, dir, w) == if v <= w < v + |fs'| then Some(FrameEntry(fs'[w - v], flags)) else Page(m0, dir, w)
    {
      if v + |fs| <= w < v + |fs| + n { assert fs'[w - v] == start + (w - (v + |fs|)); }
    }
    assert forall k :: |fs| <= k < |fs'| ==> fs'[k] == start + (k - |fs|);
  }

  // The n pages from v on are mapped to the frames from s on, or fewer when not complete.
  ghost predicate MappedPart(m0: Frames, m: Frames, dir: nat, v: nat, s: nat, n: nat, complete: bool, flags: nat) {
    exists k: nat :: (if complete then k == n else k < n) && Mapped(m0, m, dir, v, s, k, flags)
  }

  lemma PartOf(m0: Frames, m: Frames, dir: nat, v: nat, s: nat, n: nat, complete: bool, flags: nat)
    requires complete ==> Mapped(m0, m, dir, v, s, n, flags)
    requires !complete ==> exists k: nat :: k < n && Mapped(m0, m, dir, v, s, k, flags)
    ensures MappedPart(m0, m, dir, v, s, n, complete, flags)
  {
    hide Mapped;
  }

  // One turn of early_alloc_and_map: a run of pages is taken and mapped at `cur`. `g` is
  // the bitmap in between.
  method MapNext(space: AddressSpace, cur: nat, wanted: nat, flags: nat)
    returns (start: nat, n: nat, ok: bool, ghost g: seq<bv8>)
    requires space.Valid() && cur % PAGE_SIZE == 0 && cur / PAGE_SIZE + wanted <= MAPPABLE_PAGES && wanted > 0
    requires space.frames.groups.Length <= Bitmap.MAX_GROUPS
    modifies space`mem, space.frames.groups
    ensures space.Valid() && n <= wanted && n <= old(FreeFrames(space))
    ensures Bitmap.Took(old(space.frames.groups[..]), g, start, n)
    ensures forall s: nat :: Bitmap.FirstRun(old(space.frames.groups[..]), space.frames.hint, s, wanted) ==>
      start == s && n == wanted
    ensures n == 0 ==>
      space.mem == old(space.mem) && space.frames.groups[..] == g && space.Exhausted() && old(FreeFrames(space)) == 0
    ensures n > 0 ==> Keeps(old(space.mem), g, space.mem, space.frames.groups[..], space.dir)
    ensures n > 0 ==>
      MappedPart(old(space.mem), space.mem, space.dir, cur / PAGE_SIZE, start, n, ok, HwFlags(WithPresent(flags)))
    ensures n > 0 && ok ==>
      Mapped(old(space.mem), space.mem, space.dir, cur / PAGE_SIZE, start, n, HwFlags(WithPresent(flags)))
    ensures n > 0 ==> (ok <==> n + old(|Missing(space.mem, space.dir, cur / PAGE_SIZE, n)|) <= old(FreeFrames(space)))
    ensures n > 0 && ok ==>
      FreeFrames(space) + n + old(|Missing(space.mem, space.dir, cur / PAGE_SIZE, n)|) == old(FreeFrames(space))
    ensures n > 0 && ok ==> Grown(old(space.mem), space.mem, space.dir, cur / PAGE_SIZE, n)
    ensures n > 0 && !ok ==> space.Exhausted()
  {
    hide Page, Mapped, Keeps, Tables, AllSlots, SameTables, Bitmap.Free, Spare, HwFlags, WithPresent, Translate,
      Bitmap.FreeFrom, Bitmap.FirstRun, Missing, Grown, MappedPart, Bitmap.Available;
    ghost var m1, g1 := space.mem, space.frames.groups[..];
    start, n := space.frames.AllocPages(wanted);
    g := space.frames.groups[..];
    TookFewer(m1, space.dir, g1, g1, g, start, n);
    if n == 0 {
      Bitmap.NoneFrom(g, space.frames.hint * 8);
      return 0, 0, false, g;
    }
    NotPageZero(g1, g, space.frames.hint, start, n);
    Advance(0, start * PAGE_SIZE, 0);
    ok := space.MapPages(start * PAGE_SIZE, cur, n, flags);
    KeepsFree(m1, g, space.mem, space.frames.groups[..], space.dir);
    NotPageZeroLater(g, space.frames.groups[..], space.frames.hint);
    PartOf(m1, space.mem, space.dir, cur / PAGE_SIZE, start, n, ok, HwFlags(WithPresent(flags)));
  }

  // The number of free frames from the allocator's hint on.
  ghost function FreeFrames(space: AddressSpace): nat
    reads space.frames, space.frames.groups
  {
    |Bitmap.FreeFrom(space.frames.groups[..], space.frames.hint * 8)|
  }

  // early_alloc_and_map. None stands for the halt when no physical page is left. The
  // code ignores the answer of paging_map_pages; `complete` says that it never failed.
  // All is mapped exactly when the free frames cover the pages and the missing tables.
  method EarlyAllocAndMap(space: AddressSpace, va: nat, total: nat, flags: nat)
    returns (r: Option<nat>, ghost complete: bool, ghost fs: seq<nat>)
    requires space.Valid() && va % PAGE_SIZE == 0 && va / PAGE_SIZE + total <= MAPPABLE_PAGES
    requires space.frames.groups.Length <= Bitmap.MAX_GROUPS
    modifies space`mem, space.frames.groups
    ensures space.Valid() && (r.Some? ==> r.value == total)
    ensures r.None? || !complete ==> space.Exhausted()
    ensures complete ==> Backed(old(space.mem), old(space.frames.groups[..]), space.mem, space.frames.groups[..],
                                space.dir, va / PAGE_SIZE, fs, HwFlags(WithPresent(flags)))
    ensures complete && r.Some? ==> |fs| == total
    ensures complete ==> forall w: nat :: va / PAGE_SIZE <= w < va / PAGE_SIZE + |fs| && w < MAPPABLE_PAGES ==>
      Page(space.mem, space.dir, w).Some? && EntryBits(Page(space.mem, space.dir, w).value, flags)
    ensures complete && r.Some? <==>
      old(total + |Missing(space.mem, space.dir, va / PAGE_SIZE, total)| <= FreeFrames(space))
    ensures old(AllSlots(space.mem, space.dir, va / PAGE_SIZE, total)) ==> complete
    ensures total > 0 ==>
      forall s: nat :: Bitmap.FirstRun(old(space.frames.groups[..]), space.frames.hint, s, total) ==>
      && r == Some(total)
      && MappedPart(old(space.mem), space.mem, space.dir, va / PAGE_SIZE, s, total, complete,
                    HwFlags(WithPresent(flags)))
  {
    hide Page, Mapped, Pool, Keeps, Tables, AllSlots, SameTables, Backed, Bitmap.Free, Spare, HwFlags, WithPresent,
      Translate,
      Bitmap.FreeFrom, Bitmap.FirstRun, Missing, Grown, MappedPart, FreeFrames, Bitmap.Took, EntryBits;
    var mapped, cur := 0, va;
    fs, complete := [], true;
    ghost var m0, g0, dir, f0 := space.mem, space.frames.groups[..], space.dir, FreeFrames(space);
    ghost var v, hw := va / PAGE_SIZE, HwFlags(WithPresent(flags));
    BackedNone(m0, g0, dir, v, hw);
    MissingNone(m0, dir, v);
    if AllSlots(m0, dir, v, total) { AllSlotsMissing(m0, dir, v, total); }
    while mapped < total
      invariant mapped <= total && cur == va + mapped * PAGE_SIZE && space.Valid() && Fewer(g0, space.frames.groups[..])
      invariant complete ==> |fs| == mapped && Backed(m0, g0, space.mem, space.frames.groups[..], dir, v, fs, hw)
      invariant complete ==>
        Grown(m0, space.mem, dir, v, mapped) && FreeFrames(space) + mapped + |Missing(m0, dir, v, mapped)| == f0
      invariant !complete ==>
        space.Exhausted() && f0 < total + |Missing(m0, dir, v, total)| && |Missing(m0, dir, v, total)| > 0
      invariant mapped == 0 ==> space.mem == m0 && space.frames.groups[..] == g0 && complete
      invariant mapped > 0 ==> forall s: nat :: Bitmap.FirstRun(g0, space.frames.hint, s, total) ==>
        mapped == total && MappedPart(m0, space.mem, dir, v, s, total, complete, hw)
      decreases total - mapped
    {
      ghost var m1, g1 := space.mem, space.frames.groups[..];
      ghost var wanted := total - mapped;
      assert mapped == 0 ==> wanted == total;
      Advance(va, 0, mapped);
      var start, n, ok;
      ghost var g2;
      start, n, ok, g2 := MapNext(space, cur, total - mapped, flags);
      TookFewer(m1, dir, g0, g1, g2, start, n);
      MissingMono(m0, dir, v, mapped + n, total);
      if complete { MissingJoin(m0, m1, dir, v, mapped, n); }
      if n == 0 {
        BackedSame(m0, g0, m1, g1, g2, dir, v, fs, hw);
        if complete { BackedFlags(m0, g0, m1, g2, dir, v, fs, flags); }
        return None, complete, fs;
      }
      KeepsFree(m1, g2, space.mem, space.frames.groups[..], dir);
      if ok && complete {
        GrownJoin(m0, m1, space.mem, dir, v, mapped, n);
        BackedStep(m0, g0, m1, g1, g2, space.mem, space.frames.groups[..], dir, v, fs, hw, start, n);
      }
      complete := complete && ok;
      fs := fs + Range(start, n);
      mapped := mapped + n;
      cur := cur + n * PAGE_SIZE;
    }
    if complete { BackedFlags(m0, g0, space.mem, space.frames.groups[..], dir, v, fs, flags); }
    r := Some(mapped);
  }

  // One free frame and one page wanted in an absent table: the answer is that one page is
  // mapped, and none is.
  method UnmappedRun(flags: nat) returns (r: Option<nat>, mapped: bool)
    ensures r == Some(1) && !mapped
  {
    hide HwFlags, WithPresent, Mapped, Page, Bitmap.FreeFrom, Missing;
    var groups := new bv8[1](_ => 8);
    var directory: seq<nat> := seq(ENTRIES_AMOUNT,
      i => if i == RECURSIVE_SLOT then MakeEntry(4 * PAGE_SIZE, WRITE_KERNEL_FLAGS) else 0);
    var mem: Frames := map[4 := directory, 3 := Zeros()];
    OneFrame(groups[..]);
    EmptyDirectory(mem, directory);
    var frames := new Bitmap.PageBitmap(groups);
    var space := new AddressSpace(4, mem, frames);
    ghost var complete, fs;
    r, complete, fs := EarlyAllocAndMap(space, 0, 1, flags);
    NothingMapped(mem, space.mem, HwFlags(WithPresent(flags)));
    mapped := Page(space.mem, space.dir, 0).Some?;
  }

  lemma OneFrame(g: seq<bv8>)
    requires g == [8]
    ensures (forall f: nat :: Bitmap.Free(g, f) <==> f == 3) && |Bitmap.FreeFrom(g, 0)| == 1
    ensures Bitmap.FirstRun(g, 0, 3, 1)
  {
    forall f: nat ensures Bitmap.Free(g, f) <==> f == 3 {
      if f < 8 { assert f == 0 || f == 1 || f == 2 || f == 3 || f == 4 || f == 5 || f == 6 || f == 7; }
    }
    assert Bitmap.FreeFrom(g, 0) == {3};
  }

  lemma EmptyDirectory(mem: Frames, directory: seq<nat>)
    requires |directory| == ENTRIES_AMOUNT && directory[RECURSIVE_SLOT] == MakeEntry(4 * PAGE_SIZE, WRITE_KERNEL_FLAGS)
    requires (forall i :: 0 <= i < RECURSIVE_SLOT ==> directory[i] == 0) && mem == map[4 := directory, 3 := Zeros()]
    ensures Tables(mem, 4) && Spare(mem, 4, 3) && |Missing(mem, 4, 0, 1)| == 1 && Page(mem, 4, 0).None?
  {
    EntryParts(4 * PAGE_SIZE, WRITE_KERNEL_FLAGS);
    assert Missing(mem, 4, 0, 1) == {0};
  }

  lemma NothingMapped(m0: Frames, m: Frames, flags: nat)
    requires MappedPart(m0, m, 4, 0, 3, 1, false, flags)
    ensures Page(m, 4, 0) == Page(m0, 4, 0)
  {
    hide Page;
  }

  // Once a run has been taken, page 0 is no longer at the front of the search.
  lemma NotPageZero(g: seq<bv8>, g': seq<bv8>, hint: nat, start: nat, n: nat)
    requires Bitmap.Took(g, g', start, n) && n > 0 && hint * 8 <= start
    requires forall i: nat :: hint * 8 <= i < start ==> !Bitmap.Free(g, i)
    ensures Bitmap.Available(g', hint) == |Bitmap.FreeFrom(g', hint * 8)| && !(hint == 0 && Bitmap.Free(g', 0))
  {
    hide Bitmap.Free, Bitmap.FreeFrom;
    assert hint == 0 && start > 0 ==> !Bitmap.Free(g, 0);
  }

  lemma NotPageZeroLater(g: seq<bv8>, g': seq<bv8>, hint: nat)
    requires !(hint == 0 && Bitmap.Free(g, 0)) && forall f: nat :: Bitmap.Free(g', f) ==> Bitmap.Free(g, f)
    ensures Bitmap.Available(g', hint) == |Bitmap.FreeFrom(g', hint * 8)|
  {
  }

  lemma BackedFlags(m0: Frames, g0: seq<bv8>, m: Frames, g: seq<bv8>, dir: nat, v: nat, fs: seq<nat>, flags: nat)
    requires Backed(m0, g0, m, g, dir, v, fs, HwFlags(WithPresent(flags)))
    ensures forall w: nat :: v <= w < v + |fs| && w < MAPPABLE_PAGES ==>
      Page(m, dir, w).Some? && EntryBits(Page(m, dir, w).value, flags)
  {
    hide Page, HwFlags, WithPresent, EntryBits, FrameEntry, Spare, Bitmap.Free;
    forall w: nat | v <= w < v + |fs| && w < MAPPABLE_PAGES
      ensures Page(m, dir, w).Some? && EntryBits(Page(m, dir, w).value, flags)
    {
      EntryFlags(fs[w - v], flags);
    }
  }

  lemma BackedNone(m: Frames, g: seq<bv8>, dir: nat, v: nat, flags: nat)
    ensures Backed(m, g, m, g, dir, v, [], flags)
  {
    hide Page;
  }

  lemma BackedSame(m0: Frames,
                   g0: seq<bv8>, m: Frames, g: seq<bv8>, g': seq<bv8>, dir: nat, v: nat, fs: seq<nat>, flags: nat)
    requires forall f: nat :: Bitmap.Free(g', f) ==> Bitmap.Free(g, f)
    ensures Backed(m0, g0, m, g, dir, v, fs, flags) ==> Backed(m0, g0, m, g', dir, v, fs, flags)
  {
    hide Page, Spare, Bitmap.Free;
  }

  lemma TookFewer(m: Frames, dir: nat, g0: seq<bv8>, g1: seq<bv8>, g2: seq<bv8>, start: nat, n: nat)
    requires Pool(m, dir, g1) && Bitmap.Took(g1, g2, start, n) && Fewer(g0, g1)
    ensures Pool(m, dir, g2) && Fewer(g1, g2) && Fewer(g0, g2)
  {
    hide Bitmap.Free, Spare;
  }
}
