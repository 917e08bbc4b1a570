/** Two-level page tables (32-bit paging, Intel SDM volume 3A, section 4.3) and the
    kernel's mapper. The kernel reaches its tables through the recursive slot 1023, so
    every access to a table goes through the translation that the tables define. */
module Paging {
  import opened Defs
  import Bitmap
  import Bits

  const ENTRIES_AMOUNT := 1024
  const RECURSIVE_SLOT := 1023
  const DIRECTORY_VA := 0xFFFF_F000
  const TABLES_VA := 0xFFC0_0000
  // The first page of the recursive slot.
  const MAPPABLE_PAGES := RECURSIVE_SLOT * ENTRIES_AMOUNT
  const WRITE_KERNEL_FLAGS := 3

  // Page frames that hold tables, by frame number.
  type Frames = map<nat, seq<nat>>

  predicate Present(e: nat) {
    e % 2 == 1
  }

  function FrameOf(e: nat): nat {
    e / PAGE_SIZE
  }

  // An entry for a frame: its number above twelve bits of flags.
  function MakeEntry(pa: nat, flags: nat): nat {
    pa / PAGE_SIZE * PAGE_SIZE + flags % PAGE_SIZE
  }

  // ---------------------------------------------------------------- the hardware walk

  ghost predicate Tables(mem: Frames, dir: nat) {
    && dir in mem && (forall f <- mem.Keys :: |mem[f]| == ENTRIES_AMOUNT)
    && Present(mem[dir][RECURSIVE_SLOT]) && FrameOf(mem[dir][RECURSIVE_SLOT]) == dir
    && (forall i: nat :: i < RECURSIVE_SLOT && Present(mem[dir][i]) ==>
         FrameOf(mem[dir][i]) in mem && FrameOf(mem[dir][i]) != dir)
    && (forall i: nat, j: nat :: i < j < RECURSIVE_SLOT && Present(mem[dir][i]) && Present(mem[dir][j]) ==>
         FrameOf(mem[dir][i]) != FrameOf(mem[dir][j]))
  }

  // The page-table entry that maps page v.
  function Page(mem: Frames, dir: nat, v: nat): Option<nat> {
    var i, j := v / ENTRIES_AMOUNT, v % ENTRIES_AMOUNT;
    if
      && dir in mem && i < |mem[dir]| && Present(mem[dir][i])
      && FrameOf(mem[dir][i]) in mem && j < |mem[FrameOf(mem[dir][i])]|
    then
      var e := mem[FrameOf(mem[dir][i])][j];
      if Present(e) then Some(e) else None
    else None
  }

  function Translate(mem: Frames, dir: nat, va: nat): Option<nat> {
    match Page(mem, dir, va / PAGE_SIZE)
    case Some(e) => Some(FrameOf(e) * PAGE_SIZE + va % PAGE_SIZE)
    case None => None
  }

  // Where the kernel sees entry j of the table of slot i.
  function WindowVa(i: nat, j: nat): nat {
    TABLES_VA + i * PAGE_SIZE + 4 * j
  }

  // The window of slot i shows the table of slot i; slot 1023 shows the directory.
  lemma RecursiveWindow(mem: Frames, dir: nat, i: nat, j: nat)
    requires Tables(mem, dir) && i < ENTRIES_AMOUNT && j < ENTRIES_AMOUNT && Present(mem[dir][i])
    ensures Page(mem, dir, WindowVa(i, j) / PAGE_SIZE) == Some(mem[dir][i]) && FrameOf(mem[dir][i]) in mem
    ensures WindowVa(i, j) % PAGE_SIZE / 4 == j && WindowVa(RECURSIVE_SLOT, j) == DIRECTORY_VA + 4 * j
  {
    var va := WindowVa(i, j);
    assert va / PAGE_SIZE == RECURSIVE_SLOT * ENTRIES_AMOUNT + i && va % PAGE_SIZE == 4 * j;
    var v := va / PAGE_SIZE;
    assert v / ENTRIES_AMOUNT == RECURSIVE_SLOT && v % ENTRIES_AMOUNT == i;
  }

  function Write(mem: Frames, f: nat, j: nat, e: nat): Frames
    requires f in mem && j < |mem[f]|
  {
    var t: seq<nat> := mem[f][j := e];
    mem[f := t]
  }

  // ---------------------------------------------------------------- effects of writes

  // Writing entry j of the table of slot i changes page 1024 i + j and no other.
  lemma SetPage(mem: Frames, dir: nat, i: nat, j: nat, e: nat)
    requires Tables(mem, dir) && i < RECURSIVE_SLOT && j < ENTRIES_AMOUNT && Present(mem[dir][i]) && Present(e)
    ensures
      var f := FrameOf(mem[dir][i]);
      f in mem && f != dir &&
      var mem' := Write(mem, f, j, e);
      && Tables(mem', dir) && mem'[dir] == mem[dir]
      && forall v: nat :: v < MAPPABLE_PAGES ==>
           Page(mem', dir, v) == if v == i * ENTRIES_AMOUNT + j then Some(e) else Page(mem, dir, v)
  {
    var f := FrameOf(mem[dir][i]);
    var mem' := Write(mem, f, j, e);
    forall v: nat | v < MAPPABLE_PAGES
      ensures Page(mem', dir, v) == if v == i * ENTRIES_AMOUNT + j then Some(e) else Page(mem, dir, v)
    {
      var a, b := v / ENTRIES_AMOUNT, v % ENTRIES_AMOUNT;
      assert v == a * ENTRIES_AMOUNT + b && a < RECURSIVE_SLOT;
      assert a != i && Present(mem[dir][a]) ==> FrameOf(mem[dir][a]) != f;
      assert (a == i && b == j) <==> v == i * ENTRIES_AMOUNT + j;
    }
  }

  function Zeros(): seq<nat> {
    seq(ENTRIES_AMOUNT, _ => 0)
  }

  // Installing a zeroed table in an absent slot changes no page outside the recursive slot.
  lemma InstallTable(mem: Frames, dir: nat, i: nat, e: nat)
    requires Tables(mem, dir) && i < RECURSIVE_SLOT && !Present(mem[dir][i]) && Present(e) && FrameOf(e) in mem
    requires FrameOf(e) != dir
    requires forall k: nat :: k < RECURSIVE_SLOT && Present(mem[dir][k]) ==> FrameOf(mem[dir][k]) != FrameOf(e)
    ensures
      var mem' := Write(mem, dir, i, e)[FrameOf(e) := Zeros()];
      Tables(mem', dir) && forall v: nat :: v < MAPPABLE_PAGES ==> Page(mem', dir, v) == Page(mem, dir, v)
  {
    var mem' := Write(mem, dir, i, e)[FrameOf(e) := Zeros()];
    forall v: nat | v < MAPPABLE_PAGES ensures Page(mem', dir, v) == Page(mem, dir, v) {
      var a, b := v / ENTRIES_AMOUNT, v % ENTRIES_AMOUNT;
      assert a < RECURSIVE_SLOT;
      assert Present(mem[dir][a]) ==> FrameOf(mem[dir][a]) != FrameOf(e);
    }
  }

  // No free frame holds a table that is in use.
  ghost predicate Pool(mem: Frames, dir: nat, g: seq<bv8>) {
    forall f: nat :: Bitmap.Free(g, f) ==> Spare(mem, dir, f)
  }

  // The frames that are neither free nor tables stay so.
  ghost predicate Keeps(m: Frames, g: seq<bv8>, m': Frames, g': seq<bv8>, dir: nat) {
    && (forall f: nat :: Bitmap.Free(g', f) ==> Bitmap.Free(g, f))
    && forall f: nat :: Spare(m, dir, f) && !Bitmap.Free(g, f) ==> Spare(m', dir, f)
  }

  ghost predicate Spare(mem: Frames, dir: nat, f: nat) {
    && f in mem && f != dir && dir in mem && |mem[dir]| == ENTRIES_AMOUNT
    && forall i: nat :: i < RECURSIVE_SLOT && Present(mem[dir][i]) ==> FrameOf(mem[dir][i]) != f
  }

  // The entry for frame f, counted modulo the 2^20 frames of the address space.
  function FrameEntry(f: nat, flags: nat): nat {
    MakeEntry(f % 0x10_0000 * PAGE_SIZE, flags)
  }

  // From m0 to m, n pages from v on were mapped to consecutive frames from f on, and
  // no other page outside the recursive slot changed.
  ghost predicate Mapped(m0: Frames, m: Frames, dir: nat, v: nat, f: nat, n: nat, flags: nat) {
    forall w: nat :: w < MAPPABLE_PAGES ==>
      Page(m, dir, w) == if v <= w < v + n then Some(FrameEntry(f + (w - v), flags)) else Page(m0, dir, w)
  }

  lemma MappedStep(m0: Frames, m1: Frames, m2: Frames, dir: nat, v: nat, f: nat, n: nat, flags: nat)
    requires Mapped(m0, m1, dir, v, f, n, flags) && Mapped(m1, m2, dir, v + n, (f + n) % 0x10_0000, 1, flags)
    requires v + n < MAPPABLE_PAGES
    ensures Mapped(m0, m2, dir, v, f, n + 1, flags)
  {
    hide Page;
    forall w: nat | w < MAPPABLE_PAGES
      ensures Page(m2, dir, w) ==
        if v <= w < v + (n + 1) then Some(FrameEntry(f + (w - v), flags)) else Page(m0, dir, w)
    {
      assert Page(m2, dir, w) == if w == v + n then Some(FrameEntry(f + n, flags)) else Page(m1, dir, w);
    }
  }

  // Byte by byte: every address of the range translates, in order, to the target range.
  lemma MappedBytes(m0: Frames, m: Frames, dir: nat, va: nat, pa: nat, n: nat, flags: nat)
    requires va % PAGE_SIZE == 0 && pa % PAGE_SIZE == 0 && va / PAGE_SIZE + n <= MAPPABLE_PAGES && flags % 2 == 1
    requires Mapped(m0, m, dir, va / PAGE_SIZE, pa / PAGE_SIZE, n, flags)
    ensures forall x: nat :: x < TABLES_VA ==>
      Translate(m, dir, x) ==
        if va <= x < va + n * PAGE_SIZE then Some((pa + (x - va)) % TWO_32) else Translate(m0, dir, x)
  {
    hide Page, Translate;
    forall x: nat | x < TABLES_VA
      ensures Translate(m, dir, x) ==
        if va <= x < va + n * PAGE_SIZE then Some((pa + (x - va)) % TWO_32) else Translate(m0, dir, x)
    {
      var w, v := x / PAGE_SIZE, va / PAGE_SIZE;
      BytesOfPages(va, pa, n, x);
      if v <= w < v + n {
        WrapBytes(pa / PAGE_SIZE + (w - v), x % PAGE_SIZE);
        TranslateFrame(m, dir, x, pa / PAGE_SIZE + (w - v), flags);
      } else {
        TranslateSame(m0, m, dir, x);
      }
    }
  }

  lemma TranslateFrame(m: Frames, dir: nat, x: nat, f: nat, flags: nat)
    requires Page(m, dir, x / PAGE_SIZE) == Some(FrameEntry(f, flags)) && flags % 2 == 1
    ensures Translate(m, dir, x) == Some(f % 0x10_0000 * PAGE_SIZE + x % PAGE_SIZE)
  {
    hide Page;
    EntryParts(f % 0x10_0000 * PAGE_SIZE, flags);
    JoinedParts(f % 0x10_0000, 0);
  }

  lemma TranslateSame(m0: Frames, m: Frames, dir: nat, x: nat)
    requires Page(m, dir, x / PAGE_SIZE) == Page(m0, dir, x / PAGE_SIZE)
    ensures Translate(m, dir, x) == Translate(m0, dir, x)
  {
    hide Page;
  }

  lemma BytesOfPages(va: nat, pa: nat, n: nat, x: nat)
    requires va % PAGE_SIZE == 0 && pa % PAGE_SIZE == 0 && x < TABLES_VA
    ensures
      var w, v := x / PAGE_SIZE, va / PAGE_SIZE;
      && w < MAPPABLE_PAGES && (va <= x < va + n * PAGE_SIZE <==> v <= w < v + n)
      && (v <= w ==> pa + (x - va) == (pa / PAGE_SIZE + (w - v)) * PAGE_SIZE + x % PAGE_SIZE)
  {
  }

  lemma WrapBytes(f: nat, r: nat)
    requires r < PAGE_SIZE
    ensures f % 0x10_0000 * PAGE_SIZE + r == (f * PAGE_SIZE + r) % TWO_32
  {
    var q, m := f / 0x10_0000, f % 0x10_0000;
    SplitFrame(f, q, m);
    WrapRest(q, m * PAGE_SIZE + r);
  }

  lemma SplitFrame(f: nat, q: nat, m: nat)
    requires f == q * 0x10_0000 + m
    ensures f * PAGE_SIZE == q * TWO_32 + m * PAGE_SIZE
  {
  }

  // The remainder of a sum whose first part is a multiple of 2^32.
  lemma WrapRest(q: nat, x: nat)
    requires x < TWO_32
    ensures (q * TWO_32 + x) % TWO_32 == x
  {
    assert (q * TWO_32 + x) / TWO_32 == q;
  }

  class AddressSpace {
    const dir: nat
    var mem: Frames
    // mm_alloc_pagetable, in its ALLOC_BITMAP mode
    const frames: Bitmap.PageBitmap

    ghost predicate Valid()
      reads this, frames.groups
    {
      Tables(mem, dir) && Pool(mem, dir, frames.groups[..])
    }

    // The allocator has no page from its hint on.
    ghost predicate Exhausted()
      reads frames, frames.groups
    {
      forall i: nat :: frames.hint * 8 <= i ==> !Bitmap.Free(frames.groups[..], i)
    }

    // How many tables the allocator has frames for.
    ghost function Left(): nat
      reads frames, frames.groups
    {
      Bitmap.Available(frames.groups[..], frames.hint)
    }

    constructor (dir: nat, mem: Frames, frames: Bitmap.PageBitmap)
      requires Tables(mem, dir) && Pool(mem, dir, frames.groups[..])
      ensures Valid() && this.dir == dir && this.mem == mem && this.frames == frames
    {
      this.dir, this.mem, this.frames := dir, mem, frames;
    }

    // A word read or written by the kernel at a virtual address of a table.
    method Load(va: nat) returns (e: nat)
      requires
        var p := Page(mem, dir, va / PAGE_SIZE);
        p.Some? && FrameOf(p.value) in mem && |mem[FrameOf(p.value)]| == ENTRIES_AMOUNT
      ensures e == mem[FrameOf(Page(mem, dir, va / PAGE_SIZE).value)][va % PAGE_SIZE / 4]
    {
      e := mem[FrameOf(Page(mem, dir, va / PAGE_SIZE).value)][va % PAGE_SIZE / 4];
    }

    method Store(va: nat, e: nat)
      requires
        var p := Page(mem, dir, va / PAGE_SIZE);
        p.Some? && FrameOf(p.value) in mem && |mem[FrameOf(p.value)]| == ENTRIES_AMOUNT
      modifies this`mem
      ensures mem == Write(old(mem), FrameOf(Page(old(mem), dir, va / PAGE_SIZE).value), va % PAGE_SIZE / 4, e)
    {
      mem := Write(mem, FrameOf(Page(mem, dir, va / PAGE_SIZE).value), va % PAGE_SIZE / 4, e);
    }

    // get_table_entry
    method TableEntry(va: nat) returns (e: nat)
      requires Tables(mem, dir) && va < TWO_32
      ensures e == mem[dir][va / 0x40_0000]
    {
      hide Page;
      RecursiveWindow(mem, dir, RECURSIVE_SLOT, va / 0x40_0000);
      e := Load(DIRECTORY_VA + 4 * (va / 0x40_0000));
    }

    // virt_to_phys agrees with the hardware walk on every address, except that its null
    // pointer stands for an unmapped address and for physical address 0.
    method VirtToPhys(va: nat) returns (r: nat)
      requires Tables(mem, dir) && va < TWO_32
      ensures r != 0 ==> Translate(mem, dir, va) == Some(r)
      ensures r == 0 <==> Translate(mem, dir, va).None? || Translate(mem, dir, va) == Some(0)
    {
      var i, j := va / 0x40_0000, va / PAGE_SIZE % ENTRIES_AMOUNT;
      SplitIndex(va);
      var pde := TableEntry(va);
      if !Present(pde) { return 0; }
      RecursiveWindow(mem, dir, i, j);
      var e := Load(WindowVa(i, j));
      if !Present(e) { return 0; }
      r := FrameOf(e) * PAGE_SIZE + va % PAGE_SIZE;
    }

    // map_page_entry
    method MapPageEntry(pa: nat, va: nat, flags: nat) returns (ok: bool)
      requires Tables(mem, dir) && va < TABLES_VA
      modifies this`mem
      ensures ok == Present(old(mem)[dir][va / 0x40_0000])
      ensures !ok ==> mem == old(mem)
      ensures ok ==>
        var f := FrameOf(old(mem)[dir][va / 0x40_0000]);
        f in old(mem) && mem == Write(old(mem), f, va / PAGE_SIZE % ENTRIES_AMOUNT, MakeEntry(pa, flags))
    {
      hide Page;
      var i, j := va / 0x40_0000, va / PAGE_SIZE % ENTRIES_AMOUNT;
      var pde := TableEntry(va);
      if !Present(pde) { return false; }
      RecursiveWindow(mem, dir, i, j);
      Store(WindowVa(i, j), MakeEntry(pa, flags));
      ok := true;
    }

    // map_table_entry: the new table is cleared through its own window.
    method MapTableEntry(pa: nat, va: nat, flags: nat) returns (ok: bool)
      requires Tables(mem, dir) && va < TABLES_VA && flags % 2 == 1 && Spare(mem, dir, pa / PAGE_SIZE)
      modifies this`mem
      ensures Tables(mem, dir) && ok == !Present(old(mem)[dir][va / 0x40_0000])
      ensures !ok ==> mem == old(mem)
      ensures ok ==> mem == Write(old(mem), dir, va / 0x40_0000, MakeEntry(pa, flags))[pa / PAGE_SIZE := Zeros()]
    {
      hide Page;
      var i := va / 0x40_0000;
      var pde := TableEntry(va);
      if Present(pde) { return false; }
      RecursiveWindow(mem, dir, RECURSIVE_SLOT, i);
      var e := MakeEntry(pa, flags);
      EntryParts(pa, flags);
      InstallTable(mem, dir, i, e);
      Store(DIRECTORY_VA + 4 * i, e);
      ghost var was := mem;
      ghost var f := FrameOf(e);
      InstallDirectory(old(mem), dir, i, e);
      for j := 0 to ENTRIES_AMOUNT
        invariant Tables(mem, dir) && f in mem && mem[dir] == was[dir] && mem == was[f := mem[f]]
        invariant forall k :: 0 <= k < j ==> mem[f][k] == 0
      {
        RecursiveWindow(mem, dir, i, j);
        ClearWord(mem, dir, i, j);
        Store(WindowVa(i, j), 0);
      }
      assert mem[f] == Zeros();
      ok := true;
    }

    // ensure_page_table. It fails when no frame is left, and also when the frame is
    // frame 0, whose address is the null pointer.
    method EnsurePageTable(va: nat) returns (ok: bool)
      requires Valid() && va < TABLES_VA
      modifies this`mem, frames.groups
      ensures Valid() && ok == Slot(mem, dir, va / PAGE_SIZE / ENTRIES_AMOUNT)
      ensures Keeps(old(mem), old(frames.groups[..]), mem, frames.groups[..], dir)
      ensures forall v: nat :: v < MAPPABLE_PAGES ==> Page(mem, dir, v) == Page(old(mem), dir, v)
      ensures old(Slot(mem, dir, va / PAGE_SIZE / ENTRIES_AMOUNT)) ==>
        mem == old(mem) && frames.groups[..] == old(frames.groups[..])
      ensures !ok ==> mem == old(mem) && (Exhausted() || (frames.hint == 0 && Bitmap.Free(old(frames.groups[..]), 0)))
      ensures !ok ==> old(Left()) == 0
      ensures ok && !old(Slot(mem, dir, va / PAGE_SIZE / ENTRIES_AMOUNT)) ==> Left() + 1 == old(Left())
      ensures ok ==> forall i: nat :: Slot(mem, dir, i) <==>
        old(Slot(mem, dir, i)) || i == va / PAGE_SIZE / ENTRIES_AMOUNT
      ensures ok && !old(Slot(mem, dir, va / PAGE_SIZE / ENTRIES_AMOUNT)) ==>
        var i := va / PAGE_SIZE / ENTRIES_AMOUNT;
        && dir in old(mem) && i < |old(mem)[dir]| && dir in mem && i < |mem[dir]|
        && mem[dir] == old(mem)[dir][i := mem[dir][i]] && KernelTable(mem[dir][i])
        && Bitmap.Free(old(frames.groups[..]), FrameOf(mem[dir][i]))
    {
      hide Page, Bitmap.Available;
      SplitIndex(va);
      var entry := TableEntry(va);
      if Present(entry) { return true; }
      ghost var g := frames.groups[..];
      var pa := frames.AllocPage();
      if pa == 0 { return false; }
      ghost var f := pa / PAGE_SIZE;
      assert Bitmap.Free(g, f) && Spare(mem, dir, f);
      EntryParts(pa, WRITE_KERNEL_FLAGS);
      JoinedParts(pa / PAGE_SIZE, WRITE_KERNEL_FLAGS);
      InstallTable(mem, dir, va / 0x40_0000, MakeEntry(pa, WRITE_KERNEL_FLAGS));
      ok := MapTableEntry(pa, va, WRITE_KERNEL_FLAGS);
      forall x: nat | Spare(old(mem), dir, x) && x != f ensures Spare(mem, dir, x) {
        InstallSpare(old(mem), mem, dir, va / 0x40_0000, MakeEntry(pa, WRITE_KERNEL_FLAGS), x);
      }
    }

    // One turn of the inner loop of map_phys_range.
    method MapOne(pa: nat, va: nat, flags: nat)
      requires Valid() && va % PAGE_SIZE == 0 && va < TABLES_VA && pa < TWO_32 && flags % 2 == 1
      requires Slot(mem, dir, va / PAGE_SIZE / ENTRIES_AMOUNT)
      modifies this`mem
      ensures Valid() && Slot(mem, dir, va / PAGE_SIZE / ENTRIES_AMOUNT)
      ensures Mapped(old(mem), mem, dir, va / PAGE_SIZE, pa / PAGE_SIZE, 1, flags)
      ensures SameTables(old(mem), mem, dir)
    {
      hide Page;
      SplitIndex(va);
      EntryParts(pa, flags);
      var i, j := va / 0x40_0000, va / PAGE_SIZE % ENTRIES_AMOUNT;
      SetPage(mem, dir, i, j, MakeEntry(pa, flags));
      var ok := MapPageEntry(pa, va, flags);
      assert i * ENTRIES_AMOUNT + j == va / PAGE_SIZE;
      assert forall f: nat :: Spare(old(mem), dir, f) ==> Spare(mem, dir, f);
    }

    // The inner loop of map_phys_range: pages up to the end of a table or of the range.
    method MapInTable(pa: nat, va: nat, count: nat, flags: nat) returns (n: nat)
      requires Valid() && va % PAGE_SIZE == 0 && pa % PAGE_SIZE == 0 && pa < TWO_32 && flags % 2 == 1
      requires count > 0 && va / PAGE_SIZE + count <= MAPPABLE_PAGES && Slot(mem, dir, va / PAGE_SIZE / ENTRIES_AMOUNT)
      modifies this`mem
      ensures Valid() && 0 < n <= count && Mapped(old(mem), mem, dir, va / PAGE_SIZE, pa / PAGE_SIZE, n, flags)
      ensures SameTables(old(mem), mem, dir) && n <= ENTRIES_AMOUNT - va / PAGE_SIZE % ENTRIES_AMOUNT
    {
      hide Page, Tables, Mapped, Pool;
      var pagesInTable := ENTRIES_AMOUNT - va / PAGE_SIZE % ENTRIES_AMOUNT;
      ghost var first, slot := va / PAGE_SIZE, va / PAGE_SIZE / ENTRIES_AMOUNT;
      ghost var room := pagesInTable;
      n := 0;
      var v, p := va, pa;
      MappedNone(mem, dir, first, pa / PAGE_SIZE, flags);
      while pagesInTable > 0 && n < count
        invariant Valid() && n <= count && n + pagesInTable == room && v == va + n * PAGE_SIZE && pagesInTable >= 0
        invariant (n == 0 ==> pagesInTable > 0)
        invariant p == (pa + n * PAGE_SIZE) % TWO_32
        invariant Slot(mem, dir, slot) && Mapped(old(mem), mem, dir, first, pa / PAGE_SIZE, n, flags)
        invariant SameTables(old(mem), mem, dir)
        decreases count - n
      {
        ghost var was := mem;
        Advance(va, pa, n);
        SameSlot(first, n, room);
        MapOne(p, v, flags);
        MappedStep(old(mem), was, mem, dir, first, pa / PAGE_SIZE, n, flags);
        v := v + PAGE_SIZE;
        p := (p + PAGE_SIZE) % TWO_32;
        pagesInTable := pagesInTable - 1;
        n := n + 1;
      }
    }

    // map_phys_range. `done` pages were mapped, all of them unless a table was
    // missing and no frame was left for it.
    method MapPhysRange(pa: nat, va: nat, count: nat, flags: nat) returns (ok: bool, ghost done: nat)
      requires Valid() && va % PAGE_SIZE == 0 && pa % PAGE_SIZE == 0 && pa < TWO_32 && flags % 2 == 1
      requires va / PAGE_SIZE + count <= MAPPABLE_PAGES
      modifies this`mem, frames.groups
      ensures Valid() && done <= count && (ok <==> done == count)
      ensures ok <==> old(|Missing(mem, dir, va / PAGE_SIZE, count)| <= Left())
      ensures ok ==>
        && Left() + old(|Missing(mem, dir, va / PAGE_SIZE, count)|) == old(Left())
        && Grown(old(mem), mem, dir, va / PAGE_SIZE, count)
      ensures Mapped(old(mem), mem, dir, va / PAGE_SIZE, pa / PAGE_SIZE, done, flags)
      ensures Keeps(old(mem), old(frames.groups[..]), mem, frames.groups[..], dir)
      ensures !ok ==>
        && !Slot(mem, dir, (va / PAGE_SIZE + done) / ENTRIES_AMOUNT)
        && (Exhausted() || (frames.hint == 0 && Bitmap.Free(old(frames.groups[..]), 0)))
      ensures old(AllSlots(mem, dir, va / PAGE_SIZE, count)) ==>
        ok && SameTables(old(mem), mem, dir) && frames.groups[..] == old(frames.groups[..])
    {
      hide Page, Tables, Mapped, Pool, Keeps, AllSlots, SameTables, Bitmap.Free, Bitmap.Available, Missing, Slot, Grown;
      var v, p, left := va, pa, count;
      ghost var first, g := va / PAGE_SIZE, frames.groups[..];
      done := 0;
      MappedNone(mem, dir, first, pa / PAGE_SIZE, flags);
      SameTablesRefl(mem, dir);
      KeepsNone(mem, g, dir);
      MissingNone(mem, dir, first);
      while left > 0
        invariant Valid() && done + left == count && left >= 0 && v == va + done * PAGE_SIZE
        invariant p == (pa + done * PAGE_SIZE) % TWO_32
        invariant Mapped(old(mem), mem, dir, first, pa / PAGE_SIZE, done, flags)
        invariant Keeps(old(mem), g, mem, frames.groups[..], dir)
        invariant AllSlots(old(mem), dir, first, count) ==> SameTables(old(mem), mem, dir) && frames.groups[..] == g
        invariant |Missing(old(mem), dir, first, done)| + Left() == old(Left())
        invariant Grown(old(mem), mem, dir, first, done)
        decreases left
      {
        ghost var m0, g0 := mem, frames.groups[..];
        Advance(va, pa, done);
        SlotsStep(old(mem), mem, dir, first, count, done);
        MissingMore(old(mem), m0, dir, first, done, count);
        var table := EnsurePageTable(v);
        MappedSame(old(mem), m0, mem, dir, first, pa / PAGE_SIZE, done, flags);
        if !table {
          SameTablesRefl(mem, dir);
          KeepsStep(old(mem), g, m0, g0, mem, frames.groups[..], mem, dir);
          KeepsFree(old(mem), g, m0, g0, dir);
          return false, done;
        }
        ghost var m1 := mem;
        var n := MapInTable(p, v, left, flags);
        SameSlots(m1, mem, dir);
        MissingStep(old(mem), m0, mem, dir, first, done, n);
        KeepsStep(old(mem), g, m0, g0, m1, frames.groups[..], mem, dir);
        SameTablesStep(old(mem), m1, mem, dir);
        MappedJoin(old(mem), m1, mem, dir, first, pa / PAGE_SIZE, done, n, flags);
        AdvanceBy(pa, done, n);
        v := v + n * PAGE_SIZE;
        p := (p + n * PAGE_SIZE) % TWO_32;
        left := left - n;
        done := done + n;
      }
      ok := true;
    }

    // paging_map_pages
    method MapPages(pa: nat, va: nat, count: nat, flags: nat) returns (ok: bool)
      requires Valid() && va % PAGE_SIZE == 0 && pa % PAGE_SIZE == 0 && pa < TWO_32 && count > 0
      requires va / PAGE_SIZE + count <= MAPPABLE_PAGES
      modifies this`mem, frames.groups
      ensures Valid()
      ensures (ok ==> Mapped(old(mem), mem, dir, va / PAGE_SIZE, pa / PAGE_SIZE, count, HwFlags(WithPresent(flags))))
      ensures ok <==> old(|Missing(mem, dir, va / PAGE_SIZE, count)| <= Left())
      ensures ok ==>
        && Left() + old(|Missing(mem, dir, va / PAGE_SIZE, count)|) == old(Left())
        && Grown(old(mem), mem, dir, va / PAGE_SIZE, count)
      ensures ok ==> forall w: nat :: va / PAGE_SIZE <= w < va / PAGE_SIZE + count ==>
        Page(mem, dir, w).Some? && EntryBits(Page(mem, dir, w).value, flags)
      ensures !ok ==>
        exists n: nat :: n < count &&
          Mapped(old(mem), mem, dir, va / PAGE_SIZE, pa / PAGE_SIZE, n, HwFlags(WithPresent(flags)))
      ensures !ok ==> Exhausted() || (frames.hint == 0 && Bitmap.Free(old(frames.groups[..]), 0))
      ensures Keeps(old(mem), old(frames.groups[..]), mem, frames.groups[..], dir)
      ensures old(AllSlots(mem, dir, va / PAGE_SIZE, count)) ==>
        ok && SameTables(old(mem), mem, dir) && frames.groups[..] == old(frames.groups[..])
      ensures ok ==> forall x: nat :: x < TABLES_VA ==>
        Translate(mem, dir, x) ==
          if va <= x < va + count * PAGE_SIZE then Some((pa + (x - va)) % TWO_32) else Translate(old(mem), dir, x)
    {
      hide Page, Tables, Mapped, Pool, Translate, Keeps, Missing, Grown, Bitmap.Available, HwFlags,
        WithPresent, EntryBits;
      ghost var done;
      HwPresent(flags);
      var hwFlags := HwFlags(WithPresent(flags));
      ok, done := MapPhysRange(pa, va, count, hwFlags);
      if ok {
        MappedBytes(old(mem), mem, dir, va, pa, count, hwFlags);
        MappedFlags(old(mem), mem, dir, va / PAGE_SIZE, pa / PAGE_SIZE, count, flags);
      }
    }

    // can_map_pages, which skips absent tables whole, agrees with the test page by page.
    method CanMapPages(va: nat, count: nat) returns (free: bool)
      requires Tables(mem, dir) && va / PAGE_SIZE + count <= 0x10_0000
      ensures free <==> forall v: nat :: va / PAGE_SIZE <= v < va / PAGE_SIZE + count ==> Page(mem, dir, v).None?
    {
      ghost var first := va / PAGE_SIZE;
      var v, left := va, count;
      while left > 0
        invariant 0 <= left <= count && v == va + (count - left) * PAGE_SIZE
        invariant forall w: nat :: first <= w < first + (count - left) ==> Page(mem, dir, w).None?
        decreases left
      {
        ghost var at := v / PAGE_SIZE;
        SplitIndex(v);
        var i, j := v / 0x40_0000, v / PAGE_SIZE % ENTRIES_AMOUNT;
        var pagesInTable := ENTRIES_AMOUNT - j;
        var pde := TableEntry(v);
        if !Present(pde) {
          var skip := if pagesInTable < left then pagesInTable else left;
          AbsentTable(mem, dir, at, skip);
          v := v + skip * PAGE_SIZE;
          left := left - skip;
        } else {
          while pagesInTable > 0 && left > 0
            invariant 0 <= left <= count && v == va + (count - left) * PAGE_SIZE && j + pagesInTable == ENTRIES_AMOUNT
            invariant pagesInTable >= 0
            invariant first + (count - left) == i * ENTRIES_AMOUNT + j && j <= ENTRIES_AMOUNT
            invariant pagesInTable < ENTRIES_AMOUNT - at % ENTRIES_AMOUNT || left > 0
            invariant forall w: nat :: first <= w < first + (count - left) ==> Page(mem, dir, w).None?
            decreases left
          {
            RecursiveWindow(mem, dir, i, j);
            var e := Load(WindowVa(i, j));
            OnePage(mem, dir, i, j);
            if Present(e) { return false; }
            v := v + PAGE_SIZE;
            j := j + 1;
            pagesInTable := pagesInTable - 1;
            left := left - 1;
          }
        }
      }
      free := true;
    }
  }

  // The tables for n pages from v on are all present.
  ghost predicate AllSlots(mem: Frames, dir: nat, v: nat, n: nat) {
    forall w: nat :: v <= w < v + n ==> Slot(mem, dir, w / ENTRIES_AMOUNT)
  }

  // The table of slot i is needed for n pages from v on.
  ghost predicate Covers(v: nat, n: nat, i: nat) {
    n > 0 && v / ENTRIES_AMOUNT <= i <= (v + n - 1) / ENTRIES_AMOUNT
  }

  // The absent tables among those that n pages from v on need.
  ghost function Missing(mem: Frames, dir: nat, v: nat, n: nat): set<nat> {
    set i: nat | i < ENTRIES_AMOUNT && Covers(v, n, i) && !Slot(mem, dir, i)
  }

  // Exactly the tables for n pages from v on have been added.
  ghost predicate Grown(m0: Frames, m: Frames, dir: nat, v: nat, n: nat) {
    forall i: nat :: Slot(m, dir, i) <==> Slot(m0, dir, i) || Covers(v, n, i)
  }

  lemma AllSlotsMissing(mem: Frames, dir: nat, v: nat, n: nat)
    requires AllSlots(mem, dir, v, n)
    ensures Missing(mem, dir, v, n) == {}
  {
    forall i: nat | Covers(v, n, i) ensures Slot(mem, dir, i) {
      var w := if i == v / ENTRIES_AMOUNT then v else i * ENTRIES_AMOUNT;
      assert v <= w < v + n && w / ENTRIES_AMOUNT == i;
    }
  }

  lemma CoversStep(v: nat, a: nat, n: nat)
    requires 0 < n <= ENTRIES_AMOUNT - (v + a) % ENTRIES_AMOUNT
    ensures forall i: nat :: Covers(v, a + n, i) <==> Covers(v, a, i) || i == (v + a) / ENTRIES_AMOUNT
  {
    hide Covers;
    CoversJoin(v, a, n);
    CoversOne(v + a, n);
    forall i: nat ensures Covers(v, a + n, i) <==> Covers(v, a, i) || i == (v + a) / ENTRIES_AMOUNT {
      assert Covers(v + a, n, i) <==> i == (v + a) / ENTRIES_AMOUNT;
    }
  }

  lemma CoversOne(v: nat, n: nat)
    requires 0 < n <= ENTRIES_AMOUNT - v % ENTRIES_AMOUNT
    ensures forall i: nat :: Covers(v, n, i) <==> i == v / ENTRIES_AMOUNT
  {
    SameSlot(v, n - 1, ENTRIES_AMOUNT - v % ENTRIES_AMOUNT);
    assert v + (n - 1) == v + n - 1;
  }

  lemma CoversJoin(v: nat, a: nat, b: nat)
    ensures forall i: nat :: Covers(v, a + b, i) <==> Covers(v, a, i) || Covers(v + a, b, i)
  {
  }

  lemma MissingNone(m: Frames, dir: nat, v: nat)
    ensures Missing(m, dir, v, 0) == {} && Grown(m, m, dir, v, 0)
  {
  }

  lemma SameSlots(m: Frames, m': Frames, dir: nat)
    requires SameTables(m, m', dir)
    ensures forall i: nat :: Slot(m', dir, i) <==> Slot(m, dir, i)
  {
  }

  // A table that is absent after `a` of the pages is one more than those added so far.
  lemma MissingMore(m0: Frames, m: Frames, dir: nat, v: nat, a: nat, count: nat)
    requires Grown(m0, m, dir, v, a) && a < count && (v + a) / ENTRIES_AMOUNT < ENTRIES_AMOUNT
    ensures !Slot(m, dir, (v + a) / ENTRIES_AMOUNT) ==> |Missing(m0, dir, v, count)| > |Missing(m0, dir, v, a)|
  {
    hide Slot, Covers;
    var i := (v + a) / ENTRIES_AMOUNT;
    CoversJoin(v, a, count - a);
    CoversFirst(v + a, count - a);
    if !Slot(m, dir, i) { SubsetSize(Missing(m0, dir, v, a) + {i}, Missing(m0, dir, v, count)); }
  }

  lemma CoversFirst(v: nat, n: nat)
    requires n > 0
    ensures Covers(v, n, v / ENTRIES_AMOUNT)
  {
  }

  // One turn: the table of the next page is present afterwards, and no other is added.
  lemma MissingStep(m0: Frames, m: Frames, m': Frames, dir: nat, v: nat, a: nat, n: nat)
    requires Grown(m0, m, dir, v, a) && 0 < n <= ENTRIES_AMOUNT - (v + a) % ENTRIES_AMOUNT
    requires (v + a) / ENTRIES_AMOUNT < ENTRIES_AMOUNT
    requires forall i: nat :: Slot(m', dir, i) <==> Slot(m, dir, i) || i == (v + a) / ENTRIES_AMOUNT
    ensures Grown(m0, m', dir, v, a + n)
    ensures |Missing(m0, dir, v, a + n)| ==
      |Missing(m0, dir, v, a)| + (if Slot(m, dir, (v + a) / ENTRIES_AMOUNT) then 0 else 1)
  {
    hide Slot, Covers;
    var i := (v + a) / ENTRIES_AMOUNT;
    CoversStep(v, a, n);
    if Slot(m, dir, i) {
      assert Missing(m0, dir, v, a + n) == Missing(m0, dir, v, a);
    } else {
      assert Missing(m0, dir, v, a + n) == Missing(m0, dir, v, a) + {i};
    }
  }

  // Two ranges in a row.
  lemma MissingJoin(m0: Frames, m: Frames, dir: nat, v: nat, a: nat, b: nat)
    requires Grown(m0, m, dir, v, a)
    ensures |Missing(m0, dir, v, a + b)| == |Missing(m0, dir, v, a)| + |Missing(m, dir, v + a, b)|
  {
    hide Slot, Covers;
    CoversJoin(v, a, b);
    assert Missing(m0, dir, v, a + b) == Missing(m0, dir, v, a) + Missing(m, dir, v + a, b);
    assert Missing(m0, dir, v, a) !! Missing(m, dir, v + a, b);
  }

  lemma GrownJoin(m0: Frames, m: Frames, m': Frames, dir: nat, v: nat, a: nat, b: nat)
    requires Grown(m0, m, dir, v, a) && Grown(m, m', dir, v + a, b)
    ensures Grown(m0, m', dir, v, a + b)
  {
    hide Slot, Covers;
    CoversJoin(v, a, b);
  }

  lemma MissingMono(m: Frames, dir: nat, v: nat, a: nat, b: nat)
    requires a <= b
    ensures |Missing(m, dir, v, a)| <= |Missing(m, dir, v, b)|
  {
    hide Slot, Covers;
    CoversJoin(v, a, b - a);
    SubsetSize(Missing(m, dir, v, a), Missing(m, dir, v, b));
  }

  lemma SameTablesRefl(mem: Frames, dir: nat)
    requires Tables(mem, dir)
    ensures SameTables(mem, mem, dir)
  {
  }

  lemma SameTablesStep(m0: Frames, m1: Frames, m2: Frames, dir: nat)
    ensures SameTables(m0, m1, dir) && SameTables(m1, m2, dir) ==> SameTables(m0, m2, dir)
  {
  }

  lemma SlotsStep(m0: Frames, m: Frames, dir: nat, v: nat, count: nat, done: nat)
    requires done < count && (AllSlots(m0, dir, v, count) ==> SameTables(m0, m, dir))
    ensures AllSlots(m0, dir, v, count) ==> Slot(m, dir, (v + done) / ENTRIES_AMOUNT)
  {
    var w := v + done;
    assert AllSlots(m0, dir, v, count) ==> Slot(m0, dir, w / ENTRIES_AMOUNT);
  }

  lemma KeepsStep(m0: Frames, g0: seq<bv8>, m1: Frames, g1: seq<bv8>, m2: Frames, g2: seq<bv8>, m3: Frames, dir: nat)
    requires Keeps(m0, g0, m1, g1, dir) && Keeps(m1, g1, m2, g2, dir) && SameTables(m2, m3, dir)
    ensures Keeps(m0, g0, m3, g2, dir)
  {
  }

  lemma KeepsNone(m: Frames, g: seq<bv8>, dir: nat)
    ensures Keeps(m, g, m, g, dir)
  {
  }

  lemma KeepsFree(m: Frames, g: seq<bv8>, m': Frames, g': seq<bv8>, dir: nat)
    requires Keeps(m, g, m', g', dir)
    ensures forall f: nat :: Bitmap.Free(g', f) ==> Bitmap.Free(g, f)
  {
  }

  // The same slots are present, with the same frames.
  ghost predicate SameTables(m: Frames, m': Frames, dir: nat) {
    && m.Keys == m'.Keys && dir in m && m'[dir] == m[dir]
  }

  ghost predicate Slot(mem: Frames, dir: nat, i: nat) {
    dir in mem && i < |mem[dir]| && Present(mem[dir][i])
  }

  // paging_flags | PAGING_FLAG_PRESENT
  function WithPresent(flags: nat): nat {
    flags - flags % 2 + 1
  }

  // Bit k of the kernel's flags.
  function Flag(flags: nat, k: nat): (b: nat)
    requires k > 0
    ensures b < 2
  {
    flags / k % 2
  }

  // paging_to_hw_flags: present, dirty, access, user and write change places.
  function HwFlags(flags: nat): nat {
    32 * Flag(flags, 4) + 64 * Flag(flags, 2) + 2 * Flag(flags, 16) + 4 * Flag(flags, 8) + Flag(flags, 1)
  }

  // An entry whose low twelve bits are the hardware's form of the kernel's flags: present,
  // write (bit 1), user (bit 2), accessed (bit 5), dirty (bit 6), and nothing else.
  ghost predicate EntryBits(e: nat, flags: nat) {
    && e % 2 == 1 && e / 2 % 2 == flags / 16 % 2 && e / 4 % 2 == flags / 8 % 2 && e / 8 % 4 == 0
    && e / 32 % 2 == flags / 4 % 2 && e / 64 % 2 == flags / 2 % 2 && e / 128 % 32 == 0
  }

  // A directory entry for a table that the kernel may write: present and write, nothing else.
  ghost predicate KernelTable(e: nat) {
    e % PAGE_SIZE == 3
  }

  // What is written for frame f: its number and the flags, bit by bit.
  lemma EntryFlags(f: nat, flags: nat)
    ensures
      var e := FrameEntry(f, HwFlags(WithPresent(flags)));
      e / PAGE_SIZE == f % 0x10_0000 && EntryBits(e, flags)
  {
    hide HwFlags, WithPresent;
    var h := HwFlags(WithPresent(flags));
    KernelFlags(flags);
    var g := WithPresent(flags);
    var a, b, c, d := Flag(g, 16), Flag(g, 8), Flag(g, 4), Flag(g, 2);
    assert h == 1 + 2 * a + 4 * b + 32 * c + 64 * d;
    LowBits(f % 0x10_0000, a, b, c, d);
    WholeFrame(f % 0x10_0000);
  }

  lemma MappedFlags(m0: Frames, m: Frames, dir: nat, v: nat, f: nat, n: nat, flags: nat)
    requires Mapped(m0, m, dir, v, f, n, HwFlags(WithPresent(flags))) && v + n <= MAPPABLE_PAGES
    ensures forall w: nat :: v <= w < v + n ==> Page(m, dir, w).Some? && EntryBits(Page(m, dir, w).value, flags)
  {
    hide Page, HwFlags, WithPresent, EntryBits, FrameEntry;
    forall w: nat | v <= w < v + n ensures Page(m, dir, w).Some? && EntryBits(Page(m, dir, w).value, flags) {
      EntryFlags(f + (w - v), flags);
    }
  }

  lemma WholeFrame(f: nat)
    ensures f * PAGE_SIZE / PAGE_SIZE * PAGE_SIZE == f * PAGE_SIZE
  {
  }

  // Forcing the present flag leaves the others.
  lemma KernelFlags(flags: nat)
    ensures
      var g := WithPresent(flags);
      && HwFlags(g) == 1 + 2 * Flag(g, 16) + 4 * Flag(g, 8) + 32 * Flag(g, 4) + 64 * Flag(g, 2)
      && Flag(g, 16) == flags / 16 % 2 && Flag(g, 8) == flags / 8 % 2
      && Flag(g, 4) == flags / 4 % 2 && Flag(g, 2) == flags / 2 % 2
  {
    var h := flags / 2;
    assert flags == 2 * h + flags % 2 && WithPresent(flags) == 2 * h + 1;
    SameHigh(h, flags % 2, 2);
    SameHigh(h, flags % 2, 4);
    SameHigh(h, flags % 2, 8);
    SameHigh(h, flags % 2, 16);
    SameHigh(h, 1, 2);
    SameHigh(h, 1, 4);
    SameHigh(h, 1, 8);
    SameHigh(h, 1, 16);
    assert (2 * h + 1) % 2 == 1;
  }

  lemma SameHigh(h: nat, r: nat, k: nat)
    requires r < 2 && (k == 2 || k == 4 || k == 8 || k == 16)
    ensures (2 * h + r) / k == h / (k / 2)
  {
  }

  // The bits of an entry.
  lemma LowBits(f: nat, a: nat, b: nat, c: nat, d: nat)
    requires a < 2 && b < 2 && c < 2 && d < 2
    ensures
      var e := f * PAGE_SIZE + (1 + 2 * a + 4 * b + 32 * c + 64 * d);
      && e / PAGE_SIZE == f && e % 2 == 1 && e / 2 % 2 == a && e / 4 % 2 == b && e / 8 % 4 == 0
      && e / 32 % 2 == c && e / 64 % 2 == d && e / 128 % 32 == 0
  {
    var e := f * PAGE_SIZE + (1 + 2 * a + 4 * b + 32 * c + 64 * d);
    Bits.ModUnique(e, 2, f * 2048 + a + 2 * b + 16 * c + 32 * d, 1);
    Bits.ModUnique(e / 2, 2, f * 1024 + b + 8 * c + 16 * d, a);
    Bits.ModUnique(e, 4, f * 1024 + b + 8 * c + 16 * d, 1 + 2 * a);
    Bits.ModUnique(e / 4, 2, f * 512 + 4 * c + 8 * d, b);
    Bits.ModUnique(e, 8, f * 512 + 4 * c + 8 * d, 1 + 2 * a + 4 * b);
    Bits.ModUnique(e / 8, 4, f * 128 + c + 2 * d, 0);
    Bits.ModUnique(e, 32, f * 128 + c + 2 * d, 1 + 2 * a + 4 * b);
    Bits.ModUnique(e / 32, 2, f * 64 + d, c);
    Bits.ModUnique(e, 64, f * 64 + d, 1 + 2 * a + 4 * b + 32 * c);
    Bits.ModUnique(e / 64, 2, f * 32, d);
    Bits.ModUnique(e, 128, f * 32, 1 + 2 * a + 4 * b + 32 * c + 64 * d);
    Bits.ModUnique(e / 128, 32, f, 0);
    Bits.ModUnique(e, PAGE_SIZE, f, 1 + 2 * a + 4 * b + 32 * c + 64 * d);
  }

  lemma HwPresent(flags: nat)
    ensures HwFlags(WithPresent(flags)) % 2 == 1
  {
    assert Flag(WithPresent(flags), 1) == 1;
  }

  lemma SplitIndex(va: nat)
    ensures va / 0x40_0000 == va / PAGE_SIZE / ENTRIES_AMOUNT
    ensures va / PAGE_SIZE == va / PAGE_SIZE / ENTRIES_AMOUNT * ENTRIES_AMOUNT + va / PAGE_SIZE % ENTRIES_AMOUNT
  {
  }

  lemma EntryParts(pa: nat, flags: nat)
    requires flags % 2 == 1
    ensures FrameOf(MakeEntry(pa, flags)) == pa / PAGE_SIZE && Present(MakeEntry(pa, flags))
  {
    JoinedParts(pa / PAGE_SIZE, flags % PAGE_SIZE);
    JoinedParity(pa / PAGE_SIZE, flags % PAGE_SIZE);
    assert flags % PAGE_SIZE % 2 == flags % 2;
  }

  lemma JoinedParts(q: nat, r: nat)
    requires r < PAGE_SIZE
    ensures (q * PAGE_SIZE + r) / PAGE_SIZE == q && (q * PAGE_SIZE + r) % PAGE_SIZE == r
  {
  }

  lemma JoinedParity(q: nat, r: nat)
    ensures (q * PAGE_SIZE + r) % 2 == r % 2
  {
    assert q * PAGE_SIZE + r == 2 * (2048 * q) + r;
  }

  lemma Advance(va: nat, pa: nat, n: nat)
    requires va % PAGE_SIZE == 0 && pa % PAGE_SIZE == 0
    ensures (va + n * PAGE_SIZE) % PAGE_SIZE == 0 && (va + n * PAGE_SIZE) / PAGE_SIZE == va / PAGE_SIZE + n
    ensures (pa + n * PAGE_SIZE) % TWO_32 % PAGE_SIZE == 0
    ensures (pa + n * PAGE_SIZE) % TWO_32 / PAGE_SIZE == (pa / PAGE_SIZE + n) % 0x10_0000
    ensures ((pa + n * PAGE_SIZE) % TWO_32 + PAGE_SIZE) % TWO_32 == (pa + (n + 1) * PAGE_SIZE) % TWO_32
  {
    SumPages(va, n);
    SumPages(pa, n);
    WrapBytes(pa / PAGE_SIZE + n, 0);
    JoinedParts((pa / PAGE_SIZE + n) % 0x10_0000, 0);
    WrapAdd(pa + n * PAGE_SIZE, PAGE_SIZE);
  }

  lemma SumPages(x: nat, n: nat)
    requires x % PAGE_SIZE == 0
    ensures x + n * PAGE_SIZE == (x / PAGE_SIZE + n) * PAGE_SIZE && (x + n * PAGE_SIZE) % PAGE_SIZE == 0
    ensures (x + n * PAGE_SIZE) / PAGE_SIZE == x / PAGE_SIZE + n
  {
    JoinedParts(x / PAGE_SIZE + n, 0);
  }

  lemma WrapAdd(a: nat, b: nat)
    ensures (a % TWO_32 + b) % TWO_32 == (a + b) % TWO_32
  {
  }

  lemma AdvanceBy(pa: nat, n: nat, m: nat)
    ensures ((pa + n * PAGE_SIZE) % TWO_32 + m * PAGE_SIZE) % TWO_32 == (pa + (n + m) * PAGE_SIZE) % TWO_32
  {
    WrapAdd(pa + n * PAGE_SIZE, m * PAGE_SIZE);
  }

  lemma SameSlot(first: nat, n: nat, room: nat)
    requires room == ENTRIES_AMOUNT - first % ENTRIES_AMOUNT && n < room
    ensures (first + n) / ENTRIES_AMOUNT == first / ENTRIES_AMOUNT
  {
  }

  lemma MappedNone(m: Frames, dir: nat, v: nat, f: nat, flags: nat)
    ensures Mapped(m, m, dir, v, f, 0, flags)
  {
    hide Page;
  }

  lemma MappedSame(m0: Frames, m1: Frames, m2: Frames, dir: nat, v: nat, f: nat, n: nat, flags: nat)
    requires Mapped(m0, m1, dir, v, f, n, flags)
    requires forall w: nat :: w < MAPPABLE_PAGES ==> Page(m2, dir, w) == Page(m1, dir, w)
    ensures Mapped(m0, m2, dir, v, f, n, flags)
  {
    hide Page;
  }

  lemma MappedJoin(m0: Frames, m1: Frames, m2: Frames, dir: nat, v: nat, f: nat, n: nat, k: nat, flags: nat)
    requires Mapped(m0, m1, dir, v, f, n, flags) && Mapped(m1, m2, dir, v + n, (f + n) % 0x10_0000, k, flags)
    requires v + n + k <= MAPPABLE_PAGES
    ensures Mapped(m0, m2, dir, v, f, n + k, flags)
  {
    hide Page;
    forall w: nat | w < MAPPABLE_PAGES
      ensures Page(m2, dir, w) ==
        if v <= w < v + (n + k) then Some(FrameEntry(f + (w - v), flags)) else Page(m0, dir, w)
    {
      if v + n <= w < v + n + k { WrapSum(f + n, w - v - n); }
      assert Page(m2, dir, w) ==
        if v + n <= w < v + n + k then Some(FrameEntry((f + n) % 0x10_0000 + (w - v - n), flags)) else Page(m1, dir, w);
    }
  }

  lemma WrapSum(a: nat, b: nat)
    ensures (a % 0x10_0000 + b) % 0x10_0000 == (a + b) % 0x10_0000
  {
  }

  // The directory entry of a new table alone, before the table is cleared.
  lemma InstallDirectory(mem: Frames, dir: nat, i: nat, e: nat)
    requires Tables(mem, dir) && i < RECURSIVE_SLOT && Present(e) && FrameOf(e) in mem && FrameOf(e) != dir
    requires forall k: nat :: k < RECURSIVE_SLOT && Present(mem[dir][k]) ==> FrameOf(mem[dir][k]) != FrameOf(e)
    ensures Tables(Write(mem, dir, i, e), dir)
  {
  }

  lemma InstallSpare(m: Frames, m': Frames, dir: nat, i: nat, e: nat, x: nat)
    requires Tables(m, dir) && i < RECURSIVE_SLOT && FrameOf(e) in m && FrameOf(e) != dir
    requires m' == Write(m, dir, i, e)[FrameOf(e) := Zeros()] && Spare(m, dir, x) && x != FrameOf(e)
    ensures Spare(m', dir, x)
  {
  }

  lemma ClearWord(mem: Frames, dir: nat, i: nat, j: nat)
    requires Tables(mem, dir) && i < RECURSIVE_SLOT && j < ENTRIES_AMOUNT && Present(mem[dir][i])
    ensures FrameOf(mem[dir][i]) in mem && FrameOf(mem[dir][i]) != dir
    ensures Tables(Write(mem, FrameOf(mem[dir][i]), j, 0), dir)
  {
  }

  lemma AbsentTable(mem: Frames, dir: nat, v: nat, n: nat)
    requires Tables(mem, dir) && v / ENTRIES_AMOUNT < ENTRIES_AMOUNT && !Present(mem[dir][v / ENTRIES_AMOUNT])
    requires n <= ENTRIES_AMOUNT - v % ENTRIES_AMOUNT
    ensures forall w: nat :: v <= w < v + n ==> Page(mem, dir, w).None?
  {
    forall w: nat | v <= w < v + n ensures w / ENTRIES_AMOUNT == v / ENTRIES_AMOUNT { }
  }

  lemma OnePage(mem: Frames, dir: nat, i: nat, j: nat)
    requires Tables(mem, dir) && i < ENTRIES_AMOUNT && j < ENTRIES_AMOUNT && Present(mem[dir][i])
    ensures FrameOf(mem[dir][i]) in mem
    ensures (Page(mem, dir, i * ENTRIES_AMOUNT + j).Some? <==> Present(mem[FrameOf(mem[dir][i])][j]))
  {
    assert (i * ENTRIES_AMOUNT + j) / ENTRIES_AMOUNT == i && (i * ENTRIES_AMOUNT + j) % ENTRIES_AMOUNT == j;
  }
}
