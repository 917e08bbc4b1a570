/** The physical region descriptor table of the bus-master IDE driver: a request is a
    list of chunks of sectors, and the table lists byte regions for the controller.
    Pointers are 32-bit; masks with a power of two less one are remainders. */
module Prd {
  import opened Defs

  const SECTOR_SIZE := 512
  const PRD_MAX_BOUNDARY := 0x1_0000

  // ide_prd_entry_t; `last` is the end bit of its flags.
  datatype Entry = Entry(physAddr: nat, bytesSize: nat, last: bool)

  // stor_request_chunk_entry_t
  datatype Chunk = Chunk(pa: nat, sectors: nat)

  // The length the controller reads: zero stands for 64 KiB.
  function Length(e: Entry): nat {
    if e.bytesSize == 0 then PRD_MAX_BOUNDARY else e.bytesSize
  }

  // The addresses of n bytes from a on.
  function Span(a: nat, n: nat): (s: seq<nat>)
    ensures |s| == n
  {
    seq(n, i => a + i)
  }

  // The bytes of all regions, in table order.
  function Regions(es: seq<Entry>): seq<nat> {
    if es == [] then [] else Regions(es[..|es| - 1]) + Span(es[|es| - 1].physAddr, Length(es[|es| - 1]))
  }

  // The bytes of all chunks, in request order.
  function Buffers(cs: seq<Chunk>): seq<nat> {
    if cs == [] then [] else Buffers(cs[..|cs| - 1]) + Span(cs[|cs| - 1].pa, cs[|cs| - 1].sectors * SECTOR_SIZE)
  }

  predicate Whole(n: nat) {
    n % SECTOR_SIZE == 0
  }

  // The 64 KiB window of an address.
  function Window(a: nat): nat {
    a / PRD_MAX_BOUNDARY
  }

  lemma WholeSectors(n: nat)
    ensures Whole(n * SECTOR_SIZE)
  {
  }

  lemma WholeZero()
    ensures Whole(0)
  {
  }

  lemma WholeSum(a: nat, b: nat)
    requires Whole(a) && Whole(b)
    ensures Whole(a + b)
  {
  }

  lemma WholeRest(a: nat, b: nat)
    requires Whole(a) && Whole(b) && b <= a
    ensures Whole(a - b)
  {
  }

  // What the controller demands of a region, and the limit this driver keeps.
  predicate Proper(e: Entry) {
    && 0 < Length(e) <= 2 * PAGE_SIZE && Whole(Length(e)) && e.bytesSize < PRD_MAX_BOUNDARY
    && e.physAddr + Length(e) <= TWO_32
    && Window(e.physAddr) == Window(e.physAddr + Length(e) - 1)
  }

  // A buffer aligned to sectors that ends within the 32-bit address space.
  predicate Addressable(c: Chunk) {
    Whole(c.pa) && c.pa + c.sectors * SECTOR_SIZE <= TWO_32
  }

  lemma SpanAppend(a: nat, m: nat, n: nat)
    ensures Span(a, m) + Span(a + m, n) == Span(a, m + n)
  {
  }

  lemma RegionsSnoc(es: seq<Entry>, e: Entry)
    ensures Regions(es + [e]) == Regions(es) + Span(e.physAddr, Length(e))
  {
    assert (es + [e])[..|es|] == es;
  }

  // The end bit does not change what an entry covers.
  lemma RegionsMarked(es: seq<Entry>)
    requires es != []
    ensures Regions(es[|es| - 1 := es[|es| - 1].(last := true)]) == Regions(es)
  {
    assert es[|es| - 1 := es[|es| - 1].(last := true)][..|es| - 1] == es[..|es| - 1];
  }

  lemma MarkedProper(e: Entry)
    requires Proper(e)
    ensures Proper(e.(last := true))
  {
  }

  class IdeDma {
    // prdt_capacity is its length.
    var prdt: array<Entry>

    constructor (capacity: nat)
      requires capacity > 0
      ensures prdt.Length == capacity && fresh(prdt)
    {
      prdt := new Entry[capacity](_ => Entry(0, 0, false));
    }

    // The growth of the table by krealloc, which keeps the entries.
    method Grow()
      requires prdt.Length > 0
      modifies this
      ensures fresh(prdt) && prdt.Length == 2 * old(prdt.Length) && prdt[..old(prdt.Length)] == old(prdt[..])
    {
      var bigger := new Entry[2 * prdt.Length](_ => Entry(0, 0, false));
      for i := 0 to prdt.Length
        invariant prdt == old(prdt) && bigger[..i] == prdt[..i] && prdt[..] == old(prdt[..])
      {
        bigger[i] := prdt[i];
      }
      prdt := bigger;
    }

    // The loop of prdt_iterate_chunk_prd: how many bytes the next entry takes.
    static method TakeBytes(remaining: nat, pa: nat) returns (size: nat)
      requires 0 < remaining && Whole(remaining) && Whole(pa) && pa + remaining <= TWO_32
      ensures 0 < size <= remaining && size <= 2 * PAGE_SIZE && Whole(size) && Window(pa) == Window(pa + size - 1)
      ensures size >= Min(remaining, PAGE_SIZE - pa % PAGE_SIZE)
      ensures ExactTake(remaining, pa, size)
    {
      hide Take, Whole, Window, ExactTake;
      size := 0;
      var left, cur := remaining, pa;
      WholeZero();
      while left > 0
        invariant size + left == remaining && left >= 0 && cur >= 0 && Whole(size) && Whole(left) && Whole(cur)
        invariant size == 0 ==> cur == pa && left == remaining && left > 0
        invariant size > 0 && left > 0 ==> size == PAGE_SIZE - pa % PAGE_SIZE
        invariant left == 0 ==> ExactTake(remaining, pa, size)
        invariant size > 0 ==> size >= Min(remaining, PAGE_SIZE - pa % PAGE_SIZE)
        invariant size > 0 ==> size <= PAGE_SIZE && cur == pa + size && Window(pa) == Window(cur)
        invariant left > 0 || Window(pa) == Window(pa + size - 1)
      {
        var take := Take(pa, size, cur, left);
        TakeFits(pa, size, cur, left);
        FirstTake(pa, left);
        SecondTake(remaining, pa, size, cur, left);
        if take == 0 { break; }
        WholeSum(size, take);
        WholeRest(left, take);
        size := size + take;
        left := left - take;
        if left == 0 { break; }
        var next := (pa + size) % TWO_32;
        Unwrapped(pa, cur, size, take);
        if next != (cur + size) % TWO_32 { break; }
        if Window(cur) != Window(next) { break; }
        WholeSum(pa, size);
        cur := next;
      }
    }

    // prdt_iterate_chunk_prd: fills one entry and returns what is left of the chunk.
    method FillEntry(index: nat, remaining: nat, pa: nat) returns (remaining': nat, pa': nat)
      requires 0 < remaining && Whole(remaining) && Whole(pa) && pa + remaining <= TWO_32
      requires 0 < prdt.Length && index <= prdt.Length
      modifies this, prdt
      ensures prdt == old(prdt) || fresh(prdt)
      ensures index < prdt.Length && prdt.Length == (if index < old(prdt.Length) then 1 else 2) * old(prdt.Length)
      ensures prdt[..index] == old(prdt[..index])
      ensures
        var e := prdt[index];
        Proper(e) && !e.last && e.physAddr == pa && Min(remaining, PAGE_SIZE - pa % PAGE_SIZE) <= Length(e) <= remaining
      ensures remaining' == remaining - Length(prdt[index]) && pa' == (pa + Length(prdt[index])) % TWO_32
      ensures ExactTake(remaining, pa, Length(prdt[index]))
    {
      hide ExactTake, Window, Whole;
      ghost var before := prdt[..index];
      if index >= prdt.Length {
        Grow();
        assert prdt[..index] == before;
      }
      var size := TakeBytes(remaining, pa);
      prdt[index] := Entry(pa, if size == PRD_MAX_BOUNDARY then 0 else size % PRD_MAX_BOUNDARY, false);
      assert prdt[..index] == before;
      remaining' := remaining - size;
      pa' := (pa + size) % TWO_32;
    }

    // fill_prdt: the table now covers the chunks' bytes, in order, and only its last entry ends it.
    method FillPrdt(chunks: seq<Chunk>) returns (sectors: nat, count: nat)
      requires 0 < prdt.Length && forall i :: 0 <= i < |chunks| ==> Addressable(chunks[i])
      modifies this, prdt
      ensures 0 < count ==> count <= prdt.Length < 2 * count || prdt.Length == old(prdt.Length)
      ensures count <= prdt.Length && sectors * SECTOR_SIZE == |Buffers(chunks)|
      ensures Regions(prdt[..count]) == Buffers(chunks)
      ensures forall i :: 0 <= i < count ==> Proper(prdt[i]) && (prdt[i].last <==> i == count - 1)
    {
      hide Proper, Whole;
      sectors, count := 0, 0;
      for ci := 0 to |chunks|
        invariant Table(count, old(prdt.Length)) && (prdt == old(prdt) || fresh(prdt))
        invariant Regions(prdt[..count]) == Buffers(chunks[..ci]) && sectors * SECTOR_SIZE == |Buffers(chunks[..ci])|
      {
        assert chunks[..ci + 1][..ci] == chunks[..ci];
        count := FillChunk(chunks[ci], count, old(prdt.Length));
        sectors := sectors + chunks[ci].sectors;
      }
      assert chunks[..|chunks|] == chunks;
      if count > 0 {
        ghost var es := prdt[..count];
        prdt[count - 1] := prdt[count - 1].(last := true);
        assert prdt[..count] == es[|es| - 1 := es[|es| - 1].(last := true)];
        RegionsMarked(es);
        MarkedProper(es[count - 1]);
      }
    }

    // The first `count` entries are proper, none of them ends the table, and the
    // table has only grown as far as it had to.
    ghost predicate Table(count: nat, initial: nat)
      reads this, prdt
    {
      && 0 < prdt.Length && count <= prdt.Length && (prdt.Length == initial || prdt.Length < 2 * count)
      && forall i :: 0 <= i < count ==> Proper(prdt[i]) && !prdt[i].last
    }

    // The loop of fill_prdt over one chunk.
    method FillChunk(c: Chunk, count: nat, ghost initial: nat) returns (count': nat)
      requires Table(count, initial) && Addressable(c)
      modifies this, prdt
      ensures (prdt == old(prdt) || fresh(prdt)) && Table(count', initial)
      ensures Regions(prdt[..count']) == old(Regions(prdt[..count])) + Span(c.pa, c.sectors * SECTOR_SIZE)
    {
      hide Regions, Proper, Whole, Length, Window, Span;
      var remaining, pa := c.sectors * SECTOR_SIZE, c.pa;
      assert Whole(remaining) by { WholeSectors(c.sectors); }
      count' := count;
      ghost var done := 0;
      while remaining > 0
        invariant done + remaining == c.sectors * SECTOR_SIZE && remaining >= 0 && Whole(remaining)
        invariant done >= 0 && (remaining > 0 ==> pa == c.pa + done && Whole(pa))
        invariant (prdt == old(prdt) || fresh(prdt)) && Table(count', initial)
        invariant Regions(prdt[..count']) == old(Regions(prdt[..count])) + Span(c.pa, done)
      {
        ghost var es, r0 := prdt[..count'], remaining;
        remaining, pa := FillEntry(count', remaining, pa);
        ghost var e := prdt[count'];
        assert forall i :: 0 <= i < count' ==> prdt[i] == es[i];
        assert prdt[..count' + 1] == es + [e];
        RegionsSnoc(es, e);
        SpanAppend(c.pa, done, Length(e));
        EntryStep(e, r0, c.pa + done);
        done := done + Length(e);
        count' := count' + 1;
      }
    }
  }

  lemma EntryStep(e: Entry, remaining: nat, pa: nat)
    requires Proper(e) && Whole(remaining) && Whole(pa) && Length(e) <= remaining && pa + remaining <= TWO_32
    ensures Whole(remaining - Length(e)) && Whole(pa + Length(e)) && Length(e) > 0
    ensures remaining - Length(e) > 0 ==> (pa + Length(e)) % TWO_32 == pa + Length(e)
  {
    hide Window, Whole, Length;
    WholeParts(remaining, Length(e));
    WholeParts(pa, Length(e));
  }

  lemma WholeParts(a: nat, b: nat)
    requires Whole(a) && Whole(b)
    ensures Whole(a + b) && (b <= a ==> Whole(a - b))
  {
    hide Whole;
    var i := SectorsOf(a);
    var j := SectorsOf(b);
    WholeSectors(i + j);
    if b <= a { WholeSectors(i - j); }
  }

  lemma SectorsOf(n: nat) returns (k: nat)
    requires Whole(n)
    ensures n == k * SECTOR_SIZE
  {
    k := n / SECTOR_SIZE;
  }

  // The bytes one turn of the loop adds to an entry of `size` bytes.
  function Take(pa: nat, size: nat, cur: nat, left: nat): int {
    var pageSpace := PAGE_SIZE - (pa + size) % PAGE_SIZE;
    var take := if left < pageSpace then left else pageSpace;
    var boundary := PRD_MAX_BOUNDARY - (cur + size) % TWO_32 % PRD_MAX_BOUNDARY;
    var least := if take > boundary then boundary else take;
    least - least % SECTOR_SIZE
  }

  // Some whole sectors fit, and they end in the page in which they begin.
  lemma TakeFits(pa: nat, size: nat, cur: nat, left: nat)
    requires Whole(pa) && Whole(size) && Whole(cur) && Whole(left) && left > 0
    ensures
      var take := Take(pa, size, cur, left);
      && 0 < take <= left && take <= PAGE_SIZE && Whole(take)
      && Window(pa + size + take - 1) == Window(pa + size)
  {
    hide Whole, Window;
    WholeSum(pa, size);
    WholeSum(cur, size);
    var space, boundary := PAGE_SIZE - (pa + size) % PAGE_SIZE,
      PRD_MAX_BOUNDARY - (cur + size) % TWO_32 % PRD_MAX_BOUNDARY;
    SpaceWhole(pa + size);
    BoundaryWhole(cur + size);
    LeastWhole(left, space, boundary);
    PageInWindow(pa + size, Take(pa, size, cur, left));
  }

  lemma SpaceWhole(x: nat)
    requires Whole(x)
    ensures Whole(PAGE_SIZE - x % PAGE_SIZE) && 0 < PAGE_SIZE - x % PAGE_SIZE
  {
  }

  lemma BoundaryWhole(x: nat)
    requires Whole(x)
    ensures Whole(PRD_MAX_BOUNDARY - x % TWO_32 % PRD_MAX_BOUNDARY)
    ensures 0 < PRD_MAX_BOUNDARY - x % TWO_32 % PRD_MAX_BOUNDARY
  {
    var r := x % TWO_32;
    assert Whole(r);
  }

  lemma LeastWhole(a: nat, b: nat, c: nat)
    requires Whole(a) && Whole(b) && Whole(c)
    ensures
      var take := if a < b then a else b;
      var least := if take > c then c else take;
      least % SECTOR_SIZE == 0 && Whole(least)
  {
  }

  // The first turn goes as far as the page or the chunk does.
  lemma FirstTake(pa: nat, left: nat)
    requires Whole(pa) && Whole(left) && left > 0
    ensures Take(pa, 0, pa, left) == Min(left, PAGE_SIZE - pa % PAGE_SIZE)
  {
    var space := PAGE_SIZE - pa % PAGE_SIZE;
    SpaceWhole(pa);
    BoundaryWhole(pa);
    PageBeforeWindow(pa);
    LeastWhole(left, space, space);
  }

  // The bytes of one entry: up to the end of the page or the chunk, and if that stays in
  // its 64 KiB window up to one page more, short of the end of the window of an address
  // that counts the first part twice.
  ghost predicate ExactTake(remaining: nat, pa: nat, size: nat) {
    var first := Min(remaining, PAGE_SIZE - pa % PAGE_SIZE);
    var rest := remaining - first;
    size ==
      if rest == 0 || (pa + first) / PRD_MAX_BOUNDARY != pa / PRD_MAX_BOUNDARY then first
      else first + Min(rest, Min(PAGE_SIZE, PRD_MAX_BOUNDARY - (pa + 2 * first) % PRD_MAX_BOUNDARY))
  }

  // Where the loop may stop, the entry has its exact size.
  lemma SecondTake(remaining: nat, pa: nat, size: nat, cur: nat, left: nat)
    requires Whole(pa) && Whole(size) && Whole(cur) && Whole(left) && left > 0 && size + left == remaining
    requires size == 0 ==> cur == pa
    requires size > 0 ==> cur == pa + size && size == PAGE_SIZE - pa % PAGE_SIZE && Window(pa) == Window(cur)
    ensures
      var take := Take(pa, size, cur, left);
      && (size > 0 ==> ExactTake(remaining, pa, size + take))
      && (size == 0 && take == left ==> ExactTake(remaining, pa, take))
      && (size == 0 && take < left ==> take == PAGE_SIZE - pa % PAGE_SIZE)
      && (size == 0 && take < left && Window(pa) != Window(pa + take) ==> ExactTake(remaining, pa, take))
  {
    if size == 0 {
      FirstTake(pa, left);
    } else {
      TakeWhole(pa, size, left);
    }
  }

  lemma TakeWhole(pa: nat, size: nat, left: nat)
    requires Whole(pa) && Whole(size) && Whole(left) && left > 0 && size == PAGE_SIZE - pa % PAGE_SIZE
    ensures Take(pa, size, pa + size, left) ==
      Min(left, Min(PAGE_SIZE, PRD_MAX_BOUNDARY - (pa + 2 * size) % PRD_MAX_BOUNDARY))
  {
    hide Whole;
    WholeSum(pa, size);
    WholeSum(pa + size, size);
    SpaceWhole(pa + size);
    BoundaryWhole(pa + size + size);
    WindowOfWrapped(pa + size + size);
    PageEnd(pa);
    LeastWhole(left, PAGE_SIZE - (pa + size) % PAGE_SIZE,
      PRD_MAX_BOUNDARY - (pa + size + size) % TWO_32 % PRD_MAX_BOUNDARY);
  }

  lemma PageEnd(pa: nat)
    ensures (pa + (PAGE_SIZE - pa % PAGE_SIZE)) % PAGE_SIZE == 0
  {
    var q := pa / PAGE_SIZE;
    assert pa + (PAGE_SIZE - pa % PAGE_SIZE) == PAGE_SIZE * (q + 1);
  }

  lemma PageBeforeWindow(x: nat)
    ensures PAGE_SIZE - x % PAGE_SIZE <= PRD_MAX_BOUNDARY - x % TWO_32 % PRD_MAX_BOUNDARY
  {
    WindowOfWrapped(x);
    PageBeforeEnd(x);
  }

  // Wrapping at 2^32 keeps the place in the window.
  lemma WindowOfWrapped(x: nat)
    ensures x % TWO_32 % PRD_MAX_BOUNDARY == x % PRD_MAX_BOUNDARY
  {
    var q, r := x / TWO_32, x % TWO_32;
    assert x == PRD_MAX_BOUNDARY * (0x1_0000 * q) + r;
  }

  lemma PageBeforeEnd(x: nat)
    ensures PAGE_SIZE - x % PAGE_SIZE <= PRD_MAX_BOUNDARY - x % PRD_MAX_BOUNDARY
  {
    var q, r := x / PRD_MAX_BOUNDARY, x % PRD_MAX_BOUNDARY;
    assert x == PAGE_SIZE * (16 * q) + r;
    assert x % PAGE_SIZE == r % PAGE_SIZE;
  }

  lemma PageInWindow(x: nat, n: nat)
    requires 0 < n <= PAGE_SIZE - x % PAGE_SIZE
    ensures Window(x + n - 1) == Window(x)
  {
    assert (x + n - 1) / PAGE_SIZE == x / PAGE_SIZE;
    assert x / PRD_MAX_BOUNDARY == x / PAGE_SIZE / 16;
    assert (x + n - 1) / PRD_MAX_BOUNDARY == (x + n - 1) / PAGE_SIZE / 16;
  }

  // After the first turn the contiguity test fails, so an entry takes at most two turns.
  lemma Unwrapped(pa: nat, cur: nat, size: nat, take: nat)
    requires pa + size < TWO_32 && 0 < take <= size && (cur == pa || cur == pa + size - take)
    ensures (pa + size) % TWO_32 == pa + size
    ensures cur != pa ==> (cur + size) % TWO_32 != pa + size
  {
  }
}
