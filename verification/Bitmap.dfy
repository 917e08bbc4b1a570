/** The early physical allocator: one bit per page, set while the page is free. */
module Bitmap {
  import opened Defs

  const BIT_TO_BYTE := 8
  // One bit for each page of a 32-bit address space.
  const MAX_GROUPS := 0x2_0000

  // 1 << k
  function Mask(k: nat): bv8 {
    if k == 0 then 1 else if k == 1 then 2 else if k == 2 then 4 else if k == 3 then 8
    else if k == 4 then 16 else if k == 5 then 32 else if k == 6 then 64 else 128
  }

  predicate Bit(b: bv8, k: nat) {
    b & Mask(k) != 0
  }

  // Page i is free.
  predicate Free(g: seq<bv8>, i: nat) {
    i / BIT_TO_BYTE < |g| && Bit(g[i / BIT_TO_BYTE], i % BIT_TO_BYTE)
  }

  // Bit i % 8 of byte i / 8, counted from the lowest.
  lemma FreeMeans(g: seq<bv8>, i: nat)
    ensures Free(g, i) <==> i / 8 < |g| && (g[i / 8] >> (i % 8)) & 1 == 1
  {
    hide Bit;
    if i / 8 < |g| { BitMeans(g[i / 8], i % 8); }
  }

  lemma BitMeans(b: bv8, k: nat)
    requires k < BIT_TO_BYTE
    ensures Bit(b, k) <==> (b >> k) & 1 == 1
  {
    if k == 0 {
      assert b & 1 != 0 <==> (b >> 0) & 1 == 1;
    } else if k == 1 {
      assert b & 2 != 0 <==> (b >> 1) & 1 == 1;
    } else if k == 2 {
      assert b & 4 != 0 <==> (b >> 2) & 1 == 1;
    } else if k == 3 {
      assert b & 8 != 0 <==> (b >> 3) & 1 == 1;
    } else if k == 4 {
      assert b & 16 != 0 <==> (b >> 4) & 1 == 1;
    } else if k == 5 {
      assert b & 32 != 0 <==> (b >> 5) & 1 == 1;
    } else if k == 6 {
      assert b & 64 != 0 <==> (b >> 6) & 1 == 1;
    } else {
      assert b & 128 != 0 <==> (b >> 7) & 1 == 1;
    }
  }

  lemma ClearBit(b: bv8, k: nat, j: nat)
    requires k < BIT_TO_BYTE && j < BIT_TO_BYTE
    ensures Bit(b & !Mask(k), j) <==> Bit(b, j) && j != k
  {
  }

  lemma SetBit(b: bv8, k: nat, j: nat)
    requires k < BIT_TO_BYTE && j < BIT_TO_BYTE
    ensures Bit(b | Mask(k), j) <==> Bit(b, j) || j == k
  {
  }

  lemma ZeroGroup(b: bv8, k: nat)
    requires b == 0
    ensures !Bit(b, k)
  {
  }

  // Exactly the n pages from s on changed, from free to taken.
  ghost predicate Took(g: seq<bv8>, g': seq<bv8>, s: nat, n: nat) {
    && |g'| == |g| && (forall i: nat :: s <= i < s + n ==> Free(g, i))
    && forall i: nat :: Free(g', i) <==> Free(g, i) && !(s <= i < s + n)
  }

  // The free pages from `from` on.
  ghost function FreeFrom(g: seq<bv8>, from: nat): set<nat> {
    set i: nat | from <= i < |g| * BIT_TO_BYTE && Free(g, i)
  }

  // How often bitmap_alloc_page can be asked before it answers 0. Page 0, whose address
  // is 0, is taken and lost.
  ghost function Available(g: seq<bv8>, hint: nat): nat {
    if hint == 0 && Free(g, 0) then 0 else |FreeFrom(g, hint * BIT_TO_BYTE)|
  }

  ghost function RangeSet(s: nat, n: nat): (r: set<nat>)
    ensures |r| == n && forall i: nat :: i in r <==> s <= i < s + n
  {
    if n == 0 then {} else RangeSet(s, n - 1) + {s + n - 1}
  }

  // Taking n pages leaves n fewer.
  lemma TookCount(g: seq<bv8>, g': seq<bv8>, s: nat, n: nat, from: nat)
    requires Took(g, g', s, n) && from <= s && s + n <= |g| * BIT_TO_BYTE
    ensures |FreeFrom(g', from)| + n == |FreeFrom(g, from)|
  {
    hide Free;
    assert FreeFrom(g, from) == FreeFrom(g', from) + RangeSet(s, n);
  }

  lemma NoneFrom(g: seq<bv8>, from: nat)
    ensures FreeFrom(g, from) == {} <==> forall i: nat :: from <= i ==> !Free(g, i)
  {
    hide Free;
    BeyondEnd(g);
    if i: nat :| from <= i && Free(g, i) { assert i in FreeFrom(g, from); }
  }

  // The first run of free pages from the hint on starts at s and has at least n pages.
  ghost predicate FirstRun(g: seq<bv8>, hint: nat, s: nat, n: nat) {
    && hint * BIT_TO_BYTE <= s && (forall i: nat :: hint * BIT_TO_BYTE <= i < s ==> !Free(g, i))
    && n > 0 && forall i: nat :: s <= i < s + n ==> Free(g, i)
  }

  // A search that starts at the hint finds the first run.
  lemma RunFound(g: seq<bv8>, hint: nat, start: Option<nat>, n: nat, count: nat)
    requires start.None? ==> forall i: nat :: hint * BIT_TO_BYTE <= i ==> !Free(g, i)
    requires start.Some? ==> hint * BIT_TO_BYTE <= start.value && 0 < n <= count && Free(g, start.value)
    requires start.Some? ==> forall i: nat :: hint * BIT_TO_BYTE <= i < start.value ==> !Free(g, i)
    requires start.Some? && n < count ==> !Free(g, start.value + n)
    ensures forall s: nat :: FirstRun(g, hint, s, count) ==> start == Some(s) && n == count
  {
    hide Free;
    forall s: nat | FirstRun(g, hint, s, count) ensures start == Some(s) && n == count {
      assert Free(g, s);
    }
  }

  class PageBitmap {
    const groups: array<bv8>
    // last_free_group_index: the search starts at this group.
    var hint: nat

    constructor (groups: array<bv8>)
      ensures this.groups == groups && hint == 0
    {
      this.groups := groups;
      hint := 0;
    }

    // alloc_page_at
    method AllocPageAt(i: nat)
      requires i / BIT_TO_BYTE < groups.Length
      modifies groups
      ensures forall j: nat :: Free(groups[..], j) <==> Free(old(groups[..]), j) && j != i
    {
      var k := i / BIT_TO_BYTE;
      groups[k] := groups[k] & !Mask(i % BIT_TO_BYTE);
      ClearedPage(old(groups[..]), groups[..], i);
    }

    // free_phys_page_bitmap, with free_page_at
    method FreePage(i: nat)
      requires i / BIT_TO_BYTE < groups.Length
      modifies this`hint, groups
      ensures forall j: nat :: Free(groups[..], j) <==> Free(old(groups[..]), j) || j == i
      ensures hint == i / BIT_TO_BYTE
    {
      var k := i / BIT_TO_BYTE;
      groups[k] := groups[k] | Mask(i % BIT_TO_BYTE);
      SetPage(old(groups[..]), groups[..], i);
      hint := k;
    }

    // The search loops of bitmap_alloc_pages: the first free page from the hint on, and
    // the pages that follow it, up to `count`.
    method FindRun(count: nat) returns (start: Option<nat>, n: nat)
      requires count > 0
      ensures start.None? ==> n == 0 && forall i: nat :: hint * BIT_TO_BYTE <= i ==> !Free(groups[..], i)
      ensures start.Some? ==>
        0 < n <= count && hint * BIT_TO_BYTE <= start.value && start.value + n <= groups.Length * BIT_TO_BYTE
      ensures start.Some? ==> forall i: nat :: start.value <= i < start.value + n ==> Free(groups[..], i)
      ensures start.Some? ==> forall i: nat :: hint * BIT_TO_BYTE <= i < start.value ==> !Free(groups[..], i)
      ensures start.Some? && n < count ==> !Free(groups[..], start.value + n)
    {
      hide Free;
      var group := hint;
      while group < groups.Length && groups[group] == 0
        invariant hint <= group
        invariant forall i: nat :: hint * BIT_TO_BYTE <= i < group * BIT_TO_BYTE ==> !Free(groups[..], i)
      {
        ZeroPages(groups[..], group);
        group := group + 1;
      }
      start, n := None, 0;
      var total := groups.Length * BIT_TO_BYTE;
      var i := group * BIT_TO_BYTE;
      BeyondEnd(groups[..]);
      while i < total
        invariant hint * BIT_TO_BYTE <= i
        invariant (start.None? ==> n == 0 && forall j: nat :: hint * BIT_TO_BYTE <= j < i ==> !Free(groups[..], j))
        invariant start.Some? ==> 0 < n < count && hint * BIT_TO_BYTE <= start.value && start.value + n == i <= total
        invariant start.Some? ==> forall j: nat :: start.value <= j < i ==> Free(groups[..], j)
        invariant start.Some? ==> forall j: nat :: hint * BIT_TO_BYTE <= j < start.value ==> !Free(groups[..], j)
        decreases total - i
      {
        FreeBit(groups[..], i);
        var isFree := Bit(groups[i / BIT_TO_BYTE], i % BIT_TO_BYTE);
        if !isFree && start.Some? { return; }
        if isFree {
          if start.None? { start := Some(i); }
          n := n + 1;
          if n == count { return; }
        }
        i := i + 1;
      }
    }

    // bitmap_alloc_pages
    method AllocPages(count: nat) returns (start: nat, n: nat)
      modifies groups
      ensures n <= count && start + n <= groups.Length * BIT_TO_BYTE && Took(old(groups[..]), groups[..], start, n)
      ensures n == 0 && count > 0 ==> forall i: nat :: hint * BIT_TO_BYTE <= i ==> !Free(groups[..], i)
      ensures n > 0 ==>
        hint * BIT_TO_BYTE <= start && forall i: nat :: hint * BIT_TO_BYTE <= i < start ==> !Free(old(groups[..]), i)
      ensures 0 < n < count ==> !Free(old(groups[..]), start + n)
      ensures |FreeFrom(groups[..], hint * BIT_TO_BYTE)| + n == |FreeFrom(old(groups[..]), hint * BIT_TO_BYTE)|
      ensures forall s: nat :: FirstRun(old(groups[..]), hint, s, count) ==> start == s && n == count
    {
      hide Free, FreeFrom;
      if count == 0 { return 0, 0; }
      var first, length := FindRun(count);
      RunFound(groups[..], hint, first, length, count);
      if first.None? { return 0, 0; }
      start, n := first.value, length;
      for j := 0 to n
        invariant Took(old(groups[..]), groups[..], start, j)
      {
        InRange(start + j, groups.Length);
        AllocPageAt(start + j);
      }
      TookCount(old(groups[..]), groups[..], start, n, hint * BIT_TO_BYTE);
    }

    // bitmap_alloc_page: an address, or 0 for none.
    method AllocPage() returns (addr: nat)
      modifies groups
      ensures addr == 0 ==>
        || (&& Took(old(groups[..]), groups[..], 0, 0)
            && forall i: nat :: hint * BIT_TO_BYTE <= i ==> !Free(groups[..], i))
        || (hint == 0 && Took(old(groups[..]), groups[..], 0, 1))
      ensures addr != 0 ==> addr % PAGE_SIZE == 0 && Took(old(groups[..]), groups[..], addr / PAGE_SIZE, 1)
      ensures addr == 0 <==> Available(old(groups[..]), hint) == 0
      ensures addr != 0 ==> Available(groups[..], hint) + 1 == Available(old(groups[..]), hint)
    {
      hide Free, FreeFrom;
      var start, n := AllocPages(1);
      NoneFrom(groups[..], hint * BIT_TO_BYTE);
      assert forall g :: FreeFrom(g, hint * BIT_TO_BYTE) == {} <==> |FreeFrom(g, hint * BIT_TO_BYTE)| == 0;
      addr := if n > 0 then start * PAGE_SIZE else 0;
      assert n == 0 ==> Took(old(groups[..]), groups[..], 0, 0);
    }
  }

  lemma ClearedPage(g: seq<bv8>, g': seq<bv8>, i: nat)
    requires i / BIT_TO_BYTE < |g| && g' == g[i / BIT_TO_BYTE := g[i / BIT_TO_BYTE] & !Mask(i % BIT_TO_BYTE)]
    ensures forall j: nat :: Free(g', j) <==> Free(g, j) && j != i
  {
    hide Bit, Mask;
    forall j: nat ensures Free(g', j) <==> Free(g, j) && j != i {
      ClearBit(g[i / BIT_TO_BYTE], i % BIT_TO_BYTE, j % BIT_TO_BYTE);
      assert j == i <==> j / BIT_TO_BYTE == i / BIT_TO_BYTE && j % BIT_TO_BYTE == i % BIT_TO_BYTE;
    }
  }

  lemma SetPage(g: seq<bv8>, g': seq<bv8>, i: nat)
    requires i / BIT_TO_BYTE < |g| && g' == g[i / BIT_TO_BYTE := g[i / BIT_TO_BYTE] | Mask(i % BIT_TO_BYTE)]
    ensures forall j: nat :: Free(g', j) <==> Free(g, j) || j == i
  {
    hide Bit, Mask;
    forall j: nat ensures Free(g', j) <==> Free(g, j) || j == i {
      SetBit(g[i / BIT_TO_BYTE], i % BIT_TO_BYTE, j % BIT_TO_BYTE);
      assert j == i <==> j / BIT_TO_BYTE == i / BIT_TO_BYTE && j % BIT_TO_BYTE == i % BIT_TO_BYTE;
    }
  }

  lemma ZeroPages(g: seq<bv8>, k: nat)
    requires k < |g| && g[k] == 0
    ensures forall i: nat :: k * BIT_TO_BYTE <= i < (k + 1) * BIT_TO_BYTE ==> !Free(g, i)
  {
    hide Bit, Mask;
    forall i: nat | k * BIT_TO_BYTE <= i < (k + 1) * BIT_TO_BYTE ensures !Free(g, i) {
      assert i / BIT_TO_BYTE == k;
      ZeroGroup(g[k], i % BIT_TO_BYTE);
    }
  }

  lemma BeyondEnd(g: seq<bv8>)
    ensures forall i: nat :: |g| * BIT_TO_BYTE <= i ==> !Free(g, i)
  {
  }

  lemma FreeBit(g: seq<bv8>, i: nat)
    requires i < |g| * BIT_TO_BYTE
    ensures i / BIT_TO_BYTE < |g| && (Free(g, i) <==> Bit(g[i / BIT_TO_BYTE], i % BIT_TO_BYTE))
  {
  }

  lemma InRange(i: nat, n: nat)
    requires i < n * BIT_TO_BYTE
    ensures i / BIT_TO_BYTE < n
  {
  }
}
