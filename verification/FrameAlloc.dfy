/** The physical frame allocator: page descriptors whose unused pages form maximal runs,
    and the list of those runs. */
module FrameAlloc {
  import opened Defs

  datatype PageType = Unused | Used | Other(kind: nat)

  // page_t: its type, reference count and the count that heads and feet of runs carry.
  datatype Desc = Desc(kind: PageType, refCount: nat, count: nat)

  predicate Free(d: seq<Desc>, i: int) {
    0 <= i < |d| && d[i].kind.Unused?
  }

  // A maximal run starts at s.
  predicate Head(d: seq<Desc>, s: nat) {
    Free(d, s) && !Free(d, s - 1)
  }

  function RunLength(d: seq<Desc>, s: nat): nat
    decreases |d| - s
  {
    if s < |d| && Free(d, s) then 1 + RunLength(d, s + 1) else 0
  }

  // The number of unused pages from s on.
  function FreeCount(d: seq<Desc>, s: nat): nat
    decreases |d| - s
  {
    if s >= |d| then 0 else (if Free(d, s) then 1 else 0) + FreeCount(d, s + 1)
  }

  // The list holds the heads of exactly the maximal runs, each with its length.
  ghost predicate RunList(d: seq<Desc>, l: seq<nat>) {
    && NoDup(l) && (forall s: nat :: s in l <==> Head(d, s))
    && forall i :: 0 <= i < |l| && l[i] < |d| ==> d[l[i]].count == RunLength(d, l[i])
  }

  // Each foot carries the length as well.
  ghost predicate Feet(d: seq<Desc>) {
    forall s: nat :: Head(d, s) ==> FootAt(d, s)
  }

  ghost predicate FootAt(d: seq<Desc>, s: nat) {
    var n := RunLength(d, s);
    s + n <= |d| && 0 < n && d[s + n - 1].count == n
  }

  ghost predicate Unreferenced(d: seq<Desc>) {
    forall i :: Free(d, i) ==> d[i].refCount == 0
  }

  predicate SameKinds(d: seq<Desc>, d': seq<Desc>) {
    |d| == |d'| && forall i :: 0 <= i < |d| ==> d[i].kind == d'[i].kind && d[i].refCount == d'[i].refCount
  }

  // ---------------------------------------------------------------- runs

  lemma {:induction false} RunFacts(d: seq<Desc>, s: nat)
    ensures forall i :: s <= i < s + RunLength(d, s) ==> Free(d, i)
    ensures !Free(d, s + RunLength(d, s)) && (s <= |d| ==> s + RunLength(d, s) <= |d|)
    decreases |d| - s
  {
    if s < |d| && Free(d, s) { RunFacts(d, s + 1); }
  }

  lemma {:induction false} RunIs(d: seq<Desc>, s: nat, n: nat)
    requires (forall i :: s <= i < s + n ==> Free(d, i)) && !Free(d, s + n)
    ensures RunLength(d, s) == n
    decreases n
  {
    if n > 0 {
      assert Free(d, s);
      RunIs(d, s + 1, n - 1);
    }
  }

  lemma {:induction false} SameRuns(d: seq<Desc>, d': seq<Desc>, s: nat)
    requires SameKinds(d, d')
    ensures RunLength(d, s) == RunLength(d', s) && FreeCount(d, s) == FreeCount(d', s) && (Head(d, s) <==> Head(d', s))
    decreases |d| - s
  {
    assert forall i :: Free(d, i) <==> Free(d', i);
    if s < |d| { SameRuns(d, d', s + 1); }
  }

  // Distinct runs do not meet.
  lemma RunsApart(d: seq<Desc>, s: nat, t: nat)
    requires Head(d, s) && Head(d, t) && s < t
    ensures s + RunLength(d, s) < t
  {
    RunFacts(d, s);
    assert t <= s + RunLength(d, s) ==> Free(d, t - 1);
  }

  // n unused pages in a row lie in one run of at least that length.
  lemma {:induction false} RangeInRun(d: seq<Desc>, a: nat, n: nat) returns (s: nat)
    requires n > 0 && forall i :: a <= i < a + n ==> Free(d, i)
    ensures Head(d, s) && s <= a && a + n <= s + RunLength(d, s)
    decreases a
  {
    assert Free(d, a);
    if a > 0 && Free(d, a - 1) {
      s := RangeInRun(d, a - 1, n + 1);
    } else {
      s := a;
      RunFacts(d, a);
    }
  }

  // When every run is shorter than n, no n unused pages are contiguous.
  lemma NoRange(d: seq<Desc>, n: nat)
    requires n > 0 && forall s: nat :: Head(d, s) ==> RunLength(d, s) < n
    ensures forall a: nat :: !AllFree(d, a, n)
  {
    forall a: nat ensures !AllFree(d, a, n) {
      if AllFree(d, a, n) { var s := RangeInRun(d, a, n); }
    }
  }

  // ---------------------------------------------------------------- marking

  function Marked(d: seq<Desc>, a: nat, n: nat): (d': seq<Desc>)
    ensures |d'| == |d|
  {
    seq(|d|, i requires 0 <= i < |d| => if a <= i < a + n then d[i].(kind := Used) else d[i])
  }

  // How many pages of [a, a + n) lie at or after s.
  function Beyond(s: nat, a: nat, n: nat): nat {
    if s <= a then n else if s <= a + n then a + n - s else 0
  }

  lemma {:induction false} FewerFree(d: seq<Desc>, d': seq<Desc>, a: nat, n: nat, s: nat)
    requires |d| == |d'| && a + n <= |d| && (forall i :: a <= i < a + n ==> Free(d, i))
    requires forall i :: Free(d', i) <==> Free(d, i) && !(a <= i < a + n)
    ensures FreeCount(d', s) + Beyond(s, a, n) == FreeCount(d, s)
    decreases |d| - s
  {
    if s < |d| { FewerFree(d, d', a, n, s + 1); }
  }

  // Taking the last n pages of a run, and marking the page after it too.
  lemma TakeTail(d: seq<Desc>, d': seq<Desc>, s0: nat, n: nat)
    requires Head(d, s0) && n <= RunLength(d, s0) && |d'| == |d|
    requires forall i :: Free(d', i) <==> Free(d, i) && !(s0 + RunLength(d, s0) - n <= i < s0 + RunLength(d, s0))
    ensures Head(d', s0) <==> n < RunLength(d, s0)
    ensures RunLength(d', s0) == RunLength(d, s0) - n
    ensures forall s: nat :: s != s0 ==>
      (Head(d', s) <==> Head(d, s)) && (Head(d, s) ==> RunLength(d', s) == RunLength(d, s))
  {
    RunFacts(d, s0);
    var e := s0 + RunLength(d, s0);
    RunIs(d', s0, RunLength(d, s0) - n);
    forall s: nat | s != s0
      ensures (Head(d', s) <==> Head(d, s)) && (Head(d, s) ==> RunLength(d', s) == RunLength(d, s))
    {
      if Head(d, s) {
        if s < s0 { RunsApart(d, s, s0); } else { RunsApart(d, s0, s); }
        RunFacts(d, s);
        RunIs(d', s, RunLength(d, s));
      }
    }
  }

  class FrameAllocator {
    const descs: array<Desc>
    // The descriptors linked from page_desc_free_ll, first to last.
    var freeList: seq<nat>

    constructor (descs: array<Desc>)
      ensures this.descs == descs && freeList == []
    {
      this.descs := descs;
      freeList := [];
    }

    ghost predicate Valid()
      reads this, descs
    {
      RunList(descs[..], freeList) && Unreferenced(descs[..])
    }

    // build_free_list
    method BuildFreeList() returns (freeCount: nat)
      modifies this`freeList, descs
      ensures SameKinds(old(descs[..]), descs[..])
      ensures RunList(descs[..], freeList) && Feet(descs[..]) && freeCount == FreeCount(descs[..], 0)
      ensures OtherCounts(old(descs[..]), descs[..])
      ensures Descending(freeList)
    {
      hide Built, RunLength, Head, RunList, Feet, OtherCounts;
      freeList := [];
      freeCount := 0;
      var i := 0;
      ghost var d := descs[..];
      BuiltNone(d);
      while i < descs.Length
        invariant i <= descs.Length && SameKinds(d, descs[..]) && (Free(d, i) ==> !Free(d, i - 1))
        invariant Built(d, descs[..], freeList, i) && freeCount + FreeCount(d, i) == FreeCount(d, 0)
      {
        while i < descs.Length && !descs[i].kind.Unused?
          invariant i <= descs.Length && SameKinds(d, descs[..]) && (Free(d, i) ==> !Free(d, i - 1))
          invariant Built(d, descs[..], freeList, i) && freeCount + FreeCount(d, i) == FreeCount(d, 0)
        {
          ghost var before := descs[..];
          descs[i] := descs[i].(count := 0);
          SkipPage(d, before, descs[..], freeList, i);
          i := i + 1;
        }
        if i >= descs.Length { break; }
        var start := i;
        while i < descs.Length && descs[i].kind.Unused?
          invariant start <= i <= descs.Length && forall j :: start <= j < i ==> Free(d, j)
          invariant (i - start) + FreeCount(d, i) == FreeCount(d, start)
        {
          i := i + 1;
        }
        var count := i - start;
        freeCount := freeCount + count;
        Record(start, count, d);
      }
      BuiltAll(d, descs[..], freeList);
    }

    // The end of its loop: head and foot get the count, and the head goes on the list.
    method Record(start: nat, count: nat, ghost d: seq<Desc>)
      requires SameKinds(d, descs[..]) && Built(d, descs[..], freeList, start) && count > 0 && start + count <= |d|
      requires (forall i :: start <= i < start + count ==> Free(d, i)) && !Free(d, start + count) && !Free(d, start - 1)
      modifies this`freeList, descs
      ensures SameKinds(d, descs[..]) && Built(d, descs[..], freeList, start + count)
    {
      hide Built, Free;
      ghost var before := descs[..];
      descs[start] := descs[start].(count := count);
      descs[start + count - 1] := descs[start + count - 1].(count := count);
      PushRun(d, before, descs[..], freeList, start, count);
      freeList := [start] + freeList;
    }

    // pfn_range_set_type
    method SetUsed(a: nat, n: nat)
      requires a + n <= descs.Length
      modifies descs
      ensures descs[..] == Marked(old(descs[..]), a, n)
    {
      for i := 0 to n
        invariant forall j :: 0 <= j < descs.Length ==>
          descs[j] == if a <= j < a + i then old(descs[j]).(kind := Used) else old(descs[j])
      {
        descs[a + i] := descs[a + i].(kind := Used);
      }
    }

    // frame_alloc_phys_pages: the last pages of the first run that is long enough. The
    // page after the run is marked too; `past` says that there is none, and that mark
    // then lands behind the descriptors.
    method Alloc(n: nat) returns (r: Option<nat>, past: bool)
      requires Valid()
      modifies this`freeList, descs
      ensures Valid()
      ensures r.None? <==> forall k: nat :: !FirstFit(old(descs[..]), old(freeList), n, k)
      ensures r.None? ==> descs[..] == old(descs[..]) && freeList == old(freeList) && !past
      ensures r.None? && n > 0 ==> forall a: nat :: !AllFree(descs[..], a, n)
      ensures forall k: nat :: FirstFit(old(descs[..]), old(freeList), n, k) ==>
        && Served(old(descs[..]), old(freeList), descs[..], freeList, k, n, r)
        && (past <==> RunEnd(old(descs[..]), old(freeList)[k]) == descs.Length)
      ensures r.Some? ==> Taken(old(descs[..]), descs[..], r.value, n) && (past <==> r.value + n == descs.Length)
      ensures past ==> Free(old(descs[..]), descs.Length - 1)
      ensures r.Some? && Feet(old(descs[..])) ==> (Feet(descs[..]) <==> FootKept(old(descs[..]), r.value))
    {
      hide RunLength, Head, Taken, Feet, FootKept, Served, RunEnd;
      var k := 0;
      forall j | 0 <= j < |freeList| ensures freeList[j] < descs.Length { ListFacts(descs[..], freeList, j); }
      while k < |freeList| && descs[freeList[k]].count < n
        invariant k <= |freeList| && forall j :: 0 <= j < |freeList| ==> freeList[j] < descs.Length
        invariant forall j :: 0 <= j < k ==> descs[freeList[j]].count < n
      {
        k := k + 1;
      }
      if k == |freeList| {
        NoneFits(descs[..], freeList, n);
        if n > 0 { NoRange(descs[..], n); }
        return None, false;
      }
      assert FirstFit(descs[..], freeList, n, k);
      var a;
      a, past := TakeFrom(k, n);
      r := Some(a);
    }

    // The body of its loop for a run that is long enough.
    method TakeFrom(k: nat, n: nat) returns (a: nat, past: bool)
      requires Valid() && k < |freeList| && freeList[k] < descs.Length && n <= descs[freeList[k]].count
      modifies this`freeList, descs
      ensures Valid() && Taken(old(descs[..]), descs[..], a, n)
      ensures Served(old(descs[..]), old(freeList), descs[..], freeList, k, n, Some(a))
      ensures past <==> a + n == descs.Length == RunEnd(old(descs[..]), old(freeList)[k])
      ensures past ==> Free(old(descs[..]), descs.Length - 1)
      ensures a + n == RunEnd(old(descs[..]), old(freeList)[k])
      ensures Feet(old(descs[..])) ==> (Feet(descs[..]) <==> FootKept(old(descs[..]), a))
    {
      hide RunLength, Head, Taken, RunList, Unreferenced, Feet, FootKept;
      ghost var d, l := descs[..], freeList;
      var s := freeList[k];
      ListFacts(d, l, k);
      var end := s + descs[s].count;
      a := end - n;
      for i := a to end
        invariant descs[..] == d
      {
        FreeFacts(d, i);
        assert descs[i].refCount == 0 && descs[i].kind.Unused?;
      }
      past := end == descs.Length;
      Shorten(k, s, a, end);
      AllocRuns(d, descs[..], l, freeList, k, n, s, end);
      if Feet(d) { FeetAfter(d, descs[..], s, a, end); }
    }

    // Its writes; those to the descriptor with the number descs.Length are left out.
    method Shorten(k: nat, s: nat, a: nat, end: nat)
      requires k < |freeList| && s <= a <= end <= descs.Length && s < descs.Length && descs[s].count == end - s
      modifies this`freeList, descs
      ensures Shortened(old(descs[..]), descs[..], s, a, end)
      ensures freeList == if a == s then old(freeList)[..k] + old(freeList)[k + 1..] else old(freeList)
    {
      SetUsed(a, if end == descs.Length then end - a else end - a + 1);
      var left := descs[s].count - (end - a);
      if left == 0 {
        freeList := freeList[..k] + freeList[k + 1..];
      } else {
        descs[s] := descs[s].(count := left);
        if a < descs.Length { descs[a] := descs[a].(count := left); }
      }
    }

    // pfn_mark_pages with PAGETYPE_UNUSED
    method SetUnused(a: nat, e: nat)
      requires a <= e <= descs.Length
      modifies descs
      ensures descs[..] == Unmarked(old(descs[..]), a, e)
    {
      for i := a to e
        invariant forall j :: 0 <= j < descs.Length ==>
          descs[j] == if a <= j < i then old(descs[j]).(kind := Unused, refCount := 0) else old(descs[j])
      {
        descs[i] := descs[i].(kind := Unused, refCount := 0);
      }
    }

    // frame_free_phys_pages of pages in use. The list stays right exactly when the page
    // before the range is not unused, whatever its count says. `ok` is false where that
    // count leads before the first descriptor.
    method FreePages(a: nat, n: nat) returns (ok: bool)
      requires RunList(descs[..], freeList) && Unreferenced(descs[..]) && n > 0
      requires forall i :: a <= i < a + n ==> !Free(descs[..], i)
      modifies this`freeList, descs
      ensures ok <==> a >= descs.Length || !Free(old(descs[..]), a - 1) || old(descs[..])[a - 1].count <= a
      ensures a >= descs.Length ==> descs[..] == old(descs[..]) && freeList == old(freeList)
      ensures a < descs.Length && ok ==>
        Given(old(descs[..]), descs[..], a, Min(a + n, descs.Length)) && Unreferenced(descs[..])
      ensures a < descs.Length && ok ==> (RunList(descs[..], freeList) <==> !Free(old(descs[..]), a - 1))
      ensures a < descs.Length && ok ==>
        Freed(old(descs[..]), old(freeList), descs[..], freeList, a, Min(a + n, descs.Length))
    {
      hide RunLength, Head, RunList, FreeCount, Unmarked, Unreferenced, Freed, Given, Without;
      if a >= descs.Length { return true; }
      ghost var d, l := descs[..], freeList;
      var end := Min(a + n, descs.Length);
      NextRun(d, l, end);
      SetUnused(a, end);
      UnmarkedFacts(d, a, end);
      ghost var d1 := descs[..];
      var head, foot := a, end - 1;
      if a > 0 && descs[a - 1].kind.Unused? {
        if descs[a - 1].count > a { return false; }
        head := a - descs[a - 1].count;
      }
      if end < descs.Length && descs[end].kind.Unused? {
        foot := end + descs[end].count - 1;
        freeList := Without(freeList, end);
      }
      Insert(head, foot);
      ok := true;
      GivenSame(d, d1, descs[..], a, end);
      FreedIs(d, d1, descs[..], l, freeList, a, end, head, foot);
      if Free(d, a - 1) {
        FreedTwice(d, descs[..], l, freeList, a, end);
      } else {
        FreedList(d, descs[..], l, freeList, a, end);
      }
    }

    // The new head and foot get the count, and the head goes on the list.
    method Insert(head: nat, foot: nat)
      requires head <= foot + 1 && head < descs.Length && foot < descs.Length
      modifies this`freeList, descs
      ensures freeList == [head] + old(freeList) && SameKinds(old(descs[..]), descs[..])
      ensures descs[head].count == descs[foot].count == foot - head + 1
      ensures forall i :: 0 <= i < descs.Length && i != head && i != foot ==> descs[i] == old(descs[i])
    {
      var count := foot - head + 1;
      descs[head] := descs[head].(count := count);
      descs[foot] := descs[foot].(count := count);
      freeList := [head] + freeList;
    }

    // A run of allocations: the ranges handed out are disjoint, were all unused at the
    // start, and the number of unused pages falls by their total.
    method AllocAll(requests: seq<nat>) returns (rs: seq<Option<nat>>, past: bool)
      requires Valid()
      modifies this`freeList, descs
      ensures Valid() && |rs| == |requests|
      ensures forall i, j :: 0 <= i < j < |rs| && rs[i].Some? && rs[j].Some? ==>
        Disjoint(rs[i].value, requests[i], rs[j].value, requests[j])
      ensures forall i :: 0 <= i < |rs| && rs[i].Some? ==> AllFree(old(descs[..]), rs[i].value, requests[i])
      ensures FreeCount(descs[..], 0) + Total(requests, rs) == FreeCount(old(descs[..]), 0)
      ensures past <==> exists i :: 0 <= i < |rs| && rs[i].Some? && rs[i].value + requests[i] == descs.Length
    {
      hide FreeCount, Valid;
      rs, past := [], false;
      ghost var d0 := descs[..];
      for k := 0 to |requests|
        invariant Valid() && |rs| == k && History(d0, descs[..], requests[..k], rs)
        invariant past <==> exists i :: 0 <= i < k && rs[i].Some? && rs[i].value + requests[i] == descs.Length
      {
        ghost var d := descs[..];
        var r, p := Alloc(requests[k]);
        past := past || p;
        HistoryStep(d0, d, descs[..], requests[..k], rs, requests[k], r);
        assert requests[..k + 1] == requests[..k] + [requests[k]];
        rs := rs + [r];
      }
      assert requests[..|requests|] == requests;
    }
  }

  // Run k is the first on the list that has n pages.
  ghost predicate FirstFit(d: seq<Desc>, l: seq<nat>, n: nat, k: nat) {
    && k < |l| && l[k] < |d| && n <= d[l[k]].count
    && forall j :: 0 <= j < k ==> l[j] < |d| && d[l[j]].count < n
  }

  function RunEnd(d: seq<Desc>, s: nat): nat {
    s + RunLength(d, s)
  }

  // Descriptors and list after n pages were taken from the end of run k.
  ghost predicate Served(d: seq<Desc>, l: seq<nat>, d': seq<Desc>, l': seq<nat>, k: nat, n: nat, r: Option<nat>)
    requires k < |l|
  {
    && n <= RunLength(d, l[k]) && r == Some(RunEnd(d, l[k]) - n) && Shortened(d, d', l[k], r.value, r.value + n)
    && l' == if r.value == l[k] then l[..k] + l[k + 1..] else l
  }

  // The counts that build_free_list does not set: those of unused pages inside a run.
  ghost predicate OtherCounts(d: seq<Desc>, d': seq<Desc>) {
    |d'| == |d| && forall i :: 0 <= i < |d| ==> CountKept(d, d', i)
  }

  ghost predicate CountKept(d: seq<Desc>, d': seq<Desc>, i: int)
    requires 0 <= i < |d| && i < |d'|
  {
    && (!Free(d, i) ==> d'[i].count == 0)
    && (Free(d, i - 1) && Free(d, i) && Free(d, i + 1) ==> d'[i].count == d[i].count)
  }

  // Descriptors and list after [a, e) was given back: the counts say where the run before
  // starts and where the run behind ends.
  ghost predicate Freed(d: seq<Desc>, l: seq<nat>, d': seq<Desc>, l': seq<nat>, a: nat, e: nat) {
    && |d'| == |d| && a < e <= |d| && (Free(d, a - 1) ==> d[a - 1].count <= a)
    && var head := if Free(d, a - 1) then a - d[a - 1].count else a;
    var foot := if Free(d, e) then e + d[e].count - 1 else e - 1;
    && l' == [head] + (if Free(d, e) then Without(l, e) else l)
    && (forall i :: 0 <= i < |d| ==> d'[i].kind == if a <= i < e then Unused else d[i].kind)
    && (forall i :: 0 <= i < |d| ==> d'[i].count == if i == head || i == foot then foot - head + 1 else d[i].count)
  }

  function Unmarked(d: seq<Desc>, a: nat, e: nat): (d': seq<Desc>)
    ensures |d'| == |d|
  {
    seq(|d|, i requires 0 <= i < |d| => if a <= i < e then d[i].(kind := Unused, refCount := 0) else d[i])
  }

  // [a, e) was in use and is unused now; no other page changes its type.
  ghost predicate Given(d: seq<Desc>, d': seq<Desc>, a: nat, e: nat) {
    && |d'| == |d| && (forall i :: Free(d', i) <==> Free(d, i) || a <= i < e)
    && FreeCount(d', 0) == FreeCount(d, 0) + (e - a)
  }

  // Taking page x off the list.
  function Without(l: seq<nat>, x: nat): (r: seq<nat>)
    ensures forall y: nat :: y in r <==> y in l && y != x
  {
    if l == [] then [] else if l[0] == x then Without(l[1..], x) else [l[0]] + Without(l[1..], x)
  }

  lemma {:induction false} WithoutNoDup(l: seq<nat>, x: nat)
    requires NoDup(l)
    ensures NoDup(Without(l, x))
  {
    if l != [] {
      assert forall i :: 0 <= i < |l[1..]| ==> l[1..][i] == l[i + 1];
      WithoutNoDup(l[1..], x);
      var r := Without(l[1..], x);
      var w := [l[0]] + r;
      assert forall i :: 0 < i < |w| ==> w[i] == r[i - 1] && r[i - 1] in r;
    }
  }

  // An unused page after pages in use heads a run on the list.
  lemma NextRun(d: seq<Desc>, l: seq<nat>, e: nat)
    requires RunList(d, l) && e > 0 && !Free(d, e - 1)
    ensures Free(d, e) ==> Head(d, e) && e in l && d[e].count == RunLength(d, e) > 0 && e + RunLength(d, e) <= |d|
    ensures !Free(d, e) ==> RunLength(d, e) == 0
  {
    if Free(d, e) {
      assert Head(d, e);
      var k :| 0 <= k < |l| && l[k] == e;
      RunFacts(d, e);
    }
  }

  lemma UnmarkedFacts(d: seq<Desc>, a: nat, e: nat)
    requires a <= e <= |d| && Unreferenced(d) && forall i :: a <= i < e ==> !Free(d, i)
    ensures
      var d' := Unmarked(d, a, e);
      && Given(d, d', a, e) && Unreferenced(d')
      && (forall i :: 0 <= i < |d| ==> d'[i].kind == if a <= i < e then Unused else d[i].kind)
      && (forall i :: 0 <= i < |d| ==> d'[i].count == d[i].count)
  {
    FewerFree(Unmarked(d, a, e), d, a, e - a, 0);
  }

  lemma GivenSame(d: seq<Desc>, d1: seq<Desc>, d': seq<Desc>, a: nat, e: nat)
    requires Given(d, d1, a, e) && Unreferenced(d1) && SameKinds(d1, d')
    ensures Given(d, d', a, e) && Unreferenced(d')
  {
    SameRuns(d1, d', 0);
    assert forall i :: Free(d1, i) <==> Free(d', i);
  }

  lemma FreedIs(d: seq<Desc>, d1: seq<Desc>, d': seq<Desc>,
                l: seq<nat>, l': seq<nat>, a: nat, e: nat, head: nat, foot: nat)
    requires |d1| == |d| && a < e <= |d| && SameKinds(d1, d') && (Free(d, a - 1) ==> d[a - 1].count <= a)
    requires forall i :: 0 <= i < |d| ==> d1[i].kind == if a <= i < e then Unused else d[i].kind
    requires forall i :: 0 <= i < |d| ==> d1[i].count == d[i].count
    requires head == if Free(d, a - 1) then a - d[a - 1].count else a
    requires foot == if Free(d, e) then e + d[e].count - 1 else e - 1
    requires head < |d| && foot < |d| && d'[head].count == d'[foot].count == foot - head + 1
    requires forall i :: 0 <= i < |d| && i != head && i != foot ==> d'[i] == d1[i]
    requires l' == [head] + if Free(d, e) then Without(l, e) else l
    ensures Freed(d, l, d', l', a, e)
  {
  }

  // The page before is unused: the list has a head twice, or a page that is no head.
  lemma FreedTwice(d: seq<Desc>, d': seq<Desc>, l: seq<nat>, l': seq<nat>, a: nat, e: nat)
    requires RunList(d, l) && Given(d, d', a, e) && Freed(d, l, d', l', a, e) && Free(d, a - 1)
    ensures !RunList(d', l')
  {
    hide RunLength, FreeCount;
    var head := l'[0];
    assert l'[0] in l' && l'[1..] == if Free(d, e) then Without(l, e) else l;
    assert Head(d', head) ==> Head(d, head) && head in l && head != e;
    if head in l'[1..] { Repeated(l'); }
  }

  lemma Repeated(l: seq<nat>)
    requires l != [] && l[0] in l[1..]
    ensures !NoDup(l)
  {
    var j :| 0 <= j < |l[1..]| && l[1..][j] == l[0];
    assert l[j + 1] == l[0];
  }

  // The runs after [a, e) has been given back behind a page that is not unused.
  lemma FreedRuns(d: seq<Desc>, d': seq<Desc>, a: nat, e: nat)
    requires Given(d, d', a, e) && a < e <= |d| && !Free(d, a - 1) && forall i :: a <= i < e ==> !Free(d, i)
    ensures forall s: nat :: Head(d', s) <==> s == a || (Head(d, s) && s != e)
    ensures RunLength(d', a) == (e - a) + RunLength(d, e)
    ensures forall s: nat :: Head(d, s) && s != e ==>
      RunLength(d', s) == RunLength(d, s) && (s < a || s > e + RunLength(d, e))
  {
    hide FreeCount;
    RunFacts(d, e);
    RunIs(d', a, (e - a) + RunLength(d, e));
    forall s: nat | Head(d, s) && s != e
      ensures RunLength(d', s) == RunLength(d, s) && (s < a || s > e + RunLength(d, e))
    {
      RunFacts(d, s);
      if s < a {
        assert s + RunLength(d, s) > a - 1 ==> Free(d, a - 1);
      } else if Free(d, e) {
        assert !Free(d, e - 1);
        RunsApart(d, e, s);
      }
      RunIs(d', s, RunLength(d, s));
    }
  }

  lemma FreedList(d: seq<Desc>, d': seq<Desc>, l: seq<nat>, l': seq<nat>, a: nat, e: nat)
    requires RunList(d, l) && Given(d, d', a, e) && Freed(d, l, d', l', a, e)
    requires !Free(d, a - 1) && forall i :: a <= i < e ==> !Free(d, i)
    ensures RunList(d', l')
  {
    hide RunLength, FreeCount, NoDup;
    FreedRuns(d, d', a, e);
    NextRun(d, l, e);
    assert !Head(d, a);
    var l1 := if Free(d, e) then Without(l, e) else l;
    WithoutNoDup(l, e);
    assert forall s: nat :: s in l1 <==> Head(d, s) && s != e;
    FreedCounts(d, d', l, l1, a, e);
  }

  lemma FreedCounts(d: seq<Desc>, d': seq<Desc>, l: seq<nat>, l1: seq<nat>, a: nat, e: nat)
    requires RunList(d, l) && NoDup(l1) && !Head(d, a) && a < e <= |d| == |d'|
    requires d'[a].count == RunLength(d', a) == (e - a) + RunLength(d, e)
    requires forall s: nat :: s in l1 <==> Head(d, s) && s != e
    requires forall s: nat :: Head(d', s) <==> s == a || (Head(d, s) && s != e)
    requires forall s: nat :: Head(d, s) && s != e ==>
      RunLength(d', s) == RunLength(d, s) && (s < a || s > e + RunLength(d, e))
    requires forall i :: 0 <= i < |d| && i != a && i != e + RunLength(d, e) - 1 ==> d'[i].count == d[i].count
    ensures RunList(d', [a] + l1)
  {
    hide RunLength, Head, NoDup;
    var l' := [a] + l1;
    Fronted(a, l1);
    forall i | 0 <= i < |l'| && l'[i] < |d'| ensures d'[l'[i]].count == RunLength(d', l'[i]) {
      var s := l'[i];
      assert s in l';
      if s != a { ListedCount(d, l, s); }
    }
  }

  lemma Fronted(a: nat, l: seq<nat>)
    requires NoDup(l) && a !in l
    ensures NoDup([a] + l) && forall x: nat :: x in [a] + l <==> x == a || x in l
  {
    var l' := [a] + l;
    assert forall i :: 0 < i < |l'| ==> l'[i] == l[i - 1];
  }

  lemma ListedCount(d: seq<Desc>, l: seq<nat>, s: nat)
    requires RunList(d, l) && Head(d, s)
    ensures s < |d| && d[s].count == RunLength(d, s)
  {
    var k :| 0 <= k < |l| && l[k] == s;
  }

  predicate Disjoint(a: nat, m: nat, b: nat, n: nat) {
    a + m <= b || b + n <= a || m == 0 || n == 0
  }

  ghost predicate AllFree(d: seq<Desc>, a: nat, n: nat) {
    forall i :: a <= i < a + n ==> Free(d, i)
  }

  // The pages that a run of allocations obtained.
  function Total(requests: seq<nat>, rs: seq<Option<nat>>): nat
    requires |requests| == |rs|
  {
    if rs == [] then 0
    else Total(requests[..|rs| - 1], rs[..|rs| - 1]) + if rs[|rs| - 1].Some? then requests[|rs| - 1] else 0
  }

  // From d0 to d: what was handed out was unused and is not any more.
  ghost predicate History(d0: seq<Desc>, d: seq<Desc>, requests: seq<nat>, rs: seq<Option<nat>>) {
    && |requests| == |rs| && FreeCount(d, 0) + Total(requests, rs) == FreeCount(d0, 0)
    && (forall i :: Free(d, i) ==> Free(d0, i))
    && (forall i :: 0 <= i < |rs| && rs[i].Some? ==> AllFree(d0, rs[i].value, requests[i]))
    && (forall i, x :: 0 <= i < |rs| && rs[i].Some? && rs[i].value <= x < rs[i].value + requests[i] ==> !Free(d, x))
    && forall i, j :: 0 <= i < j < |rs| && rs[i].Some? && rs[j].Some? ==>
         Disjoint(rs[i].value, requests[i], rs[j].value, requests[j])
  }

  lemma HistoryStep(d0: seq<Desc>, d: seq<Desc>, d': seq<Desc>,
                    requests: seq<nat>, rs: seq<Option<nat>>, n: nat, r: Option<nat>)
    requires History(d0, d, requests, rs) && (if r.Some? then Taken(d, d', r.value, n) else d' == d)
    ensures History(d0, d', requests + [n], rs + [r])
  {
    hide FreeCount;
    var requests', rs' := requests + [n], rs + [r];
    assert rs'[..|rs|] == rs && requests'[..|rs|] == requests;
    forall i | 0 <= i < |rs| && rs[i].Some? && r.Some? ensures Disjoint(rs[i].value, requests[i], r.value, n) {
      var x := if rs[i].value < r.value then r.value else rs[i].value;
      assert !Disjoint(rs[i].value, requests[i], r.value, n) ==> Free(d, x);
    }
  }

  lemma FreeFacts(d: seq<Desc>, i: nat)
    requires Unreferenced(d) && Free(d, i)
    ensures d[i].refCount == 0 && d[i].kind.Unused?
  {
  }

  // [a, a + n) was unused and is in use now. The page after it, which was not unused, is
  // typed as used too; no other page changes its type.
  ghost predicate Taken(d: seq<Desc>, d': seq<Desc>, a: nat, n: nat) {
    && |d'| == |d| && a + n <= |d| && (forall i :: a <= i < a + n ==> Free(d, i)) && !Free(d, a + n)
    && (forall i :: 0 <= i < |d| ==> d'[i].refCount == d[i].refCount)
    && (forall i :: 0 <= i < |d| ==> d'[i].kind == if a <= i <= a + n then Used else d[i].kind)
    && (forall i :: Free(d', i) <==> Free(d, i) && !(a <= i < a + n))
    && FreeCount(d', 0) + n == FreeCount(d, 0)
  }

  lemma ListFacts(d: seq<Desc>, l: seq<nat>, k: nat)
    requires RunList(d, l) && k < |l|
    ensures
      var s := l[k];
      && Head(d, s) && s < |d| && d[s].count == RunLength(d, s) > 0 && s + RunLength(d, s) <= |d|
      && forall i :: s <= i < s + RunLength(d, s) ==> Free(d, i)
  {
    assert l[k] in l;
    RunFacts(d, l[k]);
  }

  lemma NoneFits(d: seq<Desc>, l: seq<nat>, n: nat)
    requires RunList(d, l) && forall j :: 0 <= j < |l| ==> l[j] < |d| && d[l[j]].count < n
    ensures forall s: nat :: Head(d, s) ==> RunLength(d, s) < n
  {
    forall s: nat | Head(d, s) ensures RunLength(d, s) < n {
      assert s in l;
      var j :| 0 <= j < |l| && l[j] == s;
    }
  }

  // The descriptors after taking the pages from `a` on of the run [s, end).
  ghost predicate Shortened(d: seq<Desc>, d': seq<Desc>, s: nat, a: nat, end: nat) {
    && |d'| == |d| && s <= a <= end <= |d|
    && (forall i :: 0 <= i < |d| ==> d'[i].count == if s < a && (i == s || i == a) then a - s else d[i].count)
    && (forall i :: 0 <= i < |d| ==> d'[i].refCount == d[i].refCount)
    && (forall i :: 0 <= i < |d| ==> d'[i].kind == if a <= i <= end then Used else d[i].kind)
  }

  // The page before the pages taken says by chance how many are left before them, or is
  // the head of its run.
  ghost predicate FootKept(d: seq<Desc>, a: nat) {
    Free(d, a - 1) && Free(d, a - 2) ==>
      exists s: nat :: s < a && Head(d, s) && AllFree(d, s, a - s) && d[a - 1].count == a - s
  }

  // Line 89 writes the count one page behind the new foot.
  lemma FeetAfter(d: seq<Desc>, d': seq<Desc>, s: nat, a: nat, end: nat)
    requires Feet(d) && Head(d, s) && end == s + RunLength(d, s) && Shortened(d, d', s, a, end)
    ensures Feet(d') <==> FootKept(d, a)
  {
    hide RunLength;
    RunFacts(d, s);
    FeetRuns(d, d', s, a, end);
    assert AllFree(d, s, a - s);
    forall t: nat | t < a && Head(d, t) && AllFree(d, t, a - t) && Free(d, a - 1) && s < a ensures t == s {
      assert t < s ==> Free(d, s - 1);
      assert s < t ==> Free(d, t - 1);
    }
    assert Free(d, a - 1) && Free(d, a - 2) <==> a > s + 1;
  }

  // Every run but the shortened one keeps its foot.
  lemma FeetRuns(d: seq<Desc>, d': seq<Desc>, s: nat, a: nat, end: nat)
    requires Feet(d) && Head(d, s) && end == s + RunLength(d, s) && Shortened(d, d', s, a, end)
    ensures Feet(d') <==> (a > s + 1 ==> d[a - 1].count == a - s)
  {
    hide RunLength, Head;
    RunFacts(d, s);
    assert forall i :: Free(d', i) <==> Free(d, i) && !(a <= i < end);
    TakeTail(d, d', s, end - a);
    forall t: nat | Head(d', t) && t != s ensures FootAt(d', t) { OtherFoot(d, s, t); }
  }

  lemma OtherFoot(d: seq<Desc>, s: nat, t: nat)
    requires Feet(d) && Head(d, s) && Head(d, t) && t != s
    ensures FootAt(d, t) && (t + RunLength(d, t) - 1 < s || t + RunLength(d, t) - 1 > s + RunLength(d, s))
  {
    if t < s { RunsApart(d, t, s); } else { RunsApart(d, s, t); }
  }

  // After taking n pages from the run at position k of the list.
  lemma AllocRuns(d: seq<Desc>, d': seq<Desc>, l: seq<nat>, l': seq<nat>, k: nat, n: nat, s: nat, end: nat)
    requires RunList(d, l) && Unreferenced(d) && k < |l| && s == l[k]
    requires Head(d, s) && end == s + RunLength(d, s) && n <= RunLength(d, s) && Shortened(d, d', s, end - n, end)
    requires l' == if end - n == s then l[..k] + l[k + 1..] else l
    ensures RunList(d', l') && Unreferenced(d') && Taken(d, d', end - n, n) && !Free(d, end)
  {
    hide RunLength, Head, FreeCount, RunList, NoDup;
    RunFacts(d, s);
    assert forall i :: Free(d', i) <==> Free(d, i) && !(end - n <= i < end);
    TakeTail(d, d', s, n);
    FewerFree(d, d', end - n, n, 0);
    AllocList(d, d', l, l', k, n, s, end);
  }

  lemma AllocList(d: seq<Desc>, d': seq<Desc>, l: seq<nat>, l': seq<nat>, k: nat, n: nat, s: nat, end: nat)
    requires RunList(d, l) && k < |l| && s == l[k] && Head(d, s) && end == s + RunLength(d, s) && n <= RunLength(d, s)
    requires Shortened(d, d', s, end - n, end) && l' == if end - n == s then l[..k] + l[k + 1..] else l
    requires (Head(d', s) <==> n < RunLength(d, s)) && RunLength(d', s) == RunLength(d, s) - n
    requires forall t: nat :: t != s ==>
      (Head(d', t) <==> Head(d, t)) && (Head(d, t) ==> RunLength(d', t) == RunLength(d, t))
    ensures RunList(d', l')
  {
    hide RunLength, Head, Free;
    DropAt(l, k);
    forall j | 0 <= j < |l'| && l'[j] < |d'| ensures d'[l'[j]].count == RunLength(d', l'[j]) {
      var t := l'[j];
      assert t in l' && t in l;
      var i :| 0 <= i < |l| && l[i] == t;
      if t != s { HeadNot(d, t, s, end - n - s, RunLength(d, s)); }
    }
  }

  // A head other than s is not the page at which the taken part of s starts.
  lemma HeadNot(d: seq<Desc>, t: nat, s: nat, left: nat, m: nat)
    requires Head(d, t) && Head(d, s) && t != s && m == RunLength(d, s) && left <= m
    ensures t != s + left
  {
    if s < t { RunsApart(d, s, t); }
  }

  lemma DropAt(l: seq<nat>, k: nat)
    requires NoDup(l) && k < |l|
    ensures NoDup(l[..k] + l[k + 1..]) && forall t: nat :: t in l[..k] + l[k + 1..] <==> t in l && t != l[k]
  {
    var l' := l[..k] + l[k + 1..];
    assert l == l[..k] + [l[k]] + l[k + 1..];
    assert forall i :: 0 <= i < |l'| ==> l'[i] == if i < k then l[i] else l[i + 1];
  }

  // The last run comes first.
  ghost predicate Descending(l: seq<nat>) {
    forall j, k :: 0 <= j < k < |l| ==> l[j] > l[k]
  }

  lemma DescendFront(a: nat, l: seq<nat>)
    requires Descending(l) && forall x: nat :: x in l ==> x < a
    ensures Descending([a] + l)
  {
    var l' := [a] + l;
    assert forall i :: 0 < i < |l'| ==> l'[i] == l[i - 1] && l[i - 1] in l;
  }

  // The list and the counts are right for the runs that start before i.
  ghost predicate Built(d: seq<Desc>, d': seq<Desc>, l: seq<nat>, i: nat) {
    && |d'| == |d| && NoDup(l) && Descending(l)
    && (forall s: nat :: s in l <==> s < i && Head(d, s))
    && (forall j :: 0 <= j < |d| ==> if j < i then CountKept(d, d', j) else d'[j] == d[j])
    && forall s: nat :: s < i && Head(d, s) ==> Counted(d, d', s) && s + RunLength(d, s) <= i
  }

  ghost predicate Counted(d: seq<Desc>, d': seq<Desc>, s: nat) {
    var n := RunLength(d, s);
    0 < n && s + n <= |d'| && d'[s].count == n && d'[s + n - 1].count == n
  }

  lemma BuiltNone(d: seq<Desc>)
    ensures Built(d, d, [], 0)
  {
  }

  lemma PushRun(d: seq<Desc>, before: seq<Desc>, after: seq<Desc>, l: seq<nat>, start: nat, n: nat)
    requires Built(d, before, l, start) && |after| == |d| && n > 0 && start + n <= |d|
    requires (forall i :: start <= i < start + n ==> Free(d, i)) && !Free(d, start + n) && !Free(d, start - 1)
    requires after[start].count == n && after[start + n - 1].count == n
    requires forall j :: 0 <= j < |d| && j != start && j != start + n - 1 ==> after[j] == before[j]
    ensures Built(d, after, [start] + l, start + n)
  {
    hide NoDup, Descending;
    RunIs(d, start, n);
    var l' := [start] + l;
    Fronted(start, l);
    DescendFront(start, l);
    forall s: nat | start < s < start + n ensures !Head(d, s) { assert Free(d, s - 1); }
    forall s: nat | s < start + n && Head(d, s) ensures Counted(d, after, s) && s + RunLength(d, s) <= start + n {
      if s < start {
        assert Counted(d, before, s);
      }
    }
  }

  lemma SkipPage(d: seq<Desc>, before: seq<Desc>, after: seq<Desc>, l: seq<nat>, i: nat)
    requires Built(d, before, l, i) && i < |d| && !Free(d, i) && |after| == |d| && after[i].count == 0
    requires forall j :: 0 <= j < |d| && j != i ==> after[j] == before[j]
    ensures Built(d, after, l, i + 1)
  {
    forall s: nat | s < i + 1 && Head(d, s) ensures Counted(d, after, s) && s + RunLength(d, s) <= i + 1 {
      assert Counted(d, before, s);
    }
  }

  lemma BuiltAll(d: seq<Desc>, d': seq<Desc>, l: seq<nat>)
    requires Built(d, d', l, |d|) && SameKinds(d, d')
    ensures RunList(d', l) && Feet(d') && FreeCount(d', 0) == FreeCount(d, 0) && OtherCounts(d, d')
    ensures Descending(l)
  {
    hide RunLength, FreeCount;
    forall s: nat
      ensures RunLength(d, s) == RunLength(d', s) && FreeCount(d, s) == FreeCount(d', s)
      ensures Head(d, s) <==> Head(d', s)
    {
      SameRuns(d, d', s);
    }
    assert forall i :: 0 <= i < |l| ==> l[i] in l && Counted(d, d', l[i]);
    assert forall s: nat :: Head(d', s) ==> Counted(d, d', s);
  }

  // ---------------------------------------------------------------- failing runs

  // Memory of n unused pages and a page in use behind them.
  method FreshPages(n: nat) returns (m: FrameAllocator)
    requires n > 0
    ensures fresh(m) && fresh(m.descs) && m.Valid() && Feet(m.descs[..]) && m.freeList == [0]
    ensures Pages(m.descs[..], n + 1, 0, n) && RunLength(m.descs[..], 0) == n
    ensures m.descs[0].count == n && forall i :: 0 < i < n - 1 ==> m.descs[i].count == 0
    ensures forall k: nat :: k <= n ==> FirstFit(m.descs[..], m.freeList, k, 0)
  {
    hide RunLength;
    var descs := new Desc[n + 1](i => Desc(if i < n then Unused else Used, 0, 0));
    m := new FrameAllocator(descs);
    ghost var d := descs[..];
    var count := m.BuildFreeList();
    OneRun(m.descs[..], m.freeList, n + 1, 0, n);
    InnerCounts(d, m.descs[..], n);
  }

  lemma InnerCounts(d: seq<Desc>, d': seq<Desc>, n: nat)
    requires OtherCounts(d, d') && |d| == n + 1 && forall i :: 0 <= i < n ==> d[i] == Desc(Unused, 0, 0)
    ensures forall i :: 0 < i < n - 1 ==> d'[i].count == 0
  {
    forall i | 0 < i < n - 1 ensures d'[i].count == 0 {
      assert CountKept(d, d', i) && Free(d, i - 1) && Free(d, i) && Free(d, i + 1);
    }
  }

  // Of `size` pages exactly those of [a, e) are unused.
  ghost predicate Pages(d: seq<Desc>, size: nat, a: nat, e: nat) {
    |d| == size && e <= size && forall i :: Free(d, i) <==> a <= i < e
  }

  lemma FirstTwo(l: seq<nat>)
    requires NoDup(l) && |l| > 1
    ensures l[0] != l[1]
  {
  }

  lemma NoRun(d: seq<Desc>, l: seq<nat>, size: nat)
    requires RunList(d, l) && Pages(d, size, 0, 0)
    ensures l == []
  {
    if l != [] { FirstIn(l); }
  }

  lemma FirstIn(l: seq<nat>)
    requires l != []
    ensures l[0] in l
  {
  }

  lemma OneRun(d: seq<Desc>, l: seq<nat>, size: nat, a: nat, e: nat)
    requires RunList(d, l) && Pages(d, size, a, e) && a < e
    ensures l == [a] && RunLength(d, a) == e - a && d[a].count == e - a
    ensures forall n: nat :: n <= e - a ==> FirstFit(d, l, n, 0)
  {
    RunIs(d, a, e - a);
    assert Head(d, a) && a in l;
    assert forall i :: 0 <= i < |l| ==> l[i] in l && Head(d, l[i]);
    assert forall i :: 0 <= i < |l| ==> l[i] == a;
    if |l| > 1 { FirstTwo(l); }
  }

  // A page is freed behind an unused one: the run that it extends is listed twice.
  method RelistedRun() returns (r: Option<nat>, ok: bool, m: FrameAllocator)
    ensures r == Some(1) && ok && m.freeList == [0, 0] && !RunList(m.descs[..], m.freeList)
  {
    hide RunLength, RunList, Feet, Taken, FreeCount;
    m := FreshPages(2);
    var past;
    assert FirstFit(m.descs[..], m.freeList, 1, 0);
    r, past := m.Alloc(1);
    ok := m.FreePages(1, 1);
  }

  // Two pages are left of three, and the second does not say so.
  method FootRun() returns (r: Option<nat>, m: FrameAllocator)
    ensures r == Some(2) && m.Valid() && !Feet(m.descs[..])
  {
    hide RunLength, RunList, Feet, Taken, FreeCount;
    m := FreshPages(3);
    ghost var d := m.descs[..];
    var past;
    assert FirstFit(m.descs[..], m.freeList, 1, 0);
    r, past := m.Alloc(1);
    assert !FootKept(d, 2);
  }

  // The only page is the last one: taking it marks a descriptor that is not there.
  method PastRun() returns (r: Option<nat>, past: bool)
    ensures r == Some(0) && past
  {
    hide RunLength, RunList, Feet, Taken, FreeCount;
    var descs := new Desc[1](_ => Desc(Unused, 0, 0));
    var m := new FrameAllocator(descs);
    var count := m.BuildFreeList();
    OneRun(m.descs[..], m.freeList, 1, 0, 1);
    assert FirstFit(m.descs[..], m.freeList, 1, 0);
    r, past := m.Alloc(1);
  }

  lemma PagesTaken(d: seq<Desc>, d': seq<Desc>, size: nat, e: nat, a: nat, n: nat)
    requires Pages(d, size, 0, e) && n > 0 && Taken(d, d', a, n)
    ensures a + n == e && Pages(d', size, 0, a)
  {
    hide FreeCount;
    assert Free(d, a) && Free(d, a + n - 1) && !Free(d, a + n);
  }

  // Ten pages are taken, page 0 last.
  method TenTaken() returns (m: FrameAllocator)
    ensures fresh(m) && fresh(m.descs) && m.Valid() && m.freeList == [] && Pages(m.descs[..], 11, 0, 0)
  {
    hide RunLength, RunList, Feet, Taken, FootKept, FreeCount, Pages, Unreferenced, Served, RunEnd, FirstFit;
    m := FreshPages(10);
    ghost var d := m.descs[..];
    assert FirstFit(m.descs[..], m.freeList, 9, 0);
    var r, past := m.Alloc(9);
    PagesTaken(d, m.descs[..], 11, 10, r.value, 9);
    OneRun(m.descs[..], m.freeList, 11, 0, 1);
    d := m.descs[..];
    assert FirstFit(m.descs[..], m.freeList, 1, 0);
    r, past := m.Alloc(1);
    PagesTaken(d, m.descs[..], 11, 1, r.value, 1);
    NoRun(m.descs[..], m.freeList, 11);
  }

  lemma PagesGiven(d: seq<Desc>, d': seq<Desc>, size: nat, a: nat, e: nat, b: nat)
    requires a < e <= b && Given(d, d', a, e) && (Pages(d, size, e, b) || (b == e <= size && Pages(d, size, 0, 0)))
    ensures Pages(d', size, a, b)
  {
    hide FreeCount;
  }

  // A page that heads a run keeps its count when the run is extended before it.
  method StaleCount() returns (m: FrameAllocator)
    ensures fresh(m) && fresh(m.descs) && m.Valid() && m.freeList == [0] && Pages(m.descs[..], 11, 0, 10)
    ensures RunLength(m.descs[..], 0) == m.descs[0].count == 10 && m.descs[1].count == 9
  {
    hide RunLength, RunList, Given, Unreferenced;
    m := TenTaken();
    ghost var d := m.descs[..];
    var ok := m.FreePages(1, 9);
    PagesGiven(d, m.descs[..], 11, 1, 10, 10);
    OneRun(m.descs[..], m.freeList, 11, 1, 10);
    d := m.descs[..];
    ok := m.FreePages(0, 1);
    PagesGiven(d, m.descs[..], 11, 0, 1, 10);
    OneRun(m.descs[..], m.freeList, 11, 0, 10);
  }

  // Page 1 was a head of nine pages, lies inside a run of ten, and is the foot of two
  // after eight are taken. Freeing page 2 looks for the head nine pages before it.
  method StaleFootRun() returns (r: Option<nat>, ok: bool)
    ensures r == Some(2) && !ok
  {
    hide RunLength, RunList, Feet, Taken, FreeCount;
    var m := StaleCount();
    ghost var d := m.descs[..];
    OneRun(m.descs[..], m.freeList, 11, 0, 10);
    var past;
    assert FirstFit(m.descs[..], m.freeList, 8, 0);
    r, past := m.Alloc(8);
    PagesTaken(d, m.descs[..], 11, 10, r.value, 8);
    ok := m.FreePages(2, 1);
  }
}
