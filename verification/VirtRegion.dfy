/** The kernel's map of virtual regions: a red-black tree of half-open address
    intervals under a comparator for which any two overlapping intervals are equal. */
module VirtRegion {
  import opened Defs
  import opened RbShape
  import opened RbTree

  const HIGH_VADDR: u32 := 0xC000_0000
  const MAX_VADDR: u32 := 0xFFFF_FFFF

  type u32 = x: int | 0 <= x < 0x1_0000_0000

  datatype Interval = Interval(from: u32, to: u32, vregion: nat, name: string)

  function IntervalCmp(a: Interval, b: Interval): int {
    if a.to <= b.from then -1
    else if b.to <= a.from then 1
    else 0
  }

  // The end did not wrap around the 32-bit address space. The interval may be empty.
  predicate WellFormed(a: Interval) {
    a.from <= a.to
  }

  predicate Overlap(a: Interval, b: Interval) {
    a.from < b.to && b.from < a.to
  }

  // The interval of `count` pages at `from`, in 32-bit arithmetic.
  function PagesAt(from: u32, count: u32, vregion: nat, name: string): Interval {
    Interval(from, (from + count * PAGE_SIZE) % TWO_32, vregion, name)
  }

  // count * PAGE_SIZE in 32-bit arithmetic
  function SizeOf(count: u32): u32 {
    count * PAGE_SIZE % TWO_32
  }

  // Equality under the comparator is overlap, which is not transitive.
  lemma CmpIsOverlap(a: Interval, b: Interval)
    ensures IntervalCmp(a, b) == 0 <==> Overlap(a, b)
    ensures a.from < a.to && b.from < b.to ==> IntervalCmp(b, a) == -IntervalCmp(a, b)
  {
  }

  lemma CmpNotTransitive()
    ensures exists a, b, c :: WellFormed(a) && WellFormed(b) && WellFormed(c) &&
              IntervalCmp(a, b) == 0 && IntervalCmp(b, c) == 0 && IntervalCmp(a, c) != 0
  {
    var a, b, c := Interval(0, 2, 0, ""), Interval(1, 4, 0, ""), Interval(3, 5, 0, "");
    assert IntervalCmp(a, b) == 0 && IntervalCmp(b, c) == 0 && IntervalCmp(a, c) != 0;
  }

  // Where the memory of an interval really ends.
  function TrueEnd(a: Interval): int {
    if a.to < a.from then a.to + TWO_32 else a.to
  }

  predicate Meets(a: Interval, b: Interval) {
    a.from < TrueEnd(b) && b.from < TrueEnd(a)
  }

  // A recorded region compares equal to every probe that meets its memory exactly when
  // its end did not wrap. A region that ends at 2^32 is recorded and never found again.
  lemma FoundIffWellFormed(a: Interval)
    requires a.from % PAGE_SIZE == 0
    ensures (forall b: Interval :: b.from < b.to && Meets(a, b) ==> IntervalCmp(a, b) == 0) <==> WellFormed(a)
  {
    if !WellFormed(a) {
      var b := Interval(a.from, a.from + 1, 0, "");
      assert Meets(a, b) && IntervalCmp(a, b) == -1;
    }
  }

  // ---------------------------------------------------------------- sequences of regions

  ghost function Keys(s: seq<Node<Interval>>): seq<Interval> {
    seq(|s|, i requires 0 <= i < |s| => s[i].key)
  }

  // Pairwise disjoint and ascending.
  ghost predicate Sorted(s: seq<Interval>) {
    && (forall i :: 0 <= i < |s| ==> WellFormed(s[i]))
    && (forall i, j :: 0 <= i < j < |s| ==> s[i].to <= s[j].from)
  }

  // `a` was put somewhere into the sequence.
  ghost predicate Inserted(s: seq<Interval>, s': seq<Interval>, a: Interval) {
    exists at :: 0 <= at <= |s| && s' == s[..at] + [a] + s[at..]
  }

  ghost predicate Free(s: seq<Interval>, a: Interval) {
    forall i :: 0 <= i < |s| ==> !Overlap(s[i], a)
  }

  // Disjointness of the stored intervals is what makes the search right for every probe.
  lemma SortedMonotone(s: seq<Node<Interval>>, k: Interval)
    requires Sorted(Keys(s))
    ensures Monotone(IntervalCmp, s, k)
  {
    var ks := Keys(s);
    forall i, j | 0 <= i < j < |s|
      ensures IntervalCmp(s[j].key, k) < 0 ==> IntervalCmp(s[i].key, k) < 0
      ensures IntervalCmp(s[i].key, k) > 0 ==> IntervalCmp(s[j].key, k) > 0
    {
      assert ks[i] == s[i].key && ks[j] == s[j].key;
    }
  }

  // A free interval put between those below and those above it keeps the order.
  lemma InsertSorted(s: seq<Interval>, at: nat, a: Interval)
    requires Sorted(s) && WellFormed(a) && at <= |s|
    requires forall i :: 0 <= i < at ==> s[i].to <= a.from
    requires forall i :: at <= i < |s| ==> a.to <= s[i].from
    ensures Sorted(s[..at] + [a] + s[at..]) && Free(s, a)
  {
    var r := s[..at] + [a] + s[at..];
    forall i | 0 <= i < |r| ensures r[i] == if i < at then s[i] else if i == at then a else s[i - 1] {
    }
  }

  lemma RemoveSorted(s: seq<Interval>, i: nat)
    requires Sorted(s) && i < |s|
    ensures Sorted(s[..i] + s[i + 1..])
  {
  }

  // ---------------------------------------------------------------- gaps

  // Gap number `i` lies before region `i`; the last one lies after the last region.
  ghost function GapStart(s: seq<Interval>, i: nat, min: u32): u32
    requires i <= |s|
  {
    if i == 0 then min else s[i - 1].to
  }

  ghost function GapEnd(s: seq<Interval>, i: nat, max: u32): int
    requires i <= |s|
  {
    if i < |s| then s[i].from else max + 1
  }

  ghost predicate BigGap(s: seq<Interval>, i: nat, size: u32, min: u32, max: u32)
    requires i <= |s|
  {
    GapEnd(s, i, max) - GapStart(s, i, min) >= size
  }

  // [a, a + size) lies in [min, max] and misses every region.
  ghost predicate Fits(s: seq<Interval>, a: int, size: u32, min: u32, max: u32) {
    && min <= a && a + size <= max + 1
    && forall i :: 0 <= i < |s| ==> a + size <= s[i].from || s[i].to <= a
  }

  // What find_gap_start is for: the lowest address that fits, 0 when nothing fits.
  ghost predicate RightGap(s: seq<Interval>, r: u32, size: u32, min: u32, max: u32) {
    if r == 0 then forall a :: !Fits(s, a, size, min, max)
    else Fits(s, r, size, min, max) && forall a :: Fits(s, a, size, min, max) ==> r <= a
  }

  ghost predicate Within(s: seq<Interval>, min: u32, max: u32) {
    s != [] ==> min <= s[0].from && s[|s| - 1].to <= max + 1
  }

  // Some gap before the last region is big enough.
  ghost predicate InnerGap(s: seq<Interval>, size: u32, min: u32, max: u32) {
    exists i: nat :: i < |s| && BigGap(s, i, size, min, max)
  }

  // The calls in which line 111 answers with the end of the second-to-last region,
  // which lies before the end of the last one.
  ghost predicate StaleCase(s: seq<Interval>, size: u32, min: u32, max: u32) {
    |s| >= 2 && !InnerGap(s, size, min, max) && max + 1 - s[|s| - 2].to >= size && s[|s| - 2].to < s[|s| - 1].to
  }

  // Two regions that touch, at the start of the range.
  lemma StaleExample()
    ensures
      var s := [Interval(0xC000_0000, 0xC000_1000, 0, ""), Interval(0xC000_1000, 0xC000_2000, 0, "")];
      Sorted(s) && Within(s, HIGH_VADDR, MAX_VADDR) && StaleCase(s, 0x1000, HIGH_VADDR, MAX_VADDR)
  {
    var s := [Interval(0xC000_0000, 0xC000_1000, 0, ""), Interval(0xC000_1000, 0xC000_2000, 0, "")];
    assert !BigGap(s, 0, 0x1000, HIGH_VADDR, MAX_VADDR) && !BigGap(s, 1, 0x1000, HIGH_VADDR, MAX_VADDR);
  }

  // There is one right answer.
  lemma OneRightGap(s: seq<Interval>, r: u32, size: u32, min: u32, max: u32)
    requires RightGap(s, r, size, min, max)
    ensures forall r': u32 :: RightGap(s, r', size, min, max) ==> r' == r
  {
  }

  lemma FitsInSomeGap(s: seq<Interval>, a: int, size: u32, min: u32, max: u32) returns (j: nat)
    requires Sorted(s) && size > 0 && Fits(s, a, size, min, max)
    ensures j <= |s| && GapStart(s, j, min) <= a && a + size <= GapEnd(s, j, max)
  {
    j := 0;
    while j < |s| && s[j].to <= a
      invariant j <= |s| && GapStart(s, j, min) <= a
    {
      j := j + 1;
    }
  }

  // The start of the first gap that is big enough is the lowest address that fits.
  lemma FirstGapIsLowest(s: seq<Interval>, i: nat, size: u32, min: u32, max: u32)
    requires Sorted(s) && Within(s, min, max) && (size > 0 || i == 0) && 0 < min <= max && i <= |s|
    requires BigGap(s, i, size, min, max) && forall j: nat :: j < i ==> !BigGap(s, j, size, min, max)
    ensures RightGap(s, GapStart(s, i, min), size, min, max) && GapStart(s, i, min) != 0
  {
    var r := GapStart(s, i, min);
    assert Fits(s, r, size, min, max);
    forall a | Fits(s, a, size, min, max) && i > 0 ensures r <= a {
      var j := FitsInSomeGap(s, a, size, min, max);
      assert BigGap(s, j, size, min, max);
    }
  }

  lemma NoGapNothingFits(s: seq<Interval>, size: u32, min: u32, max: u32)
    requires Sorted(s) && size > 0 && forall j: nat :: j <= |s| ==> !BigGap(s, j, size, min, max)
    ensures RightGap(s, 0, size, min, max)
  {
    forall a | Fits(s, a, size, min, max) ensures false {
      var j := FitsInSomeGap(s, a, size, min, max);
      assert BigGap(s, j, size, min, max);
    }
  }

  // The stale answer always overlaps the last region. Otherwise the answer of line 111 is
  // right: it is the end of the last region too, or it is withheld and nothing fits.
  lemma StaleAnswer(s: seq<Interval>, size: u32, min: u32, max: u32)
    requires Sorted(s) && Within(s, min, max) && size > 0 && 0 < min <= max
    requires |s| >= 2 && !InnerGap(s, size, min, max)
    ensures
      var e := s[|s| - 2].to;
      if StaleCase(s, size, min, max) then
        && e != 0 && s[|s| - 1].from < e + size && e < s[|s| - 1].to
        && !RightGap(s, e, size, min, max)
      else RightGap(s, if max + 1 - e >= size then e else 0, size, min, max)
  {
    var n := |s|;
    assert !BigGap(s, n - 1, size, min, max);
    if StaleCase(s, size, min, max) {
      assert !Fits(s, s[n - 2].to, size, min, max);
    } else {
      assert s[n - 2].to <= s[n - 1].to;
      if max + 1 - s[n - 2].to >= size {
        FirstGapIsLowest(s, n, size, min, max);
      } else {
        NoGapNothingFits(s, size, min, max);
      }
    }
  }

  // ---------------------------------------------------------------- the region map

  datatype Op = MarkOp(from: u32, count: u32) | ReserveOp(count: u32) | ReleaseOp(va: u32)

  class VirtRegions {
    const tree: RbTree<Interval>
    // false: virt_region.c line 111 as written; true: the trailing gap starts at the last region.
    const useLast: bool

    constructor (inherit: bool, useLast: bool)
      ensures Valid() && fresh(tree) && Regions() == [] && Balanced(tree.shape)
      ensures this.useLast == useLast && tree.inherit == inherit && tree.nodes == {}
    {
      tree := new RbTree(IntervalCmp, inherit);
      this.useLast := useLast;
    }

    ghost function Regions(): seq<Interval>
      reads tree
    {
      Keys(InOrder(tree.shape))
    }

    // The tree alone, whatever its regions.
    ghost predicate Base()
      reads tree, tree.nodes
    {
      tree.Valid() && tree.cmp == IntervalCmp && RedBlack(tree.shape)
    }

    ghost predicate Valid()
      reads tree, tree.nodes
    {
      Base() && Sorted(Regions())
    }

    // kvregion_mark. The regions stay disjoint exactly when the new end does not wrap.
    method Mark(from: u32, count: u32, vregion: nat, name: string)
      requires Base()
      modifies tree, tree.nodes
      ensures Base() && fresh(tree.nodes - old(tree.nodes))
      ensures old(Balanced(tree.shape)) ==> Balanced(tree.shape)
      ensures
        var a := Interval(from, (from + count * PAGE_SIZE) % TWO_32, vregion, name);
        && (old(Free(Regions(), a)) ==> Inserted(old(Regions()), Regions(), a))
        && (old(Valid()) && !old(Free(Regions(), a)) ==> Regions() == old(Regions()))
        && (old(Valid()) && old(Free(Regions(), a)) ==> (Valid() <==> WellFormed(a)))
        && (old(Valid()) && !old(Free(Regions(), a)) ==> Valid())
    {
      hide Holds, Monotone, AllBelow, AllAbove, InOrder, NoRedRed, Balanced, Nodes, Keys, Sorted, Free, Inserted;
      var a := PagesAt(from, count, vregion, name);
      var node := new Node(a);
      ghost var s := InOrder(tree.shape);
      if Sorted(Regions()) { SortedMonotone(s, a); }
      var r;
      ghost var at;
      r, at := tree.Insert(node);
      if r == null {
        NodesAreRegions();
        MarkClash(s, a);
      } else {
        MarkInserted(s, at, node);
        if old(Valid()) { MarkFits(s, at, node); }
      }
    }

    // search_interval_addr, and rb_search inside kvregion_is_free
    method SearchPage(probe: Interval) returns (r: Node?<Interval>)
      requires Base()
      ensures Base() && r == Hit(tree.cmp, tree.shape, probe)
      ensures r != null ==> r in tree.nodes && Overlap(r.key, probe) && r.key in Regions()
      ensures Free(Regions(), probe) ==> r == null
      ensures Valid() && r == null ==> Free(Regions(), probe)
    {
      hide Holds, Monotone, InOrder, NoRedRed, Balanced, Nodes, Sorted;
      if Sorted(Regions()) { SortedMonotone(InOrder(tree.shape), probe); }
      r := tree.Search(probe);
      NodesAreRegions();
      RegionsAreNodes();
      if r == null {
        forall k <- Regions() ensures Valid() ==> !Overlap(k, probe) { CmpIsOverlap(k, probe); }
      } else {
        CmpIsOverlap(r.key, probe);
      }
    }

    lemma RegionsAreNodes()
      requires tree.Valid()
      ensures forall k <- Regions() :: exists n <- tree.nodes :: n.key == k
    {
      InOrderNodes(tree.shape);
      forall k <- Regions() ensures exists n <- tree.nodes :: n.key == k {
        var i :| 0 <= i < |Regions()| && Regions()[i] == k;
        assert InOrder(tree.shape)[i] in tree.nodes;
      }
    }

    // kvregion_is_free. The page at the very top of the address space is always
    // reported free: the probe's end wraps to 0 and compares equal to nothing.
    method IsFree(va: u32) returns (r: bool)
      requires Base() && va % PAGE_SIZE == 0
      ensures Base()
      ensures va == 0 ==> !r
      ensures
        var end := (va + PAGE_SIZE) % TWO_32;
        && (va > 0 && (forall i :: 0 <= i < |Regions()| ==> Regions()[i].to <= va || end <= Regions()[i].from) ==> r)
        && (Valid() && va > 0 && r ==>
              forall i :: 0 <= i < |Regions()| ==> Regions()[i].to <= va || end <= Regions()[i].from)
      ensures va == TWO_32 - PAGE_SIZE ==> r
    {
      if va == 0 {
        return false;
      }
      var node := SearchPage(PagesAt(va, 1, 0, ""));
      r := node == null;
    }

    // kvregion_release; the code asserts that some region meets the page. It is not `ok`
    // when rb_remove_node reads a missing sibling.
    method Release(va: u32) returns (ok: bool, ghost gone: Node<Interval>)
      requires Valid() && !Free(Regions(), PagesAt(va, 1, 0, ""))
      modifies tree, tree.nodes
      ensures gone == Hit(tree.cmp, old(tree.shape), PagesAt(va, 1, 0, ""))
      ensures gone in old(tree.nodes) && Overlap(gone.key, PagesAt(va, 1, 0, "")) && gone in old(Nodes(tree.shape))
      ensures ok <==> RemovalSafe(old(tree.shape), gone)
      ensures ok ==> Valid() && tree.nodes == old(tree.nodes) - {gone} && OneLess(old(Regions()), Regions(), gone.key)
      ensures old(Balanced(tree.shape)) ==>
        ok && (Balanced(tree.shape) <==> tree.inherit || !RemovalUnbalances(old(tree.shape), gone))
    {
      hide Holds, InOrder, NoRedRed, Balanced, Nodes, Sorted, Keys, OneLess, RemovalUnbalances, RemovalSafe, Remove;
      var node := SearchPage(PagesAt(va, 1, 0, ""));
      gone := node;
      ghost var s := InOrder(tree.shape);
      tree.InShape(node);
      var r;
      r, ok := tree.RemoveNode(node);
      if ok { ReleaseKeys(s, InOrder(tree.shape), node); }
    }

    // find_gap_start on this map; 0 stands for NULL.
    method FindGap(size: u32, min: u32, max: u32) returns (r: u32)
      requires Valid() && 0 < min <= max && Within(Regions(), min, max)
      ensures Valid()
      ensures useLast ==> RightGap(Regions(), r, size, min, max)
      ensures !useLast ==> (RightGap(Regions(), r, size, min, max) <==> !StaleCase(Regions(), size, min, max))
      ensures !useLast && StaleCase(Regions(), size, min, max) ==>
        |Regions()| >= 2 && r == Regions()[|Regions()| - 2].to
    {
      hide Holds, InOrder, NoRedRed, Balanced, Nodes, RightGap, Sorted;
      ghost var nodes, s := InOrder(tree.shape), Regions();
      KeysLength(nodes);
      ShapeLeaf(tree.shape);
      var curNode := tree.Min();
      if curNode == null {
        if max - min + 1 >= size {
          FirstGapIsLowest(s, 0, size, min, max);
          return min;
        }
        NoGapNothingFits(s, size, min, max);
        return 0;
      }
      var cur := curNode.key;
      assert cur == s[0];
      if cur.from - min >= size {
        assert BigGap(s, 0, size, min, max);
        FirstGapIsLowest(s, 0, size, min, max);
        return min;
      }

      var nextNode := tree.Next(curNode, 0);
      if nextNode == null {
        if max - cur.to + 1 >= size {
          FirstGapIsLowest(s, 1, size, min, max);
          return cur.to;
        }
        NoGapNothingFits(s, size, min, max);
        return 0;
      }
      var found, end := ScanGaps(curNode, nextNode, size, min, max);
      if found {
        return end;
      }
      StaleAnswer(s, size, min, max);
      r := TrailingGap(s, end, size, min, max);
    }

    // The loop of find_gap_start: the first big gap between two regions, or the
    // end of the region from which the trailing gap is measured.
    method ScanGaps(first: Node<Interval>, second: Node<Interval>, size: u32, min: u32, max: u32)
      returns (found: bool, end: u32)
      requires Valid() && size > 0 && 0 < min <= max && Within(Regions(), min, max) && |Regions()| >= 2
      requires |InOrder(tree.shape)| >= 2 && first == InOrder(tree.shape)[0] && second == InOrder(tree.shape)[1]
      requires !BigGap(Regions(), 0, size, min, max)
      ensures Valid() && found == InnerGap(Regions(), size, min, max)
      ensures found ==> RightGap(Regions(), end, size, min, max)
      ensures !found ==> end == Regions()[|Regions()| - if useLast then 1 else 2].to
    {
      hide Holds, InOrder, NoRedRed, Balanced, Nodes, RightGap, Sorted;
      ghost var nodes, s := InOrder(tree.shape), Regions();
      KeysLength(nodes);
      var curNode: Node<Interval>, nextNode: Node?<Interval> := first, second;
      var cur := curNode.key;
      ghost var i: nat := 0;
      while nextNode != null
        invariant Valid() && InOrder(tree.shape) == nodes && Regions() == s && |s| == |nodes|
        invariant i < |nodes| && curNode == nodes[i]
        invariant nextNode == if i + 1 < |nodes| then nodes[i + 1] else null
        invariant cur == if i == 0 then s[0] else s[i - 1]
        invariant forall j: nat :: j <= i ==> !BigGap(s, j, size, min, max)
        decreases |nodes| - i
      {
        cur := curNode.key;
        var next := nextNode.key;
        assert cur == s[i] && next == s[i + 1];
        if next.from - cur.to >= size {
          assert BigGap(s, i + 1, size, min, max);
          FirstGapIsLowest(s, i + 1, size, min, max);
          return true, cur.to;
        }
        curNode := nextNode;
        i := i + 1;
        nextNode := tree.Next(curNode, i);
      }
      if useLast {
        cur := curNode.key;
        assert cur == s[i];
      }
      return false, cur.to;
    }

    // The last test of find_gap_start.
    method TrailingGap(ghost s: seq<Interval>, end: u32, size: u32, min: u32, max: u32) returns (r: u32)
      requires Sorted(s) && Within(s, min, max) && size > 0 && 0 < min <= max && |s| >= 2
      requires !InnerGap(s, size, min, max)
      requires end == s[|s| - if useLast then 1 else 2].to
      ensures useLast ==> RightGap(s, r, size, min, max)
      ensures !useLast ==> r == if max + 1 - end >= size then end else 0
    {
      ghost var n := |s|;
      if useLast {
        if max - end + 1 >= size {
          FirstGapIsLowest(s, n, size, min, max);
          return end;
        }
        NoGapNothingFits(s, size, min, max);
        return 0;
      }
      if max - end + 1 >= size {
        return end;
      }
      return 0;
    }

    // kvregion_reserve; 0 stands for NULL. A right answer is recorded. The stale answer
    // hands out memory of a live region and records nothing. A region that reaches the
    // top of the address space is recorded with a wrapped end in either case.
    method Reserve(count: u32, vregion: nat, name: string) returns (r: u32)
      requires Valid() && Within(Regions(), HIGH_VADDR, MAX_VADDR)
      modifies tree, tree.nodes
      ensures Base() && fresh(tree.nodes - old(tree.nodes))
      ensures old(Balanced(tree.shape)) ==> Balanced(tree.shape)
      ensures r == 0 ==> Valid() && Regions() == old(Regions())
      ensures
        var size := count * PAGE_SIZE % TWO_32;
        useLast || !old(Stale(count)) ==> old(RightGap(Regions(), r, size, HIGH_VADDR, MAX_VADDR))
      ensures !useLast && old(Stale(count)) ==>
        |old(Regions())| >= 2 && r == old(Regions())[|old(Regions())| - 2].to > 0
      ensures r != 0 ==>
        var size := count * PAGE_SIZE % TWO_32;
        var a := Interval(r, (r + size) % TWO_32, vregion, name);
        && r + size <= TWO_32 && (Valid() <==> r + size < TWO_32)
        && if r + size < TWO_32 && !useLast && old(Stale(count))
           then old(Regions()) != [] && Overlap(old(Regions())[|old(Regions())| - 1], a) && Regions() == old(Regions())
           else Inserted(old(Regions()), Regions(), a)
    {
      hide Holds, InOrder, NoRedRed, Balanced, Nodes, RightGap, Sorted, Free, Keys, StaleCase, Within, Inserted;
      r := FindGap(SizeOf(count), HIGH_VADDR, MAX_VADDR);
      if r == 0 {
        ReserveNever(Regions(), count);
        return;
      }
      ghost var s := Regions();
      if useLast || !Stale(count) {
        ReserveFacts(s, r, count, vregion, name);
      } else {
        ReserveStale(s, r, count, vregion, name);
      }
      Mark(r, count, vregion, name);
    }

    // What one operation may do to the recorded regions.
    ghost predicate Step(s: seq<Interval>, op: Op, s': seq<Interval>) {
      match op
      case MarkOp(from, count) =>
        if Free(s, PagesAt(from, count, 0, "")) then Inserted(s, s', PagesAt(from, count, 0, "")) else s' == s
      case ReserveOp(count) =>
        if useLast || !StaleCase(s, SizeOf(count), HIGH_VADDR, MAX_VADDR)
        then
          exists r: u32 ::
            && RightGap(s, r, SizeOf(count), HIGH_VADDR, MAX_VADDR)
            && if r == 0 then s' == s else Inserted(s, s', PagesAt(r, count, 0, ""))
        else s' == s
      case ReleaseOp(va) => exists k :: Overlap(k, PagesAt(va, 1, 0, "")) && OneLess(s, s', k)
    }

    // The operations at which a run stops: those on which the code asserts, those that
    // reach the top of the address space, and removals that read a missing sibling.
    ghost predicate Stops(t: Tree<Node<Interval>>, op: Op) {
      var s := Keys(InOrder(t));
      match op
      case MarkOp(from, count) => !WellFormed(PagesAt(from, count, 0, ""))
      case ReserveOp(count) =>
        || !Within(s, HIGH_VADDR, MAX_VADDR)
        || if !useLast && StaleCase(s, SizeOf(count), HIGH_VADDR, MAX_VADDR)
           then |s| >= 2 && s[|s| - 2].to + SizeOf(count) == TWO_32
           else exists r: u32 :: RightGap(s, r, SizeOf(count), HIGH_VADDR, MAX_VADDR) && r + SizeOf(count) == TWO_32
      case ReleaseOp(va) =>
        var n := Hit(tree.cmp, t, PagesAt(va, 1, 0, ""));
        n == null || (n in Nodes(t) && !RemovalSafe(t, n))
    }

    // Every run of marks, reservations and releases: `trace` holds the tree before and
    // after each operation. Its regions are pairwise disjoint and its colours right
    // throughout; with the repaired removal black heights stay equal as well.
    method Replay(ops: seq<Op>) returns (done: nat, ghost trace: seq<Tree<Node<Interval>>>)
      requires Valid()
      modifies tree, tree.nodes
      ensures done <= |ops| && |trace| == done + 1 && trace[0] == old(tree.shape)
      ensures forall i :: 0 <= i <= done ==> RedBlack(trace[i]) && Sorted(Keys(InOrder(trace[i])))
      ensures forall i :: 0 <= i < done ==> Step(Keys(InOrder(trace[i])), ops[i], Keys(InOrder(trace[i + 1])))
      ensures tree.inherit && old(Balanced(tree.shape)) ==> forall i :: 0 <= i <= done ==> Balanced(trace[i])
      ensures forall i :: 0 <= i < done ==> !Stops(trace[i], ops[i])
      ensures if done < |ops| then Stops(trace[done], ops[done]) else Valid() && tree.shape == trace[done]
    {
      hide Holds, InOrder, NoRedRed, Balanced, Nodes, RightGap, Sorted, Free, Keys, Within, StaleCase, Step, Stops;
      done := 0;
      trace := [tree.shape];
      while done < |ops|
        invariant done <= |ops| && Valid() && fresh(tree.nodes - old(tree.nodes))
        invariant |trace| == done + 1 && trace[0] == old(tree.shape) && trace[done] == tree.shape
        invariant forall i :: 0 <= i <= done ==> RedBlack(trace[i]) && Sorted(Keys(InOrder(trace[i])))
        invariant forall i :: 0 <= i < done ==> Step(Keys(InOrder(trace[i])), ops[i], Keys(InOrder(trace[i + 1])))
        invariant tree.inherit && old(Balanced(tree.shape)) ==> forall i :: 0 <= i <= done ==> Balanced(trace[i])
        invariant forall i :: 0 <= i < done ==> !Stops(trace[i], ops[i])
      {
        var stop := Perform(ops[done]);
        if stop { return; }
        trace := trace + [tree.shape];
        done := done + 1;
      }
    }

    // One operation of a run, unless the run stops at it.
    method Perform(op: Op) returns (stop: bool)
      requires Valid()
      modifies tree, tree.nodes
      ensures stop <==> Stops(old(tree.shape), op)
      ensures !stop ==> Valid() && fresh(tree.nodes - old(tree.nodes)) && Step(old(Regions()), op, Regions())
      ensures !stop && tree.inherit && old(Balanced(tree.shape)) ==> Balanced(tree.shape)
    {
      hide Valid, Stops, Step, Balanced;
      match op {
        case MarkOp(from, count) => stop := PerformMark(from, count);
        case ReserveOp(count) => stop := PerformReserve(count);
        case ReleaseOp(va) => stop := PerformRelease(va);
      }
    }

    method PerformMark(from: u32, count: u32) returns (stop: bool)
      requires Valid()
      modifies tree, tree.nodes
      ensures stop <==> Stops(old(tree.shape), MarkOp(from, count))
      ensures !stop ==>
        Valid() && fresh(tree.nodes - old(tree.nodes)) && Step(old(Regions()), MarkOp(from, count), Regions())
      ensures !stop && tree.inherit && old(Balanced(tree.shape)) ==> Balanced(tree.shape)
    {
      hide Holds, InOrder, NoRedRed, Balanced, Nodes, RightGap, Sorted, Free, Keys, Within, RemovalUnbalances,
        RemovalSafe, StaleCase, Inserted;
      if !WellFormed(PagesAt(from, count, 0, "")) { return true; }
      Mark(from, count, 0, "");
      stop := false;
    }

    method PerformReserve(count: u32) returns (stop: bool)
      requires Valid()
      modifies tree, tree.nodes
      ensures stop <==> Stops(old(tree.shape), ReserveOp(count))
      ensures !stop ==>
        Valid() && fresh(tree.nodes - old(tree.nodes)) && Step(old(Regions()), ReserveOp(count), Regions())
      ensures !stop && tree.inherit && old(Balanced(tree.shape)) ==> Balanced(tree.shape)
    {
      hide Holds, InOrder, NoRedRed, Balanced, Nodes, RightGap, Sorted, Free, Keys, Within, RemovalUnbalances,
        RemovalSafe, StaleCase, Inserted;
      ghost var s := Regions();
      var first := tree.Min();
      ShapeLeaf(tree.shape);
      if first != null && first.key.from < HIGH_VADDR {
        BelowHigh(first);
        return true;
      }
      WithinHigh();
      var r := Reserve(count, 0, "");
      if useLast || !StaleCase(s, SizeOf(count), HIGH_VADDR, MAX_VADDR) {
        OneRightGap(s, r, SizeOf(count), HIGH_VADDR, MAX_VADDR);
      }
      stop := r + SizeOf(count) == TWO_32;
    }

    method PerformRelease(va: u32) returns (stop: bool)
      requires Valid()
      modifies tree, tree.nodes
      ensures stop <==> Stops(old(tree.shape), ReleaseOp(va))
      ensures !stop ==>
        Valid() && fresh(tree.nodes - old(tree.nodes)) && Step(old(Regions()), ReleaseOp(va), Regions())
      ensures !stop && tree.inherit && old(Balanced(tree.shape)) ==> Balanced(tree.shape)
    {
      hide Holds, InOrder, NoRedRed, Balanced, Nodes, RightGap, Sorted, Free, Keys, Within, RemovalUnbalances,
        RemovalSafe, StaleCase, Inserted;
      var node := SearchPage(PagesAt(va, 1, 0, ""));
      if node == null { return true; }
      var ok;
      ghost var gone;
      ok, gone := Release(va);
      stop := !ok;
    }

    // A reservation that fills the rest of the address space is lost at once: its first
    // page is reported free, and marking that page records a region inside it.
    static method TopRegionLost() returns (r: u32, free: bool, m: VirtRegions)
      ensures r == HIGH_VADDR && free && fresh(m)
      ensures |m.Regions()| == 2 && Meets(m.Regions()[0], m.Regions()[1]) && m.Regions()[0] != m.Regions()[1]
    {
      hide Holds, InOrder, NoRedRed, Balanced, Nodes, RightGap, Sorted, Keys, Free, Inserted, StaleCase;
      m := new VirtRegions(true, true);
      OnlyGap(HIGH_VADDR, SizeOf(0x4_0000), HIGH_VADDR, MAX_VADDR);
      r := m.Reserve(0x4_0000, 0, "");
      ghost var a, b := PagesAt(HIGH_VADDR, 0x4_0000, 0, ""), PagesAt(HIGH_VADDR, 1, 1, "");
      InsertedOne(m.Regions(), a);
      TopRegion(a, b);
      free := m.IsFree(HIGH_VADDR);
      m.Mark(HIGH_VADDR, 1, 1, "");
      InsertedTwo(a, m.Regions(), b);
    }

    lemma BelowHigh(first: Node<Interval>)
      requires Valid() && tree.shape.Branch? && first == InOrder(tree.shape)[0] && first.key.from < HIGH_VADDR
      ensures !Within(Regions(), HIGH_VADDR, MAX_VADDR)
    {
      ShapeLeaf(tree.shape);
      assert Regions()[0] == first.key;
    }

    lemma WithinHigh()
      requires Valid() && (tree.shape.Branch? ==> InOrder(tree.shape)[0].key.from >= HIGH_VADDR)
      ensures Within(Regions(), HIGH_VADDR, MAX_VADDR)
    {
      ShapeLeaf(tree.shape);
    }

    ghost predicate Stale(count: u32)
      reads tree
    {
      StaleCase(Regions(), SizeOf(count), HIGH_VADDR, MAX_VADDR)
    }

    lemma NodesAreRegions()
      requires tree.Valid()
      ensures forall n <- tree.nodes :: n.key in Regions()
    {
      InOrderNodes(tree.shape);
      forall n <- tree.nodes ensures n.key in Regions() {
        var i :| 0 <= i < |InOrder(tree.shape)| && InOrder(tree.shape)[i] == n;
        assert Regions()[i] == n.key;
      }
    }
  }

  lemma ReserveFacts(s: seq<Interval>, r: u32, count: u32, vregion: nat, name: string)
    requires r != 0 && RightGap(s, r, SizeOf(count), HIGH_VADDR, MAX_VADDR)
    ensures
      var a := PagesAt(r, count, vregion, name);
      && r + SizeOf(count) <= TWO_32 && (WellFormed(a) <==> r + SizeOf(count) < TWO_32) && Free(s, a)
  {
    PagesEnd(r, count, vregion, name);
  }

  lemma PagesEnd(r: u32, count: u32, vregion: nat, name: string)
    requires r + SizeOf(count) <= TWO_32
    ensures PagesAt(r, count, vregion, name).to == if r + SizeOf(count) < TWO_32 then r + SizeOf(count) else 0
  {
  }

  lemma ReserveStale(s: seq<Interval>, r: u32, count: u32, vregion: nat, name: string)
    requires Sorted(s) && Within(s, HIGH_VADDR, MAX_VADDR) && StaleCase(s, SizeOf(count), HIGH_VADDR, MAX_VADDR)
    requires r == s[|s| - 2].to
    ensures
      var a := PagesAt(r, count, vregion, name);
      && r + SizeOf(count) <= TWO_32 && (WellFormed(a) <==> r + SizeOf(count) < TWO_32) && r != 0
      && (r + SizeOf(count) < TWO_32 ==> Overlap(s[|s| - 1], a) && !Free(s, a))
      && (r + SizeOf(count) == TWO_32 ==> Free(s, a))
  {
    StalePositive(s, SizeOf(count), HIGH_VADDR, MAX_VADDR);
    StaleAnswer(s, SizeOf(count), HIGH_VADDR, MAX_VADDR);
    PagesEnd(r, count, vregion, name);
  }

  // Without room for nothing there is a request for something.
  lemma StalePositive(s: seq<Interval>, size: u32, min: u32, max: u32)
    requires Sorted(s) && Within(s, min, max) && |s| >= 2 && !InnerGap(s, size, min, max)
    ensures size > 0
  {
    assert !BigGap(s, 0, size, min, max);
  }

  lemma ReserveNever(s: seq<Interval>, count: u32)
    requires Sorted(s) && Within(s, HIGH_VADDR, MAX_VADDR)
    ensures StaleCase(s, SizeOf(count), HIGH_VADDR, MAX_VADDR) ==> s[|s| - 2].to > 0
  {
  }

  lemma InsertedOne(s: seq<Interval>, a: Interval)
    requires Inserted([], s, a)
    ensures s == [a]
  {
  }

  lemma InsertedTwo(a: Interval, s: seq<Interval>, b: Interval)
    requires Inserted([a], s, b)
    ensures s == [a, b] || s == [b, a]
  {
    var at :| 0 <= at <= 1 && s == [a][..at] + [b] + [a][at..];
  }

  lemma TopRegion(a: Interval, b: Interval)
    requires a == PagesAt(HIGH_VADDR, 0x4_0000, 0, "") && b == PagesAt(HIGH_VADDR, 1, 1, "")
    ensures Free([a], PagesAt(HIGH_VADDR, 1, 0, "")) && Free([a], b) && Meets(a, b) && Meets(b, a) && a != b
  {
  }

  lemma OnlyGap(r: u32, size: u32, min: u32, max: u32)
    requires 0 < min <= max && size <= max + 1 - min && r == min
    ensures RightGap([], r, size, min, max) && forall x: u32 :: RightGap([], x, size, min, max) ==> x == r
    ensures !StaleCase([], size, min, max)
  {
    assert Fits([], min, size, min, max);
  }

  lemma ShapeLeaf(t: Tree<Node<Interval>>)
    ensures t.Leaf? <==> |InOrder(t)| == 0
  {
  }

  lemma KeysLength(s: seq<Node<Interval>>)
    ensures |Keys(s)| == |s|
  {
  }

  lemma ReleaseKeys(s: seq<Node<Interval>>, s': seq<Node<Interval>>, n: Node<Interval>)
    requires OneLess(s, s', n) && Sorted(Keys(s))
    ensures OneLess(Keys(s), Keys(s'), n.key) && Sorted(Keys(s'))
  {
    var i :| 0 <= i < |s| && s[i] == n && s' == s[..i] + s[i + 1..];
    RemoveSorted(Keys(s), i);
    assert Keys(s') == Keys(s)[..i] + Keys(s)[i + 1..];
  }

  lemma MarkClash(s: seq<Node<Interval>>, a: Interval)
    requires exists k :: k in Keys(s) && IntervalCmp(k, a) == 0
    ensures !Free(Keys(s), a)
  {
  }

  lemma MarkInserted(s: seq<Node<Interval>>, at: nat, node: Node<Interval>)
    requires at <= |s|
    ensures Inserted(Keys(s), Keys(s[..at] + [node] + s[at..]), node.key)
  {
    assert Keys(s[..at] + [node] + s[at..]) == Keys(s)[..at] + [node.key] + Keys(s)[at..];
  }

  lemma MarkFits(s: seq<Node<Interval>>, at: nat, node: Node<Interval>)
    requires Sorted(Keys(s)) && at <= |s|
    requires AllBelow(IntervalCmp, s[..at], node.key) && AllAbove(IntervalCmp, s[at..], node.key)
    ensures Free(Keys(s), node.key)
    ensures Sorted(Keys(s[..at] + [node] + s[at..])) <==> WellFormed(node.key)
  {
    var ks, a, r := Keys(s), node.key, Keys(s[..at] + [node] + s[at..]);
    forall i | 0 <= i < at ensures ks[i].to <= a.from { assert s[..at][i] == s[i]; }
    forall i | at <= i < |ks| ensures a.to <= ks[i].from { assert s[at..][i - at] == s[i]; }
    assert r == ks[..at] + [a] + ks[at..] && r[at] == a;
    if WellFormed(a) { InsertSorted(ks, at, a); }
  }
}
