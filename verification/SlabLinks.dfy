/** The doubly linked lists of slabs. The link to the slab before overlays the order of a
    buddy block (heap_structs.h:14, 53), and line 464 of heap.c sets only the link to the
    slab after. */
module SlabLinks {
  import opened Defs
  import opened SlabBlocks

  // What prev_slab holds. `Wild` is a number that is no slab's address.
  datatype Link = Null | Page(page: nat) | Wild(bits: nat)

  datatype Links = Links(prev: Link, next: Option<nat>)

  type LinkMap = map<nat, Links>

  function SetPrevSlab(m: LinkMap, p: Option<nat>, v: Link): (m': LinkMap)
    ensures m'.Keys == m.Keys
  {
    if p.Some? && p.value in m then m[p.value := m[p.value].(prev := v)] else m
  }

  function SetNextSlab(m: LinkMap, p: Link, v: Option<nat>): (m': LinkMap)
    ensures m'.Keys == m.Keys
  {
    if p.Page? && p.page in m then m[p.page := m[p.page].(next := v)] else m
  }

  // The links of a slab that has just been carved from a block of order k.
  function FreshLinks(k: nat, initPrev: bool): Links {
    Links(if initPrev || k == 0 then Null else Wild(k), None)
  }

  // A slab that was full goes in front of the first slab `h`.
  function Relisted(m: LinkMap, h: Option<nat>, p: nat): (m': LinkMap)
    requires p in m
    ensures m'.Keys == m.Keys
  {
    SetPrevSlab(m[p := Links(Null, h)], h, Page(p))
  }

  // The slab at `p` is taken out from between its neighbours.
  function Unlinked(m: LinkMap, p: nat): (m': LinkMap)
    requires p in m
    ensures m'.Keys == m.Keys
  {
    SetPrevSlab(SetNextSlab(m, m[p].prev, m[p].next), m[p].next, m[p].prev)
  }

  // Element `j` of `l` is linked to its neighbours; what stands before the first one is no slab.
  ghost predicate LinkedAt(m: LinkMap, l: seq<nat>, j: nat)
    requires j < |l|
  {
    && l[j] in m
    && m[l[j]].next == (if j + 1 < |l| then Some(l[j + 1]) else None)
    && if j > 0 then m[l[j]].prev == Page(l[j - 1]) else !m[l[j]].prev.Page?
  }

  ghost predicate IsChain(m: LinkMap, h: Option<nat>, l: seq<nat>) {
    && h == (if l == [] then None else Some(l[0]))
    && forall j: nat :: j < |l| ==> LinkedAt(m, l, j)
  }

  // The lists `ls`, which start at `hs`, hold exactly the slabs that are not full.
  ghost predicate LinksOk(n: nat, slabs: Slabs, m: LinkMap, hs: seq<Option<nat>>, ls: seq<seq<nat>>) {
    && ListsOk(n, slabs, ls) && m.Keys == slabs.Keys && |hs| == n
    && forall c: nat :: c < n ==> IsChain(m, hs[c], ls[c])
  }

  // The link before is wild exactly in the slabs of more than one page that are not in
  // `touched`: those that were never full and never had a slab put in front of them.
  ghost predicate WildIff(orders: seq<SlabOrder>, slabs: Slabs, m: LinkMap, touched: set<nat>, initPrev: bool) {
    && touched <= slabs.Keys <= m.Keys
    && forall p <- slabs.Keys :: slabs[p].cache < |orders| &&
         (m[p].prev.Wild? <==> !initPrev && orders[slabs[p].cache].pageOrder > 0 && p !in touched)
  }

  // ---------------------------------------------------------------- one chain

  lemma ChainFrame(m: LinkMap, m': LinkMap, h: Option<nat>, l: seq<nat>)
    requires IsChain(m, h, l) && forall p :: p in l && p in m ==> p in m' && m'[p] == m[p]
    ensures IsChain(m', h, l)
  {
    forall j: nat | j < |l| ensures LinkedAt(m', l, j) { assert LinkedAt(m, l, j); }
  }

  // The first slab leaves the list when it becomes full.
  lemma PopChain(m: LinkMap, h: Option<nat>, l: seq<nat>)
    requires IsChain(m, h, l) && NoDup(l) && l != [] && l[0] in m
    ensures IsChain(SetPrevSlab(m, m[l[0]].next, Null), m[l[0]].next, l[1..])
  {
    var m', l' := SetPrevSlab(m, m[l[0]].next, Null), l[1..];
    assert LinkedAt(m, l, 0);
    forall j: nat | j < |l'| ensures LinkedAt(m', l', j) {
      assert LinkedAt(m, l, j + 1);
      assert j > 0 ==> l[j + 1] != l[1];
    }
  }

  lemma RelistChain(m: LinkMap, h: Option<nat>, l: seq<nat>, p: nat)
    requires IsChain(m, h, l) && NoDup(l) && p in m && p !in l
    ensures IsChain(Relisted(m, h, p), Some(p), [p] + l)
  {
    var m', l' := Relisted(m, h, p), [p] + l;
    forall j: nat | j < |l'| ensures LinkedAt(m', l', j) {
      if j > 0 { assert LinkedAt(m, l, j - 1); }
      if j > 1 { assert l[j - 1] != l[0]; }
    }
  }

  lemma UnlinkChain(m: LinkMap, h: Option<nat>, l: seq<nat>, j: nat)
    requires IsChain(m, h, l) && NoDup(l) && j < |l| && l[j] in m
    ensures IsChain(Unlinked(m, l[j]) - {l[j]}, if h == Some(l[j]) then m[l[j]].next else h, l[..j] + l[j + 1..])
  {
    var m', l' := Unlinked(m, l[j]) - {l[j]}, l[..j] + l[j + 1..];
    assert LinkedAt(m, l, j);
    forall i: nat | i < |l'| ensures LinkedAt(m', l', i) { UnlinkAt(m, l, j, if i < j then i else i + 1); }
  }

  lemma UnlinkAt(m: LinkMap, l: seq<nat>, j: nat, i: nat)
    requires NoDup(l) && (forall k: nat :: k < |l| ==> LinkedAt(m, l, k)) && j < |l| && i < |l| && i != j && l[j] in m
    ensures LinkedAt(Unlinked(m, l[j]) - {l[j]}, l[..j] + l[j + 1..], if i < j then i else i - 1)
  {
    assert LinkedAt(m, l, i) && LinkedAt(m, l, j);
    if j > 0 { assert LinkedAt(m, l, j - 1); }
    if j + 1 < |l| { assert LinkedAt(m, l, j + 1); }
  }

  // ---------------------------------------------------------------- all chains

  // The slab of another cache is on no list of this one.
  lemma OtherList(n: nat, slabs: Slabs, ls: seq<seq<nat>>, c: nat, d: nat, p: nat)
    requires ListsOk(n, slabs, ls) && c < n && d < n && c != d && p in ls[d]
    ensures p !in ls[c] && p in slabs && slabs[p].cache == d
  {
    assert Listable(slabs, d, p);
    assert !Listable(slabs, c, p);
  }

  // A slab changes its counters and stays where it is.
  lemma KeepListed(n: nat, slabs: Slabs, m: LinkMap, hs: seq<Option<nat>>, ls: seq<seq<nat>>, p: nat, s: Slab)
    requires LinksOk(n, slabs, m, hs, ls) && p in slabs && s.cache == slabs[p].cache < n
    requires s.used < s.objCount && slabs[p].used < slabs[p].objCount
    ensures LinksOk(n, slabs[p := s], m, hs, ls)
  {
    var slabs' := slabs[p := s];
    assert forall d: nat, q: nat :: Listable(slabs', d, q) <==> Listable(slabs, d, q);
    assert slabs'.Keys == slabs.Keys;
  }

  // The first slab of list `c` becomes full.
  lemma PopListed(n: nat, slabs: Slabs, m: LinkMap, hs: seq<Option<nat>>, ls: seq<seq<nat>>, c: nat, s: Slab)
    requires LinksOk(n, slabs, m, hs, ls) && c < n && ls[c] != [] && s.cache == c && s.used == s.objCount
    ensures
      var p := ls[c][0];
      p in m && LinksOk(n, slabs[p := s], SetPrevSlab(m, m[p].next, Null), hs[c := m[p].next], ls[c := ls[c][1..]])
  {
    hide IsChain;
    var p := ls[c][0];
    assert p in ls[c];
    assert Listable(slabs, c, p);
    var slabs', m', ls' := slabs[p := s], SetPrevSlab(m, m[p].next, Null), ls[c := ls[c][1..]];
    PopChain(m, hs[c], ls[c]);
    Rest(ls[c]);
    PopLists(n, slabs, ls, c, s);
    NextListed(m, hs[c], ls[c], 0);
    forall d: nat | d < n && d != c ensures IsChain(m', hs[d], ls[d]) {
      forall q | q in ls[d] && q in m ensures m'[q] == m[q] { OtherList(n, slabs, ls, c, d, q); }
      ChainFrame(m, m', hs[d], ls[d]);
    }
  }

  lemma PopLists(n: nat, slabs: Slabs, ls: seq<seq<nat>>, c: nat, s: Slab)
    requires ListsOk(n, slabs, ls) && c < n && ls[c] != [] && s.cache == c && s.used == s.objCount && ls[c][0] in slabs
    ensures ListsOk(n, slabs[ls[c][0] := s], ls[c := ls[c][1..]]) && slabs[ls[c][0] := s].Keys == slabs.Keys
  {
    var p := ls[c][0];
    Rest(ls[c]);
    assert Listable(slabs, c, p);
    var slabs' := slabs[p := s];
    assert forall d: nat, q: nat :: Listable(slabs', d, q) <==> Listable(slabs, d, q) && q != p;
    assert forall d: nat :: d != c ==> !Listable(slabs, d, p);
  }

  // The neighbours of an element are elements.
  lemma NextListed(m: LinkMap, h: Option<nat>, l: seq<nat>, j: nat)
    requires IsChain(m, h, l) && j < |l|
    ensures l[j] in m && (m[l[j]].next.Some? ==> m[l[j]].next.value in l)
    ensures (m[l[j]].prev.Page? ==> m[l[j]].prev.page in l)
  {
    assert LinkedAt(m, l, j);
  }

  // A new slab starts the empty list `c`.
  lemma AddListed(n: nat, slabs: Slabs, m: LinkMap, hs: seq<Option<nat>>, ls: seq<seq<nat>>, p: nat, s: Slab, x: Links)
    requires LinksOk(n, slabs, m, hs, ls) && s.cache < n && p !in slabs && s.used < s.objCount && ls[s.cache] == []
    requires x.next.None? && !x.prev.Page?
    ensures LinksOk(n, slabs[p := s], m[p := x], hs[s.cache := Some(p)], ls[s.cache := [p]])
  {
    hide IsChain;
    var c := s.cache;
    var slabs', m', ls' := slabs[p := s], m[p := x], ls[c := [p]];
    assert forall d: nat, q: nat :: Listable(slabs', d, q) <==> Listable(slabs, d, q) || (d == c && q == p);
    assert forall d: nat :: !Listable(slabs, d, p);
    OneChain(m', p);
    forall d: nat | d < n && d != c ensures IsChain(m', hs[d], ls[d]) { ChainFrame(m, m', hs[d], ls[d]); }
  }

  lemma OneChain(m: LinkMap, p: nat)
    requires p in m && m[p].next.None? && !m[p].prev.Page?
    ensures IsChain(m, Some(p), [p])
  {
  }

  // A full slab loses an object and goes to the front.
  lemma PushListed(n: nat, slabs: Slabs, m: LinkMap, hs: seq<Option<nat>>, ls: seq<seq<nat>>, p: nat, s: Slab)
    requires LinksOk(n, slabs, m, hs, ls) && p in slabs && s.cache == slabs[p].cache < n
    requires s.used < s.objCount && slabs[p].used == slabs[p].objCount
    ensures p in m
    ensures LinksOk(n, slabs[p := s], Relisted(m, hs[s.cache], p), hs[s.cache := Some(p)],
        ls[s.cache := [p] + ls[s.cache]])
  {
    hide IsChain;
    var c := s.cache;
    var slabs', m' := slabs[p := s], Relisted(m, hs[c], p);
    assert forall d: nat :: !Listable(slabs, d, p);
    RelistLists(n, slabs, ls, p, s);
    RelistChain(m, hs[c], ls[c], p);
    FirstListed(m, hs[c], ls[c]);
    forall d: nat | d < n && d != c ensures IsChain(m', hs[d], ls[d]) {
      forall q | q in ls[d] && q in m ensures m'[q] == m[q] { OtherList(n, slabs, ls, c, d, q); }
      ChainFrame(m, m', hs[d], ls[d]);
    }
  }

  lemma FirstListed(m: LinkMap, h: Option<nat>, l: seq<nat>)
    requires IsChain(m, h, l)
    ensures h.Some? ==> h.value in l
  {
  }

  lemma RelistLists(n: nat, slabs: Slabs, ls: seq<seq<nat>>, p: nat, s: Slab)
    requires ListsOk(n, slabs, ls) && p in slabs && s.cache == slabs[p].cache < n && s.used < s.objCount
    requires slabs[p].used == slabs[p].objCount
    ensures ListsOk(n, slabs[p := s], ls[s.cache := [p] + ls[s.cache]]) && slabs[p := s].Keys == slabs.Keys
  {
    var c := s.cache;
    var slabs', l := slabs[p := s], [p] + ls[c];
    assert forall i :: 0 < i < |l| ==> l[i] == ls[c][i - 1];
    assert forall q: nat :: q in l <==> q == p || q in ls[c];
    assert forall d: nat, q: nat :: Listable(slabs', d, q) <==> Listable(slabs, d, q) || (d == c && q == p);
    assert forall d: nat :: !Listable(slabs, d, p);
    assert p !in ls[c];
  }

  // The slab at place `j` of its list goes away.
  lemma DropListed(n: nat, slabs: Slabs, m: LinkMap, hs: seq<Option<nat>>, ls: seq<seq<nat>>, c: nat, j: nat)
    requires LinksOk(n, slabs, m, hs, ls) && c < n && j < |ls[c]|
    ensures
      var p := ls[c][j];
      && p in m && p in slabs
      && LinksOk(n, slabs - {p}, Unlinked(m, p) - {p}, hs[c := if hs[c] == Some(p) then m[p].next else hs[c]],
          ls[c := ls[c][..j] + ls[c][j + 1..]])
  {
    hide IsChain;
    var p := ls[c][j];
    assert p in ls[c];
    assert Listable(slabs, c, p);
    var m' := Unlinked(m, p) - {p};
    DropLists(n, slabs, ls, c, j);
    UnlinkChain(m, hs[c], ls[c], j);
    NextListed(m, hs[c], ls[c], j);
    forall d: nat | d < n && d != c ensures IsChain(m', hs[d], ls[d]) {
      forall q | q in ls[d] && q in m ensures q in m' && m'[q] == m[q] { OtherList(n, slabs, ls, c, d, q); }
      ChainFrame(m, m', hs[d], ls[d]);
    }
  }

  lemma DropLists(n: nat, slabs: Slabs, ls: seq<seq<nat>>, c: nat, j: nat)
    requires ListsOk(n, slabs, ls) && c < n && j < |ls[c]| && ls[c][j] in slabs
    ensures ListsOk(n, slabs - {ls[c][j]}, ls[c := ls[c][..j] + ls[c][j + 1..]])
  {
    var p, l, l' := ls[c][j], ls[c], ls[c][..j] + ls[c][j + 1..];
    assert p in l;
    assert Listable(slabs, c, p);
    var slabs' := slabs - {p};
    assert forall d: nat, q: nat :: Listable(slabs', d, q) <==> q != p && Listable(slabs, d, q);
    assert forall d: nat :: d != c ==> !Listable(slabs, d, p);
    forall q: nat ensures q in l' <==> q in l && q != p {
      if q in l && q != p {
        var i: nat :| i < |l| && l[i] == q;
        assert l'[if i < j then i else i - 1] == q;
      }
    }
  }

  // ---------------------------------------------------------------- wild links

  // The first slab becomes full: the link that is cleared was not wild.
  lemma PopWild(orders: seq<SlabOrder>, slabs: Slabs, m: LinkMap,
                touched: set<nat>, initPrev: bool, h: Option<nat>, l: seq<nat>, s: Slab)
    requires WildIff(orders, slabs, m, touched, initPrev) && IsChain(m, h, l) && l != [] && l[0] in slabs
    requires s.cache == slabs[l[0]].cache
    ensures l[0] in m && WildIff(orders, slabs[l[0] := s], SetPrevSlab(m, m[l[0]].next, Null), touched, initPrev)
  {
    assert LinkedAt(m, l, 0);
    if |l| > 1 { assert LinkedAt(m, l, 1); }
    assert slabs[l[0] := s].Keys == slabs.Keys;
  }

  lemma KeepWild(orders: seq<SlabOrder>, slabs: Slabs, m: LinkMap, touched: set<nat>, initPrev: bool, p: nat, s: Slab)
    requires WildIff(orders, slabs, m, touched, initPrev) && p in slabs && s.cache == slabs[p].cache
    ensures WildIff(orders, slabs[p := s], m, touched, initPrev)
  {
    assert slabs[p := s].Keys == slabs.Keys;
  }

  lemma AddWild(orders: seq<SlabOrder>, slabs: Slabs, m: LinkMap, touched: set<nat>, initPrev: bool, p: nat, s: Slab)
    requires WildIff(orders, slabs, m, touched, initPrev) && p !in slabs && s.cache < |orders|
    ensures WildIff(orders, slabs[p := s], m[p := FreshLinks(orders[s.cache].pageOrder, initPrev)], touched, initPrev)
  {
  }

  // Putting `p` in front of the first slab touches both.
  lemma RelistWild(orders: seq<SlabOrder>, slabs: Slabs, m: LinkMap,
                   touched: set<nat>, initPrev: bool, h: Option<nat>, p: nat, s: Slab)
    requires WildIff(orders, slabs, m, touched, initPrev) && p in slabs && s.cache == slabs[p].cache
    requires (h.Some? ==> h.value in slabs && h.value != p)
    ensures p in m && WildIff(orders, slabs[p := s], Relisted(m, h, p),
        touched + {p} + (if h.Some? then {h.value} else {}), initPrev)
  {
    assert slabs[p := s].Keys == slabs.Keys;
  }

  // Taking out a slab whose link before is not wild leaves the others' as they were.
  lemma DropWild(orders: seq<SlabOrder>, slabs: Slabs, m: LinkMap,
                 touched: set<nat>, initPrev: bool, h: Option<nat>, l: seq<nat>, j: nat)
    requires WildIff(orders, slabs, m, touched, initPrev) && IsChain(m, h, l) && NoDup(l) && j < |l| && l[j] in slabs
    requires l[j] in m && !m[l[j]].prev.Wild?
    ensures WildIff(orders, slabs - {l[j]}, Unlinked(m, l[j]) - {l[j]}, touched - {l[j]}, initPrev)
  {
    assert LinkedAt(m, l, j);
    if j > 0 { assert LinkedAt(m, l, j - 1); }
    if j + 1 < |l| { assert LinkedAt(m, l, j + 1); }
  }
}
