/** Shapes of red-black trees as values, and the recolouring and rotation
    algorithms of the intrusive tree as functions on shapes.

    A shape records the colours and the node identities of a tree; a context is
    a shape with one subtree cut out, read from the hole upwards, which is the
    way the fixup code walks. The pointer code in module RbTree is proved to
    compute these functions; this module proves what the functions mean. */
module RbShape {
  import opened Defs

  datatype Tree<N> = Leaf | Branch(red: bool, left: Tree<N>, node: N, right: Tree<N>)

  // `isLeft` says which child of `node` the hole is; `sibling` is the other child.
  datatype Ctx<N> = Top | Hole(isLeft: bool, red: bool, node: N, sibling: Tree<N>, up: Ctx<N>)

  // ---------------------------------------------------------------- observations

  ghost function Nodes<N>(t: Tree<N>): set<N> {
    match t
    case Leaf => {}
    case Branch(_, l, n, r) => Nodes(l) + {n} + Nodes(r)
  }

  ghost function CtxNodes<N>(c: Ctx<N>): set<N> {
    match c
    case Top => {}
    case Hole(_, _, n, s, up) => {n} + Nodes(s) + CtxNodes(up)
  }

  ghost function InOrder<N>(t: Tree<N>): seq<N> {
    match t
    case Leaf => []
    case Branch(_, l, n, r) => InOrder(l) + [n] + InOrder(r)
  }

  ghost function Before<N>(c: Ctx<N>): seq<N> {
    match c
    case Top => []
    case Hole(isLeft, _, n, s, up) => if isLeft then Before(up) else Before(up) + (InOrder(s) + [n])
  }

  ghost function After<N>(c: Ctx<N>): seq<N> {
    match c
    case Top => []
    case Hole(isLeft, _, n, s, up) => if isLeft then [n] + InOrder(s) + After(up) else After(up)
  }

  predicate IsRed<N>(t: Tree<N>) {
    t.Branch? && t.red
  }

  // A tree whose child on the `isLeft` side is `inner`.
  function Make<N>(isLeft: bool, red: bool, inner: Tree<N>, n: N, outer: Tree<N>): Tree<N> {
    if isLeft then Branch(red, inner, n, outer) else Branch(red, outer, n, inner)
  }

  // The child on the `isLeft` side, and the child on the other side.
  function Near<N>(isLeft: bool, t: Tree<N>): Tree<N> {
    match t
    case Leaf => Leaf
    case Branch(_, l, _, r) => if isLeft then l else r
  }

  function Far<N>(isLeft: bool, t: Tree<N>): Tree<N> {
    Near(!isLeft, t)
  }

  function Paint<N>(red: bool, t: Tree<N>): Tree<N> {
    match t
    case Leaf => Leaf
    case Branch(_, l, n, r) => Branch(red, l, n, r)
  }

  function Plug<N>(c: Ctx<N>, t: Tree<N>): Tree<N> {
    match c
    case Top => t
    case Hole(isLeft, red, n, s, up) => Plug(up, Make(isLeft, red, t, n, s))
  }

  // The inner context `c` put into the hole of `base`.
  function Compose<N>(c: Ctx<N>, base: Ctx<N>): Ctx<N> {
    match c
    case Top => base
    case Hole(isLeft, red, n, s, up) => Hole(isLeft, red, n, s, Compose(up, base))
  }

  // ---------------------------------------------------------------- invariants

  // Every node occurs once.
  ghost predicate Unique<N>(t: Tree<N>) {
    match t
    case Leaf => true
    case Branch(_, l, n, r) =>
      Unique(l) && Unique(r) && n !in Nodes(l) && n !in Nodes(r) && Nodes(l) !! Nodes(r)
  }

  ghost predicate UniqueCtx<N>(c: Ctx<N>) {
    match c
    case Top => true
    case Hole(_, _, n, s, up) =>
      Unique(s) && UniqueCtx(up) && n !in Nodes(s) && n !in CtxNodes(up) && Nodes(s) !! CtxNodes(up)
  }

  ghost predicate Apart<N>(c: Ctx<N>, t: Tree<N>) {
    UniqueCtx(c) && Unique(t) && CtxNodes(c) !! Nodes(t)
  }

  // No red node has a red child.
  ghost predicate NoRedRed<N>(t: Tree<N>) {
    match t
    case Leaf => true
    case Branch(red, l, _, r) => NoRedRed(l) && NoRedRed(r) && (red ==> !IsRed(l) && !IsRed(r))
  }

  ghost function BlackHeight<N>(t: Tree<N>): nat {
    match t
    case Leaf => 0
    case Branch(red, l, _, _) => BlackHeight(l) + if red then 0 else 1
  }

  // Every path from a node down to a leaf passes the same number of black nodes.
  ghost predicate Balanced<N>(t: Tree<N>) {
    match t
    case Leaf => true
    case Branch(_, l, _, r) => Balanced(l) && Balanced(r) && BlackHeight(l) == BlackHeight(r)
  }

  ghost predicate RedBlack<N>(t: Tree<N>) {
    !IsRed(t) && NoRedRed(t)
  }

  // The same three conditions on a context, given what fills its hole.
  ghost predicate CtxNoRedRed<N>(c: Ctx<N>, holeRed: bool) {
    match c
    case Top => true
    case Hole(_, red, _, s, up) =>
      NoRedRed(s) && (red ==> !holeRed && !IsRed(s)) && CtxNoRedRed(up, red)
  }

  ghost predicate CtxBalanced<N>(c: Ctx<N>, holeHeight: nat) {
    match c
    case Top => true
    case Hole(_, red, _, s, up) =>
      Balanced(s) && BlackHeight(s) == holeHeight && CtxBalanced(up, holeHeight + if red then 0 else 1)
  }

  ghost predicate CtxRootBlack<N>(c: Ctx<N>) {
    match c
    case Top => true
    case Hole(_, red, _, _, up) => if up.Top? then !red else CtxRootBlack(up)
  }

  // ---------------------------------------------------------------- plugging

  lemma {:induction false} PlugNodes<N>(c: Ctx<N>, t: Tree<N>)
    ensures Nodes(Plug(c, t)) == CtxNodes(c) + Nodes(t)
  {
    match c
    case Top =>
    case Hole(isLeft, red, n, s, up) => PlugNodes(up, Make(isLeft, red, t, n, s));
  }

  lemma {:induction false} PlugUnique<N>(c: Ctx<N>, t: Tree<N>)
    ensures Unique(Plug(c, t)) <==> Apart(c, t)
  {
    match c
    case Top =>
    case Hole(isLeft, red, n, s, up) => PlugUnique(up, Make(isLeft, red, t, n, s));
  }

  lemma {:induction false} PlugInOrder<N>(c: Ctx<N>, t: Tree<N>)
    ensures InOrder(Plug(c, t)) == Before(c) + InOrder(t) + After(c)
  {
    match c
    case Top =>
    case Hole(isLeft, red, n, s, up) =>
      PlugInOrder(up, Make(isLeft, red, t, n, s));
      if isLeft {
        RegroupRight(Before(up), InOrder(t), n, InOrder(s), After(up));
      } else {
        RegroupLeft(Before(up), InOrder(s), n, InOrder(t), After(up));
      }
  }

  lemma RegroupRight<N>(a: seq<N>, b: seq<N>, n: N, d: seq<N>, e: seq<N>)
    ensures a + (b + [n] + d) + e == a + b + ([n] + d + e)
  {
  }

  lemma RegroupLeft<N>(a: seq<N>, b: seq<N>, n: N, d: seq<N>, e: seq<N>)
    ensures a + (b + [n] + d) + e == a + (b + [n]) + d + e
  {
  }

  lemma {:induction false} PlugNoRedRed<N>(c: Ctx<N>, t: Tree<N>)
    ensures NoRedRed(Plug(c, t)) <==> NoRedRed(t) && CtxNoRedRed(c, IsRed(t))
  {
    match c
    case Top =>
    case Hole(isLeft, red, n, s, up) => PlugNoRedRed(up, Make(isLeft, red, t, n, s));
  }

  lemma {:induction false} PlugBalanced<N>(c: Ctx<N>, t: Tree<N>)
    ensures Balanced(Plug(c, t)) <==> Balanced(t) && CtxBalanced(c, BlackHeight(t))
  {
    match c
    case Top =>
    case Hole(isLeft, red, n, s, up) =>
      var m := Make(isLeft, red, t, n, s);
      PlugBalanced(up, m);
      if Balanced(m) { assert BlackHeight(m) == BlackHeight(t) + if red then 0 else 1; }
  }

  lemma {:induction false} PlugRootBlack<N>(c: Ctx<N>, t: Tree<N>)
    ensures !IsRed(Plug(c, t)) <==> if c.Top? then !IsRed(t) else CtxRootBlack(c)
  {
    match c
    case Top =>
    case Hole(isLeft, red, n, s, up) => PlugRootBlack(up, Make(isLeft, red, t, n, s));
  }

  lemma {:induction false} PlugCompose<N>(c: Ctx<N>, base: Ctx<N>, t: Tree<N>)
    ensures Plug(Compose(c, base), t) == Plug(base, Plug(c, t))
  {
    match c
    case Top =>
    case Hole(isLeft, red, n, s, up) => PlugCompose(up, base, Make(isLeft, red, t, n, s));
  }

  lemma {:induction false} InOrderNodes<N>(t: Tree<N>)
    ensures Nodes(t) == Elems(InOrder(t))
  {
    match t
    case Leaf =>
    case Branch(_, l, n, r) => InOrderNodes(l); InOrderNodes(r);
  }

  lemma {:induction false} UniqueNoDup<N>(t: Tree<N>)
    requires Unique(t)
    ensures NoDup(InOrder(t))
  {
    match t
    case Leaf =>
    case Branch(_, l, n, r) =>
      UniqueNoDup(l);
      UniqueNoDup(r);
      InOrderNodes(l);
      InOrderNodes(r);
      NoDupAround(InOrder(l), n, InOrder(r));
  }

  lemma NoDupAround<N>(a: seq<N>, n: N, b: seq<N>)
    requires NoDup(a) && NoDup(b)
    requires n !in Elems(a) && n !in Elems(b) && Elems(a) !! Elems(b)
    ensures NoDup(a + [n] + b)
  {
    var s := a + [n] + b;
    forall i, j | 0 <= i < j < |s| ensures s[i] != s[j] {
      if i < |a| { assert s[i] == a[i] && a[i] in Elems(a); }
      if j < |a| { assert s[j] == a[j]; }
      if j > |a| { assert s[j] == b[j - |a| - 1] && b[j - |a| - 1] in Elems(b); }
      if i > |a| { assert s[i] == b[i - |a| - 1]; }
    }
  }

  // ---------------------------------------------------------------- insertion

  // rb_insert_fixup started at the (red) root of `t` inside `c`.
  function InsertFix<N>(c: Ctx<N>, t: Tree<N>): Tree<N>
    requires t.Branch?
    decreases c
  {
    match c
    case Top => Paint(false, t)
    case Hole(pLeft, pRed, p, s, up) =>
      if !pRed || up.Top? then Plug(c, t)
      else if IsRed(up.sibling) then
        var parent := Make(pLeft, false, t, p, s);
        Paint(false, InsertFix(up.up, Make(up.isLeft, true, parent, up.node, Paint(false, up.sibling))))
      else
        Paint(false, Plug(up.up, InsertRotate(up.isLeft, pLeft, t, p, s, up.node, up.sibling)))
  }

  // The line or zigzag rotation at grandparent `g`, whose child `p` on side
  // `gLeft` has the red tree `t` on side `pLeft`; the new top is black, `g` red.
  function InsertRotate<N>(gLeft: bool, pLeft: bool, t: Tree<N>, p: N, s: Tree<N>, g: N, uncle: Tree<N>): Tree<N>
    requires t.Branch?
  {
    if gLeft == pLeft then
      Make(gLeft, false, t, p, Make(gLeft, true, s, g, uncle))
    else
      Make(gLeft, false, Make(gLeft, true, s, p, Near(gLeft, t)), t.node, Make(gLeft, true, Far(gLeft, t), g, uncle))
  }

  lemma PaintFacts<N>(red: bool, t: Tree<N>)
    ensures InOrder(Paint(red, t)) == InOrder(t) && Nodes(Paint(red, t)) == Nodes(t)
    ensures Unique(Paint(red, t)) <==> Unique(t)
    ensures Balanced(Paint(red, t)) <==> Balanced(t)
    ensures NoRedRed(t) ==> NoRedRed(Paint(false, t))
  {
  }

  lemma CtxBlackHole<N>(c: Ctx<N>, holeRed: bool)
    requires CtxNoRedRed(c, holeRed)
    ensures CtxNoRedRed(c, false)
  {
  }

  lemma PlugSameOrder<N>(c: Ctx<N>, a: Tree<N>, b: Tree<N>)
    requires InOrder(a) == InOrder(b)
    ensures InOrder(Plug(c, a)) == InOrder(Plug(c, b))
  {
    PlugInOrder(c, a);
    PlugInOrder(c, b);
  }

  lemma InsertRotateInOrder<N>(gLeft: bool, pLeft: bool, t: Tree<N>, p: N, s: Tree<N>, g: N, uncle: Tree<N>)
    requires t.Branch?
    ensures InOrder(InsertRotate(gLeft, pLeft, t, p, s, g, uncle))
         == InOrder(Make(gLeft, false, Make(pLeft, true, t, p, s), g, uncle))
  {
    if gLeft != pLeft {
      var a, b, x, u := InOrder(t.left), InOrder(t.right), InOrder(s), InOrder(uncle);
      assert InOrder(t) == a + [t.node] + b;
      if gLeft { ZigZagLeft(x, p, a, t.node, b, g, u); } else { ZigZagRight(u, g, a, t.node, b, p, x); }
    }
  }

  lemma ZigZagLeft<N>(x: seq<N>, p: N, a: seq<N>, n: N, b: seq<N>, g: N, u: seq<N>)
    ensures (x + [p] + a) + [n] + (b + [g] + u) == (x + [p] + (a + [n] + b)) + [g] + u
  {
  }

  lemma ZigZagRight<N>(u: seq<N>, g: N, a: seq<N>, n: N, b: seq<N>, p: N, x: seq<N>)
    ensures (u + [g] + a) + [n] + (b + [p] + x) == u + [g] + ((a + [n] + b) + [p] + x)
  {
  }

  // Insertion fixup never changes the in-order sequence.
  lemma {:induction false} InsertFixInOrder<N>(c: Ctx<N>, t: Tree<N>)
    requires t.Branch?
    ensures InOrder(InsertFix(c, t)) == InOrder(Plug(c, t))
    decreases c
  {
    match c
    case Top => PaintFacts(false, t);
    case Hole(pLeft, pRed, p, s, up) =>
      if pRed && !up.Top? {
        var old' := Make(up.isLeft, up.red, Make(pLeft, true, t, p, s), up.node, up.sibling);
        if IsRed(up.sibling) {
          var top := Make(up.isLeft, true, Make(pLeft, false, t, p, s), up.node, Paint(false, up.sibling));
          PaintFacts(false, up.sibling);
          PlugSameOrder(up.up, top, old');
          InsertFixInOrder(up.up, top);
          PaintFacts(false, InsertFix(up.up, top));
        } else {
          var x := InsertRotate(up.isLeft, pLeft, t, p, s, up.node, up.sibling);
          InsertRotateInOrder(up.isLeft, pLeft, t, p, s, up.node, up.sibling);
          PlugSameOrder(up.up, x, old');
          PaintFacts(false, Plug(up.up, x));
        }
      }
  }

  lemma {:induction false} InsertFixBranch<N>(c: Ctx<N>, t: Tree<N>)
    requires t.Branch?
    ensures InsertFix(c, t).Branch? && Plug(c, t).Branch?
  {
    InsertFixInOrder(c, t);
    PlugInOrder(c, t);
    assert |InOrder(t)| > 0;
  }

  lemma InsertFixNodes<N>(c: Ctx<N>, t: Tree<N>)
    requires t.Branch?
    ensures Nodes(InsertFix(c, t)) == CtxNodes(c) + Nodes(t)
  {
    InsertFixInOrder(c, t);
    InOrderNodes(InsertFix(c, t));
    InOrderNodes(Plug(c, t));
    PlugNodes(c, t);
  }

  // Insertion fixup restores the colour rules, whatever the black heights.
  lemma {:induction false} InsertFixColours<N>(c: Ctx<N>, t: Tree<N>)
    requires IsRed(t) && NoRedRed(t) && CtxNoRedRed(c, false) && CtxRootBlack(c)
    ensures RedBlack(InsertFix(c, t))
    decreases c
  {
    PlugNoRedRed(c, t);
    PlugRootBlack(c, t);
    match c
    case Top =>
    case Hole(pLeft, pRed, p, s, up) =>
      if pRed {
        assert CtxNoRedRed(up, true) && up.Hole?;
        CtxBlackHole(up.up, up.red);
        if IsRed(up.sibling) {
          PaintFacts(false, up.sibling);
          InsertFixColours(up.up,
            Make(up.isLeft, true, Make(pLeft, false, t, p, s), up.node, Paint(false, up.sibling)));
        } else {
          var x := InsertRotate(up.isLeft, pLeft, t, p, s, up.node, up.sibling);
          PlugNoRedRed(up.up, x);
          PlugRootBlack(up.up, x);
          PaintFacts(false, Plug(up.up, x));
        }
      }
  }

  // Insertion fixup keeps the black heights equal.
  lemma {:induction false} InsertFixBalanced<N>(c: Ctx<N>, t: Tree<N>)
    requires IsRed(t) && Balanced(t) && CtxNoRedRed(c, false) && CtxBalanced(c, BlackHeight(t))
    ensures Balanced(InsertFix(c, t))
    decreases c
  {
    PlugBalanced(c, t);
    match c
    case Top =>
    case Hole(pLeft, pRed, p, s, up) =>
      if pRed && up.Hole? {
        assert CtxNoRedRed(up, true) && CtxBalanced(up, BlackHeight(t));
        CtxBlackHole(up.up, up.red);
        if IsRed(up.sibling) {
          PaintFacts(false, up.sibling);
          InsertFixBalanced(up.up,
            Make(up.isLeft, true, Make(pLeft, false, t, p, s), up.node, Paint(false, up.sibling)));
        } else {
          var x := InsertRotate(up.isLeft, pLeft, t, p, s, up.node, up.sibling);
          PlugBalanced(up.up, x);
          PaintFacts(false, Plug(up.up, x));
        }
      }
  }

  // A red node put into a leaf position, then fixed up: one more node in the
  // in-order sequence, and every red-black rule kept.
  ghost function Insert<N>(c: Ctx<N>, n: N): Tree<N> {
    InsertFix(c, Branch(true, Leaf, n, Leaf))
  }

  lemma InsertCorrect<N>(c: Ctx<N>, n: N)
    ensures InOrder(Insert(c, n)) == Before(c) + [n] + After(c)
    ensures InOrder(Plug(c, Leaf)) == Before(c) + After(c)
    ensures RedBlack(Plug(c, Leaf)) ==> RedBlack(Insert(c, n))
    ensures RedBlack(Plug(c, Leaf)) && Balanced(Plug(c, Leaf)) ==> Balanced(Insert(c, n))
  {
    var t := Branch(true, Leaf, n, Leaf);
    InsertFixInOrder(c, t);
    PlugInOrder(c, t);
    PlugInOrder(c, Leaf);
    assert [] + [n] + [] == [n] && Before(c) + [] == Before(c);
    PlugNoRedRed(c, Leaf);
    PlugRootBlack(c, Leaf);
    PlugBalanced(c, Leaf);
    if RedBlack(Plug(c, Leaf)) {
      InsertFixColours(c, t);
      if Balanced(Plug(c, Leaf)) { InsertFixBalanced(c, t); }
    }
  }

  // ---------------------------------------------------------------- deletion

  // A tree rotated so that its child on the side opposite to `isLeft` becomes the root.
  function RotateTowards<N>(isLeft: bool, t: Tree<N>): Tree<N>
    requires t.Branch? && Far(isLeft, t).Branch?
  {
    var s := Far(isLeft, t);
    Make(isLeft, s.red, Make(isLeft, t.red, Near(isLeft, t), t.node, Near(isLeft, s)), s.node, Far(isLeft, s))
  }

  // rb_delete_fixup_sibling_black_child_red: `t` hangs on side `isLeft` of `p`,
  // its sibling `s` is black and has a red child. As written, the parent is
  // blackened and the new top keeps the sibling's black (`inherit` false); the
  // repair gives the new top the parent's old colour (`inherit` true).
  function FixRedChild<N>(inherit: bool, isLeft: bool, pRed: bool, t: Tree<N>, p: N, s: Tree<N>): Tree<N>
    requires s.Branch?
  {
    var line :=
      if IsRed(Near(isLeft, s)) then
        RotateTowards(!isLeft, Make(isLeft, true, Paint(false, Near(isLeft, s)), s.node, Far(isLeft, s)))
      else s;
    Make(isLeft, if inherit then pRed else line.red,
         Make(isLeft, false, t, p, Near(isLeft, line)), line.node, Paint(false, Far(isLeft, line)))
  }

  // rb_delete_fixup started at `t` inside `c`.
  function DeleteFix<N>(inherit: bool, c: Ctx<N>, t: Tree<N>): Tree<N>
    decreases c
  {
    if c.Top? || IsRed(t) then Plug(c, Paint(false, t))
    else if IsRed(c.sibling) then
      var below := Hole(c.isLeft, false, c.sibling.node, Far(c.isLeft, c.sibling), c.up);
      DeleteFixBlackSibling(inherit, c.isLeft, true, t, c.node, Near(c.isLeft, c.sibling), below)
    else if IsRed(Near(c.isLeft, c.sibling)) || IsRed(Far(c.isLeft, c.sibling)) then
      Paint(false, Plug(c.up, FixRedChild(inherit, c.isLeft, c.red, t, c.node, c.sibling)))
    else
      DeleteFix(inherit, c.up, Make(c.isLeft, c.red, t, c.node, Paint(true, c.sibling)))
  }

  // The rest of the iteration once a red sibling has been rotated away: the
  // parent is red now, so recolouring ends the loop.
  function DeleteFixBlackSibling<N>(inherit: bool, isLeft: bool, pRed: bool, t: Tree<N>, p: N, s: Tree<N>,
                                    c: Ctx<N>): Tree<N> {
    if IsRed(Near(isLeft, s)) || IsRed(Far(isLeft, s)) then
      Paint(false, Plug(c, FixRedChild(inherit, isLeft, pRed, t, p, s)))
    else
      Plug(c, Make(isLeft, false, t, p, Paint(true, s)))
  }

  // The context after a red sibling has been rotated above the parent.
  function RedSiblingUp<N>(c: Ctx<N>): Ctx<N>
    requires c.Hole? && IsRed(c.sibling)
  {
    Hole(c.isLeft, true, c.node, Near(c.isLeft, c.sibling),
      Hole(c.isLeft, false, c.sibling.node, Far(c.isLeft, c.sibling), c.up))
  }

  ghost function Depth<N>(c: Ctx<N>): nat {
    if c.Top? then 0 else 1 + Depth(c.up)
  }

  // Whether the fixup ends by rotating under a red parent, the one place where
  // the parent's colour matters.
  ghost predicate EndsUnderRedParent<N>(c: Ctx<N>, t: Tree<N>)
    decreases c
  {
    if c.Top? || IsRed(t) then false
    else
      var redNephew := (s: Tree<N>) => IsRed(Near(c.isLeft, s)) || IsRed(Far(c.isLeft, s));
      if IsRed(c.sibling) then redNephew(Near(c.isLeft, c.sibling))
      else if redNephew(c.sibling) then c.red
      else !c.red && EndsUnderRedParent(c.up, Make(c.isLeft, c.red, t, c.node, Paint(true, c.sibling)))
  }

  // Whether every sibling that the fixup looks at exists. The code reads the children
  // of a missing one through a null pointer.
  ghost predicate Safe<N>(c: Ctx<N>, t: Tree<N>)
    decreases c
  {
    if c.Top? || IsRed(t) then true
    else if IsRed(c.sibling) then Near(c.isLeft, c.sibling).Branch?
    else
      && c.sibling.Branch?
      && (IsRed(Near(c.isLeft, c.sibling)) || IsRed(Far(c.isLeft, c.sibling))
          || Safe(c.up, Make(c.isLeft, c.red, t, c.node, Paint(true, c.sibling))))
  }

  // ---- what deletion fixup means

  lemma RotateTowardsInOrder<N>(isLeft: bool, t: Tree<N>)
    requires t.Branch? && Far(isLeft, t).Branch?
    ensures InOrder(RotateTowards(isLeft, t)) == InOrder(t)
  {
    var s := Far(isLeft, t);
    var a, b, d := InOrder(Near(isLeft, t)), InOrder(Near(isLeft, s)), InOrder(Far(isLeft, s));
    if isLeft {
      assert (a + [t.node] + b) + [s.node] + d == a + [t.node] + (b + [s.node] + d);
    } else {
      assert d + [s.node] + (b + [t.node] + a) == (d + [s.node] + b) + [t.node] + a;
    }
  }

  lemma MakeSameOrder<N>(isLeft: bool, r1: bool, r2: bool, a1: Tree<N>, a2: Tree<N>, n: N, b1: Tree<N>, b2: Tree<N>)
    requires InOrder(a1) == InOrder(a2) && InOrder(b1) == InOrder(b2)
    ensures InOrder(Make(isLeft, r1, a1, n, b1)) == InOrder(Make(isLeft, r2, a2, n, b2))
  {
  }

  lemma FixRedChildInOrder<N>(inherit: bool, isLeft: bool, pRed: bool, t: Tree<N>, p: N, s: Tree<N>)
    requires s.Branch?
    ensures InOrder(FixRedChild(inherit, isLeft, pRed, t, p, s)) == InOrder(Make(isLeft, pRed, t, p, s))
  {
    var line := s;
    if IsRed(Near(isLeft, s)) {
      var bent := Make(isLeft, true, Paint(false, Near(isLeft, s)), s.node, Far(isLeft, s));
      PaintFacts(false, Near(isLeft, s));
      MakeSameOrder(isLeft, true, s.red, Paint(false, Near(isLeft, s)), Near(isLeft, s), s.node, Far(isLeft, s),
        Far(isLeft, s));
      RotateTowardsInOrder(!isLeft, bent);
      line := RotateTowards(!isLeft, bent);
    }
    assert InOrder(line) == InOrder(s);
    var whole := Make(isLeft, pRed, t, p, line);
    RotateTowardsInOrder(isLeft, whole);
    PaintFacts(false, Far(isLeft, line));
    var inner := Make(isLeft, false, t, p, Near(isLeft, line));
    MakeSameOrder(isLeft, false, pRed, t, t, p, Near(isLeft, line), Near(isLeft, line));
    MakeSameOrder(isLeft, if inherit then pRed else line.red, line.red, inner,
                  Make(isLeft, pRed, t, p, Near(isLeft, line)), line.node, Paint(false, Far(isLeft, line)), Far(isLeft,
                    line));
    MakeSameOrder(isLeft, pRed, pRed, t, t, p, line, s);
  }

  // Deletion fixup never changes the in-order sequence.
  lemma {:induction false} DeleteFixInOrder<N>(inherit: bool, c: Ctx<N>, t: Tree<N>)
    ensures InOrder(DeleteFix(inherit, c, t)) == InOrder(Plug(c, t))
    decreases c
  {
    if c.Top? || IsRed(t) {
      PaintFacts(false, t);
      PlugSameOrder(c, Paint(false, t), t);
    } else if IsRed(c.sibling) {
      var s := c.sibling;
      var below := Hole(c.isLeft, false, s.node, Far(c.isLeft, s), c.up);
      var old' := Make(c.isLeft, c.red, t, c.node, s);
      RotateTowardsInOrder(c.isLeft, old');
      var inner := Make(c.isLeft, true, t, c.node, Near(c.isLeft, s));
      var x := Make(c.isLeft, false, inner, s.node, Far(c.isLeft, s));
      MakeSameOrder(c.isLeft, true, c.red, t, t, c.node, Near(c.isLeft, s), Near(c.isLeft, s));
      MakeSameOrder(c.isLeft, false, s.red, inner, Make(c.isLeft, c.red, t, c.node, Near(c.isLeft, s)),
                    s.node, Far(c.isLeft, s), Far(c.isLeft, s));
      PlugSameOrder(c.up, x, old');
      var near := Near(c.isLeft, s);
      if IsRed(Near(c.isLeft, near)) || IsRed(Far(c.isLeft, near)) {
        var y := FixRedChild(inherit, c.isLeft, true, t, c.node, near);
        FixRedChildInOrder(inherit, c.isLeft, true, t, c.node, near);
        PlugSameOrder(below, y, inner);
        PaintFacts(false, Plug(below, y));
      } else {
        PaintFacts(true, near);
        MakeSameOrder(c.isLeft, false, true, t, t, c.node, Paint(true, near), near);
        PlugSameOrder(below, Make(c.isLeft, false, t, c.node, Paint(true, near)), inner);
      }
    } else if IsRed(Near(c.isLeft, c.sibling)) || IsRed(Far(c.isLeft, c.sibling)) {
      var y := FixRedChild(inherit, c.isLeft, c.red, t, c.node, c.sibling);
      FixRedChildInOrder(inherit, c.isLeft, c.red, t, c.node, c.sibling);
      PlugSameOrder(c.up, y, Make(c.isLeft, c.red, t, c.node, c.sibling));
      PaintFacts(false, Plug(c.up, y));
    } else {
      PaintFacts(true, c.sibling);
      var y := Make(c.isLeft, c.red, t, c.node, Paint(true, c.sibling));
      MakeSameOrder(c.isLeft, c.red, c.red, t, t, c.node, Paint(true, c.sibling), c.sibling);
      PlugSameOrder(c.up, y, Make(c.isLeft, c.red, t, c.node, c.sibling));
      DeleteFixInOrder(inherit, c.up, y);
    }
  }

  // The colour rules of `t` inside `c`, whatever the black heights.
  ghost predicate ColourPending<N>(c: Ctx<N>, t: Tree<N>) {
    NoRedRed(t) && CtxNoRedRed(c, false) && CtxRootBlack(c)
  }

  // What holds of `t` inside `c` while deletion moves a missing black upwards:
  // `t` is one black node short of what its context expects.
  ghost predicate DeletePending<N>(c: Ctx<N>, t: Tree<N>) {
    && NoRedRed(t) && Balanced(t)
    && CtxNoRedRed(c, false) && CtxBalanced(c, BlackHeight(t) + 1) && CtxRootBlack(c)
  }

  lemma FixRedChildRules<N>(inherit: bool, isLeft: bool, pRed: bool, t: Tree<N>, p: N, s: Tree<N>)
    requires s.Branch? && !s.red && (IsRed(Near(isLeft, s)) || IsRed(Far(isLeft, s)))
    requires !IsRed(t) && NoRedRed(t) && NoRedRed(s)
    ensures
      var x := FixRedChild(inherit, isLeft, pRed, t, p, s);
      NoRedRed(x) && (IsRed(x) <==> inherit && pRed)
  {
  }

  // A black node without red children can be painted red.
  lemma PaintRed<N>(isLeft: bool, s: Tree<N>)
    requires NoRedRed(s) && !IsRed(Near(isLeft, s)) && !IsRed(Far(isLeft, s))
    ensures NoRedRed(Paint(true, s))
  {
  }

  lemma FixRedChildColours<N>(inherit: bool, isLeft: bool, pRed: bool, t: Tree<N>, p: N, s: Tree<N>, up: Ctx<N>)
    requires s.Branch? && !s.red && (IsRed(Near(isLeft, s)) || IsRed(Far(isLeft, s)))
    requires !IsRed(t) && NoRedRed(t) && NoRedRed(s) && CtxNoRedRed(up, pRed) && CtxRootBlack(up)
    ensures RedBlack(Paint(false, Plug(up, FixRedChild(inherit, isLeft, pRed, t, p, s))))
  {
    hide FixRedChild;
    var x := FixRedChild(inherit, isLeft, pRed, t, p, s);
    FixRedChildRules(inherit, isLeft, pRed, t, p, s);
    CtxBlackHole(up, pRed);
    PlugNoRedRed(up, x);
    PaintFacts(false, Plug(up, x));
  }

  // Without any hypothesis on black heights, deletion fixup ends in a black root with
  // no red-red edge whenever it does not run into a missing sibling.
  lemma {:induction false} DeleteFixColours<N>(inherit: bool, c: Ctx<N>, t: Tree<N>)
    requires ColourPending(c, t) && Safe(c, t)
    ensures RedBlack(DeleteFix(inherit, c, t))
    decreases c
  {
    if c.Top? || IsRed(t) {
      PaintFacts(false, t);
      PlugNoRedRed(c, Paint(false, t));
      PlugRootBlack(c, Paint(false, t));
    } else if IsRed(c.sibling) {
      var s := c.sibling;
      var below := Hole(c.isLeft, false, s.node, Far(c.isLeft, s), c.up);
      var near := Near(c.isLeft, s);
      if IsRed(Near(c.isLeft, near)) || IsRed(Far(c.isLeft, near)) {
        FixRedChildColours(inherit, c.isLeft, true, t, c.node, near, below);
      } else {
        var y := Make(c.isLeft, false, t, c.node, Paint(true, near));
        PaintRed(c.isLeft, near);
        PlugNoRedRed(below, y);
        PlugRootBlack(below, y);
      }
    } else if IsRed(Near(c.isLeft, c.sibling)) || IsRed(Far(c.isLeft, c.sibling)) {
      FixRedChildColours(inherit, c.isLeft, c.red, t, c.node, c.sibling, c.up);
    } else {
      CtxBlackHole(c.up, c.red);
      PaintRed(c.isLeft, c.sibling);
      var y := Make(c.isLeft, c.red, t, c.node, Paint(true, c.sibling));
      if c.red {
        DeleteFixDone(inherit, c.up, y);
        PlugNoRedRed(c.up, Paint(false, y));
        PlugRootBlack(c.up, Paint(false, y));
      } else {
        DeleteFixColours(inherit, c.up, y);
      }
    }
  }

  // With one black node missing and equal black heights otherwise, no sibling is missing.
  lemma {:induction false} PendingSafe<N>(c: Ctx<N>, t: Tree<N>)
    requires DeletePending(c, t)
    ensures ColourPending(c, t) && Safe(c, t)
    decreases c
  {
    if
      && c.Hole? && !IsRed(t) && !IsRed(c.sibling)
      && !IsRed(Near(c.isLeft, c.sibling)) && !IsRed(Far(c.isLeft, c.sibling))
    {
      DeleteFixRecolour(c, t);
      if !c.red { PendingSafe(c.up, Make(c.isLeft, c.red, t, c.node, Paint(true, c.sibling))); }
    }
  }

  // The rotation under the parent: no red-red edge, and the height that was
  // missing is restored, except that one more black is added when the parent
  // was red and its colour is not inherited.
  lemma FixRedChildFacts<N>(inherit: bool, isLeft: bool, pRed: bool, t: Tree<N>, p: N, s: Tree<N>)
    requires s.Branch? && !s.red && (IsRed(Near(isLeft, s)) || IsRed(Far(isLeft, s)))
    requires NoRedRed(t) && !IsRed(t) && Balanced(t) && NoRedRed(s) && Balanced(s)
    requires BlackHeight(s) == BlackHeight(t) + 1
    ensures
      var x := FixRedChild(inherit, isLeft, pRed, t, p, s);
      && NoRedRed(x) && Balanced(x) && (IsRed(x) <==> inherit && pRed)
      && BlackHeight(x) == BlackHeight(t) + if inherit && pRed then 1 else 2
  {
  }

  lemma CtxHeightUnique<N>(c: Ctx<N>, h: nat, t: Tree<N>)
    requires !c.Top? && CtxBalanced(c, h) && BlackHeight(t) != h
    ensures !Balanced(Plug(c, t))
  {
    PlugBalanced(c, t);
  }

  // The end of deletion fixup under a parent of colour `pRed`.
  lemma FixRedChildEnd<N>(inherit: bool, isLeft: bool, pRed: bool, t: Tree<N>, p: N, s: Tree<N>, up: Ctx<N>)
    requires s.Branch? && !s.red && (IsRed(Near(isLeft, s)) || IsRed(Far(isLeft, s)))
    requires !IsRed(t) && DeletePending(Hole(isLeft, pRed, p, s, up), t)
    ensures
      var r := Paint(false, Plug(up, FixRedChild(inherit, isLeft, pRed, t, p, s)));
      RedBlack(r) && (Balanced(r) <==> inherit || !pRed)
  {
    var x := FixRedChild(inherit, isLeft, pRed, t, p, s);
    FixRedChildFacts(inherit, isLeft, pRed, t, p, s);
    var h := BlackHeight(t) + 1 + if pRed then 0 else 1;
    assert CtxNoRedRed(up, pRed) && CtxBalanced(up, h);
    CtxBlackHole(up, pRed);
    PlugNoRedRed(up, x);
    PlugBalanced(up, x);
    PlugRootBlack(up, x);
    PaintFacts(false, Plug(up, x));
    if pRed && !inherit { CtxHeightUnique(up, h, x); }
  }

  // An iteration that meets a red sibling ends the fixup.
  lemma DeleteFixRedSibling<N>(inherit: bool, c: Ctx<N>, t: Tree<N>)
    requires DeletePending(c, t) && c.Hole? && !IsRed(t) && IsRed(c.sibling)
    ensures RedBlack(DeleteFix(inherit, c, t))
    ensures Balanced(DeleteFix(inherit, c, t)) <==> inherit || !EndsUnderRedParent(c, t)
  {
    hide DeleteFix, EndsUnderRedParent;
    var near := Near(c.isLeft, c.sibling);
    if IsRed(Near(c.isLeft, near)) || IsRed(Far(c.isLeft, near)) {
      DeleteFixRedNephew(inherit, c, t);
    } else {
      DeleteFixBlackNephews(inherit, c, t);
    }
  }

  lemma DeleteFixRedNephew<N>(inherit: bool, c: Ctx<N>, t: Tree<N>)
    requires DeletePending(c, t) && c.Hole? && !IsRed(t) && IsRed(c.sibling)
    requires
      var near := Near(c.isLeft, c.sibling);
      IsRed(Near(c.isLeft, near)) || IsRed(Far(c.isLeft, near))
    ensures RedBlack(DeleteFix(inherit, c, t))
    ensures Balanced(DeleteFix(inherit, c, t)) <==> inherit || !EndsUnderRedParent(c, t)
  {
    var s := c.sibling;
    var below := Hole(c.isLeft, false, s.node, Far(c.isLeft, s), c.up);
    var near := Near(c.isLeft, s);
    assert CtxNoRedRed(c.up, false) && CtxBalanced(c.up, BlackHeight(t) + 2);
    assert near.Branch? && !near.red;
    assert DeletePending(Hole(c.isLeft, true, c.node, near, below), t);
    FixRedChildEnd(inherit, c.isLeft, true, t, c.node, near, below);
  }

  lemma DeleteFixBlackNephews<N>(inherit: bool, c: Ctx<N>, t: Tree<N>)
    requires DeletePending(c, t) && c.Hole? && !IsRed(t) && IsRed(c.sibling)
    requires
      var near := Near(c.isLeft, c.sibling);
      !IsRed(Near(c.isLeft, near)) && !IsRed(Far(c.isLeft, near))
    ensures RedBlack(DeleteFix(inherit, c, t))
    ensures Balanced(DeleteFix(inherit, c, t)) <==> inherit || !EndsUnderRedParent(c, t)
  {
    var s := c.sibling;
    var below := Hole(c.isLeft, false, s.node, Far(c.isLeft, s), c.up);
    var near := Near(c.isLeft, s);
    assert CtxNoRedRed(c.up, false) && CtxBalanced(c.up, BlackHeight(t) + 2);
    assert near.Branch? && !near.red;
    var y := Make(c.isLeft, false, t, c.node, Paint(true, near));
    assert Balanced(near) && NoRedRed(near) && BlackHeight(near) == BlackHeight(t) + 1;
    assert Balanced(Paint(true, near)) && BlackHeight(Paint(true, near)) == BlackHeight(t);
    assert NoRedRed(Paint(true, near));
    assert Balanced(y) && BlackHeight(y) == BlackHeight(t) + 1;
    assert CtxBalanced(below, BlackHeight(t) + 1) && CtxNoRedRed(below, false);
    PlugNoRedRed(below, y);
    PlugBalanced(below, y);
    PlugRootBlack(below, y);
  }

  // Recolouring the sibling under a black parent passes the problem upwards.
  lemma DeleteFixRecolour<N>(c: Ctx<N>, t: Tree<N>)
    requires DeletePending(c, t) && c.Hole? && !IsRed(t) && !IsRed(c.sibling)
    requires !IsRed(Near(c.isLeft, c.sibling)) && !IsRed(Far(c.isLeft, c.sibling))
    ensures
      var y := Make(c.isLeft, c.red, t, c.node, Paint(true, c.sibling));
      if c.red then RedBlack(Plug(c.up, Paint(false, y))) && Balanced(Plug(c.up, Paint(false, y)))
      else DeletePending(c.up, y)
  {
    var y := Make(c.isLeft, c.red, t, c.node, Paint(true, c.sibling));
    CtxBlackHole(c.up, c.red);
    var s := c.sibling;
    assert s.Branch? && !s.red && Balanced(s) && NoRedRed(s);
    assert Balanced(Paint(true, s)) && NoRedRed(Paint(true, s)) && BlackHeight(Paint(true, s)) == BlackHeight(t);
    assert Balanced(y) && BlackHeight(y) == BlackHeight(t) + if c.red then 0 else 1;
    if c.red {
      var z := Paint(false, y);
      assert NoRedRed(z) && Balanced(z) && BlackHeight(z) == BlackHeight(t) + 1;
      assert CtxBalanced(c.up, BlackHeight(t) + 1);
      PlugNoRedRed(c.up, z);
      PlugBalanced(c.up, z);
      PlugRootBlack(c.up, z);
    }
  }

  // The context in which an iteration looks at a sibling that is not red.
  ghost function Levelled<N>(c: Ctx<N>): Ctx<N> {
    if c.Hole? && IsRed(c.sibling) then RedSiblingUp(c) else c
  }

  // One iteration: a missing sibling is unsafe; with a red nephew the fixup ends; else it
  // goes on one level up, or stops because the parent is red.
  lemma DeleteFixStep<N>(inherit: bool, c: Ctx<N>, t: Tree<N>)
    requires ColourPending(c, t) && c.Hole? && !IsRed(t)
    ensures
      var c' := Levelled(c);
      && c'.Hole? && !IsRed(c'.sibling) && c'.isLeft == c.isLeft && c'.node == c.node
      && var t' := Make(c.isLeft, c'.red, t, c.node, Paint(true, c'.sibling));
      if c'.sibling.Leaf? then !Safe(c, t)
      else if IsRed(Near(c.isLeft, c'.sibling)) || IsRed(Far(c.isLeft, c'.sibling)) then
        Safe(c, t) &&
        DeleteFix(inherit, c, t) ==
          Paint(false, Plug(c'.up, FixRedChild(inherit, c.isLeft, c'.red, t, c.node, c'.sibling)))
      else
        && DeleteFix(inherit, c, t) == DeleteFix(inherit, c'.up, t') && (Safe(c, t) <==> Safe(c'.up, t'))
        && (IsRed(t') || (ColourPending(c'.up, t') && Depth(c'.up) < Depth(c)))
  {
    if !IsRed(Near(c.isLeft, c.sibling)) && !IsRed(Far(c.isLeft, c.sibling)) && !IsRed(c.sibling) {
      PaintRed(c.isLeft, c.sibling);
    }
  }

  lemma DeleteFixDone<N>(inherit: bool, c: Ctx<N>, t: Tree<N>)
    requires c.Top? || IsRed(t)
    ensures DeleteFix(inherit, c, t) == Plug(c, Paint(false, t)) && Safe(c, t)
    ensures c.Top? ==> Plug(c, t) == t && Plug(c, Paint(false, t)) == Paint(false, t)
  {
  }

  // Deletion fixup always ends in a black root with no red-red edge. Black
  // heights are equal again exactly when the parent's colour is inherited or
  // the last rotation is not under a red parent.
  lemma {:induction false} DeleteFixValid<N>(inherit: bool, c: Ctx<N>, t: Tree<N>)
    requires DeletePending(c, t)
    ensures RedBlack(DeleteFix(inherit, c, t))
    ensures Balanced(DeleteFix(inherit, c, t)) <==> inherit || !EndsUnderRedParent(c, t)
    decreases c
  {
    if c.Top? || IsRed(t) {
      PaintFacts(false, t);
      PlugNoRedRed(c, Paint(false, t));
      PlugBalanced(c, Paint(false, t));
      PlugRootBlack(c, Paint(false, t));
    } else if IsRed(c.sibling) {
      DeleteFixRedSibling(inherit, c, t);
    } else if IsRed(Near(c.isLeft, c.sibling)) || IsRed(Far(c.isLeft, c.sibling)) {
      FixRedChildEnd(inherit, c.isLeft, c.red, t, c.node, c.sibling, c.up);
    } else {
      DeleteFixRecolour(c, t);
      if !c.red {
        DeleteFixValid(inherit, c.up, Make(c.isLeft, c.red, t, c.node, Paint(true, c.sibling)));
      }
    }
  }

  // ---------------------------------------------------------------- removing one node

  // The context and subtree at which node `n` sits inside `t`, itself inside `c`.
  ghost function Locate<N>(c: Ctx<N>, t: Tree<N>, n: N): (Ctx<N>, Tree<N>)
    requires n in Nodes(t)
    decreases t
  {
    if t.node == n then (c, t)
    else if n in Nodes(t.left) then Locate(Hole(true, t.red, t.node, t.right, c), t.left, n)
    else Locate(Hole(false, t.red, t.node, t.left, c), t.right, n)
  }

  // The leftmost subtree of `t`, with its context inside `c`.
  ghost function Leftmost<N>(c: Ctx<N>, t: Tree<N>): (Ctx<N>, Tree<N>)
    requires t.Branch?
    decreases t
  {
    if t.left.Leaf? then (c, t) else Leftmost(Hole(true, t.red, t.node, t.right, c), t.left)
  }

  // rb_configure_delete: the subtree at which a black may be missing and its
  // context after the node at the root of `s` has been taken out, and whether
  // the colour that disappeared was black.
  ghost function TakeOut<N>(c: Ctx<N>, s: Tree<N>): (Ctx<N>, Tree<N>, bool)
    requires s.Branch?
  {
    if s.left.Leaf? then (c, s.right, !s.red)
    else if s.right.Leaf? then (c, s.left, !s.red)
    else
      var (cr, m) := Leftmost(Top, s.right);
      if m.Leaf? then (c, s, false) else
      (Compose(cr, Hole(false, s.red, m.node, s.left, c)), m.right, !m.red)
  }

  ghost function Remove<N>(inherit: bool, t: Tree<N>, n: N): Tree<N>
    requires n in Nodes(t)
  {
    var (c, s) := Locate(Top, t, n);
    if s.Leaf? then t else
    var (fc, ft, black) := TakeOut(c, s);
    if black then DeleteFix(inherit, fc, ft) else Plug(fc, ft)
  }

  // The removals after which black heights differ when the code runs as written.
  ghost predicate RemovalUnbalances<N>(t: Tree<N>, n: N)
    requires n in Nodes(t)
  {
    var (c, s) := Locate(Top, t, n);
    s.Branch? &&
    var (fc, ft, black) := TakeOut(c, s);
    black && EndsUnderRedParent(fc, ft)
  }

  lemma {:induction false} LocateFacts<N>(c: Ctx<N>, t: Tree<N>, n: N)
    requires n in Nodes(t)
    ensures var (c', s) := Locate(c, t, n); s.Branch? && s.node == n && Plug(c', s) == Plug(c, t)
    decreases t
  {
    if t.node == n {
    } else if n in Nodes(t.left) {
      LocateFacts(Hole(true, t.red, t.node, t.right, c), t.left, n);
    } else {
      LocateFacts(Hole(false, t.red, t.node, t.left, c), t.right, n);
    }
  }

  lemma {:induction false} LeftmostFacts<N>(c: Ctx<N>, t: Tree<N>)
    requires t.Branch?
    ensures var (c', m) := Leftmost(c, t); m.Branch? && m.left.Leaf? && Plug(c', m) == Plug(c, t)
    ensures Before(Leftmost(c, t).0) == Before(c)
    decreases t
  {
    if t.left.Branch? { LeftmostFacts(Hole(true, t.red, t.node, t.right, c), t.left); }
  }

  lemma {:induction false} LeftmostAnyCtx<N>(c: Ctx<N>, c': Ctx<N>, t: Tree<N>)
    requires t.Branch?
    ensures Leftmost(c, t).1 == Leftmost(c', t).1
    decreases t
  {
    if t.left.Branch? {
      LeftmostAnyCtx(Hole(true, t.red, t.node, t.right, c), Hole(true, t.red, t.node, t.right, c'), t.left);
    }
  }

  // Taking the node out removes exactly it from the in-order sequence.
  lemma TakeOutInOrder<N>(c: Ctx<N>, s: Tree<N>)
    requires s.Branch?
    ensures var (fc, ft, black) := TakeOut(c, s);
      InOrder(Plug(fc, ft)) == Before(c) + (InOrder(s.left) + InOrder(s.right)) + After(c)
  {
    hide Leftmost, Before, After;
    if s.left.Leaf? {
      PlugInOrder(c, s.right);
      assert InOrder(s.left) + InOrder(s.right) == InOrder(s.right);
    } else if s.right.Leaf? {
      PlugInOrder(c, s.left);
      assert InOrder(s.left) + InOrder(s.right) == InOrder(s.left);
    } else {
      var (cr, m) := Leftmost(Top, s.right);
      LeftmostFacts(Top, s.right);
      var r' := Plug(cr, m.right);
      SuccessorInOrder(s.right);
      PlugCompose(cr, Hole(false, s.red, m.node, s.left, c), m.right);
      PlugInOrder(c, Branch(s.red, s.left, m.node, r'));
      SpliceRest(InOrder(s.left), m.node, InOrder(r'), InOrder(s.right));
    }
  }

  lemma SpliceRest<N>(a: seq<N>, x: N, b: seq<N>, c: seq<N>)
    requires c == [x] + b
    ensures a + [x] + b == a + c
  {
  }

  // The leftmost node comes first, and cutting it out leaves the rest.
  lemma SuccessorInOrder<N>(t: Tree<N>)
    requires t.Branch?
    ensures var (cr, m) := Leftmost(Top, t); m.Branch? && InOrder(t) == [m.node] + InOrder(Plug(cr, m.right))
  {
    var (cr, m) := Leftmost(Top, t);
    LeftmostFacts(Top, t);
    PlugInOrder(cr, m);
    PlugInOrder(cr, m.right);
    assert [] + [m.node] + InOrder(m.right) == [m.node] + InOrder(m.right);
    Regroup(m.node, InOrder(m.right), After(cr));
  }

  lemma Regroup<N>(n: N, x: seq<N>, y: seq<N>)
    ensures [] + ([n] + x) + y == [n] + ([] + x + y)
  {
  }

  lemma {:induction false} ComposeColours<N>(c: Ctx<N>, base: Ctx<N>, holeRed: bool)
    requires CtxNoRedRed(c, holeRed) && CtxNoRedRed(base, TopRed(c, holeRed)) && base.Hole? && CtxRootBlack(base)
    ensures CtxNoRedRed(Compose(c, base), holeRed) && CtxRootBlack(Compose(c, base))
    decreases c
  {
    if c.Hole? { ComposeColours(c.up, base, c.red); }
  }

  lemma {:induction false} ComposeHeights<N>(c: Ctx<N>, base: Ctx<N>, h: nat)
    requires CtxBalanced(c, h) && CtxBalanced(base, TopHeight(c, h))
    ensures CtxBalanced(Compose(c, base), h)
    decreases c
  {
    if c.Hole? { ComposeHeights(c.up, base, h + if c.red then 0 else 1); }
  }

  // Colour and height of a plugged tree's root, seen from the context.
  ghost function TopRed<N>(c: Ctx<N>, holeRed: bool): bool {
    if c.Top? then holeRed else TopRed(c.up, c.red)
  }

  ghost function TopHeight<N>(c: Ctx<N>, h: nat): nat {
    if c.Top? then h else TopHeight(c.up, h + if c.red then 0 else 1)
  }

  lemma {:induction false} PlugTop<N>(c: Ctx<N>, t: Tree<N>)
    ensures IsRed(Plug(c, t)) == TopRed(c, IsRed(t))
    ensures Balanced(Plug(c, t)) ==> BlackHeight(Plug(c, t)) == TopHeight(c, BlackHeight(t))
    decreases c
  {
    if c.Hole? {
      var m := Make(c.isLeft, c.red, t, c.node, c.sibling);
      PlugTop(c.up, m);
      if Balanced(Plug(c, t)) {
        PlugBalanced(c.up, m);
        assert BlackHeight(m) == BlackHeight(t) + if c.red then 0 else 1;
      }
    }
  }

  // Taking a node out keeps the colour rules, up to the place TakeOut names.
  lemma TakeOutColours<N>(c: Ctx<N>, s: Tree<N>)
    requires s.Branch? && RedBlack(Plug(c, s))
    ensures var (fc, ft, black) := TakeOut(c, s);
      if black then ColourPending(fc, ft) else RedBlack(Plug(fc, ft))
  {
    PlugNoRedRed(c, s);
    PlugRootBlack(c, s);
    CtxBlackHole(c, s.red);
    var (fc, ft, black) := TakeOut(c, s);
    if s.left.Leaf? || s.right.Leaf? {
      PlugNoRedRed(fc, ft);
      PlugRootBlack(fc, ft);
    } else {
      var (cr, m) := Leftmost(Top, s.right);
      LeftmostFacts(Top, s.right);
      SuccessorColours(c, s, cr, m);
    }
  }

  lemma SuccessorColours<N>(c: Ctx<N>, s: Tree<N>, cr: Ctx<N>, m: Tree<N>)
    requires s.Branch? && NoRedRed(s) && CtxNoRedRed(c, s.red) && (c.Hole? ==> CtxRootBlack(c)) && (c.Top? ==> !s.red)
    requires m.Branch? && m.left.Leaf? && s.right == Plug(cr, m)
    ensures
      var fc := Compose(cr, Hole(false, s.red, m.node, s.left, c));
      if !m.red then ColourPending(fc, m.right) else RedBlack(Plug(fc, m.right))
  {
    hide Plug;
    PlugNoRedRed(cr, m);
    PlugTop(cr, m);
    CtxBlackHole(cr, m.red);
    var base := Hole(false, s.red, m.node, s.left, c);
    TopRedHole(cr, m.red);
    if TopRed(cr, m.red) && !TopRed(cr, false) { CtxBlackHole(base, true); }
    ComposeColours(cr, base, false);
    var fc := Compose(cr, base);
    PlugNoRedRed(fc, m.right);
    PlugRootBlack(fc, m.right);
  }

  // Taking a node out of a tree of equal black heights leaves them equal, up to the one
  // black node that may be missing.
  lemma TakeOutHeights<N>(c: Ctx<N>, s: Tree<N>)
    requires s.Branch? && Balanced(Plug(c, s))
    ensures var (fc, ft, black) := TakeOut(c, s);
      Balanced(ft) && CtxBalanced(fc, BlackHeight(ft) + if black then 1 else 0)
  {
    PlugBalanced(c, s);
    if s.left.Branch? && s.right.Branch? {
      var (cr, m) := Leftmost(Top, s.right);
      LeftmostFacts(Top, s.right);
      SuccessorHeights(c, s, cr, m);
    }
  }

  lemma SuccessorHeights<N>(c: Ctx<N>, s: Tree<N>, cr: Ctx<N>, m: Tree<N>)
    requires s.Branch? && Balanced(s) && CtxBalanced(c, BlackHeight(s)) && m.Branch? && m.left.Leaf?
    requires s.right == Plug(cr, m)
    ensures
      var fc := Compose(cr, Hole(false, s.red, m.node, s.left, c));
      Balanced(m.right) && CtxBalanced(fc, BlackHeight(m.right) + if m.red then 0 else 1)
  {
    hide Plug;
    PlugBalanced(cr, m);
    PlugTop(cr, m);
    ComposeHeights(cr, Hole(false, s.red, m.node, s.left, c), BlackHeight(m));
  }

  // Taking a node out of a valid tree leaves either a valid tree or one missing black at
  // the place TakeOut names.
  lemma TakeOutValid<N>(c: Ctx<N>, s: Tree<N>)
    requires s.Branch? && RedBlack(Plug(c, s)) && Balanced(Plug(c, s))
    ensures var (fc, ft, black) := TakeOut(c, s);
      if black then DeletePending(fc, ft) else RedBlack(Plug(fc, ft)) && Balanced(Plug(fc, ft))
  {
    hide TakeOut;
    TakeOutColours(c, s);
    TakeOutHeights(c, s);
    var (fc, ft, black) := TakeOut(c, s);
    PlugBalanced(fc, ft);
  }

  lemma TopRedHole<N>(c: Ctx<N>, holeRed: bool)
    ensures c.Hole? ==> TopRed(c, false) == TopRed(c, holeRed)
    ensures c.Top? ==> TopRed(c, false) == false
  {
  }

  // The removals that never look at a missing sibling.
  ghost predicate RemovalSafe<N>(t: Tree<N>, n: N)
    requires n in Nodes(t)
  {
    var (c, s) := Locate(Top, t, n);
    s.Branch? ==>
    var (fc, ft, black) := TakeOut(c, s);
    black ==> Safe(fc, ft)
  }

  // Removing a node from a tree that keeps the colour rules: the in-order sequence loses
  // exactly that node, and unless a sibling is missing the colour rules hold again. From
  // equal black heights no sibling is missing, and they stay equal if and only if the
  // colour is inherited or the removal is not one of those that end under a red parent.
  lemma RemoveCorrect<N>(inherit: bool, t: Tree<N>, n: N, i: nat)
    requires n in Nodes(t) && Unique(t) && RedBlack(t)
    requires i < |InOrder(t)| && InOrder(t)[i] == n
    ensures InOrder(Remove(inherit, t, n)) == InOrder(t)[..i] + InOrder(t)[i + 1..]
    ensures RemovalSafe(t, n) ==> RedBlack(Remove(inherit, t, n))
    ensures Balanced(t) ==>
      RemovalSafe(t, n) && (Balanced(Remove(inherit, t, n)) <==> inherit || !RemovalUnbalances(t, n))
  {
    hide TakeOut, Locate, Safe, DeleteFix, Balanced, NoRedRed;
    RemoveInOrder(inherit, t, n, i);
    var (c, s) := Locate(Top, t, n);
    LocateFacts(Top, t, n);
    TakeOutColours(c, s);
    var (fc, ft, black) := TakeOut(c, s);
    if black && Safe(fc, ft) { DeleteFixColours(inherit, fc, ft); }
    if Balanced(t) {
      TakeOutValid(c, s);
      if black {
        PendingSafe(fc, ft);
        DeleteFixValid(inherit, fc, ft);
      }
    }
  }

  lemma RemoveInOrder<N>(inherit: bool, t: Tree<N>, n: N, i: nat)
    requires n in Nodes(t) && Unique(t)
    requires i < |InOrder(t)| && InOrder(t)[i] == n
    ensures InOrder(Remove(inherit, t, n)) == InOrder(t)[..i] + InOrder(t)[i + 1..]
  {
    var (c, s) := Locate(Top, t, n);
    LocateFacts(Top, t, n);
    LocateIndex(t, n, i);
    TakeOutInOrder(c, s);
    var (fc, ft, black) := TakeOut(c, s);
    if black { DeleteFixInOrder(inherit, fc, ft); }
    RegroupFour(Before(c), InOrder(s.left), InOrder(s.right), After(c));
  }

  lemma RegroupFour<N>(a: seq<N>, b: seq<N>, d: seq<N>, e: seq<N>)
    ensures a + (b + d) + e == (a + b) + (d + e)
  {
  }

  // A located node's neighbours in the in-order sequence.
  lemma LocateIndex<N>(t: Tree<N>, n: N, i: nat)
    requires n in Nodes(t) && Unique(t)
    requires i < |InOrder(t)| && InOrder(t)[i] == n
    ensures
      var (c, s) := Locate(Top, t, n);
      && s.Branch?
      && InOrder(t)[..i] == Before(c) + InOrder(s.left)
      && InOrder(t)[i + 1..] == InOrder(s.right) + After(c)
  {
    var (c, s) := Locate(Top, t, n);
    LocateFacts(Top, t, n);
    PlugInOrder(c, s);
    UniqueNoDup(t);
    SplitAt(InOrder(t), i, Before(c), InOrder(s.left), n, InOrder(s.right), After(c));
  }

  lemma SplitAt<N>(s: seq<N>, i: nat, a: seq<N>, b: seq<N>, n: N, d: seq<N>, e: seq<N>)
    requires NoDup(s) && i < |s| && s[i] == n && s == a + (b + [n] + d) + e
    ensures s[..i] == a + b && s[i + 1..] == d + e
  {
    assert s[|a + b|] == n;
  }

  // `s'` is `s` with its one occurrence of `n` left out.
  ghost predicate OneLess<N>(s: seq<N>, s': seq<N>, n: N) {
    exists i :: 0 <= i < |s| && s[i] == n && s' == s[..i] + s[i + 1..]
  }

  // RemoveCorrect with the position of the node found.
  lemma RemoveFacts<N>(inherit: bool, t: Tree<N>, n: N)
    requires n in Nodes(t) && Unique(t) && RedBlack(t)
    ensures Nodes(Remove(inherit, t, n)) == Nodes(t) - {n}
    ensures RemovalSafe(t, n) ==> RedBlack(Remove(inherit, t, n))
    ensures Balanced(t) ==>
      RemovalSafe(t, n) && (Balanced(Remove(inherit, t, n)) <==> inherit || !RemovalUnbalances(t, n))
    ensures OneLess(InOrder(t), InOrder(Remove(inherit, t, n)), n)
  {
    hide Remove, RemovalSafe, RemovalUnbalances, Balanced, NoRedRed;
    InOrderNodes(t);
    var i :| 0 <= i < |InOrder(t)| && InOrder(t)[i] == n;
    RemoveCorrect(inherit, t, n, i);
    InOrderNodes(Remove(inherit, t, n));
    UniqueNoDup(t);
    ElemsWithout(InOrder(t), i);
  }

  lemma ElemsWithout<N>(s: seq<N>, i: nat)
    requires NoDup(s) && i < |s|
    ensures Elems(s[..i] + s[i + 1..]) == Elems(s) - {s[i]}
  {
    var r := s[..i] + s[i + 1..];
    forall x | x in Elems(s) - {s[i]} ensures x in r {
      var j :| 0 <= j < |s| && s[j] == x;
      assert r[if j < i then j else j - 1] == x;
    }
  }

  // The steps of a removal, in the order the code takes them.
  lemma RemoveUnfold<N>(inherit: bool, t: Tree<N>, n: N)
    requires n in Nodes(t) && RedBlack(t)
    ensures
      var (c, s) := Locate(Top, t, n);
      && s.Branch? && s.node == n && Plug(c, s) == Plug(Top, t)
      && var (fc, ft, black) := TakeOut(c, s);
      if black then
        && ColourPending(fc, ft) && Remove(inherit, t, n) == DeleteFix(inherit, fc, ft)
        && (RemovalSafe(t, n) <==> Safe(fc, ft))
      else Plug(Top, Remove(inherit, t, n)) == Plug(fc, ft) && RemovalSafe(t, n)
  {
    var (c, s) := Locate(Top, t, n);
    LocateFacts(Top, t, n);
    TakeOutColours(c, s);
  }

  // ---------------------------------------------------------------- a run of the code as written

  function B(l: Tree<int>, n: int, r: Tree<int>): Tree<int> {
    Branch(false, l, n, r)
  }

  function R(l: Tree<int>, n: int, r: Tree<int>): Tree<int> {
    Branch(true, l, n, r)
  }

  // The tree after inserting 8, 4, 9, 2, 6 and 7; removing 2 ends under the red parent 4.
  const UNBALANCING_TREE: Tree<int> := B(R(B(Leaf, 2, Leaf), 4, B(Leaf, 6, R(Leaf, 7, Leaf))), 8, B(Leaf, 9, Leaf))
  // The trees after removing 2, then 9, then 4, then 7.
  const WITHOUT_2: Tree<int> := B(B(B(Leaf, 4, Leaf), 6, B(Leaf, 7, Leaf)), 8, B(Leaf, 9, Leaf))
  const WITHOUT_9: Tree<int> := B(R(B(Leaf, 4, Leaf), 6, B(Leaf, 7, Leaf)), 8, Leaf)
  const WITHOUT_4: Tree<int> := B(B(Leaf, 6, R(Leaf, 7, Leaf)), 8, Leaf)
  const WITHOUT_7: Tree<int> := B(B(Leaf, 6, Leaf), 8, Leaf)

  // Six insertions at the links the order of the keys gives.
  lemma InsertedTree()
    ensures
      var t1 := Insert(Top, 8);
      var t2 := Insert(Hole(true, false, 8, Leaf, Top), 4);
      var t3 := Insert(Hole(false, false, 8, t2.left, Top), 9);
      var t4 := Insert(Hole(true, true, 4, Leaf, Hole(true, false, 8, R(Leaf, 9, Leaf), Top)), 2);
      var nine: Tree<int> := B(Leaf, 9, Leaf);
      var t5 := Insert(Hole(false, false, 4, R(Leaf, 2, Leaf), Hole(true, false, 8, nine, Top)), 6);
      var c6 := Hole(false, true, 6, Leaf, Hole(false, false, 4, R(Leaf, 2, Leaf), Hole(true, false, 8, nine, Top)));
      && t1 == B(Leaf, 8, Leaf) && t2 == B(R(Leaf, 4, Leaf), 8, Leaf) && t3 == B(R(Leaf, 4, Leaf), 8, R(Leaf, 9, Leaf))
      && t4 == B(B(R(Leaf, 2, Leaf), 4, Leaf), 8, nine) && t5 == B(B(R(Leaf, 2, Leaf), 4, R(Leaf, 6, Leaf)), 8, nine)
      && Plug(c6, Leaf) == t5 && Insert(c6, 7) == UNBALANCING_TREE
  {
  }

  // Removing a node without children, when its place is known.
  lemma RemoveLeaf<N>(inherit: bool, t: Tree<N>, n: N, red: bool, c: Ctx<N>)
    requires n in Nodes(t) && Locate(Top, t, n) == (c, Branch(red, Leaf, n, Leaf))
    ensures Remove(inherit, t, n) == if red then Plug(c, Leaf) else DeleteFix(inherit, c, Leaf)
    ensures RemovalSafe(t, n) <==> red || Safe(c, Leaf)
    ensures RemovalUnbalances(t, n) <==> !red && EndsUnderRedParent(c, Leaf)
  {
  }

  lemma Remove2()
    ensures 2 in Nodes(UNBALANCING_TREE) && RemovalSafe(UNBALANCING_TREE, 2) && RemovalUnbalances(UNBALANCING_TREE, 2)
    ensures Remove(false, UNBALANCING_TREE, 2) == WITHOUT_2
  {
    var a, s, b := B(Leaf, 2, Leaf), B(Leaf, 6, R(Leaf, 7, Leaf)), B(Leaf, 9, Leaf);
    var p := R(a, 4, s);
    var up: Ctx<int> := Hole(true, false, 8, b, Top);
    var c := Hole(true, true, 4, s, up);
    assert 2 in Nodes(a) && 2 in Nodes(p);
    assert Locate(c, a, 2) == (c, a) && Locate(up, p, 2) == Locate(c, a, 2);
    RemoveLeaf(false, UNBALANCING_TREE, 2, false, c);
  }

  lemma Remove9()
    ensures 9 in Nodes(WITHOUT_2) && RemovalSafe(WITHOUT_2, 9) && Remove(false, WITHOUT_2, 9) == WITHOUT_9
  {
    var l, b := B(B(Leaf, 4, Leaf), 6, B(Leaf, 7, Leaf)), B(Leaf, 9, Leaf);
    var c: Ctx<int> := Hole(false, false, 8, l, Top);
    assert Nodes(l.left) == {4} && Nodes(l.right) == {7} && Nodes(l) == {4, 6, 7} && 9 in Nodes(b);
    assert Locate(c, b, 9) == (c, b);
    RemoveLeaf(false, WITHOUT_2, 9, false, c);
  }

  lemma Remove4()
    ensures 4 in Nodes(WITHOUT_9) && RemovalSafe(WITHOUT_9, 4) && Remove(false, WITHOUT_9, 4) == WITHOUT_4
  {
    var a, s := B(Leaf, 4, Leaf), B(Leaf, 7, Leaf);
    var up: Ctx<int> := Hole(true, false, 8, Leaf, Top);
    var c := Hole(true, true, 6, s, up);
    assert 4 in Nodes(a) && 4 in Nodes(R(a, 6, s));
    assert Locate(c, a, 4) == (c, a) && Locate(up, R(a, 6, s), 4) == Locate(c, a, 4);
    RemoveLeaf(false, WITHOUT_9, 4, false, c);
  }

  lemma Remove7()
    ensures 7 in Nodes(WITHOUT_4) && RemovalSafe(WITHOUT_4, 7) && Remove(false, WITHOUT_4, 7) == WITHOUT_7
  {
    var a := R(Leaf, 7, Leaf);
    var up: Ctx<int> := Hole(true, false, 8, Leaf, Top);
    var c := Hole(false, false, 6, Leaf, up);
    assert 7 in Nodes(a) && 7 in Nodes(B(Leaf, 6, a));
    assert Locate(c, a, 7) == (c, a) && Locate(up, B(Leaf, 6, a), 7) == Locate(c, a, 7);
    RemoveLeaf(false, WITHOUT_4, 7, true, c);
  }

  lemma Remove6()
    ensures 6 in Nodes(WITHOUT_7) && !RemovalSafe(WITHOUT_7, 6)
  {
    var a := B(Leaf, 6, Leaf);
    var c: Ctx<int> := Hole(true, false, 8, Leaf, Top);
    assert 6 in Nodes(a) && Locate(c, a, 6) == (c, a);
    RemoveLeaf(false, WITHOUT_7, 6, false, c);
  }

  lemma UnbalancingTreeValid()
    ensures RedBlack(UNBALANCING_TREE) && Balanced(UNBALANCING_TREE) && Unique(UNBALANCING_TREE)
  {
    var a, s, b := B(Leaf, 2, Leaf), B(Leaf, 6, R(Leaf, 7, Leaf)), B(Leaf, 9, Leaf);
    var p := R(a, 4, s);
    assert Nodes(a) == {2} && Nodes(s) == {6, 7} && Nodes(p) == {2, 4, 6, 7} && Nodes(b) == {9};
    assert Balanced(s) && Unique(s) && NoRedRed(s) && Balanced(p) && Unique(p) && NoRedRed(p);
  }

  // Line 417 as written breaks the equal-black-height rule ...
  lemma RemovalUnbalancesExample()
    ensures RedBlack(UNBALANCING_TREE) && Balanced(UNBALANCING_TREE) && Unique(UNBALANCING_TREE)
    ensures 2 in Nodes(UNBALANCING_TREE) && !Balanced(Remove(false, UNBALANCING_TREE, 2))
  {
    hide *;
    UnbalancingTreeValid();
    Remove2();
    RemoveFacts(false, UNBALANCING_TREE, 2);
  }

  // ... and four removals later the code reads a missing sibling.
  lemma RemovalCrashesExample()
    ensures 2 in Nodes(UNBALANCING_TREE)
    ensures var t1 := Remove(false, UNBALANCING_TREE, 2); 9 in Nodes(t1)
    ensures var t2 := Remove(false, Remove(false, UNBALANCING_TREE, 2), 9); 4 in Nodes(t2)
    ensures
      var t3 := Remove(false, Remove(false, Remove(false, UNBALANCING_TREE, 2), 9), 4);
      && 7 in Nodes(t3) && 6 in Nodes(Remove(false, t3, 7))
      && RemovalSafe(t3, 7) && !RemovalSafe(Remove(false, t3, 7), 6)
  {
    hide *;
    Remove2();
    Remove9();
    Remove4();
    Remove7();
    Remove6();
  }
}
