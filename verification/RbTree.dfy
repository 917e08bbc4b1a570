/** The intrusive red-black tree: nodes with child and parent pointers that are
    rewritten in place. A ghost shape mirrors the pointers; every method is
    proved to change the pointers as the functions of RbShape change the shape. */
module RbTree {
  import opened RbShape

  // rb_node_t inside its container; `parent` and `red` are packed in one word there.
  class Node<K> {
    const key: K
    var left: Node?<K>
    var right: Node?<K>
    var parent: Node?<K>
    var red: bool

    constructor (key: K)
      ensures this.key == key
    {
      this.key := key;
      left, right, parent, red := null, null, null, false;
    }
  }

  // ---------------------------------------------------------------- memory as a value

  datatype Cell<K> = Cell(red: bool, parent: Node?<K>, left: Node?<K>, right: Node?<K>)

  type Memory<!K> = map<Node<K>, Cell<K>>

  ghost function Mem<K>(s: set<Node<K>>): Memory<K>
    reads s
  {
    map n <- s :: Cell(n.red, n.parent, n.left, n.right)
  }

  ghost function Root<K>(t: Tree<Node<K>>): Node?<K> {
    if t.Leaf? then null else t.node
  }

  // The node above the hole; `base` is what lies above the outermost context frame.
  ghost function ParentOf<K>(c: Ctx<Node<K>>, base: Node?<K>): Node?<K> {
    if c.Top? then base else c.node
  }

  // The root of the whole tree when `hole` fills the context's hole.
  ghost function TopOf<K>(c: Ctx<Node<K>>, hole: Node?<K>): Node?<K> {
    if c.Top? then hole else TopOf(c.up, c.node)
  }

  // The memory holds exactly the shape `t` below `parent`.
  ghost predicate Linked<K>(m: Memory<K>, t: Tree<Node<K>>, parent: Node?<K>) {
    match t
    case Leaf => true
    case Branch(red, l, n, r) =>
      n in m && m[n] == Cell(red, parent, Root(l), Root(r)) && Linked(m, l, n) && Linked(m, r, n)
  }

  // The memory holds exactly the context `c` around `hole`, hanging below `base`.
  ghost predicate CtxLinked<K>(m: Memory<K>, c: Ctx<Node<K>>, base: Node?<K>, hole: Node?<K>) {
    match c
    case Top => true
    case Hole(isLeft, red, n, s, up) =>
      && n in m
      && m[n] == Cell(red, ParentOf(up, base), if isLeft then hole else Root(s), if isLeft then Root(s) else hole)
      && Linked(m, s, n) && CtxLinked(m, up, base, n)
  }

  // The memory holds `t` inside `c`, every node once, below the root pointer `root`.
  ghost predicate Holds<K>(m: Memory<K>, root: Node?<K>, c: Ctx<Node<K>>, t: Tree<Node<K>>) {
    && Apart(c, t) && root == TopOf(c, Root(t))
    && CtxLinked(m, c, null, Root(t)) && Linked(m, t, ParentOf(c, null))
  }

  lemma {:induction false} LinkedPlug<K>(m: Memory<K>, c: Ctx<Node<K>>, t: Tree<Node<K>>, base: Node?<K>)
    ensures Linked(m, Plug(c, t), base) <==> Linked(m, t, ParentOf(c, base)) && CtxLinked(m, c, base, Root(t))
    ensures Root(Plug(c, t)) == TopOf(c, Root(t))
    decreases c
  {
    if c.Hole? { LinkedPlug(m, c.up, Make(c.isLeft, c.red, t, c.node, c.sibling), base); }
  }

  // The same tree can be looked at from any of its subtrees.
  lemma Refocus<K>(m: Memory<K>, root: Node?<K>, c: Ctx<Node<K>>, t: Tree<Node<K>>, c': Ctx<Node<K>>, t': Tree<Node<K>>)
    requires Holds(m, root, c, t) && Plug(c, t) == Plug(c', t')
    ensures CtxNodes(c') + Nodes(t') == CtxNodes(c) + Nodes(t) && Holds(m, root, c', t')
  {
    LinkedPlug(m, c, t, null);
    LinkedPlug(m, c', t', null);
    PlugUnique(c, t);
    PlugUnique(c', t');
    PlugNodes(c, t);
    PlugNodes(c', t');
  }

  ghost predicate SameOn<K>(m: Memory<K>, m': Memory<K>, s: set<Node<K>>) {
    forall n <- s :: n in m ==> n in m' && m'[n] == m[n]
  }

  lemma {:induction false} LinkedFrame<K>(m: Memory<K>, m': Memory<K>, t: Tree<Node<K>>, parent: Node?<K>)
    requires Linked(m, t, parent) && SameOn(m, m', Nodes(t))
    ensures Linked(m', t, parent)
  {
    if t.Branch? {
      LinkedFrame(m, m', t.left, t.node);
      LinkedFrame(m, m', t.right, t.node);
    }
  }

  lemma {:induction false} CtxFrame<K>(m: Memory<K>, m': Memory<K>, c: Ctx<Node<K>>, base: Node?<K>, hole: Node?<K>)
    requires CtxLinked(m, c, base, hole) && SameOn(m, m', CtxNodes(c))
    ensures CtxLinked(m', c, base, hole)
  {
    if c.Hole? {
      LinkedFrame(m, m', c.sibling, c.node);
      CtxFrame(m, m', c.up, base, c.node);
    }
  }

  lemma HoldsFrame<K>(m: Memory<K>, m': Memory<K>, root: Node?<K>, c: Ctx<Node<K>>, t: Tree<Node<K>>)
    requires Holds(m, root, c, t) && SameOn(m, m', CtxNodes(c)) && SameOn(m, m', Nodes(t))
    ensures Holds(m', root, c, t)
  {
    LinkedFrame(m, m', t, ParentOf(c, null));
    CtxFrame(m, m', c, null, Root(t));
  }

  lemma {:induction false} LinkedDomain<K>(m: Memory<K>, t: Tree<Node<K>>, parent: Node?<K>)
    requires Linked(m, t, parent)
    ensures Nodes(t) <= m.Keys
  {
    if t.Branch? {
      LinkedDomain(m, t.left, t.node);
      LinkedDomain(m, t.right, t.node);
    }
  }

  // ---------------------------------------------------------------- pointer writes on a memory value

  function Child<K>(isLeft: bool, x: Cell<K>): Node?<K> {
    if isLeft then x.left else x.right
  }

  function WithChild<K>(isLeft: bool, x: Cell<K>, n: Node?<K>): Cell<K> {
    if isLeft then x.(left := n) else x.(right := n)
  }

  // set_parent, when there is a node.
  function PutParent<K>(m: Memory<K>, n: Node?<K>, parent: Node?<K>): Memory<K> {
    if n == null || n !in m then m else m[n := m[n].(parent := parent)]
  }

  // The child pointer of `g` that leads to `old'` is redirected to `new'`.
  function PutChild<K>(m: Memory<K>, g: Node?<K>, old': Node?<K>, new': Node?<K>): Memory<K> {
    if g == null || g !in m then m
    else if m[g].left == old' then m[g := m[g].(left := new')]
    else if m[g].right == old' then m[g := m[g].(right := new')]
    else m
  }

  // A rotation of `x` towards side `isLeft`, as the sequence of writes the code does.
  ghost function RotateMem<K>(isLeft: bool, m: Memory<K>, x: Node<K>): Memory<K>
    requires x in m && Child(!isLeft, m[x]) != null && Child(!isLeft, m[x]) in m
  {
    var y := Child(!isLeft, m[x]);
    var b := Child(isLeft, m[y]);
    var m1 := PutParent(m[x := WithChild(!isLeft, m[x], b)], b, x);
    var g := m1[x].parent;
    var m2 := PutChild(PutParent(m1, y, g), g, x, y);
    m2[y := WithChild(isLeft, m2[y], x)][x := m2[x].(parent := y)]
  }

  // Redirecting the link above the hole.
  lemma PutChildCtx<K>(m: Memory<K>, c: Ctx<Node<K>>, old': Node<K>, new': Node?<K>)
    requires UniqueCtx(c) && CtxLinked(m, c, null, old') && old' !in CtxNodes(c)
    ensures CtxLinked(PutChild(m, ParentOf(c, null), old', new'), c, null, new')
  {
    if c.Hole? {
      var m' := PutChild(m, c.node, old', new');
      LinkedFrame(m, m', c.sibling, c.node);
      CtxFrame(m, m', c.up, null, c.node);
    }
  }

  // Hanging a subtree below another parent.
  lemma PutParentLinked<K>(m: Memory<K>, t: Tree<Node<K>>, old': Node?<K>, new': Node?<K>)
    requires Unique(t) && Linked(m, t, old')
    ensures Linked(PutParent(m, Root(t), new'), t, new')
  {
    if t.Branch? {
      LinkedFrame(m, PutParent(m, t.node, new'), t.left, t.node);
      LinkedFrame(m, PutParent(m, t.node, new'), t.right, t.node);
    }
  }

  lemma {:induction false} TopOfRedirect<K>(c: Ctx<Node<K>>, old': Node?<K>, new': Node?<K>)
    ensures TopOf(c, new') == if c.Top? then new' else TopOf(c, old')
  {
  }

  // What a rotation writes, node by node.
  lemma RotateCells<K>(isLeft: bool, m: Memory<K>, x: Node<K>, y: Node<K>, b: Node?<K>, g: Node?<K>)
    requires x in m && y in m && x != y && Child(!isLeft, m[x]) == y && Child(isLeft, m[y]) == b && m[x].parent == g
    requires b == null || (b in m && b != x && b != y && b != g)
    requires g == null || (g in m && g != x && g != y)
    ensures
      var m' := RotateMem(isLeft, m, x);
      && m'.Keys == m.Keys
      && m'[x] == WithChild(!isLeft, m[x], b).(parent := y)
      && m'[y] == WithChild(isLeft, m[y], x).(parent := g)
      && (b != null ==> m'[b] == m[b].(parent := x))
      && (g != null ==> m'[g] == PutChild(m, g, x, y)[g])
      && forall n <- m.Keys :: n != x && n != y && n != b && n != g ==> m'[n] == m[n]
  {
    hide RotateMem;
    RotateEnds(isLeft, m, x, y, b, g);
    RotateOuter(isLeft, m, x, y, b, g);
    RotateOthers(isLeft, m, x, y, b, g);
  }

  lemma RotateOthers<K>(isLeft: bool, m: Memory<K>, x: Node<K>, y: Node<K>, b: Node?<K>, g: Node?<K>)
    requires x in m && y in m && x != y && Child(!isLeft, m[x]) == y && Child(isLeft, m[y]) == b && m[x].parent == g
    requires b == null || (b in m && b != x && b != y && b != g)
    requires g == null || (g in m && g != x && g != y)
    ensures
      var m' := RotateMem(isLeft, m, x);
      m'.Keys == m.Keys && forall n <- m.Keys :: n != x && n != y && n != b && n != g ==> m'[n] == m[n]
  {
  }

  lemma RotateOuter<K>(isLeft: bool, m: Memory<K>, x: Node<K>, y: Node<K>, b: Node?<K>, g: Node?<K>)
    requires x in m && y in m && x != y && Child(!isLeft, m[x]) == y && Child(isLeft, m[y]) == b && m[x].parent == g
    requires b == null || (b in m && b != x && b != y && b != g)
    requires g == null || (g in m && g != x && g != y)
    ensures
      var m' := RotateMem(isLeft, m, x);
      && m'.Keys == m.Keys
      && (b != null ==> m'[b] == m[b].(parent := x))
      && (g != null ==> m'[g] == PutChild(m, g, x, y)[g])
  {
  }

  lemma RotateEnds<K>(isLeft: bool, m: Memory<K>, x: Node<K>, y: Node<K>, b: Node?<K>, g: Node?<K>)
    requires x in m && y in m && x != y && Child(!isLeft, m[x]) == y && Child(isLeft, m[y]) == b && m[x].parent == g
    requires b == null || (b in m && b != x && b != y && b != g)
    requires g == null || (g in m && g != x && g != y)
    ensures
      var m' := RotateMem(isLeft, m, x);
      && m'.Keys == m.Keys
      && m'[x] == WithChild(!isLeft, m[x], b).(parent := y)
      && m'[y] == WithChild(isLeft, m[y], x).(parent := g)
  {
  }

  lemma RotateCtx<K>(m: Memory<K>, m': Memory<K>, c: Ctx<Node<K>>, x: Node<K>, y: Node<K>)
    requires UniqueCtx(c) && CtxLinked(m, c, null, x) && x !in CtxNodes(c)
    requires SameOn(PutChild(m, ParentOf(c, null), x, y), m', CtxNodes(c))
    ensures CtxLinked(m', c, null, y)
  {
    PutChildCtx(m, c, x, y);
    CtxFrame(PutChild(m, ParentOf(c, null), x, y), m', c, null, y);
  }

  lemma RotateInner<K>(m: Memory<K>, m': Memory<K>, b: Tree<Node<K>>, y: Node?<K>, x: Node?<K>)
    requires Unique(b) && Linked(m, b, y)
    requires SameOn(PutParent(m, Root(b), x), m', Nodes(b))
    ensures Linked(m', b, x)
  {
    PutParentLinked(m, b, y, x);
    LinkedFrame(PutParent(m, Root(b), x), m', b, x);
  }

  ghost predicate Disjoint<N>(x: N, y: N, a: set<N>, b: set<N>, d: set<N>, c: set<N>) {
    && x != y && x !in a && x !in b && x !in d && x !in c && y !in a && y !in b && y !in d && y !in c
    && a !! b && a !! d && a !! c && b !! d && b !! c && d !! c
  }

  lemma RotateParts<K>(isLeft: bool, m: Memory<K>, c: Ctx<Node<K>>, x: Node<K>, y: Node<K>,
                       a: Tree<Node<K>>, b: Tree<Node<K>>, d: Tree<Node<K>>)
    requires Disjoint(x, y, Nodes(a), Nodes(b), Nodes(d), CtxNodes(c)) && UniqueCtx(c) && Unique(b)
    requires x in m && y in m && Child(!isLeft, m[x]) == y && Child(isLeft, m[y]) == Root(b)
    requires m[x].parent == ParentOf(c, null)
    requires Linked(m, a, x) && Linked(m, b, y) && Linked(m, d, y) && CtxLinked(m, c, null, x)
    ensures
      var m' := RotateMem(isLeft, m, x);
      && x in m' && m'[x] == WithChild(!isLeft, m[x], Root(b)).(parent := y)
      && y in m' && m'[y] == WithChild(isLeft, m[y], x).(parent := ParentOf(c, null))
      && Linked(m', a, x) && Linked(m', b, x) && Linked(m', d, y) && CtxLinked(m', c, null, y)
  {
    hide Linked, CtxLinked, RotateMem, Nodes, CtxNodes, Unique, UniqueCtx;
    var g := ParentOf(c, null);
    RootIn(b);
    LinkedDomain(m, b, y);
    CtxDomain(m, c, null, x);
    RotateCells(isLeft, m, x, y, Root(b), g);
    var m' := RotateMem(isLeft, m, x);
    LinkedDomain(m, a, x);
    LinkedDomain(m, d, y);
    assert SameOn(m, m', Nodes(a)) && SameOn(m, m', Nodes(d));
    LinkedFrame(m, m', a, x);
    LinkedFrame(m, m', d, y);
    RotateInner(m, m', b, y, x);
    RotateCtx(m, m', c, x, y);
  }

  // The rotation of the pointers is the rotation of the shape.
  lemma RotateHolds<K>(isLeft: bool, m: Memory<K>, root: Node?<K>, c: Ctx<Node<K>>, t: Tree<Node<K>>)
    requires Holds(m, root, c, t) && t.Branch? && Far(isLeft, t).Branch?
    requires t.node in m && Child(!isLeft, m[t.node]) != null && Child(!isLeft, m[t.node]) in m
    ensures Nodes(RotateTowards(isLeft, t)) == Nodes(t)
    ensures Holds(RotateMem(isLeft, m, t.node), if c.Top? then Far(isLeft, t).node else root, c,
        RotateTowards(isLeft, t))
  {
    RotateApart(isLeft, c, t);
    var x, a, s := t.node, Near(isLeft, t), Far(isLeft, t);
    assert Linked(m, s, x) && Linked(m, a, x);
    RotateParts(isLeft, m, c, x, s.node, a, Near(isLeft, s), Far(isLeft, s));
    TopOfRedirect(c, x, s.node);
  }

  lemma RotateApart<N>(isLeft: bool, c: Ctx<N>, t: Tree<N>)
    requires t.Branch? && Far(isLeft, t).Branch? && Apart(c, t)
    ensures Nodes(RotateTowards(isLeft, t)) == Nodes(t) && Apart(c, RotateTowards(isLeft, t))
    ensures
      var x, a, s := t.node, Near(isLeft, t), Far(isLeft, t);
      var y, b, d := s.node, Near(isLeft, s), Far(isLeft, s);
      Unique(b) && Disjoint(x, y, Nodes(a), Nodes(b), Nodes(d), CtxNodes(c))
  {
    var s := Far(isLeft, t);
    assert Unique(s);
    assert Nodes(t) == Nodes(Near(isLeft, t)) + {t.node} + Nodes(s);
    assert Nodes(s) == Nodes(Near(isLeft, s)) + {s.node} + Nodes(Far(isLeft, s));
  }

  // ---------------------------------------------------------------- searching

  // Where a child pointer is stored: the pointer to a pointer the search returns.
  datatype Link<K> = RootLink | ChildLink(of: Node<K>, isLeft: bool)

  ghost function LinkOf<K>(c: Ctx<Node<K>>): Link<K> {
    if c.Top? then RootLink else ChildLink(c.node, c.isLeft)
  }

  // The node at which the descent by the comparator ends, null at a free link.
  ghost function Hit<K>(cmp: (K, K) -> int, t: Tree<Node<K>>, k: K): Node?<K> {
    match t
    case Leaf => null
    case Branch(_, left, n, right) =>
      if cmp(n.key, k) > 0 then Hit(cmp, left, k) else if cmp(n.key, k) < 0 then Hit(cmp, right, k) else n
  }

  // Along `s`, the keys compare below `k`, then equal to it, then above it.
  ghost predicate Monotone<K>(cmp: (K, K) -> int, s: seq<Node<K>>, k: K) {
    forall i, j :: 0 <= i < j < |s| ==>
      && (cmp(s[j].key, k) < 0 ==> cmp(s[i].key, k) < 0)
      && (cmp(s[i].key, k) > 0 ==> cmp(s[j].key, k) > 0)
  }

  ghost predicate AllBelow<K>(cmp: (K, K) -> int, s: seq<Node<K>>, k: K) {
    forall i :: 0 <= i < |s| ==> cmp(s[i].key, k) < 0
  }

  ghost predicate AllAbove<K>(cmp: (K, K) -> int, s: seq<Node<K>>, k: K) {
    forall i :: 0 <= i < |s| ==> cmp(s[i].key, k) > 0
  }

  lemma MonotoneSplit<K>(cmp: (K, K) -> int, s: seq<Node<K>>, k: K, a: seq<Node<K>>, n: Node<K>, b: seq<Node<K>>)
    requires Monotone(cmp, s, k) && s == a + [n] + b
    ensures cmp(n.key, k) < 0 ==> AllBelow(cmp, a, k)
    ensures cmp(n.key, k) > 0 ==> AllAbove(cmp, b, k)
  {
    assert s[|a|] == n;
    forall i | 0 <= i < |a| && cmp(n.key, k) < 0 ensures cmp(a[i].key, k) < 0 { assert s[i] == a[i]; }
    forall i | 0 <= i < |b| && cmp(n.key, k) > 0 ensures cmp(b[i].key, k) > 0 { assert s[|a| + 1 + i] == b[i]; }
  }

  lemma DescendSeq<K>(cmp: (K, K) -> int, k: K, a: seq<Node<K>>, b: seq<Node<K>>, n: Node<K>, d: seq<Node<K>>,
                      e: seq<Node<K>>)
    requires Monotone(cmp, a + (b + [n] + d) + e, k) && AllBelow(cmp, a, k) && AllAbove(cmp, e, k)
    ensures cmp(n.key, k) < 0 ==> AllBelow(cmp, a + (b + [n]), k)
    ensures cmp(n.key, k) > 0 ==> AllAbove(cmp, [n] + d + e, k)
  {
    assert a + (b + [n] + d) + e == (a + b) + [n] + (d + e);
    MonotoneSplit(cmp, a + (b + [n] + d) + e, k, a + b, n, d + e);
    assert a + (b + [n]) == (a + b) + [n];
    assert [n] + d + e == [n] + (d + e);
  }

  // Going down one level keeps what is left of the hole below the key and what is right above it.
  lemma Descend<K>(cmp: (K, K) -> int, k: K, c: Ctx<Node<K>>, t: Tree<Node<K>>)
    requires t.Branch? && Monotone(cmp, InOrder(Plug(c, t)), k)
    requires AllBelow(cmp, Before(c), k) && AllAbove(cmp, After(c), k)
    ensures cmp(t.node.key, k) < 0 ==> AllBelow(cmp, Before(Hole(false, t.red, t.node, t.left, c)), k)
    ensures cmp(t.node.key, k) > 0 ==> AllAbove(cmp, After(Hole(true, t.red, t.node, t.right, c)), k)
  {
    PlugInOrder(c, t);
    DescendSeq(cmp, k, Before(c), InOrder(t.left), t.node, InOrder(t.right), After(c));
  }

  // The memory after `*link = node` on a fresh red node, as the sequence of writes the code does.
  ghost function AttachMem<K>(m: Memory<K>, link: Link<K>, parent: Node?<K>, node: Node<K>): Memory<K>
    requires node in m && (link.ChildLink? ==> link.of in m)
  {
    var m1 := m[node := m[node].(right := null)];
    var m2 := m1[node := m1[node].(left := null)];
    var m3 := m2[node := m2[node].(red := true)];
    var m4 := if link.RootLink? then m3 else m3[link.of := WithChild(link.isLeft, m3[link.of], node)];
    PutParent(m4, node, parent)
  }

  lemma AttachHolds<K>(m: Memory<K>, root: Node?<K>, c: Ctx<Node<K>>, node: Node<K>)
    requires Holds(m, root, c, Leaf) && node !in CtxNodes(c) && node in m && (c.Hole? ==> c.node in m)
    ensures Holds(AttachMem(m, LinkOf(c), ParentOf(c, null), node), if c.Top? then node else root, c,
        Branch(true, Leaf, node, Leaf))
  {
    var m' := AttachMem(m, LinkOf(c), ParentOf(c, null), node);
    TopOfRedirect(c, null, node);
    if c.Hole? {
      LinkedFrame(m, m', c.sibling, c.node);
      CtxFrame(m, m', c.up, null, c.node);
    }
  }

  // ---------------------------------------------------------------- the tree object

  class RbTree<K> {
    var root: Node?<K>
    const cmp: (K, K) -> int
    // false: rb_tree.c line 417 as written; true: the sibling takes the parent's old colour first.
    const inherit: bool
    ghost var shape: Tree<Node<K>>
    ghost var nodes: set<Node<K>>

    constructor (cmp: (K, K) -> int, inherit: bool)
      ensures Valid() && shape == Leaf && this.cmp == cmp && this.inherit == inherit
    {
      root := null;
      this.cmp := cmp;
      this.inherit := inherit;
      shape, nodes := Leaf, {};
    }

    ghost predicate Valid()
      reads this, nodes
    {
      nodes == Nodes(shape) && At(nodes, Top, shape)
    }

    // The pointers of the nodes `s` hold `t` inside `c`.
    ghost predicate At(s: set<Node<K>>, c: Ctx<Node<K>>, t: Tree<Node<K>>)
      reads this`root, s
    {
      CtxNodes(c) + Nodes(t) <= s && Holds(Mem(s), root, c, t)
    }

    // The same tree, looked at from another of its subtrees.
    lemma Look(s: set<Node<K>>, c: Ctx<Node<K>>, t: Tree<Node<K>>, c': Ctx<Node<K>>, t': Tree<Node<K>>)
      requires At(s, c, t) && Plug(c, t) == Plug(c', t')
      ensures At(s, c', t') && CtxNodes(c') + Nodes(t') == CtxNodes(c) + Nodes(t)
    {
      Refocus(Mem(s), root, c, t, c', t');
    }

    // What the pointers around the hole say about the shape.
    lemma Reads(s: set<Node<K>>, c: Ctx<Node<K>>, t: Tree<Node<K>>)
      requires At(s, c, t)
      ensures c.Top? ==> root == Root(t)
      ensures t.Branch? ==> t.node in s && t.node.red == t.red && t.node.parent == ParentOf(c, null)
      ensures t.Branch? ==> t.node.left == Root(t.left) && t.node.right == Root(t.right)
      ensures c.Hole? ==> c.node in s && c.node.red == c.red && c.node.parent == ParentOf(c.up, null)
      ensures c.Hole? ==> c.node.left == if c.isLeft then Root(t) else Root(c.sibling)
      ensures c.Hole? ==> c.node.right == if c.isLeft then Root(c.sibling) else Root(t)
      ensures c.Hole? && c.sibling.Branch? ==>
        && c.sibling.node in s && c.sibling.node.red == c.sibling.red && c.sibling.node != Root(t)
        && c.sibling.node.left == Root(c.sibling.left) && c.sibling.node.right == Root(c.sibling.right)
    {
      HoldsReads(Mem(s), root, c, t);
    }

    // The link that leads to `old'`, in `g` or in the root pointer, is redirected to `new'`.
    method Relink(g: Node?<K>, old': Node<K>, new': Node?<K>, ghost s: set<Node<K>>)
      requires g == null || g in s
      modifies this`root, s
      ensures Mem(s) == PutChild(old(Mem(s)), g, old', new')
      ensures root == if g == null then new' else old(root)
    {
      if g == null {
        root := new';
      } else if g.left == old' {
        g.left := new';
      } else if g.right == old' {
        g.right := new';
      }
    }

    method SetParent(n: Node?<K>, parent: Node?<K>, ghost s: set<Node<K>>)
      requires n == null || n in s
      modifies s
      ensures Mem(s) == PutParent(old(Mem(s)), n, parent)
    {
      if n != null {
        n.parent := parent;
      }
    }

    method SetChild(n: Node<K>, isLeft: bool, child: Node?<K>, ghost s: set<Node<K>>)
      requires n in s
      modifies s
      ensures Mem(s) == old(Mem(s))[n := WithChild(isLeft, old(Mem(s))[n], child)]
    {
      if isLeft {
        n.left := child;
      } else {
        n.right := child;
      }
    }

    method SetRed(n: Node<K>, red: bool, ghost s: set<Node<K>>)
      requires n in s
      modifies s
      ensures Mem(s) == old(Mem(s))[n := old(Mem(s))[n].(red := red)]
    {
      n.red := red;
    }

    method RotateLeft(parent: Node<K>, ghost s: set<Node<K>>)
      requires RotateReady(true, Mem(s), parent)
      modifies this`root, s
      ensures Mem(s) == RotateMem(true, old(Mem(s)), parent)
      ensures root == if old(parent.parent) == null then old(parent.right) else old(root)
    {
      var right := parent.right;
      var pivot := right.left;

      SetChild(parent, false, pivot, s);
      SetParent(pivot, parent, s);

      var gparent := parent.parent;
      SetParent(right, gparent, s);
      Relink(gparent, parent, right, s);

      SetChild(right, true, parent, s);
      SetParent(parent, right, s);
    }

    method RotateRight(parent: Node<K>, ghost s: set<Node<K>>)
      requires RotateReady(false, Mem(s), parent)
      modifies this`root, s
      ensures Mem(s) == RotateMem(false, old(Mem(s)), parent)
      ensures root == if old(parent.parent) == null then old(parent.left) else old(root)
    {
      var left := parent.left;
      var pivot := left.right;

      SetChild(parent, true, pivot, s);
      SetParent(pivot, parent, s);

      var gparent := parent.parent;
      SetParent(left, gparent, s);
      Relink(gparent, parent, left, s);

      SetChild(left, false, parent, s);
      SetParent(parent, left, s);
    }

    // Rotates `x` towards the given side, seen as a change of the shape.
    method Rotate(isLeft: bool, x: Node<K>, ghost s: set<Node<K>>, ghost c: Ctx<Node<K>>, ghost t: Tree<Node<K>>)
      requires At(s, c, t) && t.Branch? && t.node == x && Far(isLeft, t).Branch?
      modifies this`root, s
      ensures At(s, c, RotateTowards(isLeft, t))
    {
      RotateReads(isLeft, Mem(s), root, c, t);
      RotateHolds(isLeft, Mem(s), root, c, t);
      if isLeft {
        RotateLeft(x, s);
      } else {
        RotateRight(x, s);
      }
    }

    // Colours node `n`, which is the root of the subtree `t'` of the tree.
    method Recolour(n: Node<K>, red: bool, ghost s: set<Node<K>>, ghost c: Ctx<Node<K>>, ghost t: Tree<Node<K>>,
                    ghost c': Ctx<Node<K>>, ghost t': Tree<Node<K>>)
      requires At(s, c, t) && Plug(c, t) == Plug(c', t') && t'.Branch? && t'.node == n
      modifies s
      ensures At(s, c', Paint(red, t'))
    {
      Refocus(Mem(s), root, c, t, c', t');
      PaintHolds(Mem(s), root, c', t', red);
      SetRed(n, red, s);
    }

    // rb_handle_insert_fixup_rotation
    method InsertRotation(gparent: Node<K>, parent: Node<K>, parentLeft: bool, nodeLeft: bool,
                          ghost s: set<Node<K>>, ghost c: Ctx<Node<K>>, ghost t: Tree<Node<K>>)
      requires At(s, c, t) && IsRed(t) && c.Hole? && c.red && c.up.Hole?
      requires parent == c.node && gparent == c.up.node && nodeLeft == c.isLeft && parentLeft == c.up.isLeft
      modifies this`root, s
      ensures At(s, c.up.up, InsertRotate(parentLeft, nodeLeft, t, parent, c.sibling, gparent, c.up.sibling))
    {
      hide At;
      ghost var up2, pt := c.up.up, Make(nodeLeft, true, t, parent, c.sibling);
      if parentLeft != nodeLeft {
        Look(s, c, t, c.up, pt);
        Rotate(parentLeft, parent, s, c.up, pt);
        pt := RotateTowards(parentLeft, pt);
      }
      ghost var gt := Make(parentLeft, c.up.red, pt, gparent, c.up.sibling);
      if parentLeft != nodeLeft {
        Look(s, c.up, pt, up2, gt);
      } else {
        Look(s, c, t, up2, gt);
      }
      Rotate(!parentLeft, gparent, s, up2, gt);
      ghost var top := RotateTowards(!parentLeft, gt);

      ghost var cg := Hole(!parentLeft, top.red, top.node, Near(parentLeft, top), up2);
      Look(s, up2, top, cg, Far(parentLeft, top));
      Reads(s, cg, Far(parentLeft, top));
      var newTop := gparent.parent;
      Recolour(newTop, false, s, up2, top, up2, top);
      ghost var black := Paint(false, top);
      Recolour(gparent, true, s, up2, black,
               Hole(!parentLeft, false, top.node, Near(parentLeft, top), up2), Far(parentLeft, top));
      ghost var g' := Paint(true, Far(parentLeft, top));
      Look(s, Hole(!parentLeft, false, top.node, Near(parentLeft, top), up2), g',
           up2, Make(!parentLeft, false, g', top.node, Near(parentLeft, top)));
    }

    // get_sibling
    method GetSibling(n: Node<K>) returns (r: Node?<K>)
      ensures n.parent == null ==> r == null
      ensures n.parent != null ==> r == if n.parent.left == n then n.parent.right else n.parent.left
    {
      var parent := n.parent;
      if parent == null {
        return null;
      }
      r := if parent.left == n then parent.right else parent.left;
    }

    // The recolouring step of insertion: red parent, red uncle.
    method PushRedUp(uncle: Node<K>, parent: Node<K>, gparent: Node<K>,
                     ghost s: set<Node<K>>, ghost c: Ctx<Node<K>>, ghost t: Tree<Node<K>>)
      requires At(s, c, t) && c.Hole? && c.up.Hole? && c.up.sibling.Branch?
      requires parent == c.node && gparent == c.up.node && uncle == c.up.sibling.node
      modifies s
      ensures At(s, c.up.up,
          Make(c.up.isLeft, true, Make(c.isLeft, false, t, parent, c.sibling), gparent, Paint(false, c.up.sibling)))
    {
      hide At;
      ghost var g, up2 := c.up, c.up.up;
      ghost var pt := Make(c.isLeft, c.red, t, parent, c.sibling);
      ghost var cu := Hole(!g.isLeft, g.red, gparent, pt, up2);
      Recolour(uncle, false, s, c, t, cu, g.sibling);
      ghost var u' := Paint(false, g.sibling);
      ghost var cp := Hole(g.isLeft, g.red, gparent, u', up2);
      Recolour(parent, false, s, cu, u', cp, pt);
      ghost var p' := Paint(false, pt);
      Recolour(gparent, true, s, cp, p', up2, Make(g.isLeft, g.red, p', gparent, u'));
    }

    method BlackenRoot(ghost s: set<Node<K>>, ghost t: Tree<Node<K>>)
      requires At(s, Top, t) && root != null
      modifies s
      ensures At(s, Top, Paint(false, t))
    {
      Reads(s, Top, t);
      Recolour(root, false, s, Top, t, Top, t);
    }

    // rb_insert_fixup
    method InsertFixup(node: Node<K>, ghost s: set<Node<K>>, ghost c: Ctx<Node<K>>, ghost t: Tree<Node<K>>)
      requires At(s, c, t) && IsRed(t) && node == t.node
      modifies this`root, s
      ensures At(s, Top, InsertFix(c, t))
      decreases c
    {
      hide At;
      Reads(s, c, t);
      var parent := node.parent;
      if parent == null {
        BlackenRoot(s, t);
        return;
      }
      Look(s, c, t, c.up, Make(c.isLeft, c.red, t, c.node, c.sibling));
      Reads(s, c.up, Make(c.isLeft, c.red, t, c.node, c.sibling));
      if !parent.red {
        Look(s, c, t, Top, Plug(c, t));
        return;
      }
      var gparent := parent.parent;
      if gparent == null {
        Look(s, c, t, Top, Plug(c, t));
        return;
      }
      ghost var done := InsertFix(c, t);
      var uncle := GetSibling(parent);
      if uncle != null && uncle.red {
        PushRedUp(uncle, parent, gparent, s, c, t);
        ghost var top := Make(c.up.isLeft, true, Make(c.isLeft, false, t, parent, c.sibling), gparent,
          Paint(false, c.up.sibling));
        InsertFixup(gparent, s, c.up.up, top);
        done := InsertFix(c.up.up, top);
        InsertFixBranch(c.up.up, top);
        Reads(s, Top, done);
      } else {
        var parentLeft := gparent.left == parent;
        var nodeLeft := parent.left == node;
        done := InsertTurn(gparent, parent, parentLeft, nodeLeft, s, c, t);
      }
      BlackenRoot(s, done);
    }

    // Its rotation case, seen from the root.
    method InsertTurn(gparent: Node<K>, parent: Node<K>, parentLeft: bool, nodeLeft: bool,
                      ghost s: set<Node<K>>, ghost c: Ctx<Node<K>>, ghost t: Tree<Node<K>>)
      returns (ghost done: Tree<Node<K>>)
      requires At(s, c, t) && IsRed(t) && c.Hole? && c.red && c.up.Hole?
      requires parent == c.node && gparent == c.up.node && nodeLeft == c.isLeft && parentLeft == c.up.isLeft
      modifies this`root, s
      ensures At(s, Top, done) && root != null
      ensures done ==
        Plug(c.up.up, InsertRotate(parentLeft, nodeLeft, t, parent, c.sibling, gparent, c.up.sibling))
    {
      hide At;
      InsertRotation(gparent, parent, parentLeft, nodeLeft, s, c, t);
      ghost var x := InsertRotate(parentLeft, nodeLeft, t, parent, c.sibling, gparent, c.up.sibling);
      done := Plug(c.up.up, x);
      Look(s, c.up.up, x, Top, done);
      InsertFixBranch(c.up.up, x);
      Reads(s, Top, done);
    }

    // rb_find_node_link: `found` is what the link holds, `parent` the last node visited.
    method FindLink(data: K) returns (link: Link<K>, found: Node?<K>, parent: Node?<K>,
                                      ghost c: Ctx<Node<K>>, ghost t: Tree<Node<K>>)
      requires Valid()
      ensures Valid() && At(nodes, c, t) && Plug(c, t) == shape && found == Root(t)
      ensures CtxNodes(c) + Nodes(t) == nodes
      ensures found != null ==> found in nodes && cmp(found.key, data) == 0
      ensures found == null ==> link == LinkOf(c) && parent == ParentOf(c, null)
      ensures Monotone(cmp, InOrder(shape), data) ==> AllBelow(cmp, Before(c), data) && AllAbove(cmp, After(c), data)
      ensures found == Hit(cmp, shape, data)
    {
      hide At;
      Reads(nodes, Top, shape);
      link, found, parent := RootLink, root, null;
      c, t := Top, shape;
      while found != null
        invariant Valid() && At(nodes, c, t) && CtxNodes(c) + Nodes(t) == nodes && Plug(c, t) == shape
        invariant found == Root(t)
        invariant link == LinkOf(c) && parent == ParentOf(c, null)
        invariant Monotone(cmp, InOrder(shape), data) ==>
          AllBelow(cmp, Before(c), data) && AllAbove(cmp, After(c), data)
        invariant Hit(cmp, t, data) == Hit(cmp, shape, data)
        decreases t
      {
        Reads(nodes, c, t);
        if Monotone(cmp, InOrder(shape), data) { Descend(cmp, data, c, t); }
        parent := found;
        var result := cmp(found.key, data);
        if result > 0 {
          link, found := ChildLink(found, true), found.left;
          ghost var c' := Hole(true, t.red, t.node, t.right, c);
          Look(nodes, c, t, c', t.left);
          c, t := c', t.left;
        } else if result < 0 {
          link, found := ChildLink(found, false), found.right;
          ghost var c' := Hole(false, t.red, t.node, t.left, c);
          Look(nodes, c, t, c', t.right);
          c, t := c', t.right;
        } else {
          break;
        }
      }
    }

    // rb_search
    method Search(key: K) returns (r: Node?<K>)
      requires Valid()
      ensures Valid()
      ensures r == Hit(cmp, shape, key) && (r != null ==> r in nodes && cmp(r.key, key) == 0)
      ensures Monotone(cmp, InOrder(shape), key) && r == null ==> forall n <- nodes :: cmp(n.key, key) != 0
    {
      ghost var c, t;
      var link, parent;
      link, r, parent, c, t := FindLink(key);
      if r == null { SearchMiss(cmp, key, c, shape); }
    }

    // The writes of rb_insert up to the fixup.
    method Attach(node: Node<K>, link: Link<K>, parent: Node?<K>, ghost s: set<Node<K>>)
      requires node in s && (link.ChildLink? ==> link.of in s && link.of != node)
      modifies this`root, s
      ensures Mem(s) == AttachMem(old(Mem(s)), link, parent, node)
      ensures root == if link.RootLink? then node else old(root)
    {
      SetChild(node, false, null, s);
      SetChild(node, true, null, s);
      SetRed(node, true, s);
      match link {
        case RootLink => root := node;
        case ChildLink(of, isLeft) => SetChild(of, isLeft, node, s);
      }
      SetParent(node, parent, s);
    }

    method AttachAt(node: Node<K>, link: Link<K>, parent: Node?<K>, ghost s: set<Node<K>>, ghost c: Ctx<Node<K>>)
      requires At(s, c, Leaf) && node in s && node !in CtxNodes(c) && link == LinkOf(c) && parent == ParentOf(c, null)
      modifies this`root, s
      ensures At(s, c, Branch(true, Leaf, node, Leaf))
    {
      assert c.Hole? ==> c.node in CtxNodes(c);
      AttachHolds(Mem(s), root, c, node);
      Attach(node, link, parent, s);
    }

    lemma Settle(s: set<Node<K>>, t: Tree<Node<K>>)
      requires At(s, Top, t) && s == Nodes(t) && shape == t && nodes == s
      ensures Valid()
    {
    }

    lemma Grow(s: set<Node<K>>, s': set<Node<K>>, c: Ctx<Node<K>>, t: Tree<Node<K>>)
      requires At(s, c, t) && s <= s'
      ensures At(s', c, t)
    {
      HoldsFrame(Mem(s), Mem(s'), root, c, t);
    }

    // rb_insert: null and nothing changed when a node comparing equal was met,
    // otherwise the node, now at position `at` of the in-order sequence.
    method Insert(node: Node<K>) returns (r: Node?<K>, ghost at: nat)
      requires Valid() && node !in nodes
      modifies this, nodes, node
      ensures Valid()
      ensures nodes == if r == null then old(nodes) else old(nodes) + {node}
      ensures r == null ==> shape == old(shape) && exists n <- nodes :: cmp(n.key, node.key) == 0
      ensures r != null ==> r == node && at <= |old(InOrder(shape))|
      ensures r != null ==> InOrder(shape) == old(InOrder(shape))[..at] + [node] + old(InOrder(shape))[at..]
      ensures r != null && Monotone(cmp, old(InOrder(shape)), node.key) ==>
        AllBelow(cmp, old(InOrder(shape))[..at], node.key) && AllAbove(cmp, old(InOrder(shape))[at..], node.key)
      ensures old(RedBlack(shape)) ==> RedBlack(shape)
      ensures old(RedBlack(shape) && Balanced(shape)) ==> Balanced(shape)
    {
      hide At, Monotone, AllBelow, AllAbove, InOrder, NoRedRed, Balanced, CtxNodes, Nodes;
      ghost var c, t;
      var link, found, parent;
      link, found, parent, c, t := FindLink(node.key);
      at := |Before(c)|;
      if found != null {
        return null, at;
      }
      InsertCorrect(c, node);
      AttachAndFix(node, link, parent, c);
      r := node;
    }

    method AttachAndFix(node: Node<K>, link: Link<K>, parent: Node?<K>, ghost c: Ctx<Node<K>>)
      requires Valid() && node !in nodes
      requires At(nodes, c, Leaf) && CtxNodes(c) + Nodes<Node<K>>(Leaf) == nodes && link == LinkOf(c)
      requires parent == ParentOf(c, null)
      modifies this, nodes, node
      ensures Valid() && shape == RbShape.Insert(c, node) && nodes == old(nodes) + {node}
    {
      hide Holds;
      ghost var s := nodes + {node};
      Grow(nodes, s, c, Leaf);
      AttachAt(node, link, parent, s, c);
      ghost var leaf := Branch(true, Leaf, node, Leaf);
      InsertFixup(node, s, c, leaf);
      InsertFixNodes(c, leaf);
      shape, nodes := InsertFix(c, leaf), s;
      Settle(s, InsertFix(c, leaf));
    }

    // rb_transplant: the subtree `x`, rooted at `new'`, takes the place of `t`, rooted at `old'`.
    method Transplant(old': Node<K>, new': Node?<K>, ghost s: set<Node<K>>,
                      ghost c: Ctx<Node<K>>, ghost t: Tree<Node<K>>, ghost x: Tree<Node<K>>, ghost p: Node?<K>)
      requires At(s, c, t) && t.Branch? && t.node == old' && new' == Root(x)
      requires Apart(c, x) && Nodes(x) <= s && Linked(Mem(s), x, p)
      modifies this`root, s
      ensures At(s, c, x)
    {
      hide Linked;
      hide CtxLinked;
      Reads(s, c, t);
      TransplantHolds(Mem(s), root, c, t, x, p);
      var parent := old'.parent;
      Relink(parent, old', new', s);
      SetParent(new', parent, s);
    }

    // rb_find_successor: the leftmost node of the right subtree `r`, null when there is none.
    method FindSuccessor(node: Node<K>, ghost s: set<Node<K>>, ghost base: Ctx<Node<K>>, ghost r: Tree<Node<K>>)
      returns (succ: Node?<K>)
      requires At(s, base, r) && node in s && node.right == Root(r)
      ensures At(s, base, r)
      ensures r.Leaf? ==> succ == null
      ensures r.Branch? ==> Leftmost(Top, r).1.Branch? && succ == Leftmost(Top, r).1.node
    {
      hide At;
      succ := node.right;
      if succ == null {
        return;
      }
      ghost var c, t := base, r;
      Reads(s, c, t);
      while succ.left != null
        invariant At(s, base, r) && At(s, c, t) && t.Branch? && succ == t.node && succ in s
        invariant Leftmost(Top, t).1 == Leftmost(Top, r).1
        decreases t
      {
        Reads(s, c, t);
        ghost var c' := Hole(true, t.red, t.node, t.right, c);
        LeftmostAnyCtx(Hole(true, t.red, t.node, t.right, Top), Top, t.left);
        Look(s, c, t, c', t.left);
        c, t := c', t.left;
        Reads(s, c, t);
        succ := succ.left;
      }
      Reads(s, c, t);
    }

    // The writes of rb_delete_configure_nuclear_node that put the successor in the deleted node's place.
    method TakePlace(d: Node<K>, y: Node<K>, ghost s: set<Node<K>>)
      requires d in s && y in s && d != y && (d.parent == null || (d.parent in s && d.parent != d && d.parent != y))
      requires d.left == null || d.left in s
      modifies this`root, s
      ensures Mem(s) == TakePlaceMem(old(Mem(s)), d, y)
      ensures root == if old(d.parent) == null then y else old(root)
    {
      var parent := d.parent;
      Relink(parent, d, y, s);
      SetParent(y, parent, s);
      assert d.left == Mem(s)[d].left;
      Adopt(d, y, s);
    }

    method Adopt(d: Node<K>, y: Node<K>, ghost s: set<Node<K>>)
      requires d in s && y in s && d != y && (d.left == null || d.left in s)
      modifies s
      ensures Mem(s) == AdoptMem(old(Mem(s)), d, y)
    {
      SetRed(y, d.red, s);
      assert d.left == Mem(s)[d].left;
      SetChild(y, true, d.left, s);
      assert y.left == Mem(s)[y].left;
      SetParent(y.left, y, s);
      SetRed(d, y.red, s);
    }

    method TakePlaceAt(d: Node<K>, y: Node<K>, ghost s: set<Node<K>>,
                       ghost c: Ctx<Node<K>>, ghost red: bool, ghost l: Tree<Node<K>>, ghost r: Tree<Node<K>>)
      requires Displaced(Mem(s), root, c, red, l, d, y, r)
      requires CtxNodes(c) + Nodes(l) + Nodes(r) + {d, y} <= s
      modifies this`root, s
      ensures At(s, c, Branch(red, l, y, r))
    {
      hide Holds, TakePlaceMem;
      TakePlaceHolds(Mem(s), root, c, red, l, d, y, r);
      CtxDomain(Mem(s), c, null, d);
      RootIn(l);
      TakePlace(d, y, s);
    }

    // rb_delete_configure_nuclear_node: the deleted node has two children.
    method TakeOutInner(d: Node<K>, ghost s: set<Node<K>>, ghost c: Ctx<Node<K>>, ghost t: Tree<Node<K>>)
      returns (wasBlack: bool, fix: Node?<K>, fixParent: Node?<K>)
      requires At(s, c, t) && t.Branch? && t.node == d && t.left.Branch? && t.right.Branch?
      modifies this`root, s
      ensures var (fc, ft, black) := TakeOut(c, t);
        At(s, fc, ft) && wasBlack == black && fix == Root(ft) && fixParent == ParentOf(fc, null)
    {
      hide Holds;
      ghost var l, r := t.left, t.right;
      ghost var base := Hole(false, t.red, d, l, c);
      Look(s, c, t, base, r);
      Reads(s, c, t);
      var succ := FindSuccessor(d, s, base, r);
      ghost var (cr, m) := Leftmost(Top, r);
      LeftmostFacts(Top, r);
      ghost var full := Compose(cr, base);
      PlugCompose(cr, base, m);
      PlugCompose(cr, base, m.right);
      PlugCompose(cr, Hole(false, t.red, succ, l, c), m.right);
      Look(s, base, r, full, m);
      Reads(s, full, m);
      wasBlack := !succ.red;
      fix := succ.right;
      SuccessorIsChild(Mem(s), root, cr, base, m);
      if succ.parent == d {
        fixParent := succ;
        ChildDisplaced(Mem(s), root, c, t);
        TakePlaceAt(d, succ, s, c, t.red, l, m.right);
        Look(s, c, Branch(t.red, l, succ, m.right), Hole(false, t.red, succ, l, c), m.right);
      } else {
        fixParent := succ.parent;
        Detach(d, succ, s, c, t, cr, m);
        TakePlaceAt(d, succ, s, c, t.red, l, Plug(cr, m.right));
        Look(s, c, Branch(t.red, l, succ, Plug(cr, m.right)), Compose(cr, Hole(false, t.red, succ, l, c)), m.right);
        Reads(s, Compose(cr, Hole(false, t.red, succ, l, c)), m.right);
      }
    }

    // Cuts the successor out of the right subtree and gives that subtree to it.
    method Detach(d: Node<K>, succ: Node<K>, ghost s: set<Node<K>>, ghost c: Ctx<Node<K>>, ghost t: Tree<Node<K>>,
                  ghost cr: Ctx<Node<K>>, ghost m: Tree<Node<K>>)
      requires t.Branch? && t.node == d && cr.Hole? && m.Branch? && m.left.Leaf? && m.node == succ
      requires t.right == Plug(cr, m) && At(s, Compose(cr, Hole(false, t.red, d, t.left, c)), m)
      modifies this`root, s
      ensures Displaced(Mem(s), root, c, t.red, t.left, d, succ, Plug(cr, m.right))
      ensures CtxNodes(c) + Nodes(t.left) + Nodes(Plug(cr, m.right)) + {d, succ} <= s
    {
      hide At, Displaced, Plug, Compose, Nodes, CtxNodes;
      CutSuccessor(d, succ, s, c, t, cr, m);
      PlugHole(cr, m.right);
      AdoptRight(d, succ, s, c, t.red, t.left, Plug(cr, m.right));
    }

    // rb_transplant of the successor by its right subtree.
    method CutSuccessor(d: Node<K>, succ: Node<K>, ghost s: set<Node<K>>, ghost c: Ctx<Node<K>>, ghost t: Tree<Node<K>>,
                        ghost cr: Ctx<Node<K>>, ghost m: Tree<Node<K>>)
      requires t.Branch? && t.node == d && cr.Hole? && m.Branch? && m.left.Leaf? && m.node == succ
      requires t.right == Plug(cr, m) && At(s, Compose(cr, Hole(false, t.red, d, t.left, c)), m)
      modifies this`root, s
      ensures At(s, c, Branch(t.red, t.left, d, Plug(cr, m.right)))
      ensures succ in s && succ !in CtxNodes(c) && succ !in Nodes(Branch(t.red, t.left, d, Plug(cr, m.right)))
    {
      hide Holds, Linked, CtxLinked, Unique, UniqueCtx;
      ghost var base := Hole(false, t.red, d, t.left, c);
      ghost var full, r' := Compose(cr, base), Plug(cr, m.right);
      CutOut(Mem(s), root, full, m);
      Reads(s, full, m);
      Transplant(succ, succ.right, s, full, m, m.right, succ);
      PlugCompose(cr, base, m.right);
      Look(s, full, m.right, c, Branch(t.red, t.left, d, r'));
      PlugNodes(full, m.right);
      PlugNodes(c, Branch(t.red, t.left, d, r'));
    }

    // The successor takes over the right subtree `r` of `d`.
    method AdoptRight(d: Node<K>, succ: Node<K>, ghost s: set<Node<K>>, ghost c: Ctx<Node<K>>, ghost red: bool,
                      ghost l: Tree<Node<K>>, ghost r: Tree<Node<K>>)
      requires At(s, c, Branch(red, l, d, r)) && r.Branch?
      requires succ in s && succ !in CtxNodes(c) && succ !in Nodes(Branch(red, l, d, r))
      modifies s
      ensures Displaced(Mem(s), root, c, red, l, d, succ, r)
      ensures CtxNodes(c) + Nodes(l) + Nodes(r) + {d, succ} <= s
    {
      hide Holds, Displaced;
      Reads(s, c, Branch(red, l, d, r));
      DetachHolds(Mem(s), root, c, red, l, d, r, succ);
      SetChild(succ, false, d.right, s);
      SetParent(succ.right, succ, s);
    }

    // rb_configure_delete
    method TakeOutNode(d: Node<K>, ghost s: set<Node<K>>, ghost c: Ctx<Node<K>>, ghost t: Tree<Node<K>>)
      returns (wasBlack: bool, fix: Node?<K>, fixParent: Node?<K>)
      requires At(s, c, t) && t.Branch? && t.node == d
      modifies this`root, s
      ensures var (fc, ft, black) := TakeOut(c, t);
        At(s, fc, ft) && wasBlack == black && fix == Root(ft) && fixParent == ParentOf(fc, null)
    {
      hide Holds;
      Reads(s, c, t);
      if d.left == null {
        fix, fixParent, wasBlack := d.right, d.parent, !d.red;
        CutOut(Mem(s), root, c, t);
        Transplant(d, d.right, s, c, t, t.right, d);
      } else if d.right == null {
        fix, fixParent, wasBlack := d.left, d.parent, !d.red;
        CutOutLeft(Mem(s), root, c, t);
        Transplant(d, d.left, s, c, t, t.left, d);
      } else {
        wasBlack, fix, fixParent := TakeOutInner(d, s, c, t);
      }
    }

    // The zigzag step of rb_delete_fixup_sibling_black_child_red: the sibling's
    // red inner child becomes the sibling.
    method Straighten(sibling: Node<K>, isLeft: bool, ghost s: set<Node<K>>, ghost c: Ctx<Node<K>>,
                      ghost t: Tree<Node<K>>)
      requires At(s, c, t) && c.Hole? && c.isLeft == isLeft && c.sibling.Branch? && sibling == c.sibling.node
      requires Near(isLeft, c.sibling).Branch?
      modifies this`root, s
      ensures
        var bent := Make(isLeft, true, Paint(false, Near(isLeft, c.sibling)), sibling, Far(isLeft, c.sibling));
        At(s, Hole(isLeft, c.red, c.node, RotateTowards(!isLeft, bent), c.up), t)
    {
      hide At;
      ghost var cs := Hole(!isLeft, c.red, c.node, t, c.up);
      ghost var near, far := Near(isLeft, c.sibling), Far(isLeft, c.sibling);
      ghost var cn := Hole(isLeft, c.sibling.red, sibling, far, cs);
      Look(s, c, t, cs, c.sibling);
      Reads(s, cs, c.sibling);
      var nephew := if isLeft then sibling.left else sibling.right;
      Recolour(nephew, false, s, cs, c.sibling, cn, near);
      ghost var bent := Make(isLeft, c.sibling.red, Paint(false, near), sibling, far);
      Recolour(sibling, true, s, cn, Paint(false, near), cs, bent);
      bent := Paint(true, bent);
      Rotate(!isLeft, sibling, s, cs, bent);
      Look(s, cs, RotateTowards(!isLeft, bent), Hole(isLeft, c.red, c.node, RotateTowards(!isLeft, bent), c.up), t);
    }

    // The line step: blacken the parent (and, when repaired, hand its colour to the sibling) ...
    method RecolourLine(parent: Node<K>, sibling: Node<K>, isLeft: bool, ghost s: set<Node<K>>, ghost c: Ctx<Node<K>>,
                        ghost t: Tree<Node<K>>)
      requires At(s, c, t) && c.Hole? && c.isLeft == isLeft && c.node == parent && c.sibling.Branch?
      requires sibling == c.sibling.node
      modifies s
      ensures At(s, Hole(!isLeft, false, parent, t, c.up), if inherit then Paint(c.red, c.sibling) else c.sibling)
    {
      hide At;
      ghost var x, up := c.sibling, c.up;
      ghost var pt := Make(isLeft, c.red, t, parent, x);
      Reads(s, c, t);
      var oldColour := parent.red;
      Recolour(parent, false, s, c, t, up, pt);
      ghost var cs := Hole(!isLeft, false, parent, t, up);
      Look(s, up, Paint(false, pt), cs, x);
      if inherit {
        Recolour(sibling, oldColour, s, cs, x, cs, x);
      }
    }

    // ... then blacken the outer nephew and rotate the parent.
    method FinishLine(parent: Node<K>, sibling: Node<K>, isLeft: bool, ghost s: set<Node<K>>, ghost cs: Ctx<Node<K>>,
                      ghost x: Tree<Node<K>>)
      requires At(s, cs, x) && cs.Hole? && cs.isLeft == !isLeft && cs.node == parent && !cs.red && x.Branch?
      requires x.node == sibling
      modifies this`root, s
      ensures At(s, cs.up, Make(isLeft, x.red, Make(isLeft, false, cs.sibling, parent, Near(isLeft, x)), sibling,
          Paint(false, Far(isLeft, x))))
    {
      hide At;
      ghost var near, far := Near(isLeft, x), Far(isLeft, x);
      Reads(s, cs, x);
      var nephew := if isLeft then sibling.right else sibling.left;
      ghost var pt := Make(isLeft, false, cs.sibling, parent, Make(isLeft, x.red, near, sibling, Paint(false, far)));
      if nephew != null {
        ghost var cf := Hole(!isLeft, x.red, sibling, near, cs);
        Recolour(nephew, false, s, cs, x, cf, far);
        Look(s, cf, Paint(false, far), cs.up, pt);
      } else {
        Look(s, cs, x, cs.up, pt);
      }
      Rotate(isLeft, parent, s, cs.up, pt);
    }

    // rb_delete_fixup_sibling_black_child_red
    method FixRedNephew(parent: Node<K>, sibling: Node<K>, isLeft: bool, ghost s: set<Node<K>>, ghost c: Ctx<Node<K>>,
                        ghost t: Tree<Node<K>>)
      requires At(s, c, t) && c.Hole? && c.isLeft == isLeft && c.node == parent && c.sibling.Branch?
      requires sibling == c.sibling.node
      modifies this`root, s
      ensures At(s, c.up, FixRedChild(inherit, isLeft, c.red, t, parent, c.sibling))
    {
      hide At;
      Reads(s, c, t);
      ReadsNephews(s, c, t);
      var nephew := if isLeft then sibling.left else sibling.right;
      if nephew != null && nephew.red {
        Straighten(sibling, isLeft, s, c, t);
        ghost var bent := Make(isLeft, true, Paint(false, Near(isLeft, c.sibling)), sibling, Far(isLeft, c.sibling));
        ghost var c' := Hole(isLeft, c.red, parent, RotateTowards(!isLeft, bent), c.up);
        Reads(s, c', t);
        var sibling' := if isLeft then parent.right else parent.left;
        FixLine(parent, sibling', isLeft, s, c', t);
      } else {
        FixLine(parent, sibling, isLeft, s, c, t);
      }
    }

    // The line case.
    method FixLine(parent: Node<K>, sibling: Node<K>, isLeft: bool, ghost s: set<Node<K>>, ghost c: Ctx<Node<K>>,
                   ghost t: Tree<Node<K>>)
      requires At(s, c, t) && c.Hole? && c.isLeft == isLeft && c.node == parent && c.sibling.Branch?
      requires sibling == c.sibling.node
      modifies this`root, s
      ensures
        var x := if inherit then Paint(c.red, c.sibling) else c.sibling;
        At(s, c.up, Make(isLeft, x.red, Make(isLeft, false, t, parent, Near(isLeft, x)), sibling,
                         Paint(false, Far(isLeft, x))))
    {
      hide At;
      RecolourLine(parent, sibling, isLeft, s, c, t);
      FinishLine(parent, sibling, isLeft, s, Hole(!isLeft, false, parent, t, c.up),
                 if inherit then Paint(c.red, c.sibling) else c.sibling);
    }

    lemma ReadsNephews(s: set<Node<K>>, c: Ctx<Node<K>>, t: Tree<Node<K>>)
      requires At(s, c, t) && c.Hole? && c.sibling.Branch?
      ensures c.sibling.left.Branch? ==> c.sibling.left.node in s && c.sibling.left.node.red == c.sibling.left.red
      ensures c.sibling.right.Branch? ==> c.sibling.right.node in s && c.sibling.right.node.red == c.sibling.right.red
    {
      assert Linked(Mem(s), c.sibling, c.node);
      assert Linked(Mem(s), c.sibling.left, c.sibling.node) && Linked(Mem(s), c.sibling.right, c.sibling.node);
    }

    // rb_delete_fixup_sibling_red
    method FixRedSibling(parent: Node<K>, sibling: Node<K>, isLeft: bool, ghost s: set<Node<K>>, ghost c: Ctx<Node<K>>,
                         ghost t: Tree<Node<K>>)
      requires At(s, c, t) && c.Hole? && c.isLeft == isLeft && c.node == parent && IsRed(c.sibling)
      requires sibling == c.sibling.node
      modifies this`root, s
      ensures At(s, Hole(isLeft, true, parent, Near(isLeft, c.sibling),
                         Hole(isLeft, false, sibling, Far(isLeft, c.sibling), c.up)), t)
    {
      hide At;
      ghost var x, up := c.sibling, c.up;
      ghost var cs := Hole(!isLeft, c.red, parent, t, up);
      Recolour(sibling, false, s, c, t, cs, x);
      ghost var pt := Make(isLeft, c.red, t, parent, Paint(false, x));
      Recolour(parent, true, s, cs, Paint(false, x), up, pt);
      pt := Paint(true, pt);
      Rotate(isLeft, parent, s, up, pt);
      Look(s, up, RotateTowards(isLeft, pt),
           Hole(isLeft, true, parent, Near(isLeft, x), Hole(isLeft, false, sibling, Far(isLeft, x), up)), t);
    }

    // The first half of an iteration of rb_delete_fixup: find the sibling, and if it is
    // red rotate it away. The sibling found may be missing.
    method BlackSibling(node: Node?<K>, parent: Node<K>, ghost s: set<Node<K>>, ghost c: Ctx<Node<K>>,
                        ghost t: Tree<Node<K>>)
      returns (isLeft: bool, sibling: Node?<K>, ghost c': Ctx<Node<K>>)
      requires At(s, c, t) && c.Hole? && node == Root(t) && parent == c.node && !IsRed(t) && ColourPending(c, t)
      modifies this`root, s
      ensures c' == Levelled(c) && c'.Hole? && sibling == Root(c'.sibling)
      ensures sibling != null ==> At(s, c', t) && c'.node == parent && isLeft == c'.isLeft && !c'.sibling.red
    {
      hide Holds, DeleteFix;
      DeleteFixStep(inherit, c, t);
      Reads(s, c, t);
      isLeft := node == parent.left;
      sibling := if isLeft then parent.right else parent.left;
      c' := Levelled(c);
      if sibling != null && sibling.red {
        FixRedSibling(parent, sibling, isLeft, s, c, t);
        Reads(s, c', t);
        sibling := if isLeft then parent.right else parent.left;
      }
    }

    // Sibling with two black children: recolour it and look at the parent next.
    method PassUp(parent: Node<K>, sibling: Node<K>, isLeft: bool, ghost s: set<Node<K>>, ghost c: Ctx<Node<K>>,
                  ghost t: Tree<Node<K>>)
      requires At(s, c, t) && c.Hole? && c.isLeft == isLeft && c.node == parent && c.sibling.Branch?
      requires sibling == c.sibling.node
      modifies s
      ensures At(s, c.up, Make(isLeft, c.red, t, parent, Paint(true, c.sibling)))
    {
      hide At;
      ghost var cs := Hole(!isLeft, c.red, parent, t, c.up);
      Recolour(sibling, true, s, c, t, cs, c.sibling);
      Look(s, cs, Paint(true, c.sibling), c.up, Make(isLeft, c.red, t, parent, Paint(true, c.sibling)));
    }

    // Sibling with a red child: rotate, then blacken the root.
    method EndFix(parent: Node<K>, sibling: Node<K>, isLeft: bool, ghost s: set<Node<K>>, ghost c: Ctx<Node<K>>,
                  ghost t: Tree<Node<K>>)
      requires At(s, c, t) && c.Hole? && c.isLeft == isLeft && c.node == parent && c.sibling.Branch?
      requires sibling == c.sibling.node
      modifies this`root, s
      ensures At(s, Top, Paint(false, Plug(c.up, FixRedChild(inherit, isLeft, c.red, t, parent, c.sibling))))
    {
      hide At;
      FixRedNephew(parent, sibling, isLeft, s, c, t);
      ghost var x := FixRedChild(inherit, isLeft, c.red, t, parent, c.sibling);
      Look(s, c.up, x, Top, Plug(c.up, x));
      PlugBranch(c.up, x);
      Reads(s, Top, Plug(c.up, x));
      BlackenRoot(s, Plug(c.up, x));
    }

    // One iteration of rb_delete_fixup; `done` is its break. It is not `ok` when it
    // would read the children of a missing sibling.
    method FixStep(node: Node?<K>, parent: Node<K>, ghost s: set<Node<K>>, ghost c: Ctx<Node<K>>,
                   ghost t: Tree<Node<K>>)
      returns (ok: bool, done: bool, node': Node?<K>, parent': Node?<K>, ghost c': Ctx<Node<K>>,
        ghost t': Tree<Node<K>>)
      requires At(s, c, t) && c.Hole? && node == Root(t) && parent == c.node && !IsRed(t) && ColourPending(c, t)
      modifies this`root, s
      ensures !ok ==> !Safe(c, t)
      ensures ok && done ==> Safe(c, t) && At(s, Top, DeleteFix(inherit, c, t))
      ensures ok && !done ==> At(s, c', t') && node' == Root(t') && parent' == ParentOf(c', null)
      ensures ok && !done ==> DeleteFix(inherit, c', t') == DeleteFix(inherit, c, t) && (Safe(c', t') <==> Safe(c, t))
      ensures ok && !done ==> IsRed(t') || (ColourPending(c', t') && Depth(c') < Depth(c))
    {
      hide At, DeleteFix, ColourPending, FixRedChild, Plug, Safe, Levelled;
      DeleteFixStep(inherit, c, t);
      var isLeft, sibling;
      isLeft, sibling, c' := BlackSibling(node, parent, s, c, t);
      if sibling == null {
        return false, true, null, null, c', t;
      }
      ok := true;
      Reads(s, c', t);
      ReadsNephews(s, c', t);
      if (sibling.left == null || !sibling.left.red) && (sibling.right == null || !sibling.right.red) {
        PassUp(parent, sibling, isLeft, s, c', t);
        t' := Make(isLeft, c'.red, t, parent, Paint(true, c'.sibling));
        c' := c'.up;
        Reads(s, c', t');
        done, node', parent' := false, parent, parent.parent;
      } else {
        EndFix(parent, sibling, isLeft, s, c', t);
        done, node', parent', t' := true, root, null, t;
      }
    }

    // rb_delete_fixup
    method DeleteFixup(fix: Node?<K>, fixParent: Node?<K>, ghost s: set<Node<K>>, ghost c0: Ctx<Node<K>>,
                       ghost t0: Tree<Node<K>>)
      returns (ok: bool)
      requires At(s, c0, t0) && fix == Root(t0) && fixParent == ParentOf(c0, null) && ColourPending(c0, t0)
      modifies this`root, s
      ensures ok <==> Safe(c0, t0)
      ensures ok ==> At(s, Top, DeleteFix(inherit, c0, t0))
    {
      hide At, DeleteFix, ColourPending, Plug, Safe;
      var node, parent := fix, fixParent;
      ghost var c, t := c0, t0;
      RootOutside(s, c, t);
      while node != root && (node == null || !node.red)
        invariant At(s, c, t) && node == Root(t) && parent == ParentOf(c, null)
        invariant (node == root <==> c.Top?) && (node != null ==> node in s && node.red == t.red)
        invariant IsRed(t) || ColourPending(c, t)
        invariant DeleteFix(inherit, c, t) == DeleteFix(inherit, c0, t0) && (Safe(c, t) <==> Safe(c0, t0))
        decreases if IsRed(t) then 0 else 1 + Depth(c)
      {
        var done;
        ok, done, node, parent, c, t := FixStep(node, parent, s, c, t);
        if !ok || done {
          return;
        }
        RootOutside(s, c, t);
      }

      DeleteFixDone(inherit, c, t);
      ok := true;
      if node != null {
        Blacken(node, s, c, t);
      } else {
        Look(s, c, t, Top, t);
      }
    }

    method Blacken(node: Node<K>, ghost s: set<Node<K>>, ghost c: Ctx<Node<K>>, ghost t: Tree<Node<K>>)
      requires At(s, c, t) && t.Branch? && t.node == node
      modifies s
      ensures At(s, Top, Plug(c, Paint(false, t)))
    {
      hide At;
      Recolour(node, false, s, c, t, c, t);
      Look(s, c, Paint(false, t), Top, Plug(c, Paint(false, t)));
    }

    // The node at the hole is the root exactly when there is nothing above it.
    lemma RootOutside(s: set<Node<K>>, c: Ctx<Node<K>>, t: Tree<Node<K>>)
      requires At(s, c, t)
      ensures Root(t) == root <==> c.Top?
      ensures t.Branch? ==> t.node in s && t.node.red == t.red && t.node.parent == ParentOf(c, null)
      ensures c.Hole? ==> c.node.parent == ParentOf(c.up, null)
    {
      if c.Hole? { TopOfIn(c, Root(t)); }
    }

    // rb_remove_node. It is not `ok` when the fixup reads a missing sibling; the code
    // goes on through a null pointer then.
    method RemoveNode(d: Node?<K>) returns (r: Node?<K>, ok: bool)
      requires Valid() && RedBlack(shape) && (d == null || d in nodes)
      modifies this, nodes
      ensures ok <==> d == null || RemovalSafe(old(shape), d)
      ensures ok ==> Valid() && r == d && RedBlack(shape)
      ensures d == null ==> shape == old(shape) && nodes == old(nodes)
      ensures ok && d != null ==> nodes == old(nodes) - {d} && shape == Remove(inherit, old(shape), d)
      ensures ok && d != null ==> OneLess(old(InOrder(shape)), InOrder(shape), d)
      ensures old(Balanced(shape)) ==>
        ok && (d != null ==> (Balanced(shape) <==> inherit || !RemovalUnbalances(old(shape), d)))
    {
      r, ok := d, true;
      if d == null {
        return;
      }
      OnceEach();
      RemoveFacts(inherit, shape, d);
      ok := RemoveShape(d);
    }

    method RemoveShape(d: Node<K>) returns (ok: bool)
      requires Valid() && RedBlack(shape) && d in nodes
      modifies this, nodes
      ensures ok <==> RemovalSafe(old(shape), d)
      ensures ok ==> Valid() && nodes == old(nodes) - {d} && shape == Remove(inherit, old(shape), d)
    {
      hide At, Remove, Nodes, NoRedRed, Balanced, InOrder, CtxNodes, Unique, IsRed, OneLess, RemovalUnbalances,
        RemovalSafe;
      ghost var s, t := nodes, shape;
      OnceEach();
      RemoveFacts(inherit, t, d);
      ok := Unhook(d, s, t);
      if ok {
        ghost var t' := Remove(inherit, t, d);
        ShrinkWhole(s, s - {d}, t');
        shape, nodes := t', s - {d};
      }
    }

    method Unhook(d: Node<K>, ghost s: set<Node<K>>, ghost t: Tree<Node<K>>) returns (ok: bool)
      requires At(s, Top, t) && d in Nodes(t) && RedBlack(t)
      modifies this`root, s
      ensures ok <==> RemovalSafe(t, d)
      ensures ok ==> At(s, Top, Remove(inherit, t, d))
    {
      hide At, DeleteFix, ColourPending, TakeOut, Locate, Plug, Remove, Nodes, NoRedRed, RedBlack, Safe, RemovalSafe;
      RemoveUnfold(inherit, t, d);
      ghost var (c, x) := Locate(Top, t, d);
      ghost var (fc, ft, black) := TakeOut(c, x);
      Look(s, Top, t, c, x);
      var wasBlack, fix, fixParent := TakeOutNode(d, s, c, x);
      ok := true;
      if wasBlack {
        ok := DeleteFixup(fix, fixParent, s, fc, ft);
      } else {
        Look(s, fc, ft, Top, Remove(inherit, t, d));
      }
    }

    lemma InShape(n: Node<K>)
      requires Valid() && n in nodes
      ensures n in Nodes(shape)
    {
    }

    lemma OnceEach()
      requires Valid()
      ensures Unique(shape)
    {
    }

    lemma ShrinkWhole(s: set<Node<K>>, s': set<Node<K>>, t: Tree<Node<K>>)
      requires At(s, Top, t) && s' <= s && Nodes(t) <= s'
      ensures At(s', Top, t)
    {
      HoldsFrame(Mem(s), Mem(s'), root, Top, t);
    }

    // rb_get_min
    method GetMin(node: Node?<K>, ghost s: set<Node<K>>, ghost base: Ctx<Node<K>>, ghost t0: Tree<Node<K>>)
      returns (r: Node?<K>)
      requires At(s, base, t0) && node == Root(t0)
      ensures At(s, base, t0)
      ensures if t0.Leaf? then r == null else r == InOrder(t0)[0]
    {
      hide At;
      if node == null {
        return null;
      }
      r := node;
      ghost var c, t := base, t0;
      Reads(s, c, t);
      while r.left != null
        invariant At(s, base, t0) && At(s, c, t) && t.Branch? && r == t.node && r in s && r.left == Root(t.left)
        invariant InOrder(t)[0] == InOrder(t0)[0]
        decreases t
      {
        ghost var c' := Hole(true, t.red, t.node, t.right, c);
        Look(s, c, t, c', t.left);
        c, t := c', t.left;
        Reads(s, c, t);
        r := r.left;
      }
    }

    // rb_min: the first node of the in-order sequence.
    method Min() returns (r: Node?<K>)
      requires Valid()
      ensures Valid()
      ensures r == if shape.Leaf? then null else InOrder(shape)[0]
    {
      Reads(nodes, Top, shape);
      r := GetMin(root, nodes, Top, shape);
    }

    // rb_next: the node after `node` in the in-order sequence, null after the last.
    method Next(node: Node<K>, ghost i: nat) returns (r: Node?<K>)
      requires Valid() && i < |InOrder(shape)| && InOrder(shape)[i] == node
      ensures Valid()
      ensures r == if i + 1 < |InOrder(shape)| then InOrder(shape)[i + 1] else null
    {
      hide At;
      InOrderNodes(shape);
      OnceEach();
      ghost var (c, t) := Locate(Top, shape, node);
      LocateFacts(Top, shape, node);
      LocateIndex(shape, node, i);
      Look(nodes, Top, shape, c, t);
      Reads(nodes, c, t);
      if node.right != null {
        ghost var c' := Hole(false, t.red, t.node, t.left, c);
        Look(nodes, c, t, c', t.right);
        r := GetMin(node.right, nodes, c', t.right);
      } else {
        r := Climb(node, c, t);
      }
    }

    // The upward part of rb_next: the nearest ancestor that has `node` in its left subtree.
    method Climb(node: Node<K>, ghost c0: Ctx<Node<K>>, ghost t0: Tree<Node<K>>) returns (r: Node?<K>)
      requires Valid() && At(nodes, c0, t0) && t0.Branch? && t0.node == node
      ensures Valid()
      ensures r == if After(c0) == [] then null else After(c0)[0]
    {
      hide At;
      var cur := node;
      ghost var c, t := c0, t0;
      while true
        invariant Valid() && At(nodes, c, t) && t.Branch? && cur == t.node
        invariant After(c0) == After(c)
        decreases c
      {
        Reads(nodes, c, t);
        var parent := cur.parent;
        if parent == null {
          return null;
        }
        if parent.left == cur {
          return parent;
        }
        ghost var t' := Make(c.isLeft, c.red, t, c.node, c.sibling);
        Look(nodes, c, t, c.up, t');
        c, t := c.up, t';
        cur := parent;
      }
    }
  }

  ghost predicate RotateReady<K>(isLeft: bool, m: Memory<K>, x: Node<K>) {
    && x in m && Child(!isLeft, m[x]) != null && Child(!isLeft, m[x]) in m && Child(!isLeft, m[x]) != x
    && (var b := Child(isLeft, m[Child(!isLeft, m[x])]); b == null || (b in m && b != x))
    && (m[x].parent == null || m[x].parent in m)
  }

  // The pointers a rotation reads lead to the nodes the shape names.
  lemma RotateReads<K>(isLeft: bool, m: Memory<K>, root: Node?<K>, c: Ctx<Node<K>>, t: Tree<Node<K>>)
    requires Holds(m, root, c, t) && t.Branch? && Far(isLeft, t).Branch?
    ensures
      var x, s := t.node, Far(isLeft, t);
      var y, b, g := s.node, Root(Near(isLeft, s)), ParentOf(c, null);
      && x in m && y in m && x != y && Child(!isLeft, m[x]) == y && Child(isLeft, m[y]) == b && m[x].parent == g
      && (b == null || (b in m && b != x && b != y && b != g))
      && (g == null <==> c.Top?) && (g == null || (g in m && g != x && g != y))
  {
    RotateApart(isLeft, c, t);
    var s := Far(isLeft, t);
    assert Linked(m, s, t.node);
    LinkedDomain(m, Near(isLeft, s), s.node);
    assert Near(isLeft, s).Branch? ==> Near(isLeft, s).node in Nodes(Near(isLeft, s));
    assert c.Hole? ==> c.node in CtxNodes(c);
  }

  lemma PaintHolds<K>(m: Memory<K>, root: Node?<K>, c: Ctx<Node<K>>, t: Tree<Node<K>>, red: bool)
    requires Holds(m, root, c, t) && t.Branch?
    ensures t.node in m && Nodes(Paint(red, t)) == Nodes(t)
    ensures Holds(m[t.node := m[t.node].(red := red)], root, c, Paint(red, t))
  {
    var m' := m[t.node := m[t.node].(red := red)];
    LinkedFrame(m, m', t.left, t.node);
    LinkedFrame(m, m', t.right, t.node);
    CtxFrame(m, m', c, null, t.node);
  }

  lemma HoldsReads<K>(m: Memory<K>, root: Node?<K>, c: Ctx<Node<K>>, t: Tree<Node<K>>)
    requires Holds(m, root, c, t)
    ensures c.Top? ==> root == Root(t)
    ensures t.Branch? ==> t.node in m && m[t.node] == Cell(t.red, ParentOf(c, null), Root(t.left), Root(t.right))
    ensures c.Hole? ==> c.node in m && m[c.node].red == c.red && m[c.node].parent == ParentOf(c.up, null)
    ensures c.Hole? ==> Child(c.isLeft, m[c.node]) == Root(t) && Child(!c.isLeft, m[c.node]) == Root(c.sibling)
    ensures c.Hole? && c.sibling.Branch? ==>
      var x := c.sibling.node;
      && x in m && m[x].red == c.sibling.red && x != Root(t)
      && m[x].left == Root(c.sibling.left) && m[x].right == Root(c.sibling.right)
  {
    if c.Hole? && c.sibling.Branch? && t.Branch? {
      assert c.sibling.node in CtxNodes(c) && t.node in Nodes(t);
    }
  }

  lemma SearchMiss<K>(cmp: (K, K) -> int, key: K, c: Ctx<Node<K>>, whole: Tree<Node<K>>)
    requires Plug(c, Leaf) == whole
    ensures AllBelow(cmp, Before(c), key) && AllAbove(cmp, After(c), key) ==>
      forall n <- Nodes(whole) :: cmp(n.key, key) != 0
  {
    PlugInOrder(c, Leaf);
    InOrderNodes(whole);
    if AllBelow(cmp, Before(c), key) && AllAbove(cmp, After(c), key) {
      forall n <- Nodes(whole) ensures cmp(n.key, key) != 0 {
        var i :| 0 <= i < |InOrder(whole)| && InOrder(whole)[i] == n;
        if i < |Before(c)| { assert Before(c)[i] == n; } else { assert After(c)[i - |Before(c)|] == n; }
      }
    }
  }

  // ---------------------------------------------------------------- deletion on memory values

  lemma TransplantHolds<K>(m: Memory<K>, root: Node?<K>, c: Ctx<Node<K>>, t: Tree<Node<K>>, x: Tree<Node<K>>,
                           p: Node?<K>)
    requires Holds(m, root, c, t) && t.Branch? && Apart(c, x) && Linked(m, x, p)
    ensures
      var g := ParentOf(c, null);
      Holds(PutParent(PutChild(m, g, t.node, Root(x)), Root(x), g), if g == null then Root(x) else root, c, x)
  {
    var g := ParentOf(c, null);
    var m1 := PutChild(m, g, t.node, Root(x));
    var m2 := PutParent(m1, Root(x), g);
    assert t.node in Nodes(t);
    assert c.Hole? ==> c.node in CtxNodes(c);
    assert x.Branch? ==> x.node in Nodes(x);
    PutChildCtx(m, c, t.node, Root(x));
    CtxFrame(m1, m2, c, null, Root(x));
    LinkedFrame(m, m1, x, p);
    PutParentLinked(m1, x, p, g);
    TopOfRedirect(c, t.node, Root(x));
  }

  // The successor `y` taking the place of `d`, as the sequence of writes the code does.
  ghost function TakePlaceMem<K>(m: Memory<K>, d: Node<K>, y: Node<K>): Memory<K>
    requires d in m && y in m
  {
    var g := m[d].parent;
    AdoptMem(PutParent(PutChild(m, g, d, y), y, g), d, y)
  }

  // `y` takes the colour and the left child of `d`.
  ghost function AdoptMem<K>(m: Memory<K>, d: Node<K>, y: Node<K>): Memory<K>
    requires d in m && y in m
  {
    var m1 := m[y := m[y].(red := m[d].red)];
    var m2 := m1[y := m1[y].(left := m1[d].left)];
    var m3 := PutParent(m2, m2[y].left, y);
    m3[d := m3[d].(red := m3[y].red)]
  }

  // `d` still sits below `c` with left subtree `l`; `y` already owns the right subtree `r`.
  ghost predicate Displaced<K>(m: Memory<K>, root: Node?<K>, c: Ctx<Node<K>>, red: bool, l: Tree<Node<K>>,
                               d: Node<K>, y: Node<K>, r: Tree<Node<K>>) {
    && Disjoint(d, y, Nodes(l), Nodes(r), {}, CtxNodes(c)) && UniqueCtx(c) && Unique(l) && Unique(r)
    && root == TopOf(c, d) && CtxLinked(m, c, null, d)
    && d in m && m[d].red == red && m[d].parent == ParentOf(c, null) && m[d].left == Root(l)
    && y in m && m[y].right == Root(r) && Linked(m, l, d) && Linked(m, r, y)
  }

  lemma TakePlaceHolds<K>(m: Memory<K>, root: Node?<K>, c: Ctx<Node<K>>, red: bool, l: Tree<Node<K>>,
                          d: Node<K>, y: Node<K>, r: Tree<Node<K>>)
    requires Displaced(m, root, c, red, l, d, y, r)
    ensures Holds(TakePlaceMem(m, d, y), if c.Top? then y else root, c, Branch(red, l, y, r))
  {
    hide Linked, CtxLinked, TakePlaceMem;
    var g := ParentOf(c, null);
    RootIn(l);
    LinkedDomain(m, l, d);
    CtxDomain(m, c, null, d);
    TopOfRedirect(c, d, y);
    TakePlaceCells(m, d, y, Root(l), g);
    var m' := TakePlaceMem(m, d, y);
    RotateCtx(m, m', c, d, y);
    LinkedFrame(m, m', r, y);
    RotateInner(m, m', l, d, y);
    LinkedBranch(m', red, l, y, r, g);
  }

  lemma TakePlaceCells<K>(m: Memory<K>, d: Node<K>, y: Node<K>, l: Node?<K>, g: Node?<K>)
    requires d in m && y in m && d != y && m[d].parent == g && m[d].left == l
    requires l == null || (l in m && l != d && l != y && l != g)
    requires g == null || (g in m && g != d && g != y)
    ensures
      var m' := TakePlaceMem(m, d, y);
      && m'.Keys == m.Keys
      && m'[y] == Cell(m[d].red, g, l, m[y].right)
      && (l != null ==> m'[l] == m[l].(parent := y))
      && (g != null ==> m'[g] == PutChild(m, g, d, y)[g])
      && forall n <- m.Keys :: n != d && n != y && n != l && n != g ==> m'[n] == m[n]
  {
  }

  lemma LinkedBranch<K>(m: Memory<K>, red: bool, l: Tree<Node<K>>, n: Node<K>, r: Tree<Node<K>>, parent: Node?<K>)
    requires n in m && m[n] == Cell(red, parent, Root(l), Root(r)) && Linked(m, l, n) && Linked(m, r, n)
    ensures Linked(m, Branch(red, l, n, r), parent)
  {
  }

  lemma RootIn<K>(t: Tree<Node<K>>)
    ensures t.Branch? ==> t.node in Nodes(t)
  {
  }

  lemma {:induction false} CtxDomain<K>(m: Memory<K>, c: Ctx<Node<K>>, base: Node?<K>, hole: Node?<K>)
    requires CtxLinked(m, c, base, hole)
    ensures CtxNodes(c) <= m.Keys && (c.Hole? ==> c.node in CtxNodes(c))
  {
    if c.Hole? {
      LinkedDomain(m, c.sibling, c.node);
      CtxDomain(m, c.up, base, c.node);
    }
  }

  // The root of a subtree can be cut out, leaving its right subtree.
  lemma CutOut<K>(m: Memory<K>, root: Node?<K>, c: Ctx<Node<K>>, t: Tree<Node<K>>)
    requires Holds(m, root, c, t) && t.Branch?
    ensures Apart(c, t.right) && Nodes(t.right) <= Nodes(t) && Linked(m, t.right, t.node)
    ensures t.node !in CtxNodes(c) && t.node !in Nodes(t.right)
  {
  }

  lemma DetachHolds<K>(m: Memory<K>, root: Node?<K>, c: Ctx<Node<K>>, red: bool, l: Tree<Node<K>>, d: Node<K>,
                       r: Tree<Node<K>>, y: Node<K>)
    requires Holds(m, root, c, Branch(red, l, d, r)) && r.Branch?
    requires y in m && y !in CtxNodes(c) && y !in Nodes(Branch(red, l, d, r))
    ensures Displaced(PutParent(m[y := m[y].(right := r.node)], r.node, y), root, c, red, l, d, y, r)
  {
    var m1 := m[y := m[y].(right := r.node)];
    var m2 := PutParent(m1, r.node, y);
    RootIn(r);
    LinkedDomain(m, r, d);
    CtxFrame(m, m2, c, null, d);
    LinkedFrame(m, m2, l, d);
    LinkedFrame(m, m1, r, d);
    PutParentLinked(m1, r, d, y);
  }

  lemma PlugHole<N>(c: Ctx<N>, t: Tree<N>)
    ensures c.Hole? ==> Plug(c, t).Branch?
  {
    if c.Hole? { PlugBranch(c.up, Make(c.isLeft, c.red, t, c.node, c.sibling)); }
  }

  lemma ChildDisplaced<K>(m: Memory<K>, root: Node?<K>, c: Ctx<Node<K>>, t: Tree<Node<K>>)
    requires Holds(m, root, c, t) && t.Branch? && t.right.Branch?
    ensures Displaced(m, root, c, t.red, t.left, t.node, t.right.node, t.right.right)
    ensures Nodes(t.right.right) <= Nodes(t.right)
  {
    assert Linked(m, t.right, t.node) && Unique(t.right);
  }

  lemma SuccessorIsChild<K>(m: Memory<K>, root: Node?<K>, cr: Ctx<Node<K>>, base: Ctx<Node<K>>, t: Tree<Node<K>>)
    requires Holds(m, root, Compose(cr, base), t) && t.Branch? && base.Hole?
    ensures t.node in m && (m[t.node].parent == base.node <==> cr.Top?)
  {
    if cr.Hole? { ComposeNodes(cr.up, base); }
  }

  lemma {:induction false} ComposeNodes<N>(c: Ctx<N>, base: Ctx<N>)
    ensures CtxNodes(Compose(c, base)) == CtxNodes(c) + CtxNodes(base)
  {
    if c.Hole? { ComposeNodes(c.up, base); }
  }

  lemma CutOutLeft<K>(m: Memory<K>, root: Node?<K>, c: Ctx<Node<K>>, t: Tree<Node<K>>)
    requires Holds(m, root, c, t) && t.Branch?
    ensures Apart(c, t.left) && Nodes(t.left) <= Nodes(t) && Linked(m, t.left, t.node)
  {
  }

  lemma {:induction false} TopOfIn<K>(c: Ctx<Node<K>>, hole: Node?<K>)
    requires c.Hole?
    ensures TopOf(c, hole) != null && TopOf(c, hole) in CtxNodes(c)
    decreases c
  {
    if c.up.Hole? { TopOfIn(c.up, c.node); }
  }

  lemma PlugBranch<N>(c: Ctx<N>, t: Tree<N>)
    requires t.Branch?
    ensures Plug(c, t).Branch?
  {
    PlugInOrder(c, t);
    assert |InOrder(t)| > 0;
  }
}
