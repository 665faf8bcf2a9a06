/**
 Ordered binary trees laid out as linked nodes, as in coroutine_3/src/rbtree.h.

 A `Tree` is the mathematical tree the links are meant to form, and a `Ctx` is a tree with one subtree taken out
 (a path to the root together with the sibling subtrees hanging off it). `Shape` says that a heap of cells lays out
 a given tree: child links, parent links and colours. Everything here is about values; the mutable tree is in RbTree.
 */
module RbShape {
  class Node {
    const key: int
    var left: Node?
    var right: Node?
    var parent: Node?
    var red: bool

    /** rb_init_node: the node is its own parent, which marks it as being in no tree. */
    constructor (key: int)
      ensures this.key == key && parent == this && left == null && right == null && red
    {
      this.key := key;
      left, right, parent, red := null, null, this, true;
    }
  }

  datatype Cell = Cell(left: Node?, right: Node?, parent: Node?, red: bool)

  type Heap = map<Node, Cell>

  datatype Tree = Leaf | T(red: bool, left: Tree, x: Node, right: Tree)

  /** A tree with a hole: the hole is the left or the right child of `x`. */
  datatype Ctx =
    | Top
    | InLeft(red: bool, up: Ctx, x: Node, sib: Tree)
    | InRight(red: bool, sib: Tree, x: Node, up: Ctx)

  ghost function C(n: Node): Cell
    reads n
  {
    Cell(n.left, n.right, n.parent, n.red)
  }

  ghost function Snap(S: set<Node>): Heap
    reads S
  {
    map n: Node | n in S :: C(n)
  }

  function Ref(t: Tree): Node? {
    if t.Leaf? then null else t.x
  }

  function Nodes(t: Tree): set<Node> {
    match t
    case Leaf => {}
    case T(_, l, x, r) => Nodes(l) + {x} + Nodes(r)
  }

  function InOrder(t: Tree): seq<Node> {
    match t
    case Leaf => []
    case T(_, l, x, r) => InOrder(l) + [x] + InOrder(r)
  }

  /** No node occurs twice. */
  ghost predicate Disjoint(t: Tree) {
    match t
    case Leaf => true
    case T(_, l, x, r) => Disjoint(l) && Disjoint(r) && Nodes(l) !! Nodes(r) && x !in Nodes(l) && x !in Nodes(r)
  }

  /** The tree obtained by filling the hole of `c` with `t`. */
  function Plug(c: Ctx, t: Tree): Tree {
    match c
    case Top => t
    case InLeft(red, up, x, sib) => Plug(up, T(red, t, x, sib))
    case InRight(red, sib, x, up) => Plug(up, T(red, sib, x, t))
  }

  /** The context whose hole is that of `k`, inside the hole of `base`. */
  function Graft(k: Ctx, base: Ctx): Ctx {
    match k
    case Top => base
    case InLeft(red, up, x, sib) => InLeft(red, Graft(up, base), x, sib)
    case InRight(red, sib, x, up) => InRight(red, sib, x, Graft(up, base))
  }

  /** The node above the hole; `p` stands above the whole context. */
  function Above(c: Ctx, p: Node?): Node? {
    if c.Top? then p else c.x
  }

  function CNodes(c: Ctx): set<Node> {
    if c.Top? then {} else Nodes(c.sib) + {c.x} + CNodes(c.up)
  }

  ghost predicate CDisjoint(c: Ctx) {
    c.Top? || (CDisjoint(c.up) && Disjoint(c.sib) && c.x !in Nodes(c.sib) && c.x !in CNodes(c.up) && Nodes(c.sib) !! CNodes(c.up))
  }

  /** The nodes before, and after, the hole in key order. */
  function Before(c: Ctx): seq<Node> {
    match c
    case Top => []
    case InLeft(_, up, x, sib) => Before(up)
    case InRight(_, sib, x, up) => Before(up) + InOrder(sib) + [x]
  }

  function After(c: Ctx): seq<Node> {
    match c
    case Top => []
    case InLeft(_, up, x, sib) => [x] + InOrder(sib) + After(up)
    case InRight(_, sib, x, up) => After(up)
  }

  // ---------- layout ----------

  /** `h` lays out `t`, with `p` above its root. */
  ghost predicate Shape(h: Heap, t: Tree, p: Node?) {
    match t
    case Leaf => true
    case T(red, l, x, r) => x in h && h[x] == Cell(Ref(l), Ref(r), p, red) && Shape(h, l, x) && Shape(h, r, x)
  }

  /** The cell of the innermost node of `c` when the hole is filled by a tree rooted at `hole`. */
  function CCell(c: Ctx, hole: Node?, p: Node?): Cell
    requires !c.Top?
  {
    match c
    case InLeft(red, up, x, sib) => Cell(hole, Ref(sib), Above(up, p), red)
    case InRight(red, sib, x, up) => Cell(Ref(sib), hole, Above(up, p), red)
  }

  ghost predicate CShape(h: Heap, c: Ctx, hole: Node?, p: Node?) {
    c.Top? || (c.x in h && h[c.x] == CCell(c, hole, p) && Shape(h, c.sib, c.x) && CShape(h, c.up, c.x, p))
  }

  ghost predicate Agree(h: Heap, h': Heap, S: set<Node>) {
    forall n :: n in S && n in h ==> n in h' && h'[n] == h[n]
  }

  lemma {:induction false} ShapeFrame(h: Heap, h': Heap, t: Tree, p: Node?)
    requires Shape(h, t, p) && Agree(h, h', Nodes(t))
    ensures Shape(h', t, p)
  {
    if t.T? {
      ShapeFrame(h, h', t.left, t.x);
      ShapeFrame(h, h', t.right, t.x);
    }
  }

  lemma {:induction false} CShapeFrame(h: Heap, h': Heap, c: Ctx, hole: Node?, p: Node?)
    requires CShape(h, c, hole, p) && Agree(h, h', CNodes(c))
    ensures CShape(h', c, hole, p)
  {
    if !c.Top? {
      ShapeFrame(h, h', c.sib, c.x);
      CShapeFrame(h, h', c.up, c.x, p);
    }
  }

  // ---------- filling a hole ----------

  lemma PlugRef(c: Ctx, t: Tree, t': Tree)
    requires !c.Top?
    ensures Ref(Plug(c, t)) == Ref(Plug(c, t'))
  { }

  lemma {:induction false} PlugRoot(c: Ctx, t: Tree)
    requires !c.Top?
    ensures Plug(c, t).T? && Plug(c, t).x in CNodes(c)
  {
    if !c.up.Top? {
      PlugRoot(c.up, if c.InLeft? then T(c.red, t, c.x, c.sib) else T(c.red, c.sib, c.x, t));
    }
  }

  lemma {:induction false} PlugNodes(c: Ctx, t: Tree)
    ensures Nodes(Plug(c, t)) == CNodes(c) + Nodes(t)
  {
    match c
    case Top =>
    case InLeft(red, up, x, sib) => PlugNodes(up, T(red, t, x, sib));
    case InRight(red, sib, x, up) => PlugNodes(up, T(red, sib, x, t));
  }

  lemma {:induction false} PlugDisjoint(c: Ctx, t: Tree)
    ensures Disjoint(Plug(c, t)) <==> CDisjoint(c) && Disjoint(t) && Nodes(t) !! CNodes(c)
  {
    match c
    case Top =>
    case InLeft(red, up, x, sib) => PlugDisjoint(up, T(red, t, x, sib));
    case InRight(red, sib, x, up) => PlugDisjoint(up, T(red, sib, x, t));
  }

  lemma {:induction false} PlugShape(h: Heap, c: Ctx, t: Tree, p: Node?)
    ensures Shape(h, Plug(c, t), p) <==> CShape(h, c, Ref(t), p) && Shape(h, t, Above(c, p))
  {
    match c
    case Top =>
    case InLeft(red, up, x, sib) => PlugShape(h, up, T(red, t, x, sib), p);
    case InRight(red, sib, x, up) => PlugShape(h, up, T(red, sib, x, t), p);
  }

  lemma Regroup(a: seq<Node>, b: seq<Node>, x: Node, d: seq<Node>, e: seq<Node>)
    ensures a + (b + [x] + d) + e == a + b + ([x] + d + e)
    ensures a + (b + [x] + d) + e == (a + b + [x]) + d + e
  { }

  lemma {:induction false} PlugInOrder(c: Ctx, t: Tree)
    ensures InOrder(Plug(c, t)) == Before(c) + InOrder(t) + After(c)
  {
    match c
    case Top =>
    case InLeft(red, up, x, sib) =>
      PlugInOrder(up, T(red, t, x, sib));
      Regroup(Before(up), InOrder(t), x, InOrder(sib), After(up));
    case InRight(red, sib, x, up) =>
      PlugInOrder(up, T(red, sib, x, t));
      Regroup(Before(up), InOrder(sib), x, InOrder(t), After(up));
  }

  lemma {:induction false} GraftPlug(k: Ctx, base: Ctx, t: Tree)
    ensures Plug(Graft(k, base), t) == Plug(base, Plug(k, t))
  {
    match k
    case Top =>
    case InLeft(red, up, x, sib) => GraftPlug(up, base, T(red, t, x, sib));
    case InRight(red, sib, x, up) => GraftPlug(up, base, T(red, sib, x, t));
  }

  lemma {:induction false} InOrderNode(t: Tree, n: Node)
    ensures n in InOrder(t) <==> n in Nodes(t)
  {
    if t.T? {
      InOrderNode(t.left, n);
      InOrderNode(t.right, n);
    }
  }

  /** Every node of a tree is the root of a subtree in some context. */
  lemma {:induction false} Locate(t: Tree, n: Node) returns (c: Ctx, s: Tree)
    requires n in Nodes(t)
    ensures Plug(c, s) == t && s.T? && s.x == n
  {
    if t.x == n {
      c, s := Top, t;
    } else if n in Nodes(t.left) {
      var k, u := Locate(t.left, n);
      c, s := Graft(k, InLeft(t.red, Top, t.x, t.right)), u;
      GraftPlug(k, InLeft(t.red, Top, t.x, t.right), u);
    } else {
      var k, u := Locate(t.right, n);
      c, s := Graft(k, InRight(t.red, t.left, t.x, Top)), u;
      GraftPlug(k, InRight(t.red, t.left, t.x, Top), u);
    }
  }

  // ---------- replacing a subtree ----------

  /**
   If the cells of a context are kept, except that the node above the hole now links to the root of `s'`, and `s'` is
   laid out in place, then the whole tree is laid out.
   */
  lemma {:induction false} Replant(h: Heap, h': Heap, c: Ctx, s: Tree, s': Tree)
    requires Shape(h, Plug(c, s), null) && Disjoint(Plug(c, s))
    requires Shape(h', s', Above(c, null)) && Disjoint(s') && Nodes(s') !! CNodes(c)
    requires !c.Top? ==> c.x in h' && h'[c.x] == CCell(c, Ref(s'), null)
    requires Agree(h, h', CNodes(c) - if c.Top? then {} else {c.x})
    ensures Shape(h', Plug(c, s'), null) && Disjoint(Plug(c, s'))
    ensures Nodes(Plug(c, s')) == CNodes(c) + Nodes(s')
    ensures Ref(Plug(c, s')) == if c.Top? then Ref(s') else Ref(Plug(c, s))
  {
    PlugShape(h, c, s, null);
    PlugDisjoint(c, s);
    PlugDisjoint(c, s');
    PlugNodes(c, s');
    PlugShape(h', c, s', null);
    if !c.Top? {
      PlugRef(c, s, s');
      ShapeFrame(h, h', c.sib, c.x);
      CShapeFrame(h, h', c.up, c.x, null);
    }
  }

  /** What the cells around a subtree are. */
  lemma {:induction false} Around(h: Heap, c: Ctx, s: Tree)
    requires Shape(h, Plug(c, s), null) && Disjoint(Plug(c, s))
    ensures CShape(h, c, Ref(s), null) && Shape(h, s, Above(c, null))
    ensures Disjoint(s) && CDisjoint(c) && Nodes(s) !! CNodes(c) && Nodes(Plug(c, s)) == CNodes(c) + Nodes(s)
    ensures !c.Top? ==> c.x in CNodes(c) && c.x in h && h[c.x] == CCell(c, Ref(s), null) && c.x !in Nodes(s)
    ensures s.T? ==> s.x in Nodes(s) && s.x in h && h[s.x] == Cell(Ref(s.left), Ref(s.right), Above(c, null), s.red)
  {
    PlugShape(h, c, s, null);
    PlugDisjoint(c, s);
    PlugNodes(c, s);
  }

  /** The cell of `p` once its child link to `x` leads to `y` instead. */
  function Redirect(k: Cell, x: Node, y: Node?): Cell {
    if k.left == x then k.(left := y) else k.(right := y)
  }

  lemma {:induction false} RedirectHole(h: Heap, c: Ctx, s: Tree, y: Node?)
    requires Shape(h, Plug(c, s), null) && Disjoint(Plug(c, s)) && s.T? && !c.Top?
    ensures Redirect(CCell(c, s.x, null), s.x, y) == CCell(c, y, null)
    ensures Redirect(CCell(c, s.x, null), s.x, y).parent == CCell(c, s.x, null).parent
  {
    Around(h, c, s);
    if c.InRight? && c.sib.T? {
      assert c.sib.x in CNodes(c);
    }
  }

  /** Recolouring one node recolours the tree and nothing else. */
  lemma {:induction false} PaintShape(h: Heap, h': Heap, c: Ctx, s: Tree, red: bool)
    requires Shape(h, Plug(c, s), null) && Disjoint(Plug(c, s)) && s.T? && s.x in h
    requires h'.Keys == h.Keys && h'[s.x] == h[s.x].(red := red)
    requires forall n :: n in h && n != s.x ==> h'[n] == h[n]
    ensures Shape(h', Plug(c, s.(red := red)), null) && Disjoint(Plug(c, s.(red := red)))
    ensures Nodes(Plug(c, s.(red := red))) == Nodes(Plug(c, s)) && Ref(Plug(c, s.(red := red))) == Ref(Plug(c, s))
    ensures InOrder(Plug(c, s.(red := red))) == InOrder(Plug(c, s))
  {
    Around(h, c, s);
    ShapeFrame(h, h', s.left, s.x);
    ShapeFrame(h, h', s.right, s.x);
    Replant(h, h', c, s, s.(red := red));
    SameOrder(c, s, s.(red := red));
  }

  lemma {:induction false} Linked(h: Heap, h': Heap, c: Ctx, n: Node)
    requires Shape(h, Plug(c, Leaf), null) && Disjoint(Plug(c, Leaf)) && n !in Nodes(Plug(c, Leaf))
    requires n in h' && h'[n] == Cell(null, null, Above(c, null), true)
    requires !c.Top? ==> c.x in h' && h'[c.x] == CCell(c, n, null)
    requires forall m :: m in h && m != n && (!c.Top? ==> m != c.x) ==> m in h' && h'[m] == h[m]
    ensures var t := Plug(c, T(true, Leaf, n, Leaf));
      Shape(h', t, null) && Disjoint(t) && Nodes(t) == Nodes(Plug(c, Leaf)) + {n} && Ref(t) == if c.Top? then n else Ref(Plug(c, Leaf))
  {
    Around(h, c, Leaf);
    assert Shape(h', T(true, Leaf, n, Leaf), Above(c, null));
    Replant(h, h', c, Leaf, T(true, Leaf, n, Leaf));
  }

  // ---------- rotations ----------

  function RotLTree(s: Tree): Tree
    requires s.T? && s.right.T?
  {
    T(s.right.red, T(s.red, s.left, s.x, s.right.left), s.right.x, s.right.right)
  }

  function RotRTree(s: Tree): Tree
    requires s.T? && s.left.T?
  {
    T(s.left.red, s.left.left, s.left.x, T(s.red, s.left.right, s.x, s.right))
  }

  /** `h'` is `h` after a left rotation at `x`, whose right child is `y`. */
  ghost predicate RotatedL(h: Heap, h': Heap, x: Node, y: Node)
    requires x in h && y in h
  {
    && h'.Keys == h.Keys
    && var b, p := h[y].left, h[x].parent;
    && h'[x] == h[x].(right := b, parent := y)
    && h'[y] == h[y].(left := x, parent := p)
    && (b != null && b in h ==> h'[b] == h[b].(parent := x))
    && (p != null && p in h ==> h'[p] == Redirect(h[p], x, y))
    && (forall n :: n in h && n != x && n != y && n != b && n != p ==> h'[n] == h[n])
  }

  /** `h'` is `h` after a right rotation at `x`, whose left child is `y`. */
  ghost predicate RotatedR(h: Heap, h': Heap, x: Node, y: Node)
    requires x in h && y in h
  {
    && h'.Keys == h.Keys
    && var b, p := h[y].right, h[x].parent;
    && h'[x] == h[x].(left := b, parent := y)
    && h'[y] == h[y].(right := x, parent := p)
    && (b != null && b in h ==> h'[b] == h[b].(parent := x))
    && (p != null && p in h ==> h'[p] == Redirect(h[p], x, y))
    && (forall n :: n in h && n != x && n != y && n != b && n != p ==> h'[n] == h[n])
  }

  lemma {:induction false} ReparentShape(h: Heap, h': Heap, t: Tree, p: Node?, q: Node?)
    requires Disjoint(t) && Shape(h, t, p)
    requires t.T? ==> t.x in h' && h'[t.x] == h[t.x].(parent := q) && Agree(h, h', Nodes(t) - {t.x})
    ensures Shape(h', t, q)
  {
    if t.T? {
      ShapeFrame(h, h', t.left, t.x);
      ShapeFrame(h, h', t.right, t.x);
    }
  }

  lemma {:induction false} RotLInside(h: Heap, h': Heap, p: Node?, s: Tree)
    requires s.T? && s.right.T? && Shape(h, s, p) && Disjoint(s) && p !in Nodes(s)
    requires Shape(h, s.right, s.x)
    requires RotatedL(h, h', s.x, s.right.x)
    ensures Shape(h', RotLTree(s), p) && Disjoint(RotLTree(s)) && Nodes(RotLTree(s)) == Nodes(s)
  {
    var x, y, b := s.x, s.right.x, s.right.left;
    assert Disjoint(s.right);
    assert x !in Nodes(s.right) && y in Nodes(s.right);
    assert h[y].left == Ref(b) && h[x].parent == p;
    assert Shape(h', s.left, x) by { ShapeFrame(h, h', s.left, x); }
    assert Shape(h', s.right.right, y) by { ShapeFrame(h, h', s.right.right, y); }
    assert Shape(h', b, x) by { ReparentShape(h, h', b, y, x); }
    assert Shape(h', T(s.red, s.left, x, b), y);
  }

  lemma {:induction false} RotRInside(h: Heap, h': Heap, p: Node?, s: Tree)
    requires s.T? && s.left.T? && Shape(h, s, p) && Disjoint(s) && p !in Nodes(s)
    requires Shape(h, s.left, s.x)
    requires RotatedR(h, h', s.x, s.left.x)
    ensures Shape(h', RotRTree(s), p) && Disjoint(RotRTree(s)) && Nodes(RotRTree(s)) == Nodes(s)
  {
    var x, y, b := s.x, s.left.x, s.left.right;
    assert Disjoint(s.left);
    assert x !in Nodes(s.left) && y in Nodes(s.left);
    assert h[y].right == Ref(b) && h[x].parent == p;
    assert Shape(h', s.right, x) by { ShapeFrame(h, h', s.right, x); }
    assert Shape(h', s.left.left, y) by { ShapeFrame(h, h', s.left.left, y); }
    assert Shape(h', b, x) by { ReparentShape(h, h', b, y, x); }
    assert Shape(h', T(s.red, b, x, s.right), y);
  }

  /** A left rotation of links rotates the tree and nothing else. */
  lemma {:induction false} RotLShape(h: Heap, h': Heap, c: Ctx, s: Tree)
    requires s.T? && s.right.T?
    requires Shape(h, Plug(c, s), null) && Disjoint(Plug(c, s))
    requires s.x in h && s.right.x in h && RotatedL(h, h', s.x, s.right.x)
    ensures Nodes(Plug(c, RotLTree(s))) == Nodes(Plug(c, s))
    ensures Shape(h', Plug(c, RotLTree(s)), null) && Disjoint(Plug(c, RotLTree(s)))
    ensures Ref(Plug(c, RotLTree(s))) == if c.Top? then s.right.x else Ref(Plug(c, s))
  {
    Around(h, c, s);
    Around(h, InRight(s.red, s.left, s.x, c), s.right);
    RotLInside(h, h', Above(c, null), s);
    if !c.Top? { RedirectHole(h, c, s, s.right.x); }
    Replant(h, h', c, s, RotLTree(s));
  }

  lemma {:induction false} RotRShape(h: Heap, h': Heap, c: Ctx, s: Tree)
    requires s.T? && s.left.T?
    requires Shape(h, Plug(c, s), null) && Disjoint(Plug(c, s))
    requires s.x in h && s.left.x in h && RotatedR(h, h', s.x, s.left.x)
    ensures Nodes(Plug(c, RotRTree(s))) == Nodes(Plug(c, s))
    ensures Shape(h', Plug(c, RotRTree(s)), null) && Disjoint(Plug(c, RotRTree(s)))
    ensures Ref(Plug(c, RotRTree(s))) == if c.Top? then s.left.x else Ref(Plug(c, s))
  {
    Around(h, c, s);
    Around(h, InLeft(s.red, c, s.x, s.right), s.left);
    RotRInside(h, h', Above(c, null), s);
    if !c.Top? { RedirectHole(h, c, s, s.left.x); }
    Replant(h, h', c, s, RotRTree(s));
  }

  lemma {:induction false} SameOrder(c: Ctx, s: Tree, s': Tree)
    requires InOrder(s) == InOrder(s')
    ensures InOrder(Plug(c, s)) == InOrder(Plug(c, s'))
  {
    PlugInOrder(c, s);
    PlugInOrder(c, s');
  }

  lemma {:induction false} RotLOrder(c: Ctx, s: Tree)
    requires s.T? && s.right.T?
    ensures InOrder(Plug(c, RotLTree(s))) == InOrder(Plug(c, s))
  {
    Regroup(InOrder(s.left) + [s.x], InOrder(s.right.left), s.right.x, InOrder(s.right.right), []);
    assert InOrder(RotLTree(s)) == InOrder(s);
    SameOrder(c, s, RotLTree(s));
  }

  lemma {:induction false} RotROrder(c: Ctx, s: Tree)
    requires s.T? && s.left.T?
    ensures InOrder(Plug(c, RotRTree(s))) == InOrder(Plug(c, s))
  {
    Regroup(InOrder(s.left.left) + [s.left.x], InOrder(s.left.right), s.x, InOrder(s.right), []);
    assert InOrder(RotRTree(s)) == InOrder(s);
    SameOrder(c, s, RotRTree(s));
  }

  // ---------- removing a node ----------

  /** A node with at most one child gives its place to that child, the root of `d`. */
  lemma {:induction false} SplicedShape(h: Heap, h': Heap, c: Ctx, s: Tree, d: Tree)
    requires Shape(h, Plug(c, s), null) && Disjoint(Plug(c, s)) && s.T?
    requires s == T(s.red, Leaf, s.x, d) || s == T(s.red, d, s.x, Leaf)
    requires s.x in h && h'.Keys == h.Keys
    requires d.T? && d.x in h ==> h'[d.x] == h[d.x].(parent := Above(c, null))
    requires !c.Top? && c.x in h ==> h'[c.x] == Redirect(h[c.x], s.x, Ref(d))
    requires forall n :: n in h && n != Ref(d) && n != Above(c, null) ==> h'[n] == h[n]
    ensures Shape(h', Plug(c, d), null) && Disjoint(Plug(c, d))
    ensures Nodes(Plug(c, d)) == Nodes(Plug(c, s)) - {s.x}
    ensures Ref(Plug(c, d)) == if c.Top? then Ref(d) else Ref(Plug(c, s))
  {
    Around(h, c, s);
    assert Disjoint(d) && s.x !in Nodes(d) && Nodes(s) == Nodes(d) + {s.x};
    assert Shape(h, d, s.x);
    if d.T? { assert d.x in Nodes(d); }
    ReparentShape(h, h', d, s.x, Above(c, null));
    if !c.Top? { RedirectHole(h, c, s, Ref(d)); }
    Replant(h, h', c, s, d);
  }

  /** Only the parent of the topmost node of `k` changes. */
  lemma {:induction false} Rehang(h: Heap, h': Heap, k: Ctx, hole: Node?, p: Node?, q: Node?)
    requires CShape(h, k, hole, p) && CDisjoint(k) && !k.Top?
    requires var r := Ref(Plug(k, Leaf)); r != null && r in h && r in h' && h'[r] == h[r].(parent := q) && Agree(h, h', CNodes(k) - {r})
    ensures CShape(h', k, hole, q)
  {
    PlugRoot(k, Leaf);
    if k.up.Top? {
      ShapeFrame(h, h', k.sib, k.x);
    } else {
      var u := if k.InLeft? then T(k.red, Leaf, k.x, k.sib) else T(k.red, k.sib, k.x, Leaf);
      PlugRoot(k.up, u);
      PlugRef(k.up, u, Leaf);
      ShapeFrame(h, h', k.sib, k.x);
      Rehang(h, h', k.up, k.x, p, q);
    }
  }

  /** Only what fills the hole of `k`, on the left, changes. */
  lemma {:induction false} Refill(h: Heap, h': Heap, k: Ctx, hole: Node?, hole': Node?, p: Node?)
    requires CShape(h, k, hole, p) && CDisjoint(k) && k.InLeft?
    requires k.x in h' && h'[k.x] == h[k.x].(left := hole') && Agree(h, h', CNodes(k) - {k.x})
    ensures CShape(h', k, hole', p)
  {
    ShapeFrame(h, h', k.sib, k.x);
    CShapeFrame(h, h', k.up, k.x, p);
  }

  /** `h'` is `h` after `y`, the leftmost node of the right subtree of `z`, has taken the place of `z`. */
  ghost predicate Succeeded(h: Heap, h': Heap, z: Node, y: Node)
    requires z in h && y in h
  {
    var l, r, q, d, p := h[z].left, h[z].right, h[y].parent, h[y].right, h[z].parent;
    && h'.Keys == h.Keys
    && h'[y] == Cell(l, if q == z then d else r, p, h[z].red)
    && (l != null && l in h ==> h'[l] == h[l].(parent := y))
    && (q != z && q != r && q != null && q in h ==> h'[q] == h[q].(left := d))
    && (q != z && q != r && r != null && r in h ==> h'[r] == h[r].(parent := y))
    && (q == r && q != null && q in h ==> h'[q] == h[q].(left := d, parent := y))
    && (d != null && d in h ==> h'[d] == if q == z then h[d] else h[d].(parent := q))
    && (p != null && p in h ==> h'[p] == Redirect(h[p], z, y))
    && (forall n :: n in h && n !in {y, l, r, q, d, p} ==> h'[n] == h[n])
  }

  /** The right subtree of `z` after its leftmost node `y` has been taken out and put above it. */
  lemma {:induction false} SucceededRight(h: Heap, h': Heap, z: Node, k: Ctx, u: Tree)
    requires u.T? && u.left.Leaf? && Before(k) == []
    requires Shape(h, Plug(k, u), z) && Disjoint(Plug(k, u)) && z !in Nodes(Plug(k, u))
    requires z in h && u.x in h && Succeeded(h, h', z, u.x)
    requires h[z].right == Ref(Plug(k, u))
    requires h[z].left != null ==> h[z].left !in Nodes(Plug(k, u))
    requires h[z].parent != null ==> h[z].parent !in Nodes(Plug(k, u))
    ensures Shape(h', Plug(k, u.right), u.x)
  {
    var y, d := u.x, u.right;
    PlugShape(h, k, u, z);
    PlugDisjoint(k, u);
    PlugNodes(k, u);
    PlugShape(h', k, d, y);
    assert Shape(h, d, y) && Disjoint(d);
    if d.T? { assert d.x in Nodes(d); }
    if k.Top? {
      ShapeFrame(h, h', d, y);
    } else {
      var h1 := h[k.x := h[k.x].(left := Ref(d))];
      PlugRoot(k, u);
      PlugRoot(k, Leaf);
      PlugRef(k, u, Leaf);
      Refill(h, h1, k, y, Ref(d), z);
      Rehang(h1, h', k, Ref(d), z, y);
      ReparentShape(h, h', d, y, k.x);
    }
  }

  function WithSuccessor(s: Tree, k: Ctx, u: Tree): Tree
    requires s.T? && u.T?
  {
    T(s.red, s.left, u.x, Plug(k, u.right))
  }

  /** The nodes that change hands when `y` takes the place of `z`, told apart. */
  ghost predicate Apart(S: set<Node>, z: Node, y: Node, l: Node?, r: Node?, q: Node?, d: Node?, p: Node?) {
    && z != y && l != null && r != null && q != null && l in S && r in S && q in S
    && l != z && l != y && l != r && l != q && l != d && l != p
    && (if q == z then r == y else r != z && r != y && r != d && r != p && q != y && q != d && q != p)
    && (d != null ==> d in S && d != z && d != y && d != l && d != r && d != p)
    && (p != null ==> p in S && p != z && p != y && p != l && p != r && p != q && p != d)
  }

  lemma {:induction false} SuccessorAround(h: Heap, c: Ctx, s: Tree, k: Ctx, u: Tree)
    requires Shape(h, Plug(c, s), null) && Disjoint(Plug(c, s)) && s.T? && s.left.T?
    requires s.right == Plug(k, u) && u.T? && u.left.Leaf? && Before(k) == []
    ensures s.x in h && u.x in h && s.x in Nodes(Plug(c, s)) && u.x in Nodes(Plug(c, s))
    ensures h[s.x] == Cell(s.left.x, Ref(s.right), Above(c, null), s.red)
    ensures h[u.x] == Cell(null, Ref(u.right), Above(k, s.x), u.red)
    ensures u.x in Nodes(s.right) && s.right.T? && s.right.x in Nodes(s.right)
    ensures !k.Top? ==> k.x in Nodes(s.right) && k.x != s.x
    ensures u.right.T? ==> u.right.x in Nodes(s.right)
    ensures Apart(Nodes(Plug(c, s)), s.x, u.x, s.left.x, Ref(s.right), Above(k, s.x), Ref(u.right), Above(c, null))
  {
    Around(h, c, s);
    PlugNodes(k, u);
    PlugDisjoint(k, u);
    PlugShape(h, k, u, s.x);
    if !k.Top? { PlugRoot(k, u); }
    if u.right.T? { assert u.right.x in Nodes(u.right); }
    assert s.left.x in Nodes(s.left);
  }

  lemma {:induction false} SucceededInside(h: Heap, h': Heap, p: Node?, s: Tree, k: Ctx, u: Tree)
    requires Shape(h, s, p) && Disjoint(s) && s.T? && s.left.T? && p !in Nodes(s)
    requires s.right == Plug(k, u) && u.T? && u.left.Leaf? && Before(k) == []
    requires s.x in h && u.x in h && Succeeded(h, h', s.x, u.x)
    requires u.x in Nodes(s.right) && h[u.x].right == Ref(u.right) && h[u.x].parent == Above(k, s.x)
    requires s.right.T? && s.right.x in Nodes(s.right) && (!k.Top? ==> k.x in Nodes(s.right)) && (u.right.T? ==> u.right.x in Nodes(s.right))
    ensures var s' := WithSuccessor(s, k, u);
      Shape(h', s', p) && Disjoint(s') && Nodes(s') == Nodes(s) - {s.x}
  {
    var s', r' := WithSuccessor(s, k, u), Plug(k, u.right);
    assert Nodes(r') == Nodes(s.right) - {u.x} && Disjoint(r') by {
      PlugNodes(k, u);
      PlugNodes(k, u.right);
      PlugDisjoint(k, u);
      PlugDisjoint(k, u.right);
    }
    assert Shape(h', r', u.x) by { SucceededRight(h, h', s.x, k, u); }
    assert s.left.x in Nodes(s.left);
    assert Shape(h', s.left, u.x) by { ReparentShape(h, h', s.left, s.x, u.x); }
    assert Ref(r') == h'[u.x].right by {
      if !k.Top? { PlugRef(k, u, u.right); }
    }
  }

  /** Letting the successor take over removes the node from the tree, and changes nothing else. */
  lemma {:induction false} SucceededShape(h: Heap, h': Heap, c: Ctx, s: Tree, k: Ctx, u: Tree)
    requires Shape(h, Plug(c, s), null) && Disjoint(Plug(c, s)) && s.T? && s.left.T?
    requires s.right == Plug(k, u) && u.T? && u.left.Leaf? && Before(k) == []
    requires s.x in h && u.x in h && Succeeded(h, h', s.x, u.x)
    ensures var s' := WithSuccessor(s, k, u); 
      && Shape(h', Plug(c, s'), null) && Disjoint(Plug(c, s'))
      && Nodes(Plug(c, s')) == Nodes(Plug(c, s)) - {s.x}
      && Ref(Plug(c, s')) == if c.Top? then u.x else Ref(Plug(c, s))
  {
    SuccessorAround(h, c, s, k, u);
    Around(h, c, s);
    SucceededInside(h, h', Above(c, null), s, k, u);
    if !c.Top? { RedirectHole(h, c, s, u.x); }
    Replant(h, h', c, s, WithSuccessor(s, k, u));
  }
}
