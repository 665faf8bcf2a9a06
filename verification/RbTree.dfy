/**
 The red-black tree of coroutine_3/src/rbtree.c and rbtree.h: linked nodes with parent pointers, updated in place.

 `RbTree.t` is the tree the links form. The ghost parameters of the methods say where in that tree a node stands:
 `t == Plug(c, s)` with the node at the root of `s`. Each method says which tree it leaves; since `Shape` fixes every
 field of every node, that determines the whole new state.
 */
module RbTree {
  import opened RbShape
  import opened RbBalance
  import opened RbOrder

  /** A link field: the `struct rb_node **` of the insertion loop. */
  datatype Link = RootLink | LeftLink(of: Node) | RightLink(of: Node)

  ghost function LinkOf(c: Ctx): Link {
    match c
    case Top => RootLink
    case InLeft(_, _, x, _) => LeftLink(x)
    case InRight(_, _, x, _) => RightLink(x)
  }

  class RbTree {
    var root: Node?
    ghost var t: Tree

    ghost predicate Holds()
      reads this, Nodes(t)
    {
      root == Ref(t) && Disjoint(t) && Shape(Snap(Nodes(t)), t, null)
    }

    ghost predicate Valid()
      reads this, Nodes(t)
    {
      Holds() && Sorted(t) && RedBlack(t)
    }

    constructor ()
      ensures Valid() && t == Leaf && root == null
    {
      root, t := null, Leaf;
    }

    lemma Look(c: Ctx, s: Tree)
      requires Holds() && t == Plug(c, s)
      ensures Disjoint(s) && CDisjoint(c) && Nodes(s) !! CNodes(c) && Nodes(t) == CNodes(c) + Nodes(s)
      ensures s.T? ==> s.x in Nodes(s) && C(s.x) == Cell(Ref(s.left), Ref(s.right), Above(c, null), s.red)
      ensures !c.Top? ==> c.x in CNodes(c) && c.x !in Nodes(s) && C(c.x) == CCell(c, Ref(s), null)
    {
      Around(Snap(Nodes(t)), c, s);
    }

    // ---------- rotations ----------

    method RotateLeftLinks(node: Node, ghost S: set<Node>)
      requires node in S && node.right != null && node.right in S && node.right != node
      requires node.right.left != null ==> node.right.left in S - {node, node.right}
      requires node.parent != null ==> node.parent in S - {node, node.right, node.right.left}
      requires node.parent != null ==> node.parent.left == node || node.parent.right == node
      modifies `root, S
      ensures var y := old(node.right); var b, p := old(y.left), old(node.parent);
        && C(node) == old(C(node)).(right := b, parent := y)
        && C(y) == old(C(y)).(left := node, parent := p)
        && (b != null ==> C(b) == old(C(b)).(parent := node))
        && (p != null ==> C(p) == Redirect(old(C(p)), node, y))
        && (forall n :: n in S && n != node && n != y && n != b && n != p ==> C(n) == old(C(n)))
        && root == if p == null then y else old(root)
    {
      var right := node.right;
      var parent := node.parent;
      node.right := right.left;
      if node.right != null {
        right.left.parent := node;
      }
      right.left := node;
      right.parent := parent;
      if parent != null {
        if node == parent.left {
          parent.left := right;
        } else {
          parent.right := right;
        }
      } else {
        root := right;
      }
      node.parent := right;
    }

    method RotateRightLinks(node: Node, ghost S: set<Node>)
      requires node in S && node.left != null && node.left in S && node.left != node
      requires node.left.right != null ==> node.left.right in S - {node, node.left}
      requires node.parent != null ==> node.parent in S - {node, node.left, node.left.right}
      requires node.parent != null ==> node.parent.left == node || node.parent.right == node
      requires node.parent != null ==> node.parent.left != node.parent.right
      modifies `root, S
      ensures var y := old(node.left); var b, p := old(y.right), old(node.parent);
        && C(node) == old(C(node)).(left := b, parent := y)
        && C(y) == old(C(y)).(right := node, parent := p)
        && (b != null ==> C(b) == old(C(b)).(parent := node))
        && (p != null ==> C(p) == Redirect(old(C(p)), node, y))
        && (forall n :: n in S && n != node && n != y && n != b && n != p ==> C(n) == old(C(n)))
        && root == if p == null then y else old(root)
    {
      var left := node.left;
      var parent := node.parent;
      node.left := left.right;
      if node.left != null {
        left.right.parent := node;
      }
      left.right := node;
      left.parent := parent;
      if parent != null {
        if node == parent.right {
          parent.right := left;
        } else {
          parent.left := left;
        }
      } else {
        root := left;
      }
      node.parent := left;
    }

    lemma ParentReady(c: Ctx, s: Tree)
      requires Holds() && t == Plug(c, s) && s.T?
      ensures s.x.parent == Above(c, null)
      ensures !c.Top? ==> c.x.left == s.x || c.x.right == s.x
      ensures !c.Top? ==> c.x.left != c.x.right
    {
      Look(c, s);
      if !c.Top? && c.sib.T? { assert c.sib.x in CNodes(c); }
    }

    lemma RotateLeftReady(c: Ctx, s: Tree)
      requires Holds() && t == Plug(c, s) && s.T? && s.right.T?
      ensures s.x in Nodes(t) && s.right.x in Nodes(t) && s.x.right == s.right.x && s.right.x != s.x
      ensures s.x.right.left != null ==> s.x.right.left in Nodes(t) - {s.x, s.right.x}
      ensures s.x.parent != null ==> s.x.parent in Nodes(t) - {s.x, s.right.x, s.x.right.left}
      ensures s.x.parent != null ==> s.x.parent.left == s.x || s.x.parent.right == s.x
      ensures (s.x.parent == null) == c.Top?
    {
      var c' := InRight(s.red, s.left, s.x, c);
      ParentReady(c, s);
      Look(c, s);
      Look(c', s.right);
      Look(InLeft(s.right.red, c', s.right.x, s.right.right), s.right.left);
    }

    lemma RotateRightReady(c: Ctx, s: Tree)
      requires Holds() && t == Plug(c, s) && s.T? && s.left.T?
      ensures s.x in Nodes(t) && s.left.x in Nodes(t) && s.x.left == s.left.x && s.left.x != s.x
      ensures s.x.left.right != null ==> s.x.left.right in Nodes(t) - {s.x, s.left.x}
      ensures s.x.parent != null ==> s.x.parent in Nodes(t) - {s.x, s.left.x, s.x.left.right}
      ensures s.x.parent != null ==> s.x.parent.left == s.x || s.x.parent.right == s.x
      ensures s.x.parent != null ==> s.x.parent.left != s.x.parent.right
      ensures (s.x.parent == null) == c.Top?
    {
      var c' := InLeft(s.red, c, s.x, s.right);
      ParentReady(c, s);
      Look(c, s);
      Look(c', s.left);
      Look(InRight(s.left.red, s.left.left, s.left.x, c'), s.left.right);
    }

    method RotateLeft(node: Node, ghost c: Ctx, ghost s: Tree)
      requires Holds() && t == Plug(c, s) && s.T? && s.x == node && s.right.T?
      modifies this, Nodes(t)
      ensures Holds() && t == Plug(c, RotLTree(s))
      ensures Nodes(t) == old(Nodes(t)) && InOrder(t) == old(InOrder(t))
    {
      ghost var h, S := Snap(Nodes(t)), Nodes(t);
      RotateLeftReady(c, s);
      RotateLeftLinks(node, S);
      RotLShape(h, Snap(S), c, s);
      RotLOrder(c, s);
      t := Plug(c, RotLTree(s));
    }

    method RotateRight(node: Node, ghost c: Ctx, ghost s: Tree)
      requires Holds() && t == Plug(c, s) && s.T? && s.x == node && s.left.T?
      modifies this, Nodes(t)
      ensures Holds() && t == Plug(c, RotRTree(s))
      ensures Nodes(t) == old(Nodes(t)) && InOrder(t) == old(InOrder(t))
    {
      ghost var h, S := Snap(Nodes(t)), Nodes(t);
      RotateRightReady(c, s);
      RotateRightLinks(node, S);
      RotRShape(h, Snap(S), c, s);
      RotROrder(c, s);
      t := Plug(c, RotRTree(s));
    }

    /** rb_set_color, rb_set_red, rb_set_black. */
    method SetColor(n: Node, red: bool, ghost c: Ctx, ghost s: Tree)
      requires Holds() && t == Plug(c, s) && s.T? && s.x == n
      modifies this, Nodes(t)
      ensures Holds() && t == Plug(c, s.(red := red)) && root == old(root)
      ensures Nodes(t) == old(Nodes(t)) && InOrder(t) == old(InOrder(t))
    {
      ghost var h, S := Snap(Nodes(t)), Nodes(t);
      Look(c, s);
      Paint(n, red, S);
      PaintShape(h, Snap(S), c, s, red);
      t := Plug(c, s.(red := red));
    }

    method Paint(n: Node, red: bool, ghost S: set<Node>)
      requires n in S
      modifies n`red
      ensures Snap(S) == old(Snap(S))[n := old(Snap(S))[n].(red := red)]
    {
      n.red := red;
    }

    // ---------- insertion ----------

    /** The last case when the parent is a left child: recolour and rotate right. */
    method LiftLeft(gparent: Node, parent: Node, ghost up: Ctx, ghost g: Tree)
      requires Holds() && t == Plug(up, g) && g.T? && g.x == gparent && g.left.T? && g.left.x == parent
      modifies this, Nodes(t)
      ensures Holds() && t == Plug(up, T(false, g.left.left, parent, T(true, g.left.right, gparent, g.right)))
      ensures Nodes(t) == old(Nodes(t)) && InOrder(t) == old(InOrder(t))
    {
      SetColor(parent, false, InLeft(g.red, up, gparent, g.right), g.left);
      SetColor(gparent, true, up, g.(left := Blacken(g.left)));
      RotateRight(gparent, up, T(true, Blacken(g.left), gparent, g.right));
    }

    method LiftRight(gparent: Node, parent: Node, ghost up: Ctx, ghost g: Tree)
      requires Holds() && t == Plug(up, g) && g.T? && g.x == gparent && g.right.T? && g.right.x == parent
      modifies this, Nodes(t)
      ensures Holds() && t == Plug(up, T(false, T(true, g.left, gparent, g.right.left), parent, g.right.right))
      ensures Nodes(t) == old(Nodes(t)) && InOrder(t) == old(InOrder(t))
    {
      SetColor(parent, false, InRight(g.red, g.left, gparent, up), g.right);
      SetColor(gparent, true, up, g.(right := Blacken(g.right)));
      RotateLeft(gparent, up, T(true, g.left, gparent, Blacken(g.right)));
    }

    /**
     One round of the insertion fix-up at a red `node` whose parent is a red left child: either the violation moves up
     to the grandparent, or rotations remove it.
     */
    method InsertStepLeft(node: Node, parent: Node, gparent: Node, ghost up: Ctx, ghost p: Tree, ghost u: Tree)
      returns (next: Node, ghost c: Ctx, ghost s: Tree)
      requires Holds() && t == Plug(up, T(false, p, gparent, u)) && Ref(p) == parent
      requires RedPair(p, BH(u)) && RB(u) && CRB(up, BH(u) + 1)
      requires node == Ref(if Rd(p.left) then p.left else p.right)
      modifies this, Nodes(t)
      ensures Holds() && t == Plug(c, s) && Ref(s) == next && RedSpot(c, s)
      ensures Nodes(t) == old(Nodes(t)) && InOrder(t) == old(InOrder(t))
      ensures CDepth(c) <= CDepth(up) + 1
    {
      ghost var cg, p := InLeft(false, up, gparent, u), p;
      var parent, node := parent, node;
      Look(up, T(false, p, gparent, u));
      Look(InRight(false, p, gparent, up), u);
      Look(cg, p);
      var uncle := gparent.right;
      if uncle != null && uncle.red {
        RecolorLeft(up, p, gparent, u);
        SetColor(uncle, false, InRight(false, p, gparent, up), u);
        SetColor(parent, false, InLeft(false, up, gparent, Blacken(u)), p);
        SetColor(gparent, true, up, T(false, Blacken(p), gparent, Blacken(u)));
        return gparent, up, T(true, Blacken(p), gparent, Blacken(u));
      }
      if parent.right == node {
        StraightenLeft(p, BH(u));
        RotateLeft(parent, cg, p);
        p := RotLTree(p);
        parent, node := node, parent;
      }
      LiftedLeft(up, p, gparent, u);
      LiftLeft(gparent, parent, up, T(false, p, gparent, u));
      next, c, s := node, InLeft(false, up, parent, T(true, p.right, gparent, u)), p.left;
    }

    method InsertStepRight(node: Node, parent: Node, gparent: Node, ghost up: Ctx, ghost p: Tree, ghost u: Tree)
      returns (next: Node, ghost c: Ctx, ghost s: Tree)
      requires Holds() && t == Plug(up, T(false, u, gparent, p)) && Ref(p) == parent
      requires RedPair(p, BH(u)) && RB(u) && CRB(up, BH(u) + 1)
      requires node == Ref(if Rd(p.left) then p.left else p.right)
      modifies this, Nodes(t)
      ensures Holds() && t == Plug(c, s) && Ref(s) == next && RedSpot(c, s)
      ensures Nodes(t) == old(Nodes(t)) && InOrder(t) == old(InOrder(t))
      ensures CDepth(c) <= CDepth(up) + 1
    {
      ghost var cg, p := InRight(false, u, gparent, up), p;
      var parent, node := parent, node;
      Look(up, T(false, u, gparent, p));
      Look(InLeft(false, up, gparent, p), u);
      Look(cg, p);
      var uncle := gparent.left;
      if uncle != null && uncle.red {
        RecolorRight(up, p, gparent, u);
        SetColor(uncle, false, InLeft(false, up, gparent, p), u);
        SetColor(parent, false, InRight(false, Blacken(u), gparent, up), p);
        SetColor(gparent, true, up, T(false, Blacken(u), gparent, Blacken(p)));
        return gparent, up, T(true, Blacken(u), gparent, Blacken(p));
      }
      if parent.left == node {
        StraightenRight(p, BH(u));
        RotateRight(parent, cg, p);
        p := RotRTree(p);
        parent, node := node, parent;
      }
      LiftedRight(up, p, gparent, u);
      LiftRight(gparent, parent, up, T(false, u, gparent, p));
      next, c, s := node, InRight(false, T(true, u, gparent, p.left), parent, up), p.right;
    }

    /** One round of the insertion fix-up, on whichever side of the grandparent the red parent is. */
    method InsertStep(node: Node, parent: Node, ghost c: Ctx, ghost s: Tree)
      returns (next: Node, ghost c': Ctx, ghost s': Tree)
      requires Holds() && t == Plug(c, s) && Ref(s) == node && RedSpot(c, s)
      requires CRd(c) && parent == c.x
      modifies this, Nodes(t)
      ensures Holds() && t == Plug(c', s') && Ref(s') == next && RedSpot(c', s')
      ensures Nodes(t) == old(Nodes(t)) && InOrder(t) == old(InOrder(t))
      ensures CDepth(c') < CDepth(c)
    {
      RedPairHere(c, s);
      ghost var p := if c.InLeft? then T(true, s, c.x, c.sib) else T(true, c.sib, c.x, s);
      Look(c.up, p);
      ParentReady(c.up, p);
      var gparent := parent.parent;
      if parent == gparent.left {
        next, c', s' := InsertStepLeft(node, parent, gparent, c.up.up, p, c.up.sib);
      } else {
        next, c', s' := InsertStepRight(node, parent, gparent, c.up.up, p, c.up.sib);
      }
    }

    /** rb_insert_color: restores the red-black conditions after a red leaf has been linked in. */
    method InsertColor(leaf: Node, ghost c0: Ctx, ghost s0: Tree)
      requires Holds() && t == Plug(c0, s0) && Ref(s0) == leaf && RedSpot(c0, s0)
      modifies this, Nodes(t)
      ensures Holds() && RedBlack(t)
      ensures Nodes(t) == old(Nodes(t)) && InOrder(t) == old(InOrder(t))
    {
      var node := leaf;
      ghost var c, s := c0, s0;
      Look(c, s);
      var parent := node.parent;
      while parent != null && parent.red
        invariant Holds() && t == Plug(c, s) && Ref(s) == node && RedSpot(c, s)
        invariant parent == Above(c, null) && (parent != null ==> parent.red == CRd(c))
        invariant Nodes(t) == old(Nodes(t)) && InOrder(t) == old(InOrder(t))
        decreases CDepth(c)
      {
        node, parent, c, s := InsertRound(node, parent, c, s);
      }
      BlackenRoot(c, s);
    }

    method InsertRound(node: Node, parent: Node, ghost c: Ctx, ghost s: Tree)
      returns (next: Node, above: Node?, ghost c': Ctx, ghost s': Tree)
      requires Holds() && t == Plug(c, s) && Ref(s) == node && RedSpot(c, s)
      requires CRd(c) && parent == c.x
      modifies this, Nodes(t)
      ensures Holds() && t == Plug(c', s') && Ref(s') == next && RedSpot(c', s') && CDepth(c') < CDepth(c)
      ensures above == Above(c', null) && (above != null ==> above.red == CRd(c'))
      ensures Nodes(t) == old(Nodes(t)) && InOrder(t) == old(InOrder(t))
    {
      next, c', s' := InsertStep(node, parent, c, s);
      Look(c', s');
      above := next.parent;
    }

    /** The end of the insertion fix-up, when there is no violation but perhaps a red root. */
    method BlackenRoot(ghost c: Ctx, ghost s: Tree)
      requires Holds() && t == Plug(c, s) && RedSpot(c, s) && !CRd(c)
      modifies this, Nodes(t)
      ensures Holds() && RedBlack(t)
      ensures Nodes(t) == old(Nodes(t)) && InOrder(t) == old(InOrder(t))
    {
      InsertedRB(c, s);
      SetColor(root, false, Top, t);
    }

    /** rb_link_node: `node` becomes a red leaf in an empty hole. */
    method LinkNodeLinks(node: Node, parent: Node?, link: Link, ghost S: set<Node>)
      requires node !in S
      requires match link case RootLink => parent == null case _ => parent == link.of && parent in S
      modifies `root, node, S
      ensures C(node) == Cell(null, null, parent, true)
      ensures root == if link.RootLink? then node else old(root)
      ensures parent != null ==> C(parent) == if link.LeftLink? then old(C(parent)).(left := node) else old(C(parent)).(right := node)
      ensures forall n :: n in S && n != parent ==> C(n) == old(C(n))
    {
      node.parent, node.red := parent, true;
      node.left, node.right := null, null;
      match link
      case RootLink => root := node;
      case LeftLink(p) => p.left := node;
      case RightLink(p) => p.right := node;
    }

    method LinkNode(node: Node, parent: Node?, link: Link, ghost c: Ctx)
      requires Holds() && t == Plug(c, Leaf) && node !in Nodes(t)
      requires parent == Above(c, null) && link == LinkOf(c)
      modifies this, Nodes(t), node
      ensures Holds() && t == Plug(c, T(true, Leaf, node, Leaf))
      ensures Nodes(t) == old(Nodes(t)) + {node}
    {
      ghost var h, S := Snap(Nodes(t)), Nodes(t);
      Look(c, Leaf);
      LinkNodeLinks(node, parent, link, S);
      Linked(h, Snap(S + {node}), c, node);
      t := Plug(c, T(true, Leaf, node, Leaf));
    }

    /** Links `nw` in at an empty hole where its key belongs, and rebalances. */
    method InsertAt(nw: Node, parent: Node?, link: Link, ghost c: Ctx)
      requires Valid() && nw !in Nodes(t) && t == Plug(c, Leaf) && Gap(c, nw.key)
      requires parent == Above(c, null) && link == LinkOf(c)
      modifies this, Nodes(t), nw
      ensures Valid() && Nodes(t) == old(Nodes(t)) + {nw}
    {
      GapInsert(c, nw);
      UnplugRB(c, Leaf);
      LinkNode(nw, parent, link, c);
      InsertColor(nw, c, T(true, Leaf, nw, Leaf));
    }

    /**
     rb_insert: links `nw` in unless its key is taken, in which case the node that has it is returned and nothing
     changes. `steps` is the number of nodes compared with.
     */
    method Insert(nw: Node) returns (existing: Node?, ghost steps: nat)
      requires Valid() && nw !in Nodes(t)
      modifies this, Nodes(t), nw
      ensures Valid()
      ensures existing == null <==> forall n :: n in old(Nodes(t)) ==> n.key != nw.key
      ensures existing == null ==> Nodes(t) == old(Nodes(t)) + {nw}
      ensures existing != null ==> existing in Nodes(t) && existing.key == nw.key && t == old(t)
      ensures existing != null ==> unchanged(this) && unchanged(nw)
      ensures steps <= Height(old(t))
    {
      var link, parent, at := RootLink, null, root;
      ghost var c, s := Top, t;
      steps := 0;
      while at != null
        invariant t == Plug(c, s) && at == Ref(s)
        invariant parent == Above(c, null)
        invariant link == LinkOf(c)
        invariant Gap(c, nw.key) && steps == CDepth(c)
        invariant Valid() && t == old(t) && unchanged(this) && unchanged(nw)
        decreases s
      {
        Look(c, s);
        parent := at;
        steps := steps + 1;
        if nw.key < at.key {
          GapLeft(c, s, nw.key);
          c, s := InLeft(s.red, c, s.x, s.right), s.left;
          link, at := LeftLink(at), at.left;
        } else if nw.key > at.key {
          GapRight(c, s, nw.key);
          c, s := InRight(s.red, s.left, s.x, c), s.right;
          link, at := RightLink(at), at.right;
        } else {
          DepthHeight(c, s);
          return at, steps;
        }
      }
      DepthHeight(c, s);
      GapAbsent(c, nw.key);
      InsertAt(nw, parent, link, c);
      existing := null;
    }

    // ---------- erasure ----------

    /** A node, and the colours of its children. */
    lemma LookDown(c: Ctx, s: Tree)
      requires Holds() && t == Plug(c, s) && s.T?
      ensures C(s.x) == Cell(Ref(s.left), Ref(s.right), Above(c, null), s.red)
      ensures s.left.T? ==> s.left.x in Nodes(t) && s.left.x.red == Rd(s.left)
      ensures s.right.T? ==> s.right.x in Nodes(t) && s.right.x.red == Rd(s.right)
    {
      Look(c, s);
      Look(InLeft(s.red, c, s.x, s.right), s.left);
      Look(InRight(s.red, s.left, s.x, c), s.right);
    }

    /** The sibling is black and its far child red: recolour, rotate, done. */
    method EraseFarLeft(parent: Node, other: Node, ghost up: Ctx, ghost pr: bool, ghost s: Tree, ghost o: Tree)
      requires Holds() && t == Plug(up, T(pr, s, parent, o)) && Ref(o) == other
      requires Short(InLeft(pr, up, parent, o), s) && !Rd(s) && !o.red && Rd(o.right)
      modifies this, Nodes(t)
      ensures Holds() && RedBlack(t)
      ensures Nodes(t) == old(Nodes(t)) && InOrder(t) == old(InOrder(t))
    {
      FarRedLeft(up, parent, o, pr, s);
      LookDown(up, T(pr, s, parent, o));
      LookDown(InRight(pr, s, parent, up), o);
      var far := other.right;
      SetColor(other, parent.red, InRight(pr, s, parent, up), o);
      SetColor(parent, false, up, T(pr, s, parent, o.(red := pr)));
      SetColor(far, false, InRight(pr, o.left, other, InRight(false, s, parent, up)), o.right);
      RotateLeft(parent, up, T(false, s, parent, T(pr, o.left, other, Blacken(o.right))));
    }

    /** The sibling is black. */
    method EraseBlackLeft(parent: Node, other: Node, ghost up: Ctx, ghost pr: bool, ghost s: Tree, ghost o: Tree)
      returns (moved: bool)
      requires Holds() && t == Plug(up, T(pr, s, parent, o)) && Ref(o) == other
      requires Short(InLeft(pr, up, parent, o), s) && !Rd(s) && !o.red && o.T?
      modifies this, Nodes(t)
      ensures Holds() && Nodes(t) == old(Nodes(t)) && InOrder(t) == old(InOrder(t))
      ensures !moved ==> RedBlack(t)
      ensures moved ==> var s' := T(pr, s, parent, o.(red := true)); t == Plug(up, s') && Short(up, s')
    {
      ghost var co := InRight(pr, s, parent, up);
      LookDown(co, o);
      if (other.left == null || !other.left.red) && (other.right == null || !other.right.red) {
        PaleSiblingLeft(up, parent, o, pr, s);
        SetColor(other, true, co, o);
        return true;
      }
      var other, o := other, o;
      if other.right == null || !other.right.red {
        NearRedLeft(up, parent, o, pr, s);
        SetColor(other.left, false, InLeft(false, co, other, o.right), o.left);
        SetColor(other, true, co, o.(left := Blacken(o.left)));
        RotateRight(other, co, T(true, Blacken(o.left), other, o.right));
        o := T(false, o.left.left, o.left.x, T(true, o.left.right, o.x, o.right));
        LookDown(up, T(pr, s, parent, o));
        other := parent.right;
      }
      EraseFarLeft(parent, other, up, pr, s, o);
      moved := false;
    }

    method EraseFarRight(parent: Node, other: Node, ghost up: Ctx, ghost pr: bool, ghost s: Tree, ghost o: Tree)
      requires Holds() && t == Plug(up, T(pr, o, parent, s)) && Ref(o) == other
      requires Short(InRight(pr, o, parent, up), s) && !Rd(s) && !o.red && Rd(o.left)
      modifies this, Nodes(t)
      ensures Holds() && RedBlack(t)
      ensures Nodes(t) == old(Nodes(t)) && InOrder(t) == old(InOrder(t))
    {
      FarRedRight(up, parent, o, pr, s);
      LookDown(up, T(pr, o, parent, s));
      LookDown(InLeft(pr, up, parent, s), o);
      var far := other.left;
      SetColor(other, parent.red, InLeft(pr, up, parent, s), o);
      SetColor(parent, false, up, T(pr, o.(red := pr), parent, s));
      SetColor(far, false, InLeft(pr, InLeft(false, up, parent, s), other, o.right), o.left);
      RotateRight(parent, up, T(false, T(pr, Blacken(o.left), other, o.right), parent, s));
    }

    method EraseBlackRight(parent: Node, other: Node, ghost up: Ctx, ghost pr: bool, ghost s: Tree, ghost o: Tree)
      returns (moved: bool)
      requires Holds() && t == Plug(up, T(pr, o, parent, s)) && Ref(o) == other
      requires Short(InRight(pr, o, parent, up), s) && !Rd(s) && !o.red && o.T?
      modifies this, Nodes(t)
      ensures Holds() && Nodes(t) == old(Nodes(t)) && InOrder(t) == old(InOrder(t))
      ensures !moved ==> RedBlack(t)
      ensures moved ==> var s' := T(pr, o.(red := true), parent, s); t == Plug(up, s') && Short(up, s')
    {
      ghost var co := InLeft(pr, up, parent, s);
      LookDown(co, o);
      if (other.left == null || !other.left.red) && (other.right == null || !other.right.red) {
        PaleSiblingRight(up, parent, o, pr, s);
        SetColor(other, true, co, o);
        return true;
      }
      var other, o := other, o;
      if other.left == null || !other.left.red {
        NearRedRight(up, parent, o, pr, s);
        SetColor(other.right, false, InRight(false, o.left, other, co), o.right);
        SetColor(other, true, co, o.(right := Blacken(o.right)));
        RotateLeft(other, co, T(true, o.left, other, Blacken(o.right)));
        o := T(false, T(true, o.left, o.x, o.right.left), o.right.x, o.right.right);
        LookDown(up, T(pr, o, parent, s));
        other := parent.left;
      }
      EraseFarRight(parent, other, up, pr, s, o);
      moved := false;
    }

    /** One round of the erasure fix-up for a short left child of `parent`. */
    method EraseStepLeft(parent: Node, ghost c0: Ctx, ghost s: Tree)
      returns (moved: bool, ghost c': Ctx, ghost s': Tree)
      requires Holds() && t == Plug(c0, s) && c0.InLeft? && c0.x == parent && Short(c0, s) && !Rd(s)
      modifies this, Nodes(t)
      ensures Holds() && Nodes(t) == old(Nodes(t)) && InOrder(t) == old(InOrder(t))
      ensures !moved ==> RedBlack(t)
      ensures moved ==> t == Plug(c', s') && Ref(s') == parent && Short(c', s') && Debt(c', s') < Debt(c0, s)
    {
      ghost var c, o := c0, c0.sib;
      Look(c, s);
      Look(InRight(c.red, s, parent, c.up), o);
      var other := parent.right;
      if other.red {
        RedSiblingLeft(c.up, parent, o, c.red, s);
        SetColor(other, false, InRight(false, s, parent, c.up), o);
        SetColor(parent, true, c.up, T(false, s, parent, Blacken(o)));
        RotateLeft(parent, c.up, T(true, s, parent, Blacken(o)));
        c, o := InLeft(true, InLeft(false, c.up, o.x, o.right), parent, o.left), o.left;
        Look(c, s);
        other := parent.right;
      }
      moved := EraseBlackLeft(parent, other, c.up, c.red, s, o);
      c', s' := c.up, T(c.red, s, parent, o.(red := true));
    }

    method EraseStepRight(parent: Node, ghost c0: Ctx, ghost s: Tree)
      returns (moved: bool, ghost c': Ctx, ghost s': Tree)
      requires Holds() && t == Plug(c0, s) && c0.InRight? && c0.x == parent && Short(c0, s) && !Rd(s)
      modifies this, Nodes(t)
      ensures Holds() && Nodes(t) == old(Nodes(t)) && InOrder(t) == old(InOrder(t))
      ensures !moved ==> RedBlack(t)
      ensures moved ==> t == Plug(c', s') && Ref(s') == parent && Short(c', s') && Debt(c', s') < Debt(c0, s)
    {
      ghost var c, o := c0, c0.sib;
      Look(c, s);
      Look(InLeft(c.red, c.up, parent, s), o);
      var other := parent.left;
      if other.red {
        RedSiblingRight(c.up, parent, o, c.red, s);
        SetColor(other, false, InLeft(false, c.up, parent, s), o);
        SetColor(parent, true, c.up, T(false, Blacken(o), parent, s));
        RotateRight(parent, c.up, T(true, Blacken(o), parent, s));
        c, o := InRight(true, o.right, parent, InRight(false, o.left, o.x, c.up)), o.right;
        Look(c, s);
        other := parent.left;
      }
      moved := EraseBlackRight(parent, other, c.up, c.red, s, o);
      c', s' := c.up, T(c.red, o.(red := true), parent, s);
    }

    /** The hole of a short tree that is not the whole tree: its parent and sibling exist, and its side can be told. */
    lemma ShortParent(c: Ctx, s: Tree)
      requires Holds() && t == Plug(c, s) && Short(c, s)
      ensures Ref(s) == root <==> c.Top?
      ensures !c.Top? ==> c.sib.T? && c.x in Nodes(t) && (c.x.left == Ref(s) <==> c.InLeft?)
    {
      Look(c, s);
      if !c.Top? {
        PlugRoot(c, s);
        assert BH(c.sib) == BH(s) + 1;
        assert c.sib.x in CNodes(c);
      }
    }

    method EraseStep(node: Node?, parent: Node, ghost c: Ctx, ghost s: Tree)
      returns (moved: bool, ghost c': Ctx, ghost s': Tree)
      requires Holds() && t == Plug(c, s) && Ref(s) == node && !c.Top? && c.x == parent && Short(c, s) && !Rd(s)
      modifies this, Nodes(t)
      ensures Holds() && Nodes(t) == old(Nodes(t)) && InOrder(t) == old(InOrder(t))
      ensures !moved ==> RedBlack(t)
      ensures moved ==> t == Plug(c', s') && Ref(s') == parent && Short(c', s') && Debt(c', s') < Debt(c, s)
    {
      ShortParent(c, s);
      if parent.left == node {
        moved, c', s' := EraseStepLeft(parent, c, s);
      } else {
        moved, c', s' := EraseStepRight(parent, c, s);
      }
    }

    /** __rb_erase_color: pays the black node missing below `parent`, at `node`. */
    method EraseColor(node0: Node?, parent0: Node?, ghost c0: Ctx, ghost s0: Tree)
      requires Holds() && t == Plug(c0, s0) && Ref(s0) == node0 && Above(c0, null) == parent0 && Short(c0, s0)
      modifies this, Nodes(t)
      ensures Holds() && RedBlack(t)
      ensures Nodes(t) == old(Nodes(t)) && InOrder(t) == old(InOrder(t))
    {
      var node, parent := node0, parent0;
      ghost var c, s := c0, s0;
      Look(c, s);
      ShortParent(c, s);
      while (node == null || !node.red) && node != root
        invariant Holds() && t == Plug(c, s) && Ref(s) == node && Above(c, null) == parent && Short(c, s)
        invariant node != null ==> node.red == s.red
        invariant node == root <==> c.Top?
        invariant Nodes(t) == old(Nodes(t)) && InOrder(t) == old(InOrder(t))
        decreases Debt(c, s)
      {
        var moved;
        moved, c, s := EraseStep(node, parent, c, s);
        if !moved {
          node := root;
          c, s := Top, t;
          break;
        }
        node := parent;
        Look(c, s);
        ShortParent(c, s);
        parent := node.parent;
      }
      PayDebt(node, c, s);
    }

    /** The end of the erase fix-up: the node that is red or the root becomes black. */
    method PayDebt(node: Node?, ghost c: Ctx, ghost s: Tree)
      requires Holds() && t == Plug(c, s) && Ref(s) == node && Short(c, s) && (c.Top? || (s.T? && s.red))
      modifies this, Nodes(t)
      ensures Holds() && RedBlack(t)
      ensures Nodes(t) == old(Nodes(t)) && InOrder(t) == old(InOrder(t))
    {
      ShortDone(c, s);
      if node != null {
        SetColor(node, false, c, s);
      }
    }

    /** The link that leads to `node` is made to lead to `other`. */
    method RedirectParent(node: Node, other: Node?)
      requires node.parent != null ==> node.parent.left == node || node.parent.right == node
      modifies `root, if node.parent == null then {} else {node.parent}
      ensures node.parent == old(node.parent)
      ensures node.parent != null ==> C(node.parent) == Redirect(old(C(node.parent)), node, other)
      ensures root == if node.parent == null then other else old(root)
    {
      if node.parent != null {
        if node.parent.left == node {
          node.parent.left := other;
        } else {
          node.parent.right := other;
        }
      } else {
        root := other;
      }
    }

    /** Links `child` in the place of `node`, which has no other child. */
    method SpliceLinks(node: Node, child: Node?, ghost S: set<Node>) returns (parent: Node?)
      requires node in S && (child != null ==> child in S - {node})
      requires node.parent != null ==> node.parent in S - {node, child}
      requires node.parent != null ==> node.parent.left == node || node.parent.right == node
      modifies `root, S
      ensures parent == old(node.parent)
      ensures child != null ==> C(child) == old(C(child)).(parent := parent)
      ensures parent != null ==> C(parent) == Redirect(old(C(parent)), node, child)
      ensures forall n :: n in S && n != child && n != parent ==> C(n) == old(C(n))
      ensures root == if parent == null then child else old(root)
    {
      parent := node.parent;
      if child != null {
        child.parent := parent;
      }
      RedirectParent(node, child);
    }

    method Splice(node: Node, child: Node?, ghost c: Ctx, ghost s: Tree, ghost d: Tree) returns (parent: Node?)
      requires Holds() && t == Plug(c, s) && Ref(s) == node && child == Ref(d)
      requires s == T(s.red, Leaf, node, d) || s == T(s.red, d, node, Leaf)
      modifies this, Nodes(t)
      ensures Holds() && t == Plug(c, d) && parent == Above(c, null)
      ensures Nodes(t) == old(Nodes(t)) - {node}
    {
      ghost var h, S := Snap(Nodes(t)), Nodes(t);
      SpliceReady(c, s, d);
      parent := SpliceLinks(node, child, S);
      SplicedShape(h, Snap(S), c, s, d);
      t := Plug(c, d);
      SnapShrinks(S, t);
    }

    lemma SpliceReady(c: Ctx, s: Tree, d: Tree)
      requires Holds() && t == Plug(c, s) && s.T?
      requires s == T(s.red, Leaf, s.x, d) || s == T(s.red, d, s.x, Leaf)
      ensures s.x in Nodes(t) && s.x.parent == Above(c, null)
      ensures d.T? ==> d.x in Nodes(t) && d.x != s.x
      ensures !c.Top? ==> c.x in Nodes(t) && c.x != s.x && c.x != Ref(d)
      ensures !c.Top? ==> c.x.left == s.x || c.x.right == s.x
    {
      Look(c, s);
      ParentReady(c, s);
      if d.T? { assert d.x in Nodes(d); }
    }

    lemma SnapShrinks(S: set<Node>, t: Tree)
      requires Shape(Snap(S), t, null) && Nodes(t) <= S
      ensures Shape(Snap(Nodes(t)), t, null)
    {
      ShapeFrame(Snap(S), Snap(Nodes(t)), t, null);
    }

    /** A node with at most one child: that child, the root of `d`, takes its place. */
    method EraseSingle(node: Node, child: Node?, ghost c: Ctx, ghost s: Tree, ghost d: Tree)
      requires Valid() && t == Plug(c, s) && Ref(s) == node && child == Ref(d)
      requires s == T(s.red, Leaf, node, d) || s == T(s.red, d, node, Leaf)
      modifies this, Nodes(t)
      ensures Valid() && Nodes(t) == old(Nodes(t)) - {node}
    {
      LookDown(c, s);
      SplicedRB(c, s, d);
      SplicedSorted(c, s, d);
      var red := node.red;
      var parent := Splice(node, child, c, s, d);
      if !red {
        EraseColor(child, parent, c, d);
      }
    }

    /** `node` takes the parent, the colour and the left child of `z`. */
    method Inherit(z: Node, node: Node)
      requires z != node && z.left != null && z.left != node && z.left != z
      modifies node, z.left
      ensures C(node) == old(C(node)).(left := z.left, parent := z.parent, red := z.red)
      ensures z.left == old(z.left) && C(z.left) == old(C(z.left)).(parent := node)
    {
      node.parent, node.red := z.parent, z.red;
      node.left := z.left;
      z.left.parent := node;
    }

    /**
     Links `node`, the leftmost node of the right subtree of `old`, in the place of `old`. The results are the former
     child of `node`, the node now above that child, and the former colour of `node`.
     */
    method SucceedLinks(z: Node, node: Node, ghost S: set<Node>) returns (child: Node?, parent: Node, red: bool)
      requires z in S && node in S && node.left == null
      requires Apart(S, z, node, z.left, z.right, node.parent, node.right, z.parent)
      requires z.parent != null ==> z.parent.left == z || z.parent.right == z
      modifies `root, S
      ensures var l, r, q, d, p := old(z.left), old(z.right), old(node.parent), old(node.right), old(z.parent);
        && child == d && parent == (if q == z then node else q) && red == old(node.red)
        && C(node) == Cell(l, if q == z then d else r, p, old(z.red))
        && C(l) == old(C(l)).(parent := node)
        && (q != z && q != r ==> C(q) == old(C(q)).(left := d) && C(r) == old(C(r)).(parent := node))
        && (q == r ==> C(q) == old(C(q)).(left := d, parent := node))
        && (d != null ==> C(d) == if q == z then old(C(d)) else old(C(d)).(parent := q))
        && (p != null ==> C(p) == Redirect(old(C(p)), z, node))
        && (forall n :: n in S && n !in {node, l, r, q, d, p} ==> C(n) == old(C(n)))
        && root == if p == null then node else old(root)
    {
      RedirectParent(z, node);
      child := node.right;
      parent := node.parent;
      red := node.red;
      if parent == z {
        parent := node;
      } else {
        if child != null {
          child.parent := parent;
        }
        parent.left := child;
        node.right := z.right;
        z.right.parent := node;
      }
      Inherit(z, node);
    }

    lemma SuccessorApart(c: Ctx, s: Tree, k: Ctx, u: Tree)
      requires Holds() && t == Plug(c, s) && s.T? && s.left.T?
      requires s.right == Plug(k, u) && u.T? && u.left.Leaf? && Before(k) == []
      ensures s.x in Nodes(t) && u.x in Nodes(t)
      ensures Apart(Nodes(t), s.x, u.x, s.x.left, s.x.right, u.x.parent, u.x.right, s.x.parent)
    {
      SuccessorAround(Snap(Nodes(t)), c, s, k, u);
    }

    lemma SuccessorReady(c: Ctx, s: Tree, k: Ctx, u: Tree)
      requires Holds() && t == Plug(c, s) && s.T? && s.left.T?
      requires s.right == Plug(k, u) && u.T? && u.left.Leaf? && Before(k) == []
      ensures s.x in Nodes(t) && C(s.x) == Cell(s.left.x, Ref(s.right), Above(c, null), s.red)
      ensures u.x in Nodes(t) && C(u.x) == Cell(null, Ref(u.right), Above(k, s.x), u.red) && (!k.Top? ==> k.x != s.x)
    {
      SuccessorAround(Snap(Nodes(t)), c, s, k, u);
    }

    method Succeed(z: Node, y: Node, ghost c: Ctx, ghost s: Tree, ghost k: Ctx, ghost u: Tree)
      returns (child: Node?, parent: Node, red: bool)
      requires Holds() && t == Plug(c, s) && Ref(s) == z && s.left.T?
      requires s.right == Plug(k, u) && Ref(u) == y && u.left.Leaf? && Before(k) == []
      modifies this, Nodes(t)
      ensures Holds() && t == Plug(c, WithSuccessor(s, k, u)) && Nodes(t) == old(Nodes(t)) - {z}
      ensures child == Ref(u.right) && red == u.red && parent == Above(k, y)
    {
      ghost var h, S := Snap(Nodes(t)), Nodes(t);
      ParentReady(c, s);
      SuccessorApart(c, s, k, u);
      SuccessorReady(c, s, k, u);
      child, parent, red := SucceedLinks(z, y, S);
      SucceededShape(h, Snap(S), c, s, k, u);
      Shrink(S, Plug(c, WithSuccessor(s, k, u)));
    }

    /** The tree takes over a new shape that its links form already. */
    ghost method Shrink(S: set<Node>, t': Tree)
      requires Shape(Snap(S), t', null) && Nodes(t') <= S && Disjoint(t') && root == Ref(t')
      modifies `t
      ensures Holds() && t == t'
    {
      SnapShrinks(S, t');
      t := t';
    }

    lemma LookGraft(c: Ctx, s: Tree, k: Ctx, u: Tree)
      requires Holds() && t == Plug(c, s) && s.T? && s.right == Plug(k, u) && u.T?
      ensures u.x in Nodes(t) && u.x.left == Ref(u.left)
    {
      GraftPlug(k, InRight(s.red, s.left, s.x, c), u);
      Look(Graft(k, InRight(s.red, s.left, s.x, c)), u);
    }

    /** A node with two children: its successor takes its place and colour. */
    method EraseDouble(z: Node, ghost c: Ctx, ghost s: Tree)
      requires Valid() && t == Plug(c, s) && Ref(s) == z && s.left.T? && s.right.T?
      modifies this, Nodes(t)
      ensures Valid() && Nodes(t) == old(Nodes(t)) - {z}
    {
      LookDown(c, s);
      var node := z.right;
      ghost var k, u := Top, s.right;
      LookGraft(c, s, k, u);
      var left := node.left;
      while left != null
        invariant t == old(t) && Valid()
        invariant s.right == Plug(k, u) && u.T? && u.x == node && Before(k) == []
        invariant left == Ref(u.left)
        decreases u
      {
        k, u := InLeft(u.red, k, u.x, u.right), u.left;
        node := left;
        LookGraft(c, s, k, u);
        left := node.left;
      }
      SucceededRB(c, s, k, u);
      SucceededSorted(c, s, k, u);
      var child, parent, red := Succeed(z, node, c, s, k, u);
      if !red {
        EraseColor(child, parent, Graft(k, InRight(s.red, s.left, node, c)), u.right);
      }
    }

    /** rb_erase: takes `node` out and rebalances. */
    method Erase(node: Node)
      requires Valid() && node in Nodes(t)
      modifies this, Nodes(t)
      ensures Valid() && Nodes(t) == old(Nodes(t)) - {node}
    {
      ghost var c, s := Locate(t, node);
      LookDown(c, s);
      if node.left == null {
        EraseSingle(node, node.right, c, s, s.right);
      } else if node.right == null {
        EraseSingle(node, node.left, c, s, s.left);
      } else {
        EraseDouble(node, c, s);
      }
    }

    // ---------- searching and walking ----------

    /** rb_search; `steps` counts the nodes compared with. */
    method Search(key: int) returns (ret: Node?, ghost steps: nat)
      requires Valid()
      ensures ret != null ==> ret in Nodes(t) && ret.key == key
      ensures ret == null ==> forall n :: n in Nodes(t) ==> n.key != key
      ensures steps <= Height(t)
    {
      var n := root;
      ghost var c, s := Top, t;
      steps := 0;
      while n != null
        invariant Holds() && t == Plug(c, s) && Ref(s) == n && Gap(c, key) && steps == CDepth(c)
        decreases s
      {
        Look(c, s);
        steps := steps + 1;
        if key < n.key {
          GapLeft(c, s, key);
          c, s := InLeft(s.red, c, s.x, s.right), s.left;
          n := n.left;
        } else if key > n.key {
          GapRight(c, s, key);
          c, s := InRight(s.red, s.left, s.x, c), s.right;
          n := n.right;
        } else {
          DepthHeight(c, s);
          return n, steps;
        }
      }
      DepthHeight(c, s);
      GapAbsent(c, key);
      ret := null;
    }

    /** From the root of `s`, down to the left as far as possible. */
    method GoLeft(start: Node, ghost c: Ctx, ghost s: Tree) returns (n: Node)
      requires Holds() && t == Plug(c, s) && Ref(s) == start
      ensures Holds() && n == HeadOf(InOrder(s))
    {
      n := start;
      ghost var k, u := Top, s;
      GraftPlug(k, c, u);
      LookDown(Graft(k, c), u);
      while n.left != null
        invariant Holds() && s == Plug(k, u) && u.T? && u.x == n && Before(k) == [] && n.left == Ref(u.left)
        decreases u
      {
        k, u := InLeft(u.red, k, u.x, u.right), u.left;
        n := n.left;
        GraftPlug(k, c, u);
        LookDown(Graft(k, c), u);
      }
      LeftmostFirst(k, u);
    }

    method GoRight(start: Node, ghost c: Ctx, ghost s: Tree) returns (n: Node)
      requires Holds() && t == Plug(c, s) && Ref(s) == start
      ensures Holds() && n == LastOf(InOrder(s))
    {
      n := start;
      ghost var k, u := Top, s;
      GraftPlug(k, c, u);
      LookDown(Graft(k, c), u);
      while n.right != null
        invariant Holds() && s == Plug(k, u) && u.T? && u.x == n && After(k) == [] && n.right == Ref(u.right)
        decreases u
      {
        k, u := InRight(u.red, u.left, u.x, k), u.right;
        n := n.right;
        GraftPlug(k, c, u);
        LookDown(Graft(k, c), u);
      }
      RightmostLast(k, u);
    }

    /** rb_first and rb_last. */
    method First() returns (n: Node?)
      requires Holds()
      ensures Holds() && n == HeadOf(InOrder(t))
    {
      n := root;
      if n != null {
        n := GoLeft(n, Top, t);
      }
    }

    method Last() returns (n: Node?)
      requires Holds()
      ensures n == LastOf(InOrder(t))
    {
      n := root;
      if n != null {
        n := GoRight(n, Top, t);
      }
    }

    lemma Side(k: Ctx, u: Tree)
      requires Holds() && t == Plug(k, u) && u.T? && !k.Top?
      ensures k.x in Nodes(t) && u.x.parent == k.x
      ensures k.x.right == u.x <==> k.InRight?
      ensures k.x.left == u.x <==> k.InLeft?
    {
      ParentReady(k, u);
      Look(k, u);
    }

    function Outward(k: Ctx, u: Tree): Tree
      requires !k.Top?
    {
      if k.InLeft? then T(k.red, u, k.x, k.sib) else T(k.red, k.sib, k.x, u)
    }

    /** The first ancestor that `start` is to the left of. */
    method ClimbRight(start: Node, ghost c: Ctx, ghost s: Tree) returns (parent: Node?)
      requires Holds() && t == Plug(c, s) && Ref(s) == start
      ensures Holds() && parent == HeadOf(After(c))
    {
      var node := start;
      ghost var k, u := c, s;
      Look(k, u);
      parent := node.parent;
      while parent != null && node == parent.right
        invariant Holds() && t == Plug(k, u) && u.T? && u.x == node && parent == Above(k, null) && After(k) == After(c)
        decreases CDepth(k)
      {
        Side(k, u);
        node := parent;
        k, u := k.up, Outward(k, u);
        Look(k, u);
        parent := node.parent;
      }
      if parent != null { Side(k, u); }
    }

    /** The first ancestor that `start` is to the right of. */
    method ClimbLeft(start: Node, ghost c: Ctx, ghost s: Tree) returns (parent: Node?)
      requires Holds() && t == Plug(c, s) && Ref(s) == start
      ensures Holds() && parent == LastOf(Before(c))
    {
      var node := start;
      ghost var k, u := c, s;
      Look(k, u);
      parent := node.parent;
      while parent != null && node == parent.left
        invariant Holds() && t == Plug(k, u) && u.T? && u.x == node && parent == Above(k, null) && Before(k) == Before(c)
        decreases CDepth(k)
      {
        Side(k, u);
        node := parent;
        k, u := k.up, Outward(k, u);
        Look(k, u);
        parent := node.parent;
      }
      if parent != null { Side(k, u); }
    }

    /** rb_next. A node that is its own parent is in no tree. */
    method Next(node: Node) returns (ret: Node?)
      requires Valid() && (node in Nodes(t) || node.parent == node)
      ensures Holds() && ret == if node in Nodes(t) then SuccOf(t, node) else null
    {
      ghost var c, s := Top, t;
      if node in Nodes(t) {
        c, s := Locate(t, node);
        LookDown(c, s);
        Look(c, s);
        Neighbours(c, s);
      }
      if node.parent == node {
        return null;
      }
      if node.right != null {
        ret := GoLeft(node.right, InRight(s.red, s.left, s.x, c), s.right);
      } else {
        assert [] + After(c) == After(c);
        ret := ClimbRight(node, c, s);
      }
    }

    /** rb_prev. */
    method Prev(node: Node) returns (ret: Node?)
      requires Valid() && (node in Nodes(t) || node.parent == node)
      ensures Holds() && ret == if node in Nodes(t) then PredOf(t, node) else null
    {
      ghost var c, s := Top, t;
      if node in Nodes(t) {
        c, s := Locate(t, node);
        LookDown(c, s);
        Look(c, s);
        Neighbours(c, s);
      }
      if node.parent == node {
        return null;
      }
      if node.left != null {
        ret := GoRight(node.left, InLeft(s.red, c, s.x, s.right), s.left);
      } else {
        assert Before(c) + [] == Before(c);
        ret := ClimbLeft(node, c, s);
      }
    }

    /** The nodes of `all` but for those of the first `k` that have a doomed key. */
    ghost function Spared(all: seq<Node>, k: nat, doomed: int -> bool): set<Node>
      requires k <= |all|
    {
      set n | n in all && (n in all[..k] ==> !doomed(n.key))
    }

    /**
     rb_for_each. The loop reads the next node before its body runs, so the body may erase the node that it visits, here
     those with a doomed key; all nodes are visited in order all the same.
     */
    method ForEach(doomed: int -> bool) returns (visited: seq<Node>)
      requires Valid()
      modifies this, Nodes(t)
      ensures Valid() && visited == old(InOrder(t))
      ensures Nodes(t) == set n | n in old(Nodes(t)) && !doomed(n.key)
    {
      ghost var all, k := InOrder(t), 0;
      SparedEnds(all, doomed);
      NoneTaken(all);
      visited := [];
      var pos := First();
      while pos != null
        invariant Valid() && k <= |all| && visited == all[..k]
        invariant Nodes(t) == Spared(all, k, doomed) && Nodes(t) <= old(Nodes(t))
        invariant pos == HeadOf(all[k..])
        decreases |all| - k
      {
        pos, visited := Visit(pos, visited, all, k, doomed);
        k := k + 1;
      }
      AllTaken(all, k);
    }

    static lemma AllTaken(all: seq<Node>, k: nat)
      requires k <= |all| && HeadOf(all[k..]) == null
      ensures k == |all| && all[..k] == all
    { }

    static lemma NoneTaken(all: seq<Node>)
      ensures all[..0] == [] && all[0..] == all
    { }

    /** One round: the next node is read, then the body may erase the one that is visited. */
    method Visit(pos: Node, visited: seq<Node>, ghost all: seq<Node>, ghost k: nat, doomed: int -> bool)
      returns (next: Node?, more: seq<Node>)
      requires Valid() && SortedSeq(all) && k < |all| && pos == all[k] && Nodes(t) == Spared(all, k, doomed) && visited == all[..k]
      modifies this, Nodes(t)
      ensures Valid() && next == HeadOf(all[k + 1..]) && Nodes(t) == Spared(all, k + 1, doomed)
      ensures more == all[..k + 1] == visited + [pos] && Nodes(t) <= old(Nodes(t))
    {
      next := NextSpared(pos, all, k, doomed);
      more := visited + [pos];
      OneSpared(all, k, doomed);
      if doomed(pos.key) {
        Erase(pos);
      }
    }

    lemma SparedEnds(all: seq<Node>, doomed: int -> bool)
      requires all == InOrder(t)
      ensures Spared(all, 0, doomed) == Nodes(t) && Spared(all, |all|, doomed) == set n | n in Nodes(t) && !doomed(n.key)
    {
      InOrderNodes(t);
      assert all[..0] == [] && all[..|all|] == all;
    }

    /** Of the nodes that are still there, the next one is the next of all. */
    method NextSpared(pos: Node, ghost all: seq<Node>, ghost k: nat, doomed: int -> bool) returns (next: Node?)
      requires Valid() && SortedSeq(all) && k < |all| && pos == all[k] && Nodes(t) == Spared(all, k, doomed)
      ensures Valid() && pos in Nodes(t) && next == HeadOf(all[k + 1..])
    {
      StillThere(all, k, doomed);
      NextOfAll(t, all, k);
      next := Next(pos);
    }

    lemma StillThere(all: seq<Node>, k: nat, doomed: int -> bool)
      requires SortedSeq(all) && k <= |all|
      ensures forall j :: k <= j < |all| ==> all[j] in Spared(all, k, doomed)
    { }

    lemma OneSpared(all: seq<Node>, k: nat, doomed: int -> bool)
      requires SortedSeq(all) && k < |all|
      ensures Spared(all, k + 1, doomed) == Spared(all, k, doomed) - if doomed(all[k].key) then {all[k]} else {}
    {
      assert all[..k + 1] == all[..k] + [all[k]];
    }

    /**
     rb_nsearch: the node with the least key that is not below `key`, or the first node if all keys are below it.
     */
    method NSearch(key: int) returns (ret: Node?, ghost steps: nat)
      requires Valid()
      ensures ret == null <==> Nodes(t) == {}
      ensures ret != null ==> ret in Nodes(t)
      ensures ret != null && ret.key >= key ==> forall n :: n in Nodes(t) && n.key >= key ==> ret.key <= n.key
      ensures ret != null && ret.key < key ==> forall n :: n in Nodes(t) ==> ret.key <= n.key < key
      ensures steps <= Height(t)
    {
      var n := root;
      ret := null;
      ghost var c, s := Top, t;
      steps := 0;
      while n != null
        invariant Holds() && t == Plug(c, s) && Ref(s) == n && Gap(c, key) && steps == CDepth(c)
        invariant ret == HeadOf(After(c))
        decreases s
      {
        Look(c, s);
        steps := steps + 1;
        if key < n.key {
          GapLeft(c, s, key);
          ret := n;
          c, s := InLeft(s.red, c, s.x, s.right), s.left;
          n := n.left;
        } else if key > n.key {
          GapRight(c, s, key);
          c, s := InRight(s.red, s.left, s.x, c), s.right;
          n := n.right;
        } else {
          DepthHeight(c, s);
          ret := n;
          return;
        }
      }
      DepthHeight(c, s);
      Ceiling(c, key);
      if ret == null && root != null {
        ret := First();
        FirstLeast(t);
      }
    }
  }
}
