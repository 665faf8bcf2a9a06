/** The red-black conditions, and what they say about contexts. */
module RbBalance {
  import opened RbShape

  predicate Rd(t: Tree) {
    t.T? && t.red
  }

  predicate CRd(c: Ctx) {
    !c.Top? && c.red
  }

  function Blacken(t: Tree): Tree {
    if t.T? then t.(red := false) else t
  }

  function Weight(red: bool): nat {
    if red then 0 else 1
  }

  /** The number of black nodes on the leftmost path. */
  function BH(t: Tree): nat {
    if t.Leaf? then 0 else BH(t.left) + Weight(t.red)
  }

  /** No red node has a red child, and the two sides of every node have the same black height. */
  ghost predicate RB(t: Tree) {
    t.T? ==> RB(t.left) && RB(t.right) && BH(t.left) == BH(t.right) && (t.red ==> !Rd(t.left) && !Rd(t.right))
  }

  ghost predicate RedBlack(t: Tree) {
    RB(t) && !Rd(t)
  }

  /** `c` is part of a red-black tree as soon as its hole is filled by a tree of black height `n` whose root may sit there. */
  ghost predicate CRB(c: Ctx, n: nat) {
    c.Top? || (RB(c.sib) && BH(c.sib) == n && (c.red ==> !Rd(c.sib) && !CRd(c.up) && !c.up.Top?) && CRB(c.up, n + Weight(c.red)))
  }

  lemma {:induction false} PlugRB(c: Ctx, t: Tree)
    requires CRB(c, BH(t)) && RB(t)
    requires Rd(t) ==> !CRd(c) && !c.Top?
    ensures RedBlack(Plug(c, t))
  {
    match c
    case Top =>
    case InLeft(red, up, x, sib) => PlugRB(up, T(red, t, x, sib));
    case InRight(red, sib, x, up) => PlugRB(up, T(red, sib, x, t));
  }

  lemma {:induction false} UnplugRB(c: Ctx, t: Tree)
    requires RedBlack(Plug(c, t))
    ensures CRB(c, BH(t)) && RB(t)
    ensures Rd(t) ==> !CRd(c) && !c.Top?
  {
    match c
    case Top =>
    case InLeft(red, up, x, sib) => UnplugRB(up, T(red, t, x, sib));
    case InRight(red, sib, x, up) => UnplugRB(up, T(red, sib, x, t));
  }

  /** The conditions do not depend on which node stands where. */
  lemma {:induction false} RenameCRB(k: Ctx, red: bool, l: Tree, x: Node, y: Node, up: Ctx, n: nat)
    requires CRB(Graft(k, InRight(red, l, x, up)), n)
    ensures CRB(Graft(k, InRight(red, l, y, up)), n)
  {
    if !k.Top? {
      RenameCRB(k.up, red, l, x, y, up, n + Weight(k.red));
    }
  }

  function CDepth(c: Ctx): nat {
    if c.Top? then 0 else 1 + CDepth(c.up)
  }

  // ---------- insertion ----------

  /** A red tree that would be in order at the hole of `c`, were it not red itself. */
  ghost predicate RedSpot(c: Ctx, s: Tree) {
    Rd(s) && RB(s) && CRB(c, BH(s))
  }

  /** A red node `p` with exactly one red child, in order otherwise; `n` is the black height below it. */
  ghost predicate RedPair(p: Tree, n: nat) {
    Rd(p) && RB(p.left) && RB(p.right) && BH(p.left) == n && BH(p.right) == n && Rd(p.left) != Rd(p.right)
  }

  lemma RedPairHere(c: Ctx, s: Tree)
    requires RedSpot(c, s) && CRd(c)
    ensures var p := if c.InLeft? then T(true, s, c.x, c.sib) else T(true, c.sib, c.x, s); RedPair(p, BH(s))
    ensures !c.up.Top? && !c.up.red && RB(c.up.sib) && BH(c.up.sib) == BH(s) && CRB(c.up.up, BH(s) + 1)
  {
    assert CRB(c.up, BH(s));
  }

  /** Once no red node stands above, blackening the root is all that is left to do. */
  lemma InsertedRB(c: Ctx, s: Tree)
    requires RedSpot(c, s) && !CRd(c)
    ensures Plug(c, s).T? && RedBlack(Blacken(Plug(c, s)))
  {
    if c.Top? {
      assert RB(Blacken(s));
    } else {
      PlugRB(c, s);
      PlugNodes(c, s);
    }
  }

  lemma RecolorLeft(up: Ctx, p: Tree, g: Node, u: Tree)
    requires RedPair(p, BH(u)) && RB(u) && Rd(u) && CRB(up, BH(u) + 1)
    ensures RedSpot(up, T(true, Blacken(p), g, Blacken(u)))
  {
    assert RB(Blacken(p)) && RB(Blacken(u)) && BH(Blacken(p)) == BH(Blacken(u)) == BH(u) + 1;
  }

  lemma RecolorRight(up: Ctx, p: Tree, g: Node, u: Tree)
    requires RedPair(p, BH(u)) && RB(u) && Rd(u) && CRB(up, BH(u) + 1)
    ensures RedSpot(up, T(true, Blacken(u), g, Blacken(p)))
  {
    assert RB(Blacken(p)) && RB(Blacken(u)) && BH(Blacken(p)) == BH(Blacken(u)) == BH(u) + 1;
  }

  lemma StraightenLeft(p: Tree, n: nat)
    requires RedPair(p, n) && Rd(p.right)
    ensures RedPair(RotLTree(p), n) && Rd(RotLTree(p).left)
  { }

  lemma StraightenRight(p: Tree, n: nat)
    requires RedPair(p, n) && Rd(p.left)
    ensures RedPair(RotRTree(p), n) && Rd(RotRTree(p).right)
  { }

  lemma LiftedLeft(up: Ctx, p: Tree, g: Node, u: Tree)
    requires RedPair(p, BH(u)) && Rd(p.left) && RB(u) && !Rd(u) && CRB(up, BH(u) + 1)
    ensures RedSpot(InLeft(false, up, p.x, T(true, p.right, g, u)), p.left)
  {
    assert RB(T(true, p.right, g, u)) && BH(T(true, p.right, g, u)) == BH(u);
  }

  lemma LiftedRight(up: Ctx, p: Tree, g: Node, u: Tree)
    requires RedPair(p, BH(u)) && Rd(p.right) && RB(u) && !Rd(u) && CRB(up, BH(u) + 1)
    ensures RedSpot(InRight(false, T(true, u, g, p.left), p.x, up), p.right)
  {
    assert RB(T(true, u, g, p.left)) && BH(T(true, u, g, p.left)) == BH(u);
  }

  // ---------- erasure ----------

  /**
   The hole of `c` is filled by a tree that is one black node short: paths through `s` pass one black node fewer than
   they should. Should the root of `s` be red, blackening it pays the debt, and its children may be anything in order.
   */
  ghost predicate Short(c: Ctx, s: Tree) {
    RB(Blacken(s)) && CRB(c, BH(s) + 1)
  }

  /** How much is left to do for a short tree: its depth, and whether its root is still black. */
  function Debt(c: Ctx, s: Tree): nat {
    2 * CDepth(c) + Weight(Rd(s))
  }

  /** The cases of the fix-up for a short left child `s` of `p`, by the shape of the sibling `o`. */

  lemma RedSiblingLeft(up: Ctx, p: Node, o: Tree, pr: bool, s: Tree)
    requires Short(InLeft(pr, up, p, o), s) && Rd(o) && !Rd(s)
    ensures !pr && Short(InLeft(true, InLeft(false, up, o.x, o.right), p, o.left), s) && o.left.T? && !Rd(o.left)
  {
    assert RB(o.right) && RB(o.left);
    assert CRB(InLeft(false, up, o.x, o.right), BH(s) + 1);
  }

  lemma RedSiblingRight(up: Ctx, p: Node, o: Tree, pr: bool, s: Tree)
    requires Short(InRight(pr, o, p, up), s) && Rd(o) && !Rd(s)
    ensures !pr && Short(InRight(true, o.right, p, InRight(false, o.left, o.x, up)), s) && o.right.T? && !Rd(o.right)
  {
    assert RB(o.right) && RB(o.left);
    assert CRB(InRight(false, o.left, o.x, up), BH(s) + 1);
  }

  lemma PaleSiblingLeft(up: Ctx, p: Node, o: Tree, pr: bool, s: Tree)
    requires Short(InLeft(pr, up, p, o), s) && !Rd(s) && o.T? && !o.red && !Rd(o.left) && !Rd(o.right)
    ensures Short(up, T(pr, s, p, o.(red := true)))
  {
    assert RB(o.(red := true)) && BH(o.(red := true)) == BH(s);
  }

  lemma PaleSiblingRight(up: Ctx, p: Node, o: Tree, pr: bool, s: Tree)
    requires Short(InRight(pr, o, p, up), s) && !Rd(s) && o.T? && !o.red && !Rd(o.left) && !Rd(o.right)
    ensures Short(up, T(pr, o.(red := true), p, s))
  {
    assert RB(o.(red := true)) && BH(o.(red := true)) == BH(s);
  }

  lemma NearRedLeft(up: Ctx, p: Node, o: Tree, pr: bool, s: Tree)
    requires Short(InLeft(pr, up, p, o), s) && !Rd(s) && o.T? && !o.red && Rd(o.left) && !Rd(o.right)
    ensures var o' := T(false, o.left.left, o.left.x, T(true, o.left.right, o.x, o.right));
      Short(InLeft(pr, up, p, o'), s)
  {
    assert RB(o.left) && RB(o.right);
    assert RB(T(true, o.left.right, o.x, o.right));
  }

  lemma NearRedRight(up: Ctx, p: Node, o: Tree, pr: bool, s: Tree)
    requires Short(InRight(pr, o, p, up), s) && !Rd(s) && o.T? && !o.red && Rd(o.right) && !Rd(o.left)
    ensures var o' := T(false, T(true, o.left, o.x, o.right.left), o.right.x, o.right.right);
      Short(InRight(pr, o', p, up), s)
  {
    assert RB(o.left) && RB(o.right);
    assert RB(T(true, o.left, o.x, o.right.left));
  }

  lemma FarRedLeft(up: Ctx, p: Node, o: Tree, pr: bool, s: Tree)
    requires Short(InLeft(pr, up, p, o), s) && !Rd(s) && o.T? && !o.red && Rd(o.right)
    ensures RedBlack(Plug(up, T(pr, T(false, s, p, o.left), o.x, Blacken(o.right))))
  {
    var r := T(pr, T(false, s, p, o.left), o.x, Blacken(o.right));
    assert RB(o.left) && RB(o.right) && RB(Blacken(o.right)) && RB(T(false, s, p, o.left));
    assert CRB(up, BH(s) + 1 + Weight(pr)) && BH(r) == BH(s) + 1 + Weight(pr);
    assert RB(r);
    PlugRB(up, r);
  }

  lemma FarRedRight(up: Ctx, p: Node, o: Tree, pr: bool, s: Tree)
    requires Short(InRight(pr, o, p, up), s) && !Rd(s) && o.T? && !o.red && Rd(o.left)
    ensures RedBlack(Plug(up, T(pr, Blacken(o.left), o.x, T(false, o.right, p, s))))
  {
    var r := T(pr, Blacken(o.left), o.x, T(false, o.right, p, s));
    assert RB(o.left) && RB(o.right) && RB(Blacken(o.left)) && RB(T(false, o.right, p, s));
    assert CRB(up, BH(s) + 1 + Weight(pr)) && BH(r) == BH(s) + 1 + Weight(pr);
    assert RB(r);
    PlugRB(up, r);
  }

  /** At the root, or under a red root of its own, a short tree only needs its root blackened. */
  lemma ShortDone(c: Ctx, s: Tree)
    requires Short(c, s) && (Rd(s) || c.Top?)
    ensures RedBlack(Plug(c, Blacken(s)))
  {
    PlugRB(c, Blacken(s));
  }

  /** Taking out a black node with at most one child leaves that child short; a red one has no child at all. */
  lemma {:induction false} SplicedRB(c: Ctx, s: Tree, d: Tree)
    requires RedBlack(Plug(c, s)) && s.T?
    requires s == T(s.red, Leaf, s.x, d) || s == T(s.red, d, s.x, Leaf)
    ensures if s.red then RedBlack(Plug(c, d)) else Short(c, d)
  {
    UnplugRB(c, s);
    if s.red {
      assert d.Leaf? by { assert RB(d) && BH(d) == 0 && !Rd(d); }
      PlugRB(c, d);
    } else {
      assert RB(d) && BH(d) == 0;
      assert RB(Blacken(d));
    }
  }

  /** The same for a node with two children, whose place and colour go to its successor, the root of `u`. */
  lemma {:induction false} SucceededRB(c: Ctx, s: Tree, k: Ctx, u: Tree)
    requires RedBlack(Plug(c, s)) && s.T? && s.right == Plug(k, u) && u.T? && u.left.Leaf?
    ensures var c' := Graft(k, InRight(s.red, s.left, u.x, c));
      && Plug(c', u.right) == Plug(c, WithSuccessor(s, k, u))
      && if u.red then RedBlack(Plug(c', u.right)) else Short(c', u.right)
  {
    var c0, c' := Graft(k, InRight(s.red, s.left, s.x, c)), Graft(k, InRight(s.red, s.left, u.x, c));
    GraftPlug(k, InRight(s.red, s.left, s.x, c), u);
    GraftPlug(k, InRight(s.red, s.left, u.x, c), u);
    GraftPlug(k, InRight(s.red, s.left, u.x, c), u.right);
    UnplugRB(c0, u);
    RenameCRB(k, s.red, s.left, s.x, u.x, c, BH(u));
    CRdGraft(k, s.red, s.left, s.x, u.x, c);
    PlugRB(c', u);
    SplicedRB(c', u, u.right);
  }

  lemma CRdGraft(k: Ctx, red: bool, l: Tree, x: Node, y: Node, up: Ctx)
    ensures var a, b := Graft(k, InRight(red, l, x, up)), Graft(k, InRight(red, l, y, up));
      !a.Top? && !b.Top? && CRd(a) == CRd(b)
  { }

  // ---------- the conditions read on paths ----------

  /** The subtree reached by going left (`true`) or right (`false`) as `path` says. */
  function Walk(t: Tree, path: seq<bool>): Tree
    decreases |path|
  {
    if path == [] || t.Leaf? then t else Walk(if path[0] then t.left else t.right, path[1..])
  }

  function Blacks(t: Tree, path: seq<bool>): nat
    decreases |path|
  {
    if path == [] || t.Leaf? then 0
    else Weight(t.red) + Blacks(if path[0] then t.left else t.right, path[1..])
  }

  /** All paths from the root to a missing child pass the same number of black nodes. */
  lemma {:induction false} EqualBlacks(t: Tree, path: seq<bool>)
    requires RB(t) && Walk(t, path).Leaf?
    ensures Blacks(t, path) == BH(t)
    decreases |path|
  {
    if path != [] && t.T? {
      EqualBlacks(if path[0] then t.left else t.right, path[1..]);
    }
  }

  /** No red node on any path is followed by a red one. */
  lemma {:induction false} NoRedRed(t: Tree, path: seq<bool>)
    requires RB(t) && Rd(Walk(t, path))
    ensures !Rd(Walk(t, path).left) && !Rd(Walk(t, path).right)
    decreases |path|
  {
    if path != [] && t.T? {
      NoRedRed(if path[0] then t.left else t.right, path[1..]);
    }
  }

  // ---------- height ----------

  function Max(a: nat, b: nat): nat {
    if a < b then b else a
  }

  function Height(t: Tree): nat {
    if t.Leaf? then 0 else 1 + Max(Height(t.left), Height(t.right))
  }

  function Size(t: Tree): nat {
    if t.Leaf? then 0 else Size(t.left) + 1 + Size(t.right)
  }

  function Pow2(n: nat): nat {
    if n == 0 then 1 else 2 * Pow2(n - 1)
  }

  lemma {:induction false} SizeBound(t: Tree)
    requires RB(t)
    ensures Size(t) + 1 >= Pow2(BH(t))
  {
    if t.T? {
      SizeBound(t.left);
      SizeBound(t.right);
    }
  }

  lemma {:induction false} HeightBound(t: Tree)
    requires RB(t)
    ensures Height(t) <= 2 * BH(t) + 1 - Weight(Rd(t))
  {
    if t.T? {
      HeightBound(t.left);
      HeightBound(t.right);
    }
  }

  lemma {:induction false} Pow2Mono(m: nat, n: nat)
    requires m <= n
    ensures Pow2(m) <= Pow2(n)
  {
    if m < n {
      Pow2Mono(m, n - 1);
    }
  }

  lemma {:induction false} Pow2Add(m: nat, n: nat)
    ensures Pow2(m + n) == Pow2(m) * Pow2(n)
  {
    if n > 0 {
      Pow2Add(m, n - 1);
    }
  }

  lemma {:induction false} SizeNodes(t: Tree)
    requires Disjoint(t)
    ensures |Nodes(t)| == Size(t)
  {
    if t.T? {
      SizeNodes(t.left);
      SizeNodes(t.right);
      assert |Nodes(t.left) + {t.x}| == |Nodes(t.left)| + 1;
    }
  }

  lemma {:induction false} DepthHeight(c: Ctx, t: Tree)
    ensures CDepth(c) + Height(t) <= Height(Plug(c, t))
  {
    match c
    case Top =>
    case InLeft(red, up, x, sib) => DepthHeight(up, T(red, t, x, sib));
    case InRight(red, sib, x, up) => DepthHeight(up, T(red, sib, x, t));
  }

  lemma SquareMono(a: nat, b: nat)
    requires a <= b
    ensures a * a <= b * b
  { }

  lemma {:induction false} HeightLog(t: Tree)
    requires RedBlack(t)
    ensures Pow2(Height(t)) <= (Size(t) + 1) * (Size(t) + 1)
  {
    assert Pow2(Height(t)) <= Pow2(BH(t)) * Pow2(BH(t)) by {
      HeightBound(t);
      Pow2Mono(Height(t), BH(t) + BH(t));
      Pow2Add(BH(t), BH(t));
    }
    SizeBound(t);
    SquareMono(Pow2(BH(t)), Size(t) + 1);
  }

  /** With n nodes, no path is longer than 2 * log2(n + 1). */
  lemma {:induction false} LogarithmicHeight(t: Tree)
    requires RedBlack(t) && Disjoint(t)
    ensures Pow2(Height(t)) <= (|Nodes(t)| + 1) * (|Nodes(t)| + 1)
  {
    SizeNodes(t);
    HeightLog(t);
  }
}
