/** Key order in trees and contexts. */
module RbOrder {
  import opened RbShape

  ghost predicate SortedSeq(s: seq<Node>) {
    forall i, j :: 0 <= i < j < |s| ==> s[i].key < s[j].key
  }

  /** In-order, the keys are strictly increasing. */
  ghost predicate Sorted(t: Tree) {
    SortedSeq(InOrder(t))
  }

  ghost predicate Below(s: seq<Node>, k: int) {
    forall n :: n in s ==> n.key < k
  }

  ghost predicate Over(s: seq<Node>, k: int) {
    forall n :: n in s ==> k < n.key
  }

  /** `k` belongs, in key order, at the hole of `c`. */
  ghost predicate Gap(c: Ctx, k: int) {
    Below(Before(c), k) && Over(After(c), k)
  }

  lemma SplitSorted(a: seq<Node>, x: Node, b: seq<Node>)
    requires SortedSeq(a + [x] + b)
    ensures SortedSeq(a) && SortedSeq(b) && Below(a, x.key) && Over(b, x.key)
  {
    var s := a + [x] + b;
    assert forall i :: 0 <= i < |a| ==> s[i] == a[i];
    assert forall i :: 0 <= i < |b| ==> s[|a| + 1 + i] == b[i];
    assert s[|a|] == x;
  }

  lemma JoinSorted(a: seq<Node>, x: Node, b: seq<Node>)
    requires SortedSeq(a + b) && Below(a, x.key) && Over(b, x.key)
    ensures SortedSeq(a + [x] + b)
  {
    var s, u := a + [x] + b, a + b;
    assert forall i :: 0 <= i < |a| ==> s[i] == u[i] && s[i] in a;
    assert forall i :: |a| < i < |s| ==> s[i] == u[i - 1] && s[i] in b;
  }

  lemma DropSorted(a: seq<Node>, x: Node, b: seq<Node>)
    requires SortedSeq(a + [x] + b)
    ensures SortedSeq(a + b)
  {
    var s, u := a + [x] + b, a + b;
    assert forall i :: 0 <= i < |a| ==> s[i] == u[i];
    assert forall i :: |a| <= i < |u| ==> u[i] == s[i + 1];
  }

  /** Everything to the left of a node of the tree is smaller, everything to the right larger. */
  lemma {:induction false} SortedAround(c: Ctx, s: Tree)
    requires Sorted(Plug(c, s)) && s.T?
    ensures Below(Before(c) + InOrder(s.left), s.x.key) && Over(InOrder(s.right) + After(c), s.x.key)
  {
    AroundOrder(c, s);
    SplitSorted(Before(c) + InOrder(s.left), s.x, InOrder(s.right) + After(c));
  }

  lemma {:induction false} GapLeft(c: Ctx, s: Tree, k: int)
    requires Sorted(Plug(c, s)) && s.T? && Gap(c, k) && k < s.x.key
    ensures Gap(InLeft(s.red, c, s.x, s.right), k)
  {
    SortedAround(c, s);
    forall n | n in After(InLeft(s.red, c, s.x, s.right)) ensures k < n.key {
      assert n == s.x || n in InOrder(s.right) + After(c);
    }
  }

  lemma {:induction false} GapRight(c: Ctx, s: Tree, k: int)
    requires Sorted(Plug(c, s)) && s.T? && Gap(c, k) && s.x.key < k
    ensures Gap(InRight(s.red, s.left, s.x, c), k)
  {
    SortedAround(c, s);
    forall n | n in Before(InRight(s.red, s.left, s.x, c)) ensures n.key < k {
      assert n == s.x || n in Before(c) + InOrder(s.left);
    }
  }

  /** An empty hole where `k` belongs means that no node has key `k`. */
  lemma {:induction false} GapAbsent(c: Ctx, k: int)
    requires Gap(c, k)
    ensures forall n :: n in Nodes(Plug(c, Leaf)) ==> n.key != k
  {
    PlugInOrder(c, Leaf);
    forall n | n in Nodes(Plug(c, Leaf)) ensures n.key != k {
      InOrderNode(Plug(c, Leaf), n);
      assert n in Before(c) + [] + After(c);
    }
  }

  lemma {:induction false} GapInsert(c: Ctx, x: Node)
    requires Sorted(Plug(c, Leaf)) && Gap(c, x.key)
    ensures Sorted(Plug(c, T(true, Leaf, x, Leaf)))
  {
    PlugInOrder(c, Leaf);
    PlugInOrder(c, T(true, Leaf, x, Leaf));
    NothingBetween(Before(c), After(c));
    OneNode(x);
    JoinSorted(Before(c), x, After(c));
  }

  lemma NothingBetween(a: seq<Node>, b: seq<Node>)
    ensures a + [] + b == a + b
  { }

  lemma OneNode(x: Node)
    ensures InOrder(T(true, Leaf, x, Leaf)) == [x]
  { }

  lemma {:induction false} DistinctKeys(t: Tree)
    requires Sorted(t)
    ensures forall m, n :: m in Nodes(t) && n in Nodes(t) && m.key == n.key ==> m == n
  {
    forall m, n | m in Nodes(t) && n in Nodes(t) && m.key == n.key ensures m == n {
      InOrderNode(t, m);
      InOrderNode(t, n);
    }
  }

  lemma {:induction false} SplicedSorted(c: Ctx, s: Tree, d: Tree)
    requires Sorted(Plug(c, s)) && s.T?
    requires s == T(s.red, Leaf, s.x, d) || s == T(s.red, d, s.x, Leaf)
    ensures Sorted(Plug(c, d))
  {
    PlugInOrder(c, s);
    PlugInOrder(c, d);
    var a, b := Before(c) + InOrder(s.left), InOrder(s.right) + After(c);
    AroundOrder(c, s);
    DropSorted(a, s.x, b);
    assert InOrder(Plug(c, d)) == a + b by {
      if s.left.Leaf? {
        EmptyMiddle(Before(c), InOrder(d), After(c));
      } else {
        EmptyMiddle(Before(c) + InOrder(d), [], After(c));
      }
    }
  }

  lemma EmptyMiddle(a: seq<Node>, m: seq<Node>, b: seq<Node>)
    ensures a + [] + (m + b) == a + m + b
    ensures a + ([] + b) == a + b
  { }

  /** The order around one node of the tree. */
  lemma {:induction false} AroundOrder(c: Ctx, s: Tree)
    requires s.T?
    ensures InOrder(Plug(c, s)) == (Before(c) + InOrder(s.left)) + [s.x] + (InOrder(s.right) + After(c))
  {
    PlugInOrder(c, s);
    Regroup(Before(c), InOrder(s.left), s.x, InOrder(s.right), After(c));
    RegroupEnd(Before(c) + InOrder(s.left), s.x, InOrder(s.right), After(c));
  }

  lemma RegroupEnd(a: seq<Node>, x: Node, d: seq<Node>, e: seq<Node>)
    ensures (a + [x]) + d + e == a + [x] + (d + e)
  { }

  /** The leftmost node of a subtree comes first. */
  lemma {:induction false} LeftmostFirst(k: Ctx, u: Tree)
    requires u.T? && u.left.Leaf? && Before(k) == []
    ensures InOrder(Plug(k, u)) == [u.x] + InOrder(Plug(k, u.right))
  {
    PlugInOrder(k, u);
    PlugInOrder(k, u.right);
    assert [] + ([] + [u.x] + InOrder(u.right)) + After(k) == [u.x] + ([] + InOrder(u.right) + After(k));
  }

  lemma {:induction false} SucceededSorted(c: Ctx, s: Tree, k: Ctx, u: Tree)
    requires Sorted(Plug(c, s)) && s.T? && s.right == Plug(k, u) && u.T? && u.left.Leaf? && Before(k) == []
    ensures Sorted(Plug(c, WithSuccessor(s, k, u)))
  {
    var s', a := WithSuccessor(s, k, u), Before(c) + InOrder(s.left);
    LeftmostFirst(k, u);
    AroundOrder(c, s);
    AroundOrder(c, s');
    RegroupEnd(a, u.x, InOrder(s'.right), After(c));
    RegroupHead(a, u.x, InOrder(s'.right), After(c));
    DropSorted(a, s.x, InOrder(s.right) + After(c));
  }

  lemma RegroupHead(a: seq<Node>, x: Node, d: seq<Node>, e: seq<Node>)
    ensures a + ([x] + d + e) == a + [x] + (d + e)
  { }

  // ---------- neighbours ----------

  ghost predicate IsAt(t: Tree, i: nat, n: Node) {
    i < |InOrder(t)| && InOrder(t)[i] == n
  }

  lemma {:induction false} HasPlace(t: Tree, n: Node)
    requires n in Nodes(t)
    ensures exists i: nat :: IsAt(t, i, n)
  {
    InOrderNode(t, n);
    var i: nat :| i < |InOrder(t)| && InOrder(t)[i] == n;
    assert IsAt(t, i, n);
  }

  ghost function Place(t: Tree, n: Node): (i: nat)
    requires n in Nodes(t)
    ensures IsAt(t, i, n)
  {
    HasPlace(t, n);
    var i: nat :| IsAt(t, i, n);
    i
  }

  /** The node after `n` in key order, and the node before it. */
  ghost function SuccOf(t: Tree, n: Node): Node?
    requires n in Nodes(t)
  {
    if Place(t, n) + 1 < |InOrder(t)| then InOrder(t)[Place(t, n) + 1] else null
  }

  ghost function PredOf(t: Tree, n: Node): Node?
    requires n in Nodes(t)
  {
    if Place(t, n) > 0 then InOrder(t)[Place(t, n) - 1] else null
  }

  function HeadOf(s: seq<Node>): Node? {
    if s == [] then null else s[0]
  }

  function LastOf(s: seq<Node>): Node? {
    if s == [] then null else s[|s| - 1]
  }

  lemma {:induction false} PlaceUnique(t: Tree, i: nat, n: Node)
    requires Sorted(t) && IsAt(t, i, n)
    ensures n in Nodes(t) && Place(t, n) == i
  {
    InOrderNode(t, n);
  }

  /** The two neighbours, read off the context of a node. */
  lemma {:induction false} Neighbours(c: Ctx, s: Tree)
    requires Sorted(Plug(c, s)) && s.T?
    ensures s.x in Nodes(Plug(c, s))
    ensures SuccOf(Plug(c, s), s.x) == HeadOf(InOrder(s.right) + After(c))
    ensures PredOf(Plug(c, s), s.x) == LastOf(Before(c) + InOrder(s.left))
  {
    var a, b := Before(c) + InOrder(s.left), InOrder(s.right) + After(c);
    AroundOrder(c, s);
    PlaceUnique(Plug(c, s), |a|, s.x);
  }

  /** Stepping forward and stepping back undo each other. */
  lemma {:induction false} NeighboursInverse(t: Tree, m: Node, n: Node)
    requires Sorted(t) && m in Nodes(t) && n in Nodes(t)
    ensures SuccOf(t, m) == n <==> PredOf(t, n) == m
  {
    PlaceUnique(t, Place(t, m), m);
    PlaceUnique(t, Place(t, n), n);
    if SuccOf(t, m) == n {
      PlaceUnique(t, Place(t, m) + 1, n);
    }
    if PredOf(t, n) == m {
      PlaceUnique(t, Place(t, n) - 1, m);
    }
  }

  lemma {:induction false} InOrderNodes(t: Tree)
    ensures Nodes(t) == set n | n in InOrder(t)
  {
    if t.T? {
      InOrderNodes(t.left);
      InOrderNodes(t.right);
      assert InOrder(t) == InOrder(t.left) + [t.x] + InOrder(t.right);
    }
  }

  /** In a tree that has lost some of its first nodes, the node after `all[k]` is still the next of all. */
  lemma {:induction false} NextOfAll(t: Tree, all: seq<Node>, k: nat)
    requires Sorted(t) && SortedSeq(all) && k < |all| && forall n :: n in Nodes(t) ==> n in all
    requires forall j :: k <= j < |all| ==> all[j] in Nodes(t)
    ensures SuccOf(t, all[k]) == HeadOf(all[k + 1..])
  {
    var i := Place(t, all[k]);
    var next := SuccOf(t, all[k]);
    if k + 1 < |all| {
      assert IsAt(t, Place(t, all[k + 1]), all[k + 1]);
      assert Place(t, all[k + 1]) > i;
    }
    if next != null {
      InOrderNode(t, next);
      var m :| 0 <= m < |all| && all[m] == next;
      assert InOrder(t)[i].key < InOrder(t)[i + 1].key;
      assert m > k;
    }
  }

  /** A node from which nothing leads to the right, with nothing behind its context, is the last of the tree. */
  lemma {:induction false} RightmostLast(k: Ctx, u: Tree)
    requires u.T? && u.right.Leaf? && After(k) == []
    ensures LastOf(InOrder(Plug(k, u))) == u.x
  {
    PlugInOrder(k, u);
    assert Before(k) + (InOrder(u.left) + [u.x] + []) + [] == Before(k) + InOrder(u.left) + [u.x];
  }

  /** The first node after an empty hole where `key` belongs has the least key above it. */
  lemma {:induction false} Ceiling(c: Ctx, key: int)
    requires Sorted(Plug(c, Leaf)) && Gap(c, key)
    ensures After(c) != [] ==> After(c)[0] in Nodes(Plug(c, Leaf)) && After(c)[0].key > key
    ensures After(c) != [] ==> forall n :: n in Nodes(Plug(c, Leaf)) && n.key >= key ==> After(c)[0].key <= n.key
    ensures After(c) == [] ==> forall n :: n in Nodes(Plug(c, Leaf)) ==> n.key < key
  {
    var t := Plug(c, Leaf);
    PlugInOrder(c, Leaf);
    assert InOrder(t) == Before(c) + After(c);
    if After(c) != [] {
      InOrderNode(t, After(c)[0]);
      assert InOrder(t)[|Before(c)|] == After(c)[0];
    }
    forall n | n in Nodes(t) ensures n in Before(c) || n in After(c)
      ensures n in After(c) ==> After(c)[0].key <= n.key
    {
      InOrderNode(t, n);
      if n in After(c) {
        var i :| 0 <= i < |After(c)| && After(c)[i] == n;
        assert InOrder(t)[|Before(c)| + i] == n;
      }
    }
  }

  lemma {:induction false} FirstLeast(t: Tree)
    requires Sorted(t) && t.T?
    ensures InOrder(t) != [] && InOrder(t)[0] in Nodes(t)
    ensures forall n :: n in Nodes(t) ==> InOrder(t)[0].key <= n.key
  {
    InOrderNode(t, t.x);
    InOrderNode(t, InOrder(t)[0]);
    forall n | n in Nodes(t) ensures InOrder(t)[0].key <= n.key {
      InOrderNode(t, n);
    }
  }
}
