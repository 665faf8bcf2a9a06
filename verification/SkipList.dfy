/**
 The skip list of Skiplist_KV/skiplist.h and skiplist_node.h: towers of forward pointers over a sorted bottom list.

 Only the bottom list `nodes` is given; the list at level i consists of those of its nodes whose tower reaches level i.
 */
module SkipList {
  class Node {
    const key: int
    const value: int
    const level: nat
    const forward: array<Node?>

    constructor (key: int, value: int, level: nat)
      ensures this.key == key && this.value == value && this.level == level
      ensures forward.Length == level + 1 && fresh(forward)
      ensures forall i :: 0 <= i <= level ==> forward[i] == null
    {
      this.key, this.value, this.level := key, value, level;
      this.forward := new Node?[level + 1](_ => null);
    }
  }

  // ---------- lists and levels ----------

  /** The forward pointers of a set of nodes. */
  type Links = map<Node, seq<Node?>>

  function At(xs: seq<Node>, i: nat): Node? {
    if i < |xs| then xs[i] else null
  }

  /** The node in front of position `c` of a list that starts after `header`. */
  function Before(header: Node, xs: seq<Node>, c: nat): Node
    requires c <= |xs|
  {
    if c == 0 then header else xs[c - 1]
  }

  ghost predicate Leads(h: Links, n: Node, i: nat, to: Node?) {
    n in h && i < |h[n]| && h[n][i] == to
  }

  /** Following the pointers at level `i` from `header` meets exactly `xs`. */
  ghost predicate IsLevel(h: Links, header: Node, i: nat, xs: seq<Node>) {
    forall c :: 0 <= c <= |xs| ==> Leads(h, Before(header, xs, c), i, At(xs, c))
  }

  /** The nodes whose towers reach level `i`. */
  function Level(ns: seq<Node>, i: nat): seq<Node> {
    if ns == [] then [] else if ns[0].level >= i then [ns[0]] + Level(ns[1..], i) else Level(ns[1..], i)
  }

  ghost predicate Sorted(ns: seq<Node>) {
    forall i, j :: 0 <= i < j < |ns| ==> ns[i].key < ns[j].key
  }

  /** How many nodes of a sorted list have smaller keys. */
  function Count(ns: seq<Node>, key: int): (c: nat)
    ensures c <= |ns|
    ensures forall i :: 0 <= i < c ==> ns[i].key < key
    ensures c < |ns| ==> ns[c].key >= key
  {
    if ns == [] || ns[0].key >= key then 0 else 1 + Count(ns[1..], key)
  }

  lemma {:induction false} LevelMember(ns: seq<Node>, i: nat, n: Node)
    ensures n in Level(ns, i) <==> n in ns && n.level >= i
  {
    if ns != [] {
      LevelMember(ns[1..], i, n);
    }
  }

  lemma SortedTail(ns: seq<Node>)
    requires Sorted(ns) && ns != []
    ensures Sorted(ns[1..]) && forall n :: n in ns[1..] ==> ns[0].key < n.key
  { }

  lemma SortedFront(x: Node, ns: seq<Node>)
    requires Sorted(ns) && forall n :: n in ns ==> x.key < n.key
    ensures Sorted([x] + ns)
  { }

  lemma {:induction false} LevelSorted(ns: seq<Node>, i: nat)
    requires Sorted(ns)
    ensures Sorted(Level(ns, i))
  {
    if ns != [] {
      SortedTail(ns);
      LevelSorted(ns[1..], i);
      forall n | n in Level(ns[1..], i) ensures ns[0].key < n.key {
        LevelMember(ns[1..], i, n);
      }
      SortedFront(ns[0], Level(ns[1..], i));
    }
  }

  lemma {:induction false} LevelZero(ns: seq<Node>)
    ensures Level(ns, 0) == ns
  {
    if ns != [] {
      LevelZero(ns[1..]);
    }
  }

  /** Every level is a sublist of the level below: a subsequence in the same order. */
  ghost predicate Sublist(xs: seq<Node>, ys: seq<Node>) {
    xs == [] || (ys != [] && if xs[0] == ys[0] then Sublist(xs[1..], ys[1..]) else Sublist(xs, ys[1..]))
  }

  lemma {:induction false} LevelSublist(ns: seq<Node>, i: nat)
    requires Sorted(ns)
    ensures Sublist(Level(ns, i + 1), Level(ns, i))
  {
    if ns != [] {
      LevelSublist(ns[1..], i);
      var xs, ys := Level(ns[1..], i + 1), Level(ns[1..], i);
      if ns[0].level >= i + 1 {
        assert ([ns[0]] + xs)[1..] == xs && ([ns[0]] + ys)[1..] == ys;
      } else if ns[0].level >= i {
        assert ([ns[0]] + ys)[1..] == ys;
        if xs != [] {
          LevelMember(ns[1..], i + 1, xs[0]);
          var j :| 0 <= j < |ns[1..]| && ns[1..][j] == xs[0];
          assert ns[0].key < ns[j + 1].key;
        }
      }
    }
  }

  lemma {:induction false} CountUnique(ns: seq<Node>, key: int, c: nat)
    requires c <= |ns| && (forall i :: 0 <= i < c ==> ns[i].key < key) && (c < |ns| ==> ns[c].key >= key)
    ensures Count(ns, key) == c
  { }

  // ---------- one level ----------

  /** Linking `x` in at position `c` of level `i`. */
  lemma {:induction false} InsertLevel(h: Links, h': Links, header: Node, i: nat, xs: seq<Node>, c: nat, x: Node)
    requires IsLevel(h, header, i, xs) && c <= |xs| && x !in xs && x != header
    requires Leads(h', x, i, At(xs, c)) && Leads(h', Before(header, xs, c), i, x)
    requires forall d :: 0 <= d <= |xs| && d != c ==> Leads(h', Before(header, xs, d), i, At(xs, d))
    ensures IsLevel(h', header, i, xs[..c] + [x] + xs[c..])
  {
    var ys := xs[..c] + [x] + xs[c..];
    forall d | 0 <= d <= |ys| ensures Leads(h', Before(header, ys, d), i, At(ys, d)) {
      if d <= c {
        assert Before(header, ys, d) == Before(header, xs, d);
        assert d < c ==> At(ys, d) == At(xs, d);
      } else {
        assert d > c + 1 ==> Before(header, ys, d) == Before(header, xs, d - 1);
        assert At(ys, d) == At(xs, d - 1);
      }
    }
  }

  /** Unlinking the node at position `c` of level `i`. */
  lemma {:induction false} RemoveLevel(h: Links, h': Links, header: Node, i: nat, xs: seq<Node>, c: nat)
    requires IsLevel(h, header, i, xs) && c < |xs|
    requires Leads(h', Before(header, xs, c), i, At(xs, c + 1))
    requires forall d :: 0 <= d <= |xs| && d != c && d != c + 1 ==> Leads(h', Before(header, xs, d), i, At(xs, d))
    ensures IsLevel(h', header, i, xs[..c] + xs[c + 1..])
  {
    var ys := xs[..c] + xs[c + 1..];
    forall d | 0 <= d <= |ys| ensures Leads(h', Before(header, ys, d), i, At(ys, d)) {
      if d <= c {
        assert Before(header, ys, d) == Before(header, xs, d);
        assert At(ys, d) == if d < c then At(xs, d) else At(xs, d + 1);
      } else {
        assert Before(header, ys, d) == Before(header, xs, d + 1);
        assert At(ys, d) == At(xs, d + 1);
      }
    }
  }

  /** Levels other than `i` do not depend on the pointers at level `i`. */
  lemma {:induction false} OtherLevel(h: Links, h': Links, header: Node, m: nat, xs: seq<Node>)
    requires IsLevel(h, header, m, xs)
    requires forall n :: n in h ==> n in h' && |h'[n]| == |h[n]| && (m < |h[n]| ==> h'[n][m] == h[n][m])
    ensures IsLevel(h', header, m, xs)
  {
    forall c | 0 <= c <= |xs| ensures Leads(h', Before(header, xs, c), m, At(xs, c)) {
      assert Leads(h, Before(header, xs, c), m, At(xs, c));
    }
  }

  ghost predicate Apart(header: Node, xs: seq<Node>) {
    header !in xs && forall i, j :: 0 <= i < j < |xs| ==> xs[i] != xs[j]
  }

  lemma BeforeApart(header: Node, xs: seq<Node>, c: nat, d: nat)
    requires Apart(header, xs) && c <= |xs| && d <= |xs| && c != d
    ensures Before(header, xs, c) != Before(header, xs, d)
  { }

  /** The two stores of the insertion loop at level `i`. */
  function LinkAt(h: Links, u: Node, x: Node, i: nat): Links
    requires u in h && x in h && i < |h[u]| && i < |h[x]|
  {
    var h1 := h[x := h[x][i := h[u][i]]];
    h1[u := h1[u][i := x]]
  }

  lemma {:induction false} LinkAtLevel(h: Links, header: Node, i: nat, xs: seq<Node>, c: nat, x: Node)
    requires IsLevel(h, header, i, xs) && Apart(header, xs) && c <= |xs| && x !in xs && x != header && x in h && i < |h[x]|
    ensures var u := Before(header, xs, c);
      u in h && i < |h[u]| && IsLevel(LinkAt(h, u, x, i), header, i, xs[..c] + [x] + xs[c..])
  {
    var u := Before(header, xs, c);
    assert Leads(h, u, i, At(xs, c));
    var h' := LinkAt(h, u, x, i);
    forall d | 0 <= d <= |xs| && d != c ensures Leads(h', Before(header, xs, d), i, At(xs, d)) {
      BeforeApart(header, xs, c, d);
      assert Leads(h, Before(header, xs, d), i, At(xs, d));
    }
    InsertLevel(h, h', header, i, xs, c, x);
  }

  /** The store of the deletion loop at level `i`: `u` skips its successor `x`. */
  function SkipAt(h: Links, u: Node, x: Node, i: nat): Links
    requires u in h && x in h && i < |h[u]| && i < |h[x]|
  {
    h[u := h[u][i := h[x][i]]]
  }

  lemma {:induction false} SkipAtLevel(h: Links, header: Node, i: nat, xs: seq<Node>, c: nat)
    requires IsLevel(h, header, i, xs) && Apart(header, xs) && c < |xs|
    ensures var u := Before(header, xs, c);
      && u in h && xs[c] in h && i < |h[u]| && i < |h[xs[c]]| && h[u][i] == xs[c]
      && IsLevel(SkipAt(h, u, xs[c], i), header, i, xs[..c] + xs[c + 1..])
  {
    var u := Before(header, xs, c);
    assert Leads(h, u, i, At(xs, c)) && Leads(h, Before(header, xs, c + 1), i, At(xs, c + 1));
    BeforeApart(header, xs, c, c + 1);
    var h' := SkipAt(h, u, xs[c], i);
    forall d | 0 <= d <= |xs| && d != c && d != c + 1 ensures Leads(h', Before(header, xs, d), i, At(xs, d)) {
      BeforeApart(header, xs, c, d);
      assert Leads(h, Before(header, xs, d), i, At(xs, d));
    }
    RemoveLevel(h, h', header, i, xs, c);
  }

  // ---------- contents ----------

  function Contents(ns: seq<Node>): map<int, int> {
    if ns == [] then map[] else Contents(ns[1..])[ns[0].key := ns[0].value]
  }

  lemma {:induction false} ContentsKey(ns: seq<Node>, key: int)
    ensures key in Contents(ns) <==> exists n :: n in ns && n.key == key
  {
    if ns != [] {
      ContentsKey(ns[1..], key);
      if key in Contents(ns) && key != ns[0].key {
        var n :| n in ns[1..] && n.key == key;
        assert n in ns;
      }
      assert ns[0] in ns;
    }
  }

  // ---------- insertion and removal in the bottom list ----------

  /** `ns` with the new node `x` where its key belongs. */
  function Inserted(ns: seq<Node>, x: Node): seq<Node> {
    if ns == [] || ns[0].key >= x.key then [x] + ns else [ns[0]] + Inserted(ns[1..], x)
  }

  /** `ns` without the node that has the key. */
  function Removed(ns: seq<Node>, key: int): seq<Node> {
    if ns == [] then [] else if ns[0].key == key then ns[1..] else [ns[0]] + Removed(ns[1..], key)
  }

  lemma {:induction false} InsertedSplit(ns: seq<Node>, x: Node)
    ensures Inserted(ns, x) == ns[..Count(ns, x.key)] + [x] + ns[Count(ns, x.key)..]
  {
    if ns != [] && ns[0].key < x.key {
      var c := Count(ns[1..], x.key);
      InsertedSplit(ns[1..], x);
      assert ns[..c + 1] == [ns[0]] + ns[1..][..c];
    }
  }

  lemma {:induction false} RemovedSplit(ns: seq<Node>, key: int)
    requires Count(ns, key) < |ns| && ns[Count(ns, key)].key == key
    ensures Removed(ns, key) == ns[..Count(ns, key)] + ns[Count(ns, key) + 1..]
  {
    if ns[0].key < key {
      RemovedSplit(ns[1..], key);
      SplitTail(ns, Count(ns[1..], key));
    }
  }

  lemma SplitTail(ns: seq<Node>, c: nat)
    requires c + 1 < |ns|
    ensures [ns[0]] + (ns[1..][..c] + ns[1..][c + 1..]) == ns[..c + 1] + ns[c + 2..]
  { }

  lemma {:induction false} InsertedMember(ns: seq<Node>, x: Node, n: Node)
    ensures n in Inserted(ns, x) <==> n == x || n in ns
  {
    if ns != [] && ns[0].key < x.key {
      InsertedMember(ns[1..], x, n);
    }
  }

  lemma {:induction false} RemovedMember(ns: seq<Node>, key: int, n: Node)
    requires Sorted(ns)
    ensures n in Removed(ns, key) <==> n in ns && n.key != key
  {
    if ns != [] && ns[0].key != key {
      RemovedMember(ns[1..], key, n);
    }
  }

  lemma {:induction false} InsertedSorted(ns: seq<Node>, x: Node)
    requires Sorted(ns) && forall n :: n in ns ==> n.key != x.key
    ensures Sorted(Inserted(ns, x)) && |Inserted(ns, x)| == |ns| + 1
  {
    if ns != [] && ns[0].key < x.key {
      SortedTail(ns);
      InsertedSorted(ns[1..], x);
      forall n | n in Inserted(ns[1..], x) ensures ns[0].key < n.key {
        InsertedMember(ns[1..], x, n);
      }
      SortedFront(ns[0], Inserted(ns[1..], x));
    }
  }

  lemma {:induction false} RemovedSorted(ns: seq<Node>, key: int)
    requires Sorted(ns)
    ensures Sorted(Removed(ns, key))
  {
    if ns != [] {
      SortedTail(ns);
      if ns[0].key != key {
        RemovedSorted(ns[1..], key);
        forall n | n in Removed(ns[1..], key) ensures ns[0].key < n.key {
          RemovedMember(ns[1..], key, n);
        }
        SortedFront(ns[0], Removed(ns[1..], key));
      }
    }
  }

  lemma {:induction false} RemovedLength(ns: seq<Node>, n: Node)
    requires n in ns
    ensures |Removed(ns, n.key)| == |ns| - 1
  {
    if ns[0].key != n.key {
      RemovedLength(ns[1..], n);
    }
  }

  /** How the levels change with the bottom list. */
  lemma {:induction false} LevelInserted(ns: seq<Node>, x: Node, i: nat)
    requires Sorted(ns)
    ensures Level(Inserted(ns, x), i) == if i <= x.level then Inserted(Level(ns, i), x) else Level(ns, i)
  {
    if ns != [] && ns[0].key < x.key {
      LevelInserted(ns[1..], x, i);
    } else {
      forall n | n in Level(ns, i) ensures n.key >= x.key { LevelMember(ns, i, n); }
      assert ([x] + ns)[1..] == ns;
    }
  }

  lemma {:induction false} LevelRemoved(ns: seq<Node>, key: int, i: nat)
    requires Sorted(ns)
    ensures Level(Removed(ns, key), i) == Removed(Level(ns, i), key)
  {
    if ns != [] {
      if ns[0].key == key {
        if ns[0].level < i {
          forall n | n in Level(ns, i) ensures n.key != key { LevelMember(ns, i, n); }
          RemovedAbsent(Level(ns, i), key);
        }
      } else {
        LevelRemoved(ns[1..], key, i);
      }
    }
  }

  lemma {:induction false} RemovedAbsent(ns: seq<Node>, key: int)
    requires forall n :: n in ns ==> n.key != key
    ensures Removed(ns, key) == ns
  {
    if ns != [] {
      RemovedAbsent(ns[1..], key);
    }
  }

  lemma {:induction false} ContentsInserted(ns: seq<Node>, x: Node)
    requires x.key !in Contents(ns)
    ensures Contents(Inserted(ns, x)) == Contents(ns)[x.key := x.value]
  {
    if ns != [] && ns[0].key < x.key {
      ContentsInserted(ns[1..], x);
    }
  }

  lemma {:induction false} ContentsRemoved(ns: seq<Node>, key: int)
    requires Sorted(ns)
    ensures Contents(Removed(ns, key)) == Contents(ns) - {key}
  {
    if ns != [] {
      if ns[0].key == key {
        ContentsKey(ns[1..], key);
      } else {
        ContentsRemoved(ns[1..], key);
      }
    }
  }

  // ---------- drawing a height ----------

  /** How many draws are odd before the first even one. */
  function Heads(odd: seq<bool>): nat {
    if odd != [] && odd[0] then 1 + Heads(odd[1..]) else 0
  }

  function Height(odd: seq<bool>, maxLevel: nat): nat {
    if 1 + Heads(odd) < maxLevel then 1 + Heads(odd) else maxLevel
  }

  /** Every height from 1 to the maximum can be drawn, and with a maximum of 0 only that. */
  lemma {:induction false} AnyHeight(maxLevel: nat, k: nat) returns (odd: seq<bool>)
    requires k <= maxLevel && (k == 0 ==> maxLevel == 0)
    ensures Height(odd, maxLevel) == k
  {
    odd := [];
    for n := 0 to if k > 0 then k - 1 else 0
      invariant Heads(odd) == n
    {
      odd := [true] + odd;
    }
  }

  // ---------- the list ----------

  ghost predicate Towers(S: set<Node>) {
    && (forall n :: n in S ==> n.forward.Length == n.level + 1)
    && (forall m, n :: m in S && n in S && m != n ==> m.forward != n.forward)
  }

  ghost function Arrays(S: set<Node>): set<object> {
    set n | n in S :: n.forward
  }

  ghost function Snap(S: set<Node>): Links
    reads Arrays(S)
  {
    map n | n in S :: n.forward[..]
  }

  method Store(n: Node, i: nat, v: Node?, ghost S: set<Node>)
    requires Towers(S) && n in S && i <= n.level
    modifies n.forward
    ensures Snap(S) == old(Snap(S))[n := old(Snap(S))[n][i := v]]
  {
    n.forward[i] := v;
  }

  function AllOf(header: Node, ns: seq<Node>): set<Node> {
    {header} + set n | n in ns
  }

  /**
   The nodes are sorted and have pointer arrays of their own, no tower is taller than that of the header, and `level` is
   the highest level in use.
   */
  ghost predicate WellBuilt(header: Node, ns: seq<Node>, level: nat) {
    && header !in ns && Towers(AllOf(header, ns)) && Sorted(ns) && level <= header.level
    && (forall n :: n in ns ==> n.level <= level)
    && (level > 0 ==> exists n :: n in ns && n.level == level)
  }

  class SkipList {
    const maxLevel: nat
    const header: Node
    var level: nat
    var count: nat
    ghost var nodes: seq<Node>

    ghost function Parts(): set<Node>
      reads this
    {
      AllOf(header, nodes)
    }

    /** The conditions that do not involve the pointers. */
    ghost predicate Basic()
      reads this
    {
      header.level == maxLevel && WellBuilt(header, nodes, level) && count == |nodes|
    }

    /** With the pointers `h`, every level holds the nodes whose towers reach it. */
    ghost predicate Laid(h: Links)
      reads this
    {
      forall i :: 0 <= i <= maxLevel ==> IsLevel(h, header, i, Level(nodes, i))
    }

    ghost predicate Valid()
      reads this, Arrays(Parts())
    {
      Basic() && Laid(Snap(Parts()))
    }

    constructor (maxLevel: nat)
      ensures Valid() && this.maxLevel == maxLevel && nodes == [] && level == 0
    {
      this.maxLevel := maxLevel;
      level, count, nodes := 0, 0, [];
      header := new Node(0, 0, maxLevel);
      new;
      assert forall i :: 0 <= i <= maxLevel ==> Leads(Snap(Parts()), header, i, null);
    }

    /** `n` stands at position `c` of level `i`, and its pointer there leads to the next node. */
    ghost predicate Stands(n: Node, i: nat, c: nat)
      reads this, n.forward
    {
      && c <= |Level(nodes, i)| && n == Before(header, Level(nodes, i), c)
      && i < n.forward.Length && n.forward[i] == At(Level(nodes, i), c)
    }

    lemma LooksAt(i: nat, c: nat)
      requires Valid() && i <= maxLevel && c <= |Level(nodes, i)|
      ensures Stands(Before(header, Level(nodes, i), c), i, c)
    {
      assert Leads(Snap(Parts()), Before(header, Level(nodes, i), c), i, At(Level(nodes, i), c));
    }

    /** The position after `start` at level `i`. */
    lemma Enter(start: Node, i: nat) returns (c: nat)
      requires Valid() && i <= maxLevel
      requires start == header || (start in nodes && start.level >= i)
      ensures Stands(start, i, c) && (c > 0 ==> start in nodes)
    {
      c := 0;
      if start != header {
        LevelMember(nodes, i, start);
        var j :| 0 <= j < |Level(nodes, i)| && Level(nodes, i)[j] == start;
        c := j + 1;
      }
      LooksAt(i, c);
    }

    /** The walk along one level: from `start`, as long as the keys are smaller. */
    method WalkLevel(start: Node, i: nat, key: int) returns (current: Node)
      requires Valid() && i <= maxLevel
      requires start == header || (start in nodes && start.level >= i && start.key < key)
      ensures current == Before(header, Level(nodes, i), Count(Level(nodes, i), key))
      ensures current == header || (current in nodes && current.level >= i && current.key < key)
      ensures Snap(Parts()) == old(Snap(Parts()))
    {
      current := start;
      ghost var c := Enter(start, i);
      while current.forward[i] != null && current.forward[i].key < key
        invariant Valid() && Snap(Parts()) == old(Snap(Parts()))
        invariant Stands(current, i, c) && (c > 0 ==> current.key < key)
        decreases |Level(nodes, i)| - c
      {
        Advance(current, i, c);
        current := current.forward[i];
        c := c + 1;
      }
      WalkDone(current, i, key, c);
    }

    lemma Advance(current: Node, i: nat, c: nat)
      requires Valid() && i <= maxLevel && Stands(current, i, c) && current.forward[i] != null
      ensures c < |Level(nodes, i)| && Stands(current.forward[i], i, c + 1)
    {
      LooksAt(i, c + 1);
    }

    lemma WalkDone(current: Node, i: nat, key: int, c: nat)
      requires Valid() && Stands(current, i, c) && (c > 0 ==> current.key < key)
      requires current.forward[i] == null || current.forward[i].key >= key
      ensures current == Before(header, Level(nodes, i), Count(Level(nodes, i), key))
      ensures current == header || (current in nodes && current.level >= i && current.key < key)
    {
      LevelSorted(nodes, i);
      CountUnique(Level(nodes, i), key, c);
      if c > 0 {
        LevelMember(nodes, i, Level(nodes, i)[c - 1]);
      }
    }

    /** The position where `key` belongs at every level. */
    ghost predicate IsUpdate(update: seq<Node?>, key: int, lo: nat, hi: nat)
      requires hi <= |update|
      reads this
    {
      forall i :: lo <= i < hi ==> update[i] == Before(header, Level(nodes, i), Count(Level(nodes, i), key))
    }

    /** The descent of insert_element and delete_element: `update[i]` is the last node of level i with a smaller key. */
    method Descend(key: int) returns (update: seq<Node?>, current: Node?)
      requires Valid()
      ensures |update| == maxLevel + 1 && IsUpdate(update, key, 0, level + 1)
      ensures current == At(nodes, Count(nodes, key))
      ensures Snap(Parts()) == old(Snap(Parts()))
    {
      var prev := header;
      update := seq(maxLevel + 1, _ => null);
      for i := level + 1 downto 0
        invariant prev == header || (prev in nodes && prev.level >= i && prev.key < key)
        invariant |update| == maxLevel + 1 && IsUpdate(update, key, i, level + 1)
        invariant i == 0 ==> prev == Before(header, Level(nodes, 0), Count(Level(nodes, 0), key))
        invariant Snap(Parts()) == old(Snap(Parts()))
      {
        prev := WalkLevel(prev, i, key);
        update := update[i := prev];
      }
      LevelZero(nodes);
      LooksAt(0, Count(nodes, key));
      current := prev.forward[0];
    }

    /** search_element. */
    method Search(key: int) returns (found: bool)
      requires Valid()
      ensures found == (key in Contents(nodes))
    {
      var current := header;
      for i := level + 1 downto 0
        invariant current == header || (current in nodes && current.level >= i && current.key < key)
        invariant i == 0 ==> current == Before(header, Level(nodes, 0), Count(Level(nodes, 0), key))
        invariant Snap(Parts()) == old(Snap(Parts()))
      {
        current := WalkLevel(current, i, key);
      }
      LevelZero(nodes);
      LooksAt(0, Count(nodes, key));
      KeyPlace(nodes, key);
      var next := current.forward[0];
      found := next != null && next.key == key;
    }

    /** Half-way through the insertion loop: the levels below `m` hold `x`, the others do not yet. */
    ghost predicate LaidUpTo(h: Links, x: Node, m: nat)
      reads this
    {
      forall i :: 0 <= i <= maxLevel ==> IsLevel(h, header, i, if i < m then Inserted(Level(nodes, i), x) else Level(nodes, i))
    }

    lemma LinkOne(h: Links, x: Node, m: nat) returns (u: Node)
      requires Basic() && x !in Parts() && m <= maxLevel && x in h && m < |h[x]| && LaidUpTo(h, x, m)
      ensures u == Before(header, Level(nodes, m), Count(Level(nodes, m), x.key))
      ensures u in h && m < |h[u]| && LaidUpTo(LinkAt(h, u, x, m), x, m + 1)
    {
      var xs := Level(nodes, m);
      var c := Count(xs, x.key);
      u := Before(header, xs, c);
      LevelApart(m);
      LevelMember(nodes, m, x);
      InsertedSplit(xs, x);
      LinkAtLevel(h, header, m, xs, c, x);
      forall i | 0 <= i <= maxLevel && i != m
        ensures IsLevel(LinkAt(h, u, x, m), header, i, if i < m then Inserted(Level(nodes, i), x) else Level(nodes, i))
      {
        OtherLevel(h, LinkAt(h, u, x, m), header, i, if i < m then Inserted(Level(nodes, i), x) else Level(nodes, i));
      }
    }

    lemma LevelApart(i: nat)
      requires Basic()
      ensures Apart(header, Level(nodes, i))
    {
      LevelSorted(nodes, i);
      LevelMember(nodes, i, header);
    }

    /** The insertion loop: `x` is linked in at each level of its tower. */
    method LinkTower(x: Node, update: seq<Node?>, ghost S: set<Node>)
      requires Basic() && x !in Parts() && S == Parts() + {x} && Towers(S) && x.level <= maxLevel && Laid(Snap(S))
      requires |update| == maxLevel + 1 && IsUpdate(update, x.key, 0, x.level + 1)
      modifies Arrays(S)
      ensures LaidUpTo(Snap(S), x, x.level + 1)
    {
      for i := 0 to x.level + 1
        invariant LaidUpTo(Snap(S), x, i)
      {
        ghost var h := Snap(S);
        ghost var u := LinkOne(h, x, i);
        Store(x, i, update[i].forward[i], S);
        Store(update[i], i, x, S);
      }
    }

    /** get_random_level; the draw at place `n` is odd when `odd[n]` is. Draws past the end of `odd` are even. */
    method RandomLevel(odd: seq<bool>) returns (k: nat)
      ensures Snap(Parts()) == old(Snap(Parts()))
      ensures k == Height(odd, maxLevel)
    {
      k := 1;
      var drawn := 0;
      while drawn < |odd| && odd[drawn]
        invariant drawn <= |odd| && k == 1 + drawn && Heads(odd) == drawn + Heads(odd[drawn..])
      {
        assert odd[drawn..][1..] == odd[drawn + 1..];
        k := k + 1;
        drawn := drawn + 1;
      }
      k := if k < maxLevel then k else maxLevel;
    }

    /** insert_element. The result says whether the key was there already; its value is then left as it is. */
    method Insert(key: int, value: int, odd: seq<bool>) returns (existed: bool, ghost x: Node?)
      requires Valid()
      modifies this, Arrays(Parts())
      ensures Valid()
      ensures existed == (key in old(Contents(nodes)))
      ensures existed ==> nodes == old(nodes) && level == old(level)
      ensures !existed ==> x != null && nodes == Inserted(old(nodes), x) && x.key == key && x.value == value
      ensures !existed ==> x.level == Height(odd, maxLevel)
      ensures Contents(nodes) == if existed then old(Contents(nodes)) else old(Contents(nodes))[key := value]
    {
      x := null;
      ghost var ns := nodes;
      KeyPlace(ns, key);
      var update, current := Descend(key);
      if current != null && current.key == key {
        return true, null;
      }
      var randomLevel := RandomLevel(odd);
      update := Raise(update, key, randomLevel);
      var inserted := InsertTower(key, value, randomLevel, update);
      ContentsInserted(ns, inserted);
      existed, x := false, inserted;
    }

    /** Levels that are still empty start at the header. */
    method Raise(update: seq<Node?>, key: int, randomLevel: nat) returns (update': seq<Node?>)
      requires Basic() && randomLevel <= maxLevel && |update| == maxLevel + 1 && IsUpdate(update, key, 0, level + 1)
      ensures |update'| == maxLevel + 1 && IsUpdate(update', key, 0, randomLevel + 1)
      ensures Snap(Parts()) == old(Snap(Parts()))
    {
      update' := update;
      if randomLevel > level {
        for i := level + 1 to randomLevel + 1
          invariant |update'| == maxLevel + 1 && IsUpdate(update', key, 0, i)
        {
          EmptyAbove(i);
          update' := update'[i := header];
        }
      }
    }

    lemma EmptyAbove(i: nat)
      requires Basic() && i > level
      ensures Level(nodes, i) == []
    {
      if Level(nodes, i) != [] {
        LevelMember(nodes, i, Level(nodes, i)[0]);
        assert false;
      }
    }

    /** A node that is not linked anywhere changes no level. */
    lemma NewTower(x: Node, S: set<Node>)
      requires Valid() && x !in Parts() && S == Parts() + {x}
      ensures Laid(Snap(S))
    {
      forall i | 0 <= i <= maxLevel ensures IsLevel(Snap(S), header, i, Level(nodes, i)) {
        OtherLevel(Snap(Parts()), Snap(S), header, i, Level(nodes, i));
      }
    }

    /** All levels as they should be for the longer bottom list. */
    lemma TowerLinked(h: Links, x: Node)
      requires Basic() && LaidUpTo(h, x, x.level + 1)
      ensures forall i :: 0 <= i <= maxLevel ==> IsLevel(h, header, i, Level(Inserted(nodes, x), i))
    {
      forall i | 0 <= i <= maxLevel ensures IsLevel(h, header, i, Level(Inserted(nodes, x), i)) {
        LevelInserted(nodes, x, i);
      }
    }

    method NewNode(key: int, value: int, randomLevel: nat) returns (x: Node)
      requires Valid()
      ensures x.key == key && x.value == value && x.level == randomLevel && fresh(x) && fresh(x.forward) && x !in Parts()
      ensures Towers(Parts() + {x}) && Laid(Snap(Parts() + {x}))
    {
      x := new Node(key, value, randomLevel);
      NewTower(x, Parts() + {x});
    }

    method InsertTower(key: int, value: int, randomLevel: nat, update: seq<Node?>) returns (x: Node)
      requires Valid() && randomLevel <= maxLevel
      requires |update| == maxLevel + 1 && IsUpdate(update, key, 0, randomLevel + 1)
      requires key !in Contents(nodes)
      modifies this, Arrays(Parts())
      ensures Valid() && nodes == Inserted(old(nodes), x)
      ensures x.key == key && x.value == value && x.level == randomLevel
    {
      x := NewNode(key, value, randomLevel);
      ghost var S := Parts() + {x};
      LinkTower(x, update, S);
      TowerLinked(Snap(S), x);
      ContentsKey(nodes, key);
      InsertBuilt(header, nodes, level, x);
      Adopt(if randomLevel > level then randomLevel else level, count + 1, Inserted(nodes, x), S);
    }

    /** Half-way through the deletion loop: the levels below `m` no longer hold the key. */
    ghost predicate ClearedUpTo(h: Links, key: int, m: nat)
      reads this
    {
      forall i :: 0 <= i <= maxLevel ==> IsLevel(h, header, i, if i < m then Removed(Level(nodes, i), key) else Level(nodes, i))
    }

    /** Where the deletion loop looks at level `m`: at the node itself if its tower reaches so high, past it otherwise. */
    lemma UnlinkOne(h: Links, x: Node, m: nat) returns (u: Node)
      requires Basic() && x in nodes && m <= maxLevel && ClearedUpTo(h, x.key, m)
      ensures u == Before(header, Level(nodes, m), Count(Level(nodes, m), x.key)) && u in Parts()
      ensures u in h && m < |h[u]| && (h[u][m] == x <==> m <= x.level)
      ensures m <= x.level ==> x in h && m < |h[x]| && ClearedUpTo(SkipAt(h, u, x, m), x.key, m + 1)
    {
      var xs := Level(nodes, m);
      var c := Count(xs, x.key);
      u := Before(header, xs, c);
      UnlinkPlace(x, m, xs, c);
      assert Leads(h, u, m, At(xs, c));
      if m <= x.level {
        UnlinkLevel(h, x, m, xs, c);
        SkipOthers(h, u, x, m);
      }
    }

    lemma UnlinkPlace(x: Node, m: nat, xs: seq<Node>, c: nat)
      requires Basic() && x in nodes && m <= maxLevel && xs == Level(nodes, m) && c == Count(xs, x.key)
      ensures Before(header, xs, c) in Parts() && (At(xs, c) == x <==> m <= x.level)
    {
      LevelSorted(nodes, m);
      LevelMember(nodes, m, x);
      if c > 0 { LevelMember(nodes, m, xs[c - 1]); }
      if m <= x.level { SortedAt(xs, x); }
    }

    lemma UnlinkLevel(h: Links, x: Node, m: nat, xs: seq<Node>, c: nat)
      requires Basic() && xs == Level(nodes, m) && c == Count(xs, x.key) && At(xs, c) == x && IsLevel(h, header, m, xs)
      ensures var u := Before(header, xs, c);
        && u in h && x in h && m < |h[u]| && m < |h[x]|
        && IsLevel(SkipAt(h, u, x, m), header, m, Removed(xs, x.key))
    {
      LevelApart(m);
      RemovedSplit(xs, x.key);
      SkipAtLevel(h, header, m, xs, c);
    }

    lemma SkipOthers(h: Links, u: Node, x: Node, m: nat)
      requires m <= maxLevel && ClearedUpTo(h, x.key, m) && u in h && x in h && m < |h[u]| && m < |h[x]|
      requires IsLevel(SkipAt(h, u, x, m), header, m, Removed(Level(nodes, m), x.key))
      ensures ClearedUpTo(SkipAt(h, u, x, m), x.key, m + 1)
    {
      forall i | 0 <= i <= maxLevel && i != m
        ensures IsLevel(SkipAt(h, u, x, m), header, i, if i < m then Removed(Level(nodes, i), x.key) else Level(nodes, i))
      {
        OtherLevel(h, SkipAt(h, u, x, m), header, i, if i < m then Removed(Level(nodes, i), x.key) else Level(nodes, i));
      }
    }

    /** The deletion loop: it stops at the first level that the tower of `x` does not reach. */
    method UnlinkTower(x: Node, update: seq<Node?>)
      requires Valid() && x in nodes && |update| == maxLevel + 1 && IsUpdate(update, x.key, 0, level + 1)
      modifies Arrays(Parts())
      ensures forall i :: 0 <= i <= maxLevel ==> IsLevel(Snap(Parts()), header, i, Level(Removed(nodes, x.key), i))
    {
      ghost var S := Parts();
      ghost var m := 0;
      for i := 0 to level + 1
        invariant ClearedUpTo(Snap(S), x.key, i) && m == i && i <= x.level + 1
      {
        ghost var h := Snap(S);
        ghost var u := UnlinkOne(h, x, i);
        if update[i].forward[i] != x {
          break;
        }
        Store(update[i], i, x.forward[i], S);
        m := i + 1;
      }
      TowerCleared(Snap(S), x, m);
    }

    lemma TowerCleared(h: Links, x: Node, m: nat)
      requires Basic() && x in nodes && m == x.level + 1 && ClearedUpTo(h, x.key, m)
      ensures forall i :: 0 <= i <= maxLevel ==> IsLevel(h, header, i, Level(Removed(nodes, x.key), i))
    {
      forall i | 0 <= i <= maxLevel ensures IsLevel(h, header, i, Level(Removed(nodes, x.key), i)) {
        LevelRemoved(nodes, x.key, i);
        if i >= m {
          forall n | n in Level(nodes, i) ensures n.key != x.key {
            LevelMember(nodes, i, n);
            if n.key == x.key { SameKey(nodes, n, x); }
          }
          RemovedAbsent(Level(nodes, i), x.key);
        }
      }
    }

    /** delete_element. A key that is not there is ignored. */
    method Delete(key: int)
      requires Valid()
      modifies this, Arrays(Parts())
      ensures Valid() && nodes == Removed(old(nodes), key)
      ensures Contents(nodes) == old(Contents(nodes)) - {key}
    {
      ghost var ns := nodes;
      KeyPlace(ns, key);
      ContentsRemoved(ns, key);
      var update, current := Descend(key);
      if current != null && current.key == key {
        UnlinkTower(current, update);
        DropNode(current);
      } else {
        AbsentRemoved(ns, key);
      }
    }

    /** The highest level that is not empty, or 0. */
    method TopLevel(ghost ms: seq<Node>) returns (top: nat)
      requires header.level == maxLevel && level <= maxLevel && header in Parts() && forall n :: n in ms ==> n.level <= level
      requires forall i :: 0 <= i <= maxLevel ==> IsLevel(Snap(Parts()), header, i, Level(ms, i))
      ensures top <= level && (forall n :: n in ms ==> n.level <= top)
      ensures top > 0 ==> exists n :: n in ms && n.level == top
      ensures Snap(Parts()) == old(Snap(Parts()))
    {
      top := level;
      assert Leads(Snap(Parts()), header, top, At(Level(ms, top), 0));
      while top > 0 && header.forward[top] == null
        invariant 0 <= top <= level && forall n :: n in ms ==> n.level <= top
        invariant top < header.forward.Length && header.forward[top] == At(Level(ms, top), 0)
      {
        EmptyLevel(ms, top);
        top := top - 1;
        assert Leads(Snap(Parts()), header, top, At(Level(ms, top), 0));
      }
      if top > 0 {
        LevelMember(ms, top, Level(ms, top)[0]);
      }
    }

    /** The end of delete_element: the levels that are now empty are dropped. */
    method DropNode(x: Node)
      requires Basic() && x in nodes
      requires forall i :: 0 <= i <= maxLevel ==> IsLevel(Snap(Parts()), header, i, Level(Removed(nodes, x.key), i))
      modifies this
      ensures Valid() && nodes == Removed(old(nodes), x.key)
    {
      ghost var ms := Removed(nodes, x.key);
      RemoveBuilt(header, nodes, level, x);
      var top := TopLevel(ms);
      RestrictLevels(Snap(Parts()), Snap(AllOf(header, ms)), header, ms, maxLevel);
      Adopt(top, count - 1, ms, AllOf(header, ms));
    }

    /** The list takes over new values of its fields, with the pointers already in place. */
    method Adopt(level: nat, count: nat, ghost ns: seq<Node>, ghost S: set<Node>)
      requires header.level == maxLevel && WellBuilt(header, ns, level) && count == |ns| && S == AllOf(header, ns)
      requires forall i :: 0 <= i <= maxLevel ==> IsLevel(Snap(S), header, i, Level(ns, i))
      modifies this
      ensures Valid() && nodes == ns && this.level == level
    {
      this.level, this.count, nodes := level, count, ns;
    }
  }

  lemma {:induction false} SortedAt(ns: seq<Node>, x: Node)
    requires Sorted(ns) && x in ns
    ensures Count(ns, x.key) < |ns| && ns[Count(ns, x.key)] == x
  {
    var i :| 0 <= i < |ns| && ns[i] == x;
    CountUnique(ns, x.key, i);
  }

  lemma SameKey(ns: seq<Node>, m: Node, n: Node)
    requires Sorted(ns) && m in ns && n in ns && m.key == n.key
    ensures m == n
  { }

  lemma {:induction false} EmptyLevel(ns: seq<Node>, i: nat)
    requires i > 0 && Level(ns, i) == [] && forall n :: n in ns ==> n.level <= i
    ensures forall n :: n in ns ==> n.level <= i - 1
  {
    forall n | n in ns ensures n.level <= i - 1 {
      LevelMember(ns, i, n);
    }
  }

  lemma {:induction false} RestrictLevel(h: Links, h': Links, header: Node, i: nat, ns: seq<Node>)
    requires IsLevel(h, header, i, Level(ns, i))
    requires forall n :: n in AllOf(header, ns) && n in h ==> n in h' && h'[n] == h[n]
    ensures IsLevel(h', header, i, Level(ns, i))
  {
    var xs := Level(ns, i);
    forall c | 0 <= c <= |xs| ensures Leads(h', Before(header, xs, c), i, At(xs, c)) {
      if c > 0 { LevelMember(ns, i, xs[c - 1]); }
      assert Leads(h, Before(header, xs, c), i, At(xs, c));
    }
  }

  lemma {:induction false} RestrictLevels(h: Links, h': Links, header: Node, ns: seq<Node>, max: nat)
    requires forall i :: 0 <= i <= max ==> IsLevel(h, header, i, Level(ns, i))
    requires forall n :: n in AllOf(header, ns) && n in h ==> n in h' && h'[n] == h[n]
    ensures forall i :: 0 <= i <= max ==> IsLevel(h', header, i, Level(ns, i))
  {
    forall i | 0 <= i <= max ensures IsLevel(h', header, i, Level(ns, i)) {
      RestrictLevel(h, h', header, i, ns);
    }
  }

  lemma {:induction false} AbsentRemoved(ns: seq<Node>, key: int)
    requires Sorted(ns) && (Count(ns, key) < |ns| ==> ns[Count(ns, key)].key != key)
    ensures Removed(ns, key) == ns
  {
    KeyPlace(ns, key);
    ContentsKey(ns, key);
    RemovedAbsent(ns, key);
  }

  lemma {:induction false} RemoveBuilt(header: Node, ns: seq<Node>, level: nat, x: Node)
    requires WellBuilt(header, ns, level) && x in ns
    ensures var ms := Removed(ns, x.key);
      && |ns| > 0 && Sorted(ms) && |ms| == |ns| - 1 && header !in ms && Towers(AllOf(header, ms)) && AllOf(header, ms) <= AllOf(header, ns)
      && forall n :: n in ms ==> n.level <= level
  {
    RemovedSorted(ns, x.key);
    RemovedLength(ns, x);
    forall n | n in Removed(ns, x.key) ensures n in ns { RemovedMember(ns, x.key, n); }
  }

  lemma {:induction false} InsertBuilt(header: Node, ns: seq<Node>, level: nat, x: Node)
    requires WellBuilt(header, ns, level) && x !in AllOf(header, ns) && x.level <= header.level
    requires Towers(AllOf(header, ns) + {x}) && forall n :: n in ns ==> n.key != x.key
    ensures AllOf(header, Inserted(ns, x)) == AllOf(header, ns) + {x} && |Inserted(ns, x)| == |ns| + 1
    ensures WellBuilt(header, Inserted(ns, x), if x.level > level then x.level else level)
  {
    var ms := Inserted(ns, x);
    InsertedSorted(ns, x);
    InsertedMember(ns, x, x);
    forall n | n in ns ensures n in ms { InsertedMember(ns, x, n); }
    forall n | n in ms ensures n == x || n in ns { InsertedMember(ns, x, n); }
  }

  lemma {:induction false} KeyPlace(ns: seq<Node>, key: int)
    requires Sorted(ns)
    ensures key in Contents(ns) <==> Count(ns, key) < |ns| && ns[Count(ns, key)].key == key
  {
    ContentsKey(ns, key);
    var c := Count(ns, key);
    if key in Contents(ns) {
      var n :| n in ns && n.key == key;
      var i :| 0 <= i < |ns| && ns[i] == n;
      assert c <= i;
    } else if c < |ns| {
      assert ns[c] in ns;
    }
  }
}
