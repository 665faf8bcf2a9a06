/**
 The circular doubly linked list of KernelLinkedList/src/list.h. A list is a ring of nodes, one of which is its head; a
 ring is given by the sequence of its nodes, starting at any of them. Every operation is proved to turn rings into
 rings, and its frame names the few nodes it touches, so that all other rings stay as they are.
 */
module KernelList {
  /** A struct list_head. The poison values of a deleted entry are null here. */
  class Node {
    var next: Node?
    var prev: Node?

    constructor ()
      ensures next == this && prev == this
    {
      next, prev := this, this;
    }
  }

  function After(i: nat, n: nat): nat
    requires i < n
  {
    if i + 1 < n then i + 1 else 0
  }

  function Before(i: nat, n: nat): nat
    requires i < n
  {
    if i > 0 then i - 1 else n - 1
  }

  ghost predicate Distinct(s: seq<Node>) {
    forall i, j :: 0 <= i < j < |s| ==> s[i] != s[j]
  }

  /** `next` and `prev` lead round the nodes of `s`, in opposite directions. */
  ghost predicate Ring(s: seq<Node>)
    reads s
  {
    && s != [] && Distinct(s)
    && forall i, j :: 0 <= i < |s| && 0 <= j < |s| && (j == i + 1 || (j == 0 && i == |s| - 1)) ==> s[i].next == s[j] && s[j].prev == s[i]
  }

  ghost predicate Disjoint(a: seq<Node>, b: seq<Node>) {
    forall i, j :: 0 <= i < |a| && 0 <= j < |b| ==> a[i] != b[j]
  }

  lemma {:induction false} Links(s: seq<Node>, k: nat)
    requires Ring(s) && k < |s|
    ensures s[k].next == s[After(k, |s|)] && s[k].prev == s[Before(k, |s|)]
  {
    assert s[k].next == s[After(k, |s|)];
    assert s[Before(k, |s|)].next == s[k];
  }

  // ---------- rings as sequences ----------

  function Inserted(s: seq<Node>, k: nat, x: Node): seq<Node>
    requires k < |s|
  {
    s[..k + 1] + [x] + s[k + 1..]
  }

  function Removed(s: seq<Node>, k: nat): seq<Node>
    requires k < |s|
  {
    s[..k] + s[k + 1..]
  }

  function Turned(s: seq<Node>, k: nat): (t: seq<Node>)
    requires k <= |s|
    ensures |t| == |s|
  {
    s[k..] + s[..k]
  }

  /** A ring may be read from any of its nodes. */
  lemma {:induction false} TurnedRing(s: seq<Node>, k: nat)
    requires Ring(s) && k <= |s|
    ensures Ring(Turned(s, k))
  {
    var t := Turned(s, k);
    forall i, j | 0 <= i < |t| && 0 <= j < |t| && (j == i + 1 || (j == 0 && i == |t| - 1)) ensures t[i].next == t[j] && t[j].prev == t[i] {
      var p := if i < |s| - k then i + k else i + k - |s|;
      var q := if j < |s| - k then j + k else j + k - |s|;
      assert s[p].next == s[q] && s[q].prev == s[p];
    }
  }

  /** Read from the node behind `s[k]`, which then comes last; what is behind and in front of it. */
  lemma {:induction false} TurnedLast(s: seq<Node>, k: nat, r: seq<Node>)
    requires Ring(s) && k < |s| && r == Turned(s, k + 1)
    ensures Ring(r) && |r| == |s| && r[|r| - 1] == s[k] && r[0] == s[After(k, |s|)] == s[k].next
    ensures s[Before(k, |s|)] == s[k].prev && (|s| > 1 ==> r[|r| - 2] == s[k].prev)
    ensures forall x :: x in r <==> x in s
  {
    TurnedRing(s, k + 1);
    assert s[k].prev == s[Before(k, |s|)] && s[k].next == s[After(k, |s|)];
  }

  lemma TurnedInserted(s: seq<Node>, k: nat, x: Node)
    requires k < |s|
    ensures Turned(Turned(s, k + 1) + [x], |s| - k - 1) == Inserted(s, k, x)
  { }

  lemma TurnedRemoved(s: seq<Node>, k: nat)
    requires k < |s|
    ensures Turned(Turned(s, k + 1)[..|s| - 1], |s| - 1 - k) == Removed(s, k)
  { }

  lemma TurnedUpdated(s: seq<Node>, k: nat, x: Node)
    requires k < |s|
    ensures Turned(Turned(s, k + 1)[..|s| - 1] + [x], |s| - 1 - k) == s[k := x]
  { }

  lemma LastOne(t: seq<Node>, x: Node)
    ensures (t + [x])[|t|] == x && forall i :: 0 <= i < |t| ==> (t + [x])[i] == t[i]
  { }

  // ---------- adding and deleting ----------

  method InitListHead(list: Node)
    modifies list
    ensures Ring([list])
  {
    list.next := list;
    list.prev := list;
  }

  /** Inserts `x` between the last and the first node of a ring. */
  method ListAddBetween(x: Node, prev: Node, next: Node, ghost r: seq<Node>)
    requires Ring(r) && r[|r| - 1] == prev && r[0] == next && x !in r
    modifies x, prev, next
    ensures Ring(r + [x])
  {
    next.prev := x;
    x.next := next;
    x.prev := prev;
    prev.next := x;
  }

  /** Adds `x` behind `head`, which may be any node of the ring. */
  method ListAdd(x: Node, head: Node, ghost s: seq<Node>, ghost k: nat)
    requires Ring(s) && k < |s| && s[k] == head && x !in s
    modifies x, head, s[After(k, |s|)]
    ensures Ring(Inserted(s, k, x))
  {
    ghost var r := Turned(s, k + 1);
    TurnedLast(s, k, r);
    ListAddBetween(x, head, head.next, r);
    TurnedRing(r + [x], |s| - k - 1);
    TurnedInserted(s, k, x);
  }

  /** Adds `x` in front of `head`. */
  method ListAddTail(x: Node, head: Node, ghost s: seq<Node>)
    requires Ring(s) && s[0] == head && x !in s
    modifies x, head, s[|s| - 1]
    ensures Ring(s + [x])
  {
    TurnedLast(s, 0, Turned(s, 1));
    ListAddBetween(x, head.prev, head, s);
  }

  /** Makes the neighbours of `entry`, the last node of a ring, point to each other. */
  method ListDelBetween(prev: Node, next: Node, ghost t: seq<Node>, ghost entry: Node)
    requires Ring(t + [entry])
    requires if t == [] then prev == next == entry else t[|t| - 1] == prev && t[0] == next
    modifies prev, next
    ensures Ring(if t == [] then [entry] else t)
  {
    ghost var r := t + [entry];
    LastOne(t, entry);
    next.prev := prev;
    prev.next := next;
  }

  /** Takes an entry out of its ring; its own links stay as they were. One that is alone stays a ring of its own. */
  method ListDelEntry(entry: Node, ghost s: seq<Node>, ghost k: nat)
    requires Ring(s) && k < |s| && s[k] == entry
    modifies s[Before(k, |s|)], s[After(k, |s|)]
    ensures if |s| == 1 then Ring(s) else Ring(Removed(s, k))
  {
    ghost var r := Turned(s, k + 1);
    TurnedLast(s, k, r);
    ghost var t := r[..|r| - 1];
    assert t + [entry] == r;
    ListDelBetween(entry.prev, entry.next, t, entry);
    if t != [] {
      TurnedRing(t, |s| - 1 - k);
      TurnedRemoved(s, k);
    } else {
      assert s == [entry];
    }
  }

  lemma OnlyHere(s: seq<Node>, k: nat)
    requires Distinct(s) && k < |s|
    ensures forall i :: 0 <= i < |s| && i != k ==> s[i] != s[k]
    ensures forall i :: 0 <= i < |Removed(s, k)| ==> Removed(s, k)[i] != s[k]
  { }

  method ListDel(entry: Node, ghost s: seq<Node>, ghost k: nat)
    requires Ring(s) && k < |s| && s[k] == entry
    modifies entry, s[Before(k, |s|)], s[After(k, |s|)]
    ensures (|s| > 1 ==> Ring(Removed(s, k))) && entry.next == null && entry.prev == null
  {
    OnlyHere(s, k);
    ListDelEntry(entry, s, k);
    entry.next := null;
    entry.prev := null;
  }

  method ListDelInit(entry: Node, ghost s: seq<Node>, ghost k: nat)
    requires Ring(s) && k < |s| && s[k] == entry
    modifies entry, s[Before(k, |s|)], s[After(k, |s|)]
    ensures Ring([entry]) && (|s| > 1 ==> Ring(Removed(s, k)))
  {
    OnlyHere(s, k);
    ListDelEntry(entry, s, k);
    InitListHead(entry);
  }

  // ---------- replacing and swapping ----------

  /** Puts `x` in the place of `old`, the last node of a ring. */
  method ListReplaceLast(o: Node, x: Node, ghost t: seq<Node>)
    requires Ring(t + [o]) && x !in t && x != o
    modifies x, (t + [o])[0], (t + [o])[Before(|t|, |t| + 1)]
    ensures Ring(t + [x])
  {
    ghost var r := t + [o];
    LastOne(t, o);
    Links(r, |t|);
    x.next := o.next;
    x.next.prev := x;
    x.prev := o.prev;
    x.prev.next := x;
  }

  /** `x` takes the place of `o`, which keeps its own links when it was not alone. */
  method ListReplace(o: Node, x: Node, ghost s: seq<Node>, ghost k: nat)
    requires Ring(s) && k < |s| && s[k] == o && x !in s
    modifies x, s[Before(k, |s|)], s[After(k, |s|)]
    ensures Ring(s[k := x])
  {
    ghost var r := Turned(s, k + 1);
    TurnedLast(s, k, r);
    ghost var t := r[..|r| - 1];
    assert t + [o] == r;
    ListReplaceLast(o, x, t);
    TurnedRing(t + [x], |s| - 1 - k);
    TurnedUpdated(s, k, x);
  }

  method ListReplaceInit(o: Node, x: Node, ghost s: seq<Node>, ghost k: nat)
    requires Ring(s) && k < |s| && s[k] == o && x !in s
    modifies x, o, s[Before(k, |s|)], s[After(k, |s|)]
    ensures Ring(s[k := x]) && Ring([o])
  {
    OnlyHere(s, k);
    ListReplace(o, x, s, k);
    InitListHead(o);
  }

  /** The ring in which `entry1` stands once `entry2` is out of its ring, and its place there. */
  ghost function SwapRing(a: seq<Node>, b: seq<Node>, j: nat, same: bool): seq<Node>
    requires j < |b|
  {
    if same then Removed(b, j) else a
  }

  ghost function SwapPlace(i: nat, j: nat, same: bool): nat
    requires i != j || !same
  {
    if same && i > j then i - 1 else i
  }

  /** The ring that `entry1` goes back into; that is the one it came from when `entry2` was alone in its ring. */
  ghost function SwapInto(a: seq<Node>, i: nat, b: seq<Node>, j: nat, same: bool): seq<Node>
    requires MaySwap(a, i, b, j, same)
  {
    if same then Removed(b, j)[SwapPlace(i, j, same) := b[j]] else if |b| > 1 then Removed(b, j) else a[i := b[j]]
  }

  /**
   The ring of `entry2` with `entry1` in its place, and, when both were in it, the other way round as well. When
   `entry2` was alone, it has no place to give: both are then in the ring of `entry1`, one behind the other.
   */
  ghost function SwapTarget(a: seq<Node>, i: nat, b: seq<Node>, j: nat, same: bool): seq<Node>
    requires MaySwap(a, i, b, j, same)
  {
    if same then a[i := b[j]][j := a[i]] else if |b| > 1 then b[j := a[i]] else Inserted(a[i := b[j]], i, a[i])
  }

  /** Where `entry1` stands in that ring. */
  ghost function SwapAt(i: nat, b: seq<Node>, j: nat): nat {
    if |b| > 1 then j else i + 1
  }

  ghost predicate MaySwap(a: seq<Node>, i: nat, b: seq<Node>, j: nat, same: bool) {
    i < |a| && j < |b| && a[i] != b[j] && if same then a == b else Disjoint(a, b)
  }

  lemma {:induction false} SwapFirstHalf(a: seq<Node>, i: nat, b: seq<Node>, j: nat, same: bool)
    requires Distinct(a) && Distinct(b) && MaySwap(a, i, b, j, same)
    ensures var c := SwapRing(a, b, j, same);
      SwapPlace(i, j, same) < |c| && c[SwapPlace(i, j, same)] == a[i] && b[j] !in c
    ensures !same ==> Disjoint(a, Removed(b, j)) && b[j] !in Removed(b, j) && Disjoint(a, [b[j]])
    ensures forall k :: 0 <= k < |SwapRing(a, b, j, same)| ==> SwapRing(a, b, j, same)[k] in a
  { }

  lemma {:induction false} SwapSecondHalf(a: seq<Node>, i: nat, b: seq<Node>, j: nat, same: bool, pos: Node)
    requires Distinct(a) && Distinct(b) && MaySwap(a, i, b, j, same)
    requires pos == if b[Before(j, |b|)] == a[i] then b[j] else b[Before(j, |b|)]
    ensures var d := SwapInto(a, i, b, j, same);
      var at := SwapAt(i, b, j);
      a[i] !in d && d != [] && at <= |d| && d[if at > 0 then at - 1 else |d| - 1] == pos
  {
    if same {
      SwapSame(a, i, j, pos);
    } else if |b| > 1 {
      var e := Removed(b, j);
      assert forall k :: 0 <= k < |e| ==> e[k] == if k < j then b[k] else b[k + 1];
    }
  }

  lemma {:induction false} SwapSame(a: seq<Node>, i: nat, j: nat, pos: Node)
    requires Distinct(a) && MaySwap(a, i, a, j, true)
    requires pos == if a[Before(j, |a|)] == a[i] then a[j] else a[Before(j, |a|)]
    ensures var d := SwapInto(a, i, a, j, true);
      a[i] !in d && d != [] && j <= |d| && d[if j > 0 then j - 1 else |d| - 1] == pos
  {
    var e := Removed(a, j);
    assert forall k :: 0 <= k < |e| ==> e[k] == if k < j then a[k] else a[k + 1];
  }

  lemma {:induction false} SwapDone(a: seq<Node>, i: nat, b: seq<Node>, j: nat, same: bool, target: seq<Node>)
    requires MaySwap(a, i, b, j, same) && target == SwapTarget(a, i, b, j, same)
    ensures var at := SwapAt(i, b, j);
      at < |target| && target[at] == a[i] && SwapInto(a, i, b, j, same) == Removed(target, at) && |target| > 1
  {
    if same {
      RemovedUpdated(a, i, j, a[i], b[j]);
    } else if |b| > 1 {
      assert Removed(target, j) == Removed(b, j);
    } else {
      assert Removed(target, i + 1) == a[i := b[j]];
    }
  }

  /** The nodes of the new ring are old ones, and none of the other ring's. */
  lemma {:induction false} SwapFrame(a: seq<Node>, i: nat, b: seq<Node>, j: nat, same: bool, target: seq<Node>)
    requires Distinct(a) && Distinct(b) && MaySwap(a, i, b, j, same) && target == SwapTarget(a, i, b, j, same)
    ensures forall k :: 0 <= k < |target| ==> target[k] in a || target[k] in b
    ensures !same && |b| > 1 ==> Disjoint(a[i := b[j]], target)
  { }

  /** All that the last step of a swap needs. */
  lemma {:induction false} SwapReady(a: seq<Node>, i: nat, b: seq<Node>, j: nat, same: bool, pos: Node)
    returns (target: seq<Node>, at: nat, d: seq<Node>)
    requires Distinct(a) && Distinct(b) && MaySwap(a, i, b, j, same)
    requires pos == if b[Before(j, |b|)] == a[i] then b[j] else b[Before(j, |b|)]
    ensures target == SwapTarget(a, i, b, j, same) && d == SwapInto(a, i, b, j, same)
    ensures at < |target| && |target| > 1 && target[at] == a[i] && d == Removed(target, at) && a[i] !in d
    ensures pos == d[if at > 0 then at - 1 else |target| - 2]
    ensures forall k :: 0 <= k < |target| ==> target[k] in a || target[k] in b
    ensures !same && |b| > 1 ==> Disjoint(a[i := b[j]], target)
  {
    target, at, d := SwapTarget(a, i, b, j, same), SwapAt(i, b, j), SwapInto(a, i, b, j, same);
    SwapSecondHalf(a, i, b, j, same, pos);
    SwapDone(a, i, b, j, same, target);
    SwapFrame(a, i, b, j, same, target);
  }

  lemma RemovedUpdated(a: seq<Node>, i: nat, j: nat, x: Node, y: Node)
    requires i < |a| && j < |a| && i != j
    ensures Removed(a[i := y][j := x], j) == Removed(a, j)[if i > j then i - 1 else i := y]
  { }

  lemma InsertedBack(t: seq<Node>, j: nat)
    requires j < |t| && |t| > 1
    ensures j > 0 ==> Inserted(Removed(t, j), j - 1, t[j]) == t
    ensures j == 0 ==> Turned(Inserted(Removed(t, j), |t| - 2, t[j]), |t| - 1) == t
  { }

  lemma RemovedPlaces(t: seq<Node>, j: nat, d: seq<Node>)
    requires j < |t| && d == Removed(t, j)
    ensures |d| == |t| - 1 && forall k :: 0 <= k < |d| ==> d[k] == t[if k < j then k else k + 1]
  { }

  /** The last step of a swap: `x` goes in behind the place in front of `j`. */
  method ListAddAt(x: Node, pos: Node, ghost t: seq<Node>, ghost j: nat, ghost d: seq<Node>)
    requires j < |t| && |t| > 1 && t[j] == x && d == Removed(t, j) && Ring(d) && x !in d
    requires pos == d[if j > 0 then j - 1 else |t| - 2]
    modifies t
    ensures Ring(t)
  {
    ghost var at := if j > 0 then j - 1 else |t| - 2;
    RemovedPlaces(t, j, d);
    InsertedBack(t, j);
    ListAdd(x, pos, d, at);
    if j == 0 { TurnedRing(Inserted(d, at, x), |t| - 1); }
  }

  /** The first steps of a swap: `entry2` stands in the place of `entry1`, which is in no ring. */
  method DelAndReplace(entry1: Node, entry2: Node, ghost a: seq<Node>, ghost i: nat, ghost b: seq<Node>, ghost j: nat,
                       ghost same: bool)
    requires Ring(a) && Ring(b) && MaySwap(a, i, b, j, same) && a[i] == entry1 && b[j] == entry2
    modifies a, b
    ensures Ring(SwapInto(a, i, b, j, same)) && (!same ==> Ring(a[i := entry2]))
  {
    SwapFirstHalf(a, i, b, j, same);
    ListDel(entry2, b, j);
    assert !same ==> Ring(a);
    ReplaceBeside(entry1, entry2, SwapRing(a, b, j, same), SwapPlace(i, j, same), if !same && |b| > 1 then Removed(b, j) else []);
  }

  /** A replacement in one ring leaves another one as it is. */
  method ReplaceBeside(o: Node, x: Node, ghost s: seq<Node>, ghost k: nat, ghost other: seq<Node>)
    requires Ring(s) && k < |s| && s[k] == o && x !in s
    requires other != [] ==> Ring(other) && Disjoint(s, other) && x !in other
    modifies x, s[Before(k, |s|)], s[After(k, |s|)]
    ensures Ring(s[k := x]) && (other != [] ==> Ring(other))
  {
    ListReplace(o, x, s, k);
  }

  /**
   Swaps two entries of the same ring, even when they are neighbours in either order, or of two rings. An `entry2` that
   is alone in its ring is not swapped but put in front of `entry1`.
   */
  method ListSwap(entry1: Node, entry2: Node, ghost a: seq<Node>, ghost i: nat, ghost b: seq<Node>, ghost j: nat,
                  ghost same: bool)
    requires Ring(a) && Ring(b) && MaySwap(a, i, b, j, same) && a[i] == entry1 && b[j] == entry2
    modifies a, b
    ensures Ring(SwapTarget(a, i, b, j, same)) && (!same && |b| > 1 ==> Ring(a[i := entry2]))
  {
    assert entry2.prev == b[Before(j, |b|)] by { TurnedLast(b, j, Turned(b, j + 1)); }
    var pos := entry2.prev;
    DelAndReplace(entry1, entry2, a, i, b, j, same);
    if pos == entry1 {
      pos := entry2;
    }
    PutBack(entry1, pos, a, i, b, j, same);
  }

  /** The last step of a swap. */
  method PutBack(x: Node, pos: Node, ghost a: seq<Node>, ghost i: nat, ghost b: seq<Node>, ghost j: nat, ghost same: bool)
    requires MaySwap(a, i, b, j, same) && Distinct(a) && Distinct(b) && x == a[i]
    requires pos == if b[Before(j, |b|)] == x then b[j] else b[Before(j, |b|)]
    requires Ring(SwapInto(a, i, b, j, same)) && (!same ==> Ring(a[i := b[j]]))
    modifies a, b
    ensures Ring(SwapTarget(a, i, b, j, same)) && (!same && |b| > 1 ==> Ring(a[i := b[j]]))
  {
    ghost var target, at, d := SwapReady(a, i, b, j, same, pos);
    ListAddAt(x, pos, target, at, d);
  }

  // ---------- moving ----------

  /** `b` is a ring once `s[k]` is out of `s`: another ring, or what is left of `s`, read from its place `j`. */
  ghost predicate Destination(s: seq<Node>, k: nat, b: seq<Node>, j: nat, same: bool)
    requires k < |s|
  {
    b != [] && if same then j < |s| - 1 && b == Turned(Removed(s, k), j) else Disjoint(s, b)
  }

  /** Takes an entry out of its ring and makes sure of the ring it goes to. */
  method TakeOut(entry: Node, ghost s: seq<Node>, ghost k: nat, ghost b: seq<Node>, ghost j: nat, ghost same: bool)
    requires Ring(s) && k < |s| && s[k] == entry && Destination(s, k, b, j, same) && (!same ==> Ring(b))
    modifies s[Before(k, |s|)], s[After(k, |s|)]
    ensures Ring(b) && entry !in b && (|s| > 1 ==> Ring(Removed(s, k)))
  {
    ListDelEntry(entry, s, k);
    if same {
      TurnedRing(Removed(s, k), j);
      assert forall n :: 0 <= n < |Removed(s, k)| ==> Removed(s, k)[n] == if n < k then s[n] else s[n + 1];
    }
  }

  method ListMove(entry: Node, head: Node, ghost s: seq<Node>, ghost k: nat, ghost b: seq<Node>, ghost j: nat,
                  ghost same: bool)
    requires Ring(s) && k < |s| && s[k] == entry && Destination(s, k, b, j, same) && (!same ==> Ring(b)) && b[0] == head
    modifies s, b
    ensures Ring([head, entry] + b[1..]) && (!same && |s| > 1 ==> Ring(Removed(s, k)))
  {
    TakeOut(entry, s, k, b, j, same);
    ListAdd(entry, head, b, 0);
    assert Inserted(b, 0, entry) == [head, entry] + b[1..];
  }

  method ListMoveTail(entry: Node, head: Node, ghost s: seq<Node>, ghost k: nat, ghost b: seq<Node>, ghost j: nat,
                      ghost same: bool)
    requires Ring(s) && k < |s| && s[k] == entry && Destination(s, k, b, j, same) && (!same ==> Ring(b)) && b[0] == head
    modifies s, b
    ensures Ring(b + [entry]) && (!same && |s| > 1 ==> Ring(Removed(s, k)))
  {
    TakeOut(entry, s, k, b, j, same);
    ListAddTail(entry, head, b);
  }

  /** The ring with the block from `i` to in front of `j` at its end. */
  function BlockLast(s: seq<Node>, i: nat, j: nat): (t: seq<Node>)
    requires i <= j <= |s|
    ensures |t| == |s|
  {
    s[..i] + s[j..] + s[i..j]
  }

  /** A ring without a block in its middle or at its end. */
  function BlockLeft(s: seq<Node>, i: nat, j: nat): (r: seq<Node>)
    requires 0 < i <= j <= |s|
    ensures |r| == |s| - (j - i) && forall n :: 0 <= n < |r| ==> r[n] == s[if n < i then n else n + (j - i)]
  {
    s[..i] + s[j..]
  }

  /** Takes a block out of its ring; the links inside the block stay. */
  method BlockOut(first: Node, last: Node, ghost s: seq<Node>, ghost i: nat, ghost j: nat)
    requires Ring(s) && 0 < i < j <= |s| && s[i] == first && s[j - 1] == last
    modifies s[i - 1], s[if j < |s| then j else 0]
    ensures Ring(BlockLeft(s, i, j)) && Chain(s[i..j])
  {
    Links(s, i);
    Links(s, j - 1);
    ghost var r, b := BlockLeft(s, i, j), Stretch(s, i, j);
    first.prev.next := last.next;
    last.next.prev := first.prev;
  }

  /** Puts it between the last and the first node of a ring. */
  method BlockIn(head: Node, first: Node, last: Node, ghost r: seq<Node>, ghost b: seq<Node>)
    requires Ring(r) && r[0] == head && b != [] && b[0] == first && b[|b| - 1] == last
    requires Distinct(b) && Chain(b) && Disjoint(b, r)
    modifies r, b
    ensures Ring(r + b)
  {
    Links(r, 0);
    head.prev.next := first;
    first.prev := head.prev;
    last.next := head;
    head.prev := last;
    Joined(r, b);
  }

  lemma BlockApart(s: seq<Node>, i: nat, j: nat)
    requires Distinct(s) && 0 < i < j <= |s|
    ensures Distinct(s[i..j]) && Disjoint(s[i..j], BlockLeft(s, i, j)) && BlockLeft(s, i, j)[0] == s[0]
    ensures forall n :: 0 <= n < |BlockLeft(s, i, j)| ==> BlockLeft(s, i, j)[n] in s
    ensures forall n :: 0 <= n < |s[i..j]| ==> s[i..j][n] in s
  { }

  /** Moves a block of entries to the tail; it may already be there. */
  method ListBulkMoveTail(head: Node, first: Node, last: Node, ghost s: seq<Node>, ghost i: nat, ghost j: nat)
    requires Ring(s) && 0 < i < j <= |s| && s[0] == head && s[i] == first && s[j - 1] == last
    modifies s
    ensures Ring(BlockLast(s, i, j))
  {
    BlockApart(s, i, j);
    BlockOut(first, last, s, i, j);
    BlockIn(head, first, last, BlockLeft(s, i, j), s[i..j]);
  }

  // ---------- cutting and splicing ----------

  /** The links inside a stretch of nodes. */
  ghost predicate Chain(s: seq<Node>)
    reads s
  {
    forall i, j :: 0 <= i < |s| && j == i + 1 < |s| ==> s[i].next == s[j] && s[j].prev == s[i]
  }

  /** A part of a ring, from place `i` to in front of place `j`. */
  ghost function Stretch(s: seq<Node>, i: nat, j: nat): (c: seq<Node>)
    requires Ring(s) && i <= j <= |s|
    reads s
    ensures c == s[i..j] && Distinct(c) && Chain(c) && forall n :: 0 <= n < |c| ==> c[n] == s[i + n]
  {
    s[i..j]
  }

  /** A node and a stretch of others that it leads round to are a ring. */
  lemma {:induction false} Closed(head: Node, c: seq<Node>)
    requires Distinct(c) && Chain(c) && forall n :: 0 <= n < |c| ==> c[n] != head
    requires head.next == (if c == [] then head else c[0]) && head.prev == (if c == [] then head else c[|c| - 1])
    requires c != [] ==> c[0].prev == head && c[|c| - 1].next == head
    ensures Ring([head] + c)
  {
    ghost var r := [head] + c;
    assert forall n :: 0 < n < |r| ==> r[n] == c[n - 1];
  }

  /** The stretch `front` becomes the entries of `list`. */
  method CloseFront(list: Node, first: Node, last: Node, ghost front: seq<Node>)
    requires Distinct(front) && Chain(front) && front != [] && first == front[0] && last == front[|front| - 1] && list !in front
    modifies list, first`prev, last`next
    ensures Ring([list] + front)
  {
    list.next := first;
    first.prev := list;
    list.prev := last;
    last.next := list;
    Closed(list, front);
  }

  /** What follows behind `next` stays with `head`, which is still the last one's next. */
  method CloseBack(head: Node, next: Node, ghost back: seq<Node>, ghost list: Node, ghost front: seq<Node>)
    requires Distinct(back) && Chain(back) && head !in back && next == (if back == [] then head else back[0])
    requires back != [] ==> head.prev == back[|back| - 1] && back[|back| - 1].next == head
    requires Ring([list] + front) && head !in [list] + front && next !in [list] + front
    modifies head, next`prev
    ensures Ring([head] + back) && Ring([list] + front)
  {
    head.next := next;
    next.prev := head;
    Closed(head, back);
  }

  lemma CutApart(list: Node, s: seq<Node>, i: nat)
    requires Distinct(s) && 1 <= i <= |s| && list !in s
    ensures list !in s[1..i] && s[0] !in s[i..] && s[0] !in [list] + s[1..i]
    ensures i < |s| ==> s[i] !in [list] + s[1..i]
    ensures forall n :: 0 <= n < |s[i..]| ==> s[i..][n] !in [list] + s[1..i]
  { }

  method ListCutPositionInner(list: Node, head: Node, entry: Node, ghost s: seq<Node>, ghost k: nat)
    requires Ring(s) && 0 < k < |s| && s[0] == head && s[k] == entry && list !in s
    modifies list, s
    ensures Ring([list] + s[1..k + 1]) && Ring([head] + s[k + 1..])
  {
    Links(s, 0);
    Links(s, k);
    CutApart(list, s, k + 1);
    ghost var front, back := Stretch(s, 1, k + 1), Stretch(s, k + 1, |s|);
    BackEnds(s, k + 1, back);
    var newFirst := entry.next;
    CloseFront(list, head.next, entry, front);
    CloseBack(head, newFirst, back, list, front);
  }

  lemma BackEnds(s: seq<Node>, i: nat, back: seq<Node>)
    requires Ring(s) && 1 <= i <= |s| && back == s[i..]
    ensures back != [] ==> back[0] == s[i] && back[|back| - 1] == s[|s| - 1] == s[0].prev && s[|s| - 1].next == s[0]
  {
    Links(s, 0);
  }

  /**
   Cuts behind `entry`; when that is the head itself, nothing is cut. An empty list, and a list of one entry that is
   asked to be cut behind something else, stay as they are.
   */
  method ListCutPosition(list: Node, head: Node, entry: Node, ghost s: seq<Node>, ghost k: nat)
    requires Ring(s) && s[0] == head && list !in s && (|s| > 2 || (|s| == 2 && entry in s) ==> k < |s| && s[k] == entry)
    modifies list, s
    ensures |s| == 1 || entry !in s ==> Ring(s) && Untouched(list) && forall n :: 0 <= n < |s| ==> Untouched(s[n])
    ensures |s| > 1 && entry in s ==> Ring([head] + s[k + 1..]) && Ring([list] + s[1..k + 1])
  {
    Links(s, 0);
    Single(s);
    if head.next == head {
      return;
    }
    if head.next == head.prev && head.next != entry && head != entry {
      return;
    }
    if entry == head {
      InitListHead(list);
      assert [head] + s[1..] == s && [list] + s[1..1] == [list];
    } else {
      ListCutPositionInner(list, head, entry, s, k);
    }
  }

  twostate predicate Untouched(n: Node)
    reads n
  {
    n.next == old(n.next) && n.prev == old(n.prev)
  }

  /** A list has no entry, or one, when its head's links say so. */
  lemma {:induction false} Single(s: seq<Node>)
    requires Ring(s)
    ensures s[0].next == s[0] <==> |s| == 1
    ensures s[0].next == s[0].prev <==> |s| <= 2
    ensures |s| == 2 ==> s[0].next == s[1] && forall x :: x in s <==> x == s[0] || x == s[1]
  {
    Links(s, 0);
  }

  /** Cuts in front of `entry`; when that is the head itself, everything goes to `list`. */
  method ListCutBefore(list: Node, head: Node, entry: Node, ghost s: seq<Node>, ghost k: nat)
    requires Ring(s) && 0 < k <= |s| && s[0] == head && entry == s[if k < |s| then k else 0] && list !in s
    modifies list, s
    ensures Ring([list] + s[1..k]) && Ring([head] + s[k..])
  {
    Links(s, 0);
    if head.next == entry {
      InitListHead(list);
      assert [list] + s[1..k] == [list] && [head] + s[k..] == s;
      return;
    }
    ListCutBeforeInner(list, head, entry, s, k);
  }

  method ListCutBeforeInner(list: Node, head: Node, entry: Node, ghost s: seq<Node>, ghost k: nat)
    requires Ring(s) && 1 < k <= |s| && s[0] == head && entry == s[if k < |s| then k else 0] && list !in s
    modifies list, s
    ensures Ring([list] + s[1..k]) && Ring([head] + s[k..])
  {
    Links(s, 0);
    assert entry.prev == s[k - 1];
    CutApart(list, s, k);
    ghost var front, back := Stretch(s, 1, k), Stretch(s, k, |s|);
    BackEnds(s, k, back);
    CloseFront(list, head.next, entry.prev, front);
    CloseBack(head, entry, back, list, front);
  }

  lemma {:induction false} Joined(r: seq<Node>, a: seq<Node>)
    requires r != [] && a != [] && Distinct(r) && Distinct(a) && Disjoint(a, r) && Chain(r) && Chain(a)
    requires r[|r| - 1].next == a[0] && a[0].prev == r[|r| - 1] && a[|a| - 1].next == r[0] && r[0].prev == a[|a| - 1]
    ensures Ring(r + a)
  { }

  /** A list is empty exactly when its head follows itself; else its entries are a stretch that the head leads to. */
  lemma {:induction false} Entries(list: Node, a: seq<Node>, l: seq<Node>)
    requires l == [list] + a && Ring(l)
    ensures list.next == list <==> a == []
    ensures a != [] ==> Distinct(a) && Chain(a) && list.next == a[0] && list.prev == a[|a| - 1]
  {
    Links(l, 0);
    assert forall n :: 0 <= n < |a| ==> a[n] == l[n + 1];
  }

  lemma DisjointTail(list: Node, a: seq<Node>, l: seq<Node>, s: seq<Node>, r: seq<Node>)
    requires l == [list] + a && Disjoint(l, s) && forall x :: x in r ==> x in s
    ensures Disjoint(a, r)
  {
    assert forall n :: 0 <= n < |a| ==> a[n] == l[n + 1];
    assert forall n :: 0 <= n < |r| ==> r[n] in s;
  }

  lemma SplicedShape(head: Node, a: seq<Node>, s: seq<Node>, r: seq<Node>)
    requires s != [] && s[0] == head && r == Turned(s, 1)
    ensures Turned(r + a, |s| - 1) == [head] + a + s[1..]
    ensures a == [] ==> [head] + a + s[1..] == s
  { }

  /** Puts the entries of the list `[list] + a` between the last and the first node of the ring `r`. */
  method ListSpliceBetween(list: Node, prev: Node, next: Node, ghost a: seq<Node>, ghost r: seq<Node>)
    requires a != [] && list.next == a[0] && list.prev == a[|a| - 1]
    requires Distinct(a) && Chain(a) && Ring(r) && r[|r| - 1] == prev && r[0] == next && Disjoint(a, r)
    modifies a, prev, next
    ensures Ring(r + a)
  {
    var first := list.next;
    var last := list.prev;
    first.prev := prev;
    prev.next := first;
    last.next := next;
    next.prev := last;
    Joined(r, a);
  }

  /** Joins at the front. The list head `list` keeps its stale links. */
  method ListSplice(list: Node, head: Node, ghost a: seq<Node>, ghost s: seq<Node>)
    requires Ring([list] + a) && Ring(s) && s[0] == head && Disjoint([list] + a, s)
    modifies a, s
    ensures Ring([head] + a + s[1..])
  {
    ghost var l, r := [list] + a, Turned(s, 1);
    Entries(list, a, l);
    SplicedShape(head, a, s, r);
    if list.next != list {
      TurnedLast(s, 0, r);
      DisjointTail(list, a, l, s, r);
      ListSpliceBetween(list, head, head.next, a, r);
      TurnedRing(r + a, |s| - 1);
    }
  }

  /** Joins at the tail. */
  method ListSpliceTail(list: Node, head: Node, ghost a: seq<Node>, ghost s: seq<Node>)
    requires Ring([list] + a) && Ring(s) && s[0] == head && Disjoint([list] + a, s)
    modifies a, s
    ensures Ring(s + a)
  {
    ghost var l := [list] + a;
    Entries(list, a, l);
    if list.next != list {
      Links(s, 0);
      DisjointTail(list, a, l, s, s);
      ListSpliceBetween(list, head.prev, head, a, s);
    } else {
      assert s + a == s;
    }
  }

  method ListSpliceInit(list: Node, head: Node, ghost a: seq<Node>, ghost s: seq<Node>)
    requires Ring([list] + a) && Ring(s) && s[0] == head && Disjoint([list] + a, s)
    modifies list, a, s
    ensures Ring([head] + a + s[1..]) && Ring([list])
  {
    Entries(list, a, [list] + a);
    NotListed(list, a, s, [list] + a);
    if list.next != list {
      ListSplice(list, head, a, s);
      InitListHead(list);
    } else {
      assert [head] + a + s[1..] == s && [list] + a == [list];
    }
  }

  method ListSpliceTailInit(list: Node, head: Node, ghost a: seq<Node>, ghost s: seq<Node>)
    requires Ring([list] + a) && Ring(s) && s[0] == head && Disjoint([list] + a, s)
    modifies list, a, s
    ensures Ring(s + a) && Ring([list])
  {
    Entries(list, a, [list] + a);
    NotListed(list, a, s, [list] + a);
    if list.next != list {
      ListSpliceTail(list, head, a, s);
      InitListHead(list);
    } else {
      assert s + a == s && [list] + a == [list];
    }
  }

  lemma {:induction false} NotListed(list: Node, a: seq<Node>, s: seq<Node>, l: seq<Node>)
    requires l == [list] + a && Distinct(l) && Disjoint(l, s)
    ensures (forall n :: 0 <= n < |a| ==> a[n] != list) && forall n :: 0 <= n < |s| ==> s[n] != list
  {
    assert l[0] == list;
    assert forall n :: 0 <= n < |a| ==> a[n] == l[n + 1];
  }

  /**
   Cutting a list in two behind `entry` and splicing the front part back gives the list again. From an empty list
   nothing is cut, and `list` must then be an empty list already.
   */
  method CutAndSplice(list: Node, head: Node, entry: Node, ghost s: seq<Node>, ghost k: nat)
    requires Ring(s) && k < |s| && s[0] == head && s[k] == entry && list !in s && (|s| == 1 ==> Ring([list]))
    modifies list, s
    ensures Ring(s)
  {
    CutSpliced(list, head, s, k);
    CutApart(list, s, k + 1);
    ListCutPosition(list, head, entry, s, k);
    assert Ring([list] + s[1..k + 1]) && Ring([head] + s[k + 1..]);
    ListSplice(list, head, s[1..k + 1], [head] + s[k + 1..]);
  }

  lemma CutSpliced(list: Node, head: Node, s: seq<Node>, k: nat)
    requires k < |s| && s[0] == head
    ensures [head] + s[1..k + 1] + ([head] + s[k + 1..])[1..] == s
    ensures |s| == 1 ==> s[1..k + 1] == [] && [head] + s[k + 1..] == s && [list] + s[1..k + 1] == [list]
  { }
}
