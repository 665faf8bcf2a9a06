/**
 The hash buckets of cmap/bucket.go and the pairs of cmap/pair.go: a bucket is the head of a chain of pairs.

 The placeholder that marks an empty bucket is modelled as `null`. Elements are only stored, loaded and copied, so
 plain integers stand for them.
 */
module CmapBucket {
  type Key = string
  type Elem = int

  const TWO_64: nat := 0x1_0000_0000_0000_0000

  // ---------- what a chain holds ----------

  datatype Entry = Entry(key: Key, elem: Elem)

  /** The index of the first entry with the key, or the length if there is none. */
  function Place(l: seq<Entry>, key: Key): (i: nat)
    ensures i <= |l|
    ensures i < |l| ==> l[i].key == key
    ensures forall j :: 0 <= j < i ==> l[j].key != key
  {
    if l == [] || l[0].key == key then 0 else 1 + Place(l[1..], key)
  }

  /** What Put makes of it, in whatever form the chain is stored. */
  function WithEntry(l: seq<Entry>, key: Key, elem: Elem): seq<Entry> {
    if Place(l, key) < |l| then l[Place(l, key) := Entry(key, elem)] else [Entry(key, elem)] + l
  }

  /** What Delete makes of it. */
  function WithoutKey(l: seq<Entry>, key: Key): seq<Entry> {
    if Place(l, key) < |l| then l[..Place(l, key)] + l[Place(l, key) + 1..] else l
  }

  lemma PlaceIs(l: seq<Entry>, key: Key, i: nat)
    requires i <= |l| && (i < |l| ==> l[i].key == key) && forall j :: 0 <= j < i ==> l[j].key != key
    ensures Place(l, key) == i
  { }

  lemma WithoutAt(l: seq<Entry>, key: Key, i: nat)
    requires i < |l| && Place(l, key) == i
    ensures WithoutKey(l, key) == l[..i] + l[i + 1..]
  { }

  class Pair {
    const key: Key
    const hash: nat
    var element: Elem
    var next: Pair?

    /** newPair, for an element that is not nil. */
    constructor (key: Key, hash: nat, element: Elem)
      ensures this.key == key && this.hash == hash && this.element == element && next == null
    {
      this.key, this.hash, this.element, next := key, hash, element, null;
    }
  }

  function At(xs: seq<Pair>, i: nat): Pair? {
    if i < |xs| then xs[i] else null
  }

  /** `xs` are the pairs met when following the next links from `first`. */
  ghost predicate Chain(first: Pair?, xs: seq<Pair>)
    reads xs
  {
    && first == At(xs, 0)
    && forall i :: 0 <= i < |xs| ==> xs[i].next == At(xs, i + 1)
  }

  ghost function Entries(xs: seq<Pair>): (l: seq<Entry>)
    reads xs
    ensures |l| == |xs| && forall i :: 0 <= i < |xs| ==> l[i] == Entry(xs[i].key, xs[i].element)
  {
    if xs == [] then [] else [Entry(xs[0].key, xs[0].element)] + Entries(xs[1..])
  }

  /** A chain that ends meets no pair twice. */
  lemma {:induction false} ChainDistinct(first: Pair?, xs: seq<Pair>, i: nat, j: nat)
    requires Chain(first, xs) && i < j < |xs|
    ensures xs[i] != xs[j]
    decreases |xs| - j
  {
    assert xs[i].next == At(xs, i + 1) && xs[j].next == At(xs, j + 1);
    if j + 1 < |xs| { ChainDistinct(first, xs, i + 1, j + 1); }
  }

  lemma ChainDrop(first: Pair?, xs: seq<Pair>, i: nat)
    requires Chain(first, xs) && i <= |xs|
    ensures Chain(At(xs, i), xs[i..])
  {
    forall j | 0 <= j < |xs[i..]| ensures xs[i..][j].next == At(xs[i..], j + 1) {
      assert xs[i + j].next == At(xs, i + j + 1);
    }
  }

  lemma ChainCons(p: Pair, first: Pair?, xs: seq<Pair>)
    requires Chain(first, xs) && p.next == first
    ensures Chain(p, [p] + xs)
  {
    forall j | 0 < j < |[p] + xs| ensures ([p] + xs)[j].next == At([p] + xs, j + 1) {
      assert xs[j - 1].next == At(xs, j);
    }
  }

  /** The index of the first pair with the given key, or the length if there is none. */
  function Find(xs: seq<Pair>, key: Key): (i: nat)
    ensures i <= |xs|
    ensures i < |xs| ==> xs[i].key == key
    ensures forall j :: 0 <= j < i ==> xs[j].key != key
  {
    if xs == [] then 0 else if xs[0].key == key then 0 else 1 + Find(xs[1..], key)
  }

  function Lookup(xs: seq<Pair>, key: Key): Pair? {
    if Find(xs, key) < |xs| then xs[Find(xs, key)] else null
  }

  ghost predicate SameEntry(p: Pair, q: Pair)
    reads p, q
  {
    p.key == q.key && p.hash == q.hash && p.element == q.element
  }

  ghost predicate SameEntries(ps: seq<Pair>, qs: seq<Pair>)
    reads ps, qs
  {
    |ps| == |qs| && forall i :: 0 <= i < |ps| ==> SameEntry(ps[i], qs[i])
  }

  lemma SameEntriesCons(p: Pair, ps: seq<Pair>, qs: seq<Pair>, n: nat)
    requires n < |qs| && SameEntry(p, qs[n]) && SameEntries(ps, qs[n + 1..])
    ensures SameEntries([p] + ps, qs[n..])
  { }

  /** `l` is what the chain holds. */
  ghost predicate Holds(xs: seq<Pair>, l: seq<Entry>)
    reads xs
  {
    |l| == |xs| && forall i :: 0 <= i < |xs| ==> l[i] == Entry(xs[i].key, xs[i].element)
  }

  lemma HoldsEntries(xs: seq<Pair>, l: seq<Entry>)
    requires Holds(xs, l)
    ensures Entries(xs) == l
  { }

  lemma HoldsPlace(xs: seq<Pair>, l: seq<Entry>, key: Key)
    requires Holds(xs, l)
    ensures Place(l, key) == Find(xs, key)
  {
    PlaceIs(l, key, Find(xs, key));
  }

  /** The pairs in front of the one with the key are copied, and that one is left out. */
  lemma HoldsWithout(xs: seq<Pair>, l: seq<Entry>, key: Key, copies: seq<Pair>, ys: seq<Pair>)
    requires Holds(xs, l) && Find(xs, key) < |xs|
    requires SameEntries(copies, xs[..Find(xs, key)]) && ys == copies + xs[Find(xs, key) + 1..]
    ensures Holds(ys, WithoutKey(l, key))
  {
    var i := Find(xs, key);
    HoldsPlace(xs, l, key);
    forall j | 0 <= j < |ys| ensures WithoutKey(l, key)[j] == Entry(ys[j].key, ys[j].element) {
      if j < i { assert SameEntry(copies[j], xs[..i][j]); }
    }
  }

  lemma ConsAppend(p: Pair, xs: seq<Pair>, ys: seq<Pair>)
    ensures [p] + (xs + ys) == ([p] + xs) + ys
  { }

  /** Copies of `pairs`, linked in front of the chain `tail`. */
  method CopyBefore(pairs: seq<Pair>, breakpoint: Pair?, ghost tail: seq<Pair>)
    returns (first: Pair?, ghost copies: seq<Pair>, ghost ys: seq<Pair>)
    requires Chain(breakpoint, tail)
    ensures Chain(first, ys) && ys == copies + tail
    ensures SameEntries(copies, pairs) && forall p :: p in copies ==> fresh(p)
  {
    first, copies, ys := breakpoint, [], tail;
    var n := |pairs|;
    while n > 0
      invariant 0 <= n <= |pairs| && Chain(first, ys) && Chain(breakpoint, tail) && ys == copies + tail
      invariant SameEntries(copies, pairs[n..])
      invariant forall p :: p in copies ==> fresh(p)
    {
      n := n - 1;
      var pairCopy := new Pair(pairs[n].key, pairs[n].hash, pairs[n].element);
      pairCopy.next := first;
      ChainCons(pairCopy, first, ys);
      SameEntriesCons(pairCopy, copies, pairs, n);
      ConsAppend(pairCopy, copies, tail);
      first, copies, ys := pairCopy, [pairCopy] + copies, [pairCopy] + ys;
    }
  }

  /** Links a pair in front of a chain. */
  method SetNext(p: Pair, first: Pair?, ghost xs: seq<Pair>)
    requires Chain(first, xs) && p !in xs
    modifies p`next
    ensures p.next == first && Chain(first, xs) && Chain(p, [p] + xs)
  {
    p.next := first;
    ChainCons(p, first, xs);
  }

  class Bucket {
    var firstValue: Pair?
    var size: nat

    constructor ()
      ensures firstValue == null && size == 0
    {
      firstValue, size := null, 0;
    }

    /**
     Put. Without any assumption on `p`: the first pair of the chain that has its key gets its element; without one,
     `p` becomes the head, and its next link is set unless the bucket was empty. The size counts modulo 2^64.
     */
    method Put(p: Pair, ghost xs: seq<Pair>) returns (ok: bool)
      requires Chain(firstValue, xs)
      modifies this, p`next, xs`element
      ensures ok == (Find(xs, p.key) == |xs|)
      ensures !ok ==> firstValue == old(firstValue) && size == old(size) && p.next == old(p.next)
      ensures !ok ==> xs[Find(xs, p.key)].element == old(p.element)
      ensures !ok ==> forall q :: q in xs && q != xs[Find(xs, p.key)] ==> q.element == old(q.element)
      ensures ok ==> firstValue == p && size == (old(size) + 1) % TWO_64
      ensures ok ==> p.next == if xs == [] then old(p.next) else xs[0]
      ensures ok ==> forall q :: q in xs ==> q.element == old(q.element)
      ensures ok && (old(p.next) == null || xs != []) ==> Chain(firstValue, [p] + xs)
    {
      var firstPair := firstValue;
      if firstPair == null {
        firstValue := p;
        size := (size + 1) % TWO_64;
        return true;
      }
      // The loop over the chain is the same as that of Get.
      var target := Get(p.key, xs);
      if target != null {
        target.element := p.element;
        return false;
      }
      assert p !in xs;
      SetNext(p, firstPair, xs);
      firstValue := p;
      size := (size + 1) % TWO_64;
      ok := true;
    }

    method Get(key: Key, ghost xs: seq<Pair>) returns (p: Pair?)
      requires Chain(firstValue, xs)
      ensures p == Lookup(xs, key)
    {
      var v := firstValue;
      ghost var i := 0;
      while v != null
        invariant i <= |xs| && v == At(xs, i)
        invariant forall j :: 0 <= j < i ==> xs[j].key != key
        decreases |xs| - i
      {
        if v.key == key {
          return v;
        }
        v := v.next;
        i := i + 1;
      }
      p := null;
    }

    /**
     Delete. The pairs in front of the one removed are copied; no pair that was in the chain changes, so a reader
     that is still walking the old chain is not disturbed.
     */
    method Delete(key: Key, ghost xs: seq<Pair>) returns (ok: bool, ghost copies: seq<Pair>, ghost ys: seq<Pair>)
      requires Chain(firstValue, xs)
      modifies this
      ensures ok == (Find(xs, key) < |xs|)
      ensures !ok ==> firstValue == old(firstValue) && size == old(size) && ys == xs
      ensures ok ==> var i := Find(xs, key);
        && Chain(firstValue, ys) && ys == copies + xs[i + 1..] && size == (old(size) + TWO_64 - 1) % TWO_64
        && SameEntries(copies, xs[..i]) && forall p :: p in copies ==> fresh(p)
    {
      copies, ys := [], xs;
      var prevPairs, target, breakpoint := Scan(key, xs);
      if target == null {
        return false, copies, ys;
      }
      ChainDrop(firstValue, xs, Find(xs, key) + 1);
      copies, ys := Cut(prevPairs, breakpoint, xs[Find(xs, key) + 1..]);
      ok := true;
    }

    /** The end of Delete, once the target has been found. */
    method Cut(prevPairs: seq<Pair>, breakpoint: Pair?, ghost tail: seq<Pair>) returns (ghost copies: seq<Pair>, ghost ys: seq<Pair>)
      requires Chain(breakpoint, tail)
      modifies this
      ensures Chain(firstValue, ys) && ys == copies + tail && size == (old(size) + TWO_64 - 1) % TWO_64
      ensures SameEntries(copies, prevPairs) && forall p :: p in copies ==> fresh(p)
    {
      firstValue, copies, ys := CopyBefore(prevPairs, breakpoint, tail);
      size := (size + TWO_64 - 1) % TWO_64;
    }

    /** The search of Delete: the pairs in front of the target, the target, and what follows it. */
    method Scan(key: Key, ghost xs: seq<Pair>) returns (prevPairs: seq<Pair>, target: Pair?, breakpoint: Pair?)
      requires Chain(firstValue, xs)
      ensures target == Lookup(xs, key)
      ensures target != null ==> prevPairs == xs[..Find(xs, key)] && breakpoint == At(xs, Find(xs, key) + 1)
    {
      prevPairs, target, breakpoint := [], null, null;
      var v := firstValue;
      while v != null
        invariant prevPairs <= xs && v == At(xs, |prevPairs|)
        invariant forall j :: 0 <= j < |prevPairs| ==> xs[j].key != key
        decreases |xs| - |prevPairs|
      {
        if v.key == key {
          return prevPairs, v, v.next;
        }
        prevPairs := prevPairs + [v];
        v := v.next;
      }
    }

    method Clear()
      modifies this
      ensures firstValue == null && size == 0
    {
      size := 0;
      firstValue := null;
    }
  }

  // ---------- both operations, by what the chain holds ----------

  lemma ChainApart(first: Pair?, xs: seq<Pair>, i: nat)
    requires Chain(first, xs)
    ensures i < |xs| ==> forall j :: 0 <= j < |xs| && j != i ==> xs[j] != xs[i]
  {
    forall j | 0 <= j < |xs| && i < |xs| && j != i ensures xs[j] != xs[i] {
      ChainDistinct(first, xs, if j < i then j else i, if j < i then i else j);
    }
  }

  /** The chain after an element has been stored in its place in front of `l`, if there was one. */
  lemma HoldsWith(xs: seq<Pair>, l: seq<Entry>, i: nat, key: Key, elem: Elem)
    requires |l| == |xs| && i == Find(xs, key) && forall j :: 0 <= j < |xs| ==> l[j].key == xs[j].key
    requires forall j :: 0 <= j < |xs| ==> xs[j].element == if j == i then elem else l[j].elem
    ensures Place(l, key) == i
    ensures i < |xs| ==> Holds(xs, WithEntry(l, key, elem))
    ensures i == |xs| ==> Holds(xs, l) && WithEntry(l, key, elem) == [Entry(key, elem)] + l
  {
    PlaceIs(l, key, i);
  }

  lemma HoldsCons(p: Pair, xs: seq<Pair>, l: seq<Entry>)
    requires Holds(xs, l)
    ensures Holds([p] + xs, [Entry(p.key, p.element)] + l)
  { }

  /** Put of a new pair stores the entry in front, or in the place of the one with its key. */
  method PutEntry(b: Bucket, p: Pair, ghost xs: seq<Pair>) returns (ok: bool, ghost ys: seq<Pair>)
    requires Chain(b.firstValue, xs) && p.next == null && p !in xs
    modifies b, p`next, xs`element
    ensures Chain(b.firstValue, ys) && Holds(ys, WithEntry(old(Entries(xs)), p.key, p.element))
    ensures ok == (Place(old(Entries(xs)), p.key) == |xs|)
  {
    ghost var l, i := Entries(xs), Find(xs, p.key);
    ChainApart(b.firstValue, xs, i);
    ok := b.Put(p, xs);
    HoldsWith(xs, l, i, p.key, p.element);
    ys := xs;
    if ok {
      ys := [p] + xs;
      HoldsCons(p, xs, l);
    }
  }

  /** Delete takes out the first entry with the key. */
  method DeleteEntry(b: Bucket, key: Key, ghost xs: seq<Pair>) returns (ok: bool, ghost ys: seq<Pair>)
    requires Chain(b.firstValue, xs)
    modifies b
    ensures Chain(b.firstValue, ys) && Holds(ys, WithoutKey(old(Entries(xs)), key))
    ensures ok == (Place(old(Entries(xs)), key) < |xs|)
  {
    ghost var copies, l := [], Entries(xs);
    HoldsPlace(xs, l, key);
    ok, copies, ys := b.Delete(key, xs);
    if ok { HoldsWithout(xs, l, key, copies, ys); }
  }
}
