/**
 The rehash of cmap/redistributor.go. It puts the live pairs of all buckets into new buckets one by one, and Put does
 not clear the next link of a pair it stores in an empty bucket. In between, chains therefore run on into old chains
 and into each other. This module shows that no chain becomes cyclic and that no lookup changes.
 */
module CmapRehash {
  import opened CmapBucket

  /** The next links of a set of pairs. */
  type Links = map<Pair, Pair?>

  ghost function Snap(S: set<Pair>): Links
    reads S
  {
    map p: Pair | p in S :: p.next
  }

  /** `xs` are the pairs met from `q` on. */
  ghost predicate IsPath(nx: Links, q: Pair?, xs: seq<Pair>) {
    && q == At(xs, 0)
    && forall i :: 0 <= i < |xs| ==> xs[i] in nx && nx[xs[i]] == At(xs, i + 1)
  }

  /** Every pair has a finite path: no chain is cyclic. */
  ghost predicate Paths(nx: Links, paths: map<Pair, seq<Pair>>) {
    paths.Keys == nx.Keys && forall q :: q in nx ==> IsPath(nx, q, paths[q])
  }

  ghost function PathFrom(paths: map<Pair, seq<Pair>>, q: Pair?): seq<Pair> {
    if q != null && q in paths then paths[q] else []
  }

  lemma {:induction false} PathUnique(nx: Links, q: Pair?, xs: seq<Pair>, ys: seq<Pair>, k: nat)
    requires IsPath(nx, q, xs) && IsPath(nx, q, ys)
    ensures k <= |xs| ==> k <= |ys| && xs[..k] == ys[..k]
  {
    if k > 0 && k <= |xs| {
      PathUnique(nx, q, xs, ys, k - 1);
      if k == 1 {
        assert At(ys, 0) == xs[0];
      } else {
        assert nx[xs[k - 2]] == At(xs, k - 1) && nx[ys[k - 2]] == At(ys, k - 1);
      }
      assert xs[..k] == xs[..k - 1] + [xs[k - 1]] && ys[..k] == ys[..k - 1] + [ys[k - 1]];
    }
  }

  lemma {:induction false} PathDrop(nx: Links, q: Pair?, xs: seq<Pair>, i: nat)
    requires IsPath(nx, q, xs) && i <= |xs|
    ensures IsPath(nx, At(xs, i), xs[i..])
  {
    forall j | 0 <= j < |xs[i..]| ensures xs[i..][j] in nx && nx[xs[i..][j]] == At(xs[i..], j + 1) {
      assert nx[xs[i + j]] == At(xs, i + j + 1);
    }
  }

  lemma {:induction false} SamePath(nx: Links, q: Pair?, xs: seq<Pair>, ys: seq<Pair>)
    requires IsPath(nx, q, xs) && IsPath(nx, q, ys)
    ensures xs == ys
  {
    PathUnique(nx, q, xs, ys, |xs|);
    PathUnique(nx, q, ys, xs, |ys|);
  }

  /** A path visits no pair twice. */
  lemma {:induction false} PathDistinct(nx: Links, q: Pair?, xs: seq<Pair>, i: nat, j: nat)
    requires IsPath(nx, q, xs) && i < j < |xs|
    ensures xs[i] != xs[j]
  {
    if xs[i] == xs[j] {
      PathDrop(nx, q, xs, i);
      PathDrop(nx, q, xs, j);
      SamePath(nx, xs[i], xs[i..], xs[j..]);
      assert false;
    }
  }

  function IndexOf(xs: seq<Pair>, p: Pair): (i: nat)
    requires p in xs
    ensures i < |xs| && xs[i] == p
  {
    if xs[0] == p then 0 else 1 + IndexOf(xs[1..], p)
  }

  /** A path after the next link of `p` has been made to lead to the start of `ys`. */
  function Bend(xs: seq<Pair>, p: Pair, ys: seq<Pair>): seq<Pair> {
    if p in xs then xs[..IndexOf(xs, p) + 1] + ys else xs
  }

  lemma {:induction false} BendPath(nx: Links, q: Pair?, xs: seq<Pair>, p: Pair, f: Pair?, ys: seq<Pair>)
    requires IsPath(nx, q, xs) && IsPath(nx, f, ys) && p in nx && p !in ys
    ensures IsPath(nx[p := f], q, Bend(xs, p, ys))
  {
    var nx', zs := nx[p := f], Bend(xs, p, ys);
    if p in xs {
      var m := IndexOf(xs, p);
      forall i | 0 <= i < |zs| ensures zs[i] in nx' && nx'[zs[i]] == At(zs, i + 1) {
        if i < m {
          PathDistinct(nx, q, xs, i, m);
          assert nx[xs[i]] == At(xs, i + 1);
        } else if i > m {
          assert nx[ys[i - m - 1]] == At(ys, i - m);
        }
      }
    } else {
      forall i | 0 <= i < |zs| ensures zs[i] in nx' && nx'[zs[i]] == At(zs, i + 1) {
        assert nx[xs[i]] == At(xs, i + 1);
      }
    }
  }

  // ---------- the order of the pairs ----------

  ghost predicate Distinct(ps: seq<Pair>) {
    forall i, j :: 0 <= i < j < |ps| ==> ps[i] != ps[j]
  }

  /** The pairs of all buckets, bucket by bucket. */
  function Flat(chains: seq<seq<Pair>>): seq<Pair> {
    if chains == [] then [] else Flat(chains[..|chains| - 1]) + chains[|chains| - 1]
  }

  /** The rest of the chain of `p`, starting at `p`. */
  function RestOf(chains: seq<seq<Pair>>, p: Pair): seq<Pair> {
    if chains == [] then []
    else if p in chains[|chains| - 1] then chains[|chains| - 1][IndexOf(chains[|chains| - 1], p)..]
    else RestOf(chains[..|chains| - 1], p)
  }

  ghost predicate Laid(nx: Links, heads: seq<Pair?>, chains: seq<seq<Pair>>) {
    |heads| == |chains| && forall i :: 0 <= i < |chains| ==> IsPath(nx, heads[i], chains[i])
  }

  lemma {:induction false} RestIsPath(nx: Links, heads: seq<Pair?>, chains: seq<seq<Pair>>, p: Pair)
    requires Laid(nx, heads, chains) && p in Flat(chains)
    ensures IsPath(nx, p, RestOf(chains, p))
  {
    var k := |chains| - 1;
    if p in chains[k] {
      PathDrop(nx, heads[k], chains[k], IndexOf(chains[k], p));
    } else {
      RestIsPath(nx, heads[..k], chains[..k], p);
    }
  }

  /** In the order of the pairs, the rest of a chain comes right after its first pair. */
  lemma {:induction false} RestFollows(chains: seq<seq<Pair>>, j: nat)
    requires Distinct(Flat(chains)) && j < |Flat(chains)|
    ensures RestOf(chains, Flat(chains)[j]) <= Flat(chains)[j..]
  {
    var k := |chains| - 1;
    var a, b, ps := Flat(chains[..k]), chains[k], Flat(chains);
    var p := ps[j];
    if p in b {
      var m := IndexOf(b, p);
      assert ps[|a| + m] == p;
      assert j == |a| + m;
      assert ps[j..] == b[m..];
    } else {
      assert j < |a| && p == a[j];
      assert Distinct(a) by {
        forall i, l | 0 <= i < l < |a| ensures a[i] != a[l] { assert ps[i] == a[i] && ps[l] == a[l]; }
      }
      RestFollows(chains[..k], j);
      assert ps[j..] == a[j..] + b;
    }
  }

  // ---------- one pair after the other ----------

  /** The first `i` of the pairs `ps` are met when walking the buckets they belong to; `slots` says which these are. */
  ghost predicate Met(heads: seq<Pair?>, paths: map<Pair, seq<Pair>>, ps: seq<Pair>, slots: seq<nat>, i: nat)
    requires i <= |ps| <= |slots| && forall j :: 0 <= j < |slots| ==> slots[j] < |heads|
  {
    forall j :: 0 <= j < i ==> ps[j] in PathFrom(paths, heads[slots[j]])
  }

  /** The pairs from the `i`th on have paths that hold only later pairs. */
  ghost predicate Waiting(paths: map<Pair, seq<Pair>>, ps: seq<Pair>, i: nat) {
    forall j :: i <= j < |ps| ==> ps[j] in paths && paths[ps[j]] <= ps[j..]
  }

  /** Half-way through the rehash, with the first `i` of the pairs `ps` put into the buckets. */
  ghost predicate Midway(nx: Links, heads: seq<Pair?>, paths: map<Pair, seq<Pair>>, ps: seq<Pair>, slots: seq<nat>,
                         i: nat) {
    && i <= |ps| == |slots| && Distinct(ps) && (forall j :: 0 <= j < |slots| ==> slots[j] < |heads|)
    && Paths(nx, paths)
    && (forall b :: 0 <= b < |heads| && heads[b] != null ==> heads[b] in nx)
    && Waiting(paths, ps, i) && Met(heads, paths, ps, slots, i)
  }

  /** The next pair goes into an empty bucket: whatever it links to stays linked. */
  lemma {:induction false} PutEmpty(nx: Links, heads: seq<Pair?>, paths: map<Pair, seq<Pair>>, ps: seq<Pair>,
                                    slots: seq<nat>, i: nat)
    requires Midway(nx, heads, paths, ps, slots, i) && i < |ps| && heads[slots[i]] == null
    ensures Midway(nx, heads[slots[i] := ps[i]], paths, ps, slots, i + 1)
  {
    var p, heads' := ps[i], heads[slots[i] := ps[i]];
    assert IsPath(nx, p, paths[p]) && paths[p][0] == p;
    forall j | 0 <= j < i + 1 ensures ps[j] in PathFrom(paths, heads'[slots[j]]) {
      assert j < i ==> ps[j] in PathFrom(paths, heads[slots[j]]);
    }
  }

  /** The next pair is met already, through a link left over from its old chain: nothing needs to be done. */
  lemma {:induction false} PutFound(nx: Links, heads: seq<Pair?>, paths: map<Pair, seq<Pair>>, ps: seq<Pair>,
                                    slots: seq<nat>, i: nat)
    requires Midway(nx, heads, paths, ps, slots, i) && i < |ps| && ps[i] in PathFrom(paths, heads[slots[i]])
    ensures Midway(nx, heads, paths, ps, slots, i + 1)
  {
    forall j | 0 <= j < i + 1 ensures ps[j] in PathFrom(paths, heads[slots[j]]) {
      assert j < i ==> ps[j] in PathFrom(paths, heads[slots[j]]);
    }
  }

  function BendAll(paths: map<Pair, seq<Pair>>, p: Pair, ys: seq<Pair>): map<Pair, seq<Pair>> {
    map q | q in paths :: Bend(paths[q], p, ys)
  }

  lemma {:induction false} BendPaths(nx: Links, paths: map<Pair, seq<Pair>>, p: Pair, f: Pair)
    requires Paths(nx, paths) && p in nx && f in nx && p !in paths[f]
    ensures Paths(nx[p := f], BendAll(paths, p, paths[f]))
  {
    forall q | q in nx ensures IsPath(nx[p := f], q, BendAll(paths, p, paths[f])[q]) {
      BendPath(nx, q, paths[q], p, f, paths[f]);
    }
  }

  /** The next pair goes to the front of a bucket in whose walk it does not occur. */
  lemma {:induction false} PutFront(nx: Links, heads: seq<Pair?>, paths: map<Pair, seq<Pair>>, ps: seq<Pair>,
                                    slots: seq<nat>, i: nat)
    requires Midway(nx, heads, paths, ps, slots, i) && i < |ps|
    requires heads[slots[i]] != null && ps[i] !in PathFrom(paths, heads[slots[i]])
    ensures var p, f := ps[i], heads[slots[i]];
      Midway(nx[p := f], heads[slots[i] := p], BendAll(paths, p, paths[f]), ps, slots, i + 1)
  {
    var p, f := ps[i], heads[slots[i]];
    var paths' := BendAll(paths, p, paths[f]);
    assert Paths(nx[p := f], paths') by { BendPaths(nx, paths, p, f); }
    assert Waiting(paths', ps, i + 1) by { FrontWaiting(paths, ps, i, paths[f]); }
    assert Met(heads[slots[i] := p], paths', ps, slots, i + 1) by { FrontMet(nx, heads, paths, ps, slots, i); }
  }

  lemma {:induction false} FrontWaiting(paths: map<Pair, seq<Pair>>, ps: seq<Pair>, i: nat, ys: seq<Pair>)
    requires i < |ps| && Distinct(ps) && Waiting(paths, ps, i)
    ensures Waiting(BendAll(paths, ps[i], ys), ps, i + 1)
  {
    forall j | i + 1 <= j < |ps| ensures ps[j] in paths && BendAll(paths, ps[i], ys)[ps[j]] <= ps[j..] {
      Untouched(paths, ps, i, j);
    }
  }

  lemma {:induction false} FrontMet(nx: Links, heads: seq<Pair?>, paths: map<Pair, seq<Pair>>, ps: seq<Pair>,
                                    slots: seq<nat>, i: nat)
    requires Midway(nx, heads, paths, ps, slots, i) && i < |ps| && heads[slots[i]] != null
    ensures var p, f := ps[i], heads[slots[i]];
      Met(heads[slots[i] := p], BendAll(paths, p, paths[f]), ps, slots, i + 1)
  {
    var p, f := ps[i], heads[slots[i]];
    var ys := paths[f];
    assert IsPath(nx, p, paths[p]) && paths[p][0] == p;
    forall j | 0 <= j < i + 1 ensures ps[j] in PathFrom(BendAll(paths, p, ys), heads[slots[i] := p][slots[j]]) {
      var c := heads[slots[j]];
      if j == i {
        assert Bend(paths[p], p, ys)[0] == p;
      } else {
        assert ps[j] in PathFrom(paths, c);
        if slots[j] == slots[i] {
          assert ps[j] in ys;
        } else {
          StillMet(nx, paths, ps, i, j, c, ys);
        }
      }
    }
  }

  /** Pairs that come later do not link to `ps[i]`. */
  lemma {:induction false} Untouched(paths: map<Pair, seq<Pair>>, ps: seq<Pair>, i: nat, j: nat)
    requires i < j < |ps| && Distinct(ps) && ps[j] in paths && paths[ps[j]] <= ps[j..]
    ensures ps[i] !in paths[ps[j]]
  { }

  /** A pair already put lies before `ps[i]` on every path that meets both, so bending at `ps[i]` does not lose it. */
  lemma {:induction false} StillMet(nx: Links, paths: map<Pair, seq<Pair>>, ps: seq<Pair>, i: nat, j: nat, q: Pair,
                                    ys: seq<Pair>)
    requires Paths(nx, paths) && Distinct(ps) && j < i < |ps| && ps[i] in nx && paths[ps[i]] <= ps[i..]
    requires q in nx && ps[j] in paths[q]
    ensures ps[j] in Bend(paths[q], ps[i], ys)
  {
    var xs, p := paths[q], ps[i];
    if p in xs {
      var m := IndexOf(xs, p);
      PathDrop(nx, q, xs, m);
      SamePath(nx, p, xs[m..], paths[p]);
      NotBehind(ps, i, j);
      InFront(xs, m, ps[j]);
    }
  }

  lemma NotBehind(ps: seq<Pair>, i: nat, j: nat)
    requires Distinct(ps) && j < i < |ps|
    ensures ps[j] !in ps[i..]
  { }

  lemma InFront(xs: seq<Pair>, m: nat, x: Pair)
    requires m < |xs| && x in xs && x !in xs[m..]
    ensures x in xs[..m + 1]
  {
    var l := IndexOf(xs, x);
    assert forall n :: m <= n < |xs| ==> xs[n] == xs[m..][n - m];
    assert xs[..m + 1][l] == x;
  }

  lemma {:induction false} StepPath(nx: Links, heads: seq<Pair?>, paths: map<Pair, seq<Pair>>, ps: seq<Pair>,
                                    slots: seq<nat>, i: nat)
    requires Midway(nx, heads, paths, ps, slots, i) && i < |ps|
    ensures ps[i] in nx && IsPath(nx, heads[slots[i]], PathFrom(paths, heads[slots[i]]))
    ensures PathFrom(paths, heads[slots[i]]) == [] <==> heads[slots[i]] == null
  { }

  /** One round of the last loop, whichever way Put goes. */
  lemma {:induction false} PutStep(nx: Links, heads: seq<Pair?>, paths: map<Pair, seq<Pair>>, ps: seq<Pair>,
                                   slots: seq<nat>, i: nat)
    returns (paths': map<Pair, seq<Pair>>)
    requires Midway(nx, heads, paths, ps, slots, i) && i < |ps| && ps[i] in nx
    ensures var p, xs := ps[i], PathFrom(paths, heads[slots[i]]);
      var heads' := heads[slots[i] := if p !in xs then p else heads[slots[i]]];
      var nx' := nx[p := if p !in xs && xs != [] then xs[0] else nx[p]];
      Midway(nx', heads', paths', ps, slots, i + 1)
  {
    var p, xs := ps[i], PathFrom(paths, heads[slots[i]]);
    StepPath(nx, heads, paths, ps, slots, i);
    paths' := paths;
    assert nx == nx[p := nx[p]] && heads == heads[slots[i] := heads[slots[i]]];
    if p in xs {
      PutFound(nx, heads, paths, ps, slots, i);
    } else if xs == [] {
      PutEmpty(nx, heads, paths, ps, slots, i);
    } else {
      PutFront(nx, heads, paths, ps, slots, i);
      paths' := BendAll(paths, p, xs);
    }
  }

  // ---------- the method ----------

  const NORMAL: nat := 0
  const UNDERWEIGHT: nat := 1
  const OVERWEIGHT: nat := 2

  /** uint64 arithmetic. */
  function Wrap(n: nat): nat {
    n % 0x1_0000_0000_0000_0000
  }

  ghost function Heads(buckets: seq<Bucket>): seq<Pair?>
    reads buckets
  {
    seq(|buckets|, i requires 0 <= i < |buckets| reads buckets => buckets[i].firstValue)
  }

  ghost predicate DistinctBuckets(buckets: seq<Bucket>) {
    forall i, j :: 0 <= i < j < |buckets| ==> buckets[i] != buckets[j]
  }

  /** Every pair is in the bucket that its hash selects. */
  ghost predicate Placed(chains: seq<seq<Pair>>) {
    forall i, p :: 0 <= i < |chains| && p in chains[i] ==> p.hash % |chains| == i
  }

  /** The first loop of Redistribe: the pairs of all buckets. */
  method Collect(buckets: seq<Bucket>, ghost chains: seq<seq<Pair>>) returns (pairs: seq<Pair>)
    requires |chains| == |buckets| && forall i :: 0 <= i < |buckets| ==> Chain(buckets[i].firstValue, chains[i])
    ensures pairs == Flat(chains)
  {
    pairs := [];
    for k := 0 to |buckets|
      invariant pairs == Flat(chains[..k])
      invariant forall i :: 0 <= i < |buckets| ==> Chain(buckets[i].firstValue, chains[i])
    {
      var e := buckets[k].firstValue;
      ghost var xs, n, ps := chains[k], 0, pairs;
      while e != null
        invariant 0 <= n <= |xs| && e == At(xs, n) && pairs == ps + xs[..n]
        decreases |xs| - n
      {
        pairs := pairs + [e];
        e := e.next;
        n := n + 1;
      }
      assert chains[..k + 1][..k] == chains[..k] && xs[..n] == xs;
    }
    assert chains[..|buckets|] == chains;
  }

  /** The buckets are emptied and as many as needed are added. */
  method Enlarge(buckets: seq<Bucket>, newNumber: nat) returns (all: seq<Bucket>)
    requires |buckets| < newNumber && DistinctBuckets(buckets)
    modifies buckets
    ensures |all| == newNumber && buckets <= all && DistinctBuckets(all)
    ensures forall i :: 0 <= i < |all| ==> all[i].firstValue == null && all[i].size == 0
    ensures forall i :: |buckets| <= i < |all| ==> fresh(all[i])
  {
    for i := 0 to |buckets|
      invariant forall j :: 0 <= j < i ==> buckets[j].firstValue == null && buckets[j].size == 0
    {
      buckets[i].Clear();
    }
    all := buckets;
    while |all| < newNumber
      invariant |buckets| <= |all| <= newNumber && buckets <= all && DistinctBuckets(all)
      invariant forall i :: 0 <= i < |all| ==> all[i].firstValue == null && all[i].size == 0
      invariant forall i :: |buckets| <= i < |all| ==> fresh(all[i])
    {
      var b := new Bucket();
      all := all + [b];
    }
  }

  lemma PathChain(S: set<Pair>, q: Pair?, xs: seq<Pair>)
    requires IsPath(Snap(S), q, xs)
    ensures Chain(q, xs) && forall p :: p in xs ==> p in S
  {
    assert forall i :: 0 <= i < |xs| ==> xs[i].next == Snap(S)[xs[i]];
  }

  lemma SnapStep(S: set<Pair>, nx: Links, p: Pair)
    requires nx.Keys == S && p in S && forall q :: q in S && q != p ==> q.next == nx[q]
    ensures Snap(S) == nx[p := p.next]
  { }

  lemma HeadsStep(buckets: seq<Bucket>, heads: seq<Pair?>, index: nat)
    requires |heads| == |buckets| && index < |heads|
    requires forall i :: 0 <= i < |buckets| && i != index ==> buckets[i].firstValue == heads[i]
    ensures Heads(buckets) == heads[index := buckets[index].firstValue]
  { }

  /** Putting one pair, in terms of the links and heads of all pairs and buckets. */
  method PutOne(buckets: seq<Bucket>, index: nat, p: Pair, ghost S: set<Pair>, ghost xs: seq<Pair>)
    requires DistinctBuckets(buckets) && index < |buckets| && p in S
    requires IsPath(Snap(S), buckets[index].firstValue, xs)
    requires forall q, r :: q in S && r in S && q.key == r.key ==> q == r
    modifies buckets[index], p`next, S`element
    ensures Heads(buckets) == old(Heads(buckets))[index := if p !in xs then p else old(buckets[index].firstValue)]
    ensures Snap(S) == old(Snap(S))[p := if p !in xs && xs != [] then xs[0] else old(p.next)]
    ensures forall q :: q in S ==> q.element == old(q.element)
  {
    ghost var nx, heads := Snap(S), Heads(buckets);
    PathChain(S, buckets[index].firstValue, xs);
    assert forall i :: 0 <= i < |xs| && xs[i].key == p.key ==> xs[i] == p;
    var ok := buckets[index].Put(p, xs);
    SnapStep(S, nx, p);
    HeadsStep(buckets, heads, index);
  }

  function Slots(ps: seq<Pair>, n: nat): (slots: seq<nat>)
    requires n > 0
    ensures |slots| == |ps| && forall j :: 0 <= j < |ps| ==> slots[j] == ps[j].hash % n
  {
    seq(|ps|, j requires 0 <= j < |ps| => ps[j].hash % n)
  }

  /** One round of the last loop of Redistribe. */
  method PutNext(buckets: seq<Bucket>, pairs: seq<Pair>, i: nat, ghost S: set<Pair>, ghost paths: map<Pair, seq<Pair>>)
    returns (ghost paths': map<Pair, seq<Pair>>)
    requires |buckets| > 0 && DistinctBuckets(buckets) && i < |pairs|
    requires forall q, r :: q in S && r in S && q.key == r.key ==> q == r
    requires Midway(Snap(S), Heads(buckets), paths, pairs, Slots(pairs, |buckets|), i)
    modifies buckets, S
    ensures Midway(Snap(S), Heads(buckets), paths', pairs, Slots(pairs, |buckets|), i + 1)
    ensures forall q :: q in S ==> q.element == old(q.element)
  {
    var p := pairs[i];
    var index := p.hash % |buckets|;
    ghost var nx, heads, slots := Snap(S), Heads(buckets), Slots(pairs, |buckets|);
    StepPath(nx, heads, paths, pairs, slots, i);
    PutOne(buckets, index, p, S, PathFrom(paths, heads[index]));
    paths' := PutStep(nx, heads, paths, pairs, slots, i);
  }

  /** The last loop of Redistribe: every pair goes to the bucket that its hash now selects. */
  method PutAll(buckets: seq<Bucket>, pairs: seq<Pair>, ghost S: set<Pair>, ghost paths0: map<Pair, seq<Pair>>)
    returns (ghost paths: map<Pair, seq<Pair>>)
    requires |buckets| > 0 && DistinctBuckets(buckets)
    requires forall q, r :: q in S && r in S && q.key == r.key ==> q == r
    requires Midway(Snap(S), Heads(buckets), paths0, pairs, Slots(pairs, |buckets|), 0)
    modifies buckets, S
    ensures Midway(Snap(S), Heads(buckets), paths, pairs, Slots(pairs, |buckets|), |pairs|)
    ensures forall q :: q in S ==> q.element == old(q.element)
  {
    paths := paths0;
    for i := 0 to |pairs|
      invariant Midway(Snap(S), Heads(buckets), paths, pairs, Slots(pairs, |buckets|), i)
      invariant forall q :: q in S ==> q.element == old(q.element)
    {
      paths := PutNext(buckets, pairs, i, S, paths);
    }
  }

  // ---------- lookups ----------

  /** `h` is the hash of every pair with key `key`. */
  ghost predicate HashOf(ps: seq<Pair>, key: Key, h: nat) {
    forall p :: p in ps && p.key == key ==> p.hash == h
  }

  lemma {:induction false} LookupAmong(xs: seq<Pair>, ps: seq<Pair>, key: Key)
    requires forall p, q :: p in ps && q in ps && p.key == q.key ==> p == q
    requires forall p :: p in xs ==> p in ps
    requires forall p :: p in ps && p.key == key ==> p in xs
    ensures Lookup(xs, key) == Lookup(ps, key)
  {
    if Lookup(ps, key) != null {
      var i :| 0 <= i < |xs| && xs[i] == Lookup(ps, key);
    } else {
      forall p | p in xs ensures p.key != key {
        var i :| 0 <= i < |ps| && ps[i] == p;
      }
    }
  }

  lemma {:induction false} FlatMember(chains: seq<seq<Pair>>, p: Pair) returns (i: nat)
    requires p in Flat(chains)
    ensures i < |chains| && p in chains[i]
  {
    var k := |chains| - 1;
    if p in chains[k] {
      i := k;
    } else {
      i := FlatMember(chains[..k], p);
    }
  }

  lemma {:induction false} FlatContains(chains: seq<seq<Pair>>, i: nat, p: Pair)
    requires i < |chains| && p in chains[i]
    ensures p in Flat(chains)
  {
    var k := |chains| - 1;
    if i < k {
      FlatContains(chains[..k], i, p);
    }
  }

  /** Before the rehash, a lookup finds the one pair with the key, if there is one. */
  lemma {:induction false} LookupBefore(chains: seq<seq<Pair>>, key: Key, h: nat)
    requires |chains| > 0 && Placed(chains) && HashOf(Flat(chains), key, h)
    requires forall p, q :: p in Flat(chains) && q in Flat(chains) && p.key == q.key ==> p == q
    ensures Lookup(chains[h % |chains|], key) == Lookup(Flat(chains), key)
  {
    var xs, ps := chains[h % |chains|], Flat(chains);
    forall p | p in xs ensures p in ps {
      FlatContains(chains, h % |chains|, p);
    }
    forall p | p in ps && p.key == key ensures p in xs {
      var i := FlatMember(chains, p);
    }
    LookupAmong(xs, ps, key);
  }

  /** After it, so does a lookup in the bucket that the hash now selects, whatever else is met on the way. */
  lemma {:induction false} LookupAfter(nx: Links, heads: seq<Pair?>, paths: map<Pair, seq<Pair>>, ps: seq<Pair>,
                                       key: Key, h: nat)
    requires |heads| > 0 && Midway(nx, heads, paths, ps, Slots(ps, |heads|), |ps|) && HashOf(ps, key, h)
    requires nx.Keys == (set p | p in ps)
    requires forall p, q :: p in ps && q in ps && p.key == q.key ==> p == q
    ensures Lookup(PathFrom(paths, heads[h % |heads|]), key) == Lookup(ps, key)
  {
    var slots, b := Slots(ps, |heads|), h % |heads|;
    var xs := PathFrom(paths, heads[b]);
    if heads[b] != null {
      assert IsPath(nx, heads[b], paths[heads[b]]);
    }
    assert forall i :: 0 <= i < |xs| ==> xs[i] in nx;
    forall p | p in ps && p.key == key ensures p in xs {
      var j :| 0 <= j < |ps| && ps[j] == p;
      assert slots[j] == b;
      assert ps[j] in PathFrom(paths, heads[slots[j]]);
    }
    LookupAmong(xs, ps, key);
  }

  // ---------- Redistribe ----------

  lemma {:induction false} StartMidway(nx: Links, heads: seq<Pair?>, chains: seq<seq<Pair>>, empty: seq<Pair?>)
    returns (paths: map<Pair, seq<Pair>>)
    requires Laid(nx, heads, chains) && Distinct(Flat(chains)) && nx.Keys == set p | p in Flat(chains)
    requires |empty| > 0 && forall b :: 0 <= b < |empty| ==> empty[b] == null
    ensures Midway(nx, empty, paths, Flat(chains), Slots(Flat(chains), |empty|), 0)
  {
    var ps := Flat(chains);
    paths := map p: Pair | p in nx :: RestOf(chains, p);
    forall p | p in nx ensures IsPath(nx, p, paths[p]) {
      RestIsPath(nx, heads, chains, p);
    }
    forall j | 0 <= j < |ps| ensures ps[j] in paths && paths[ps[j]] <= ps[j..] {
      RestFollows(chains, j);
    }
  }

  /** What is met when walking each of the buckets. */
  ghost function Walks(heads: seq<Pair?>, paths: map<Pair, seq<Pair>>): (chains: seq<seq<Pair>>)
    ensures |chains| == |heads| && forall b :: 0 <= b < |heads| ==> chains[b] == PathFrom(paths, heads[b])
  {
    seq(|heads|, b requires 0 <= b < |heads| => PathFrom(paths, heads[b]))
  }

  /** No lookup is changed by the rehash. */
  ghost predicate SameLookups(chains: seq<seq<Pair>>, newChains: seq<seq<Pair>>)
    requires |chains| > 0 && |newChains| > 0
  {
    forall key, h: nat :: HashOf(Flat(chains), key, h) ==>
      Lookup(newChains[h % |newChains|], key) == Lookup(chains[h % |chains|], key)
  }

  lemma {:induction false} LookupsKept(nx: Links, heads: seq<Pair?>, paths: map<Pair, seq<Pair>>,
                                       chains: seq<seq<Pair>>)
    requires |chains| > 0 && |heads| > 0 && Placed(chains)
    requires Midway(nx, heads, paths, Flat(chains), Slots(Flat(chains), |heads|), |Flat(chains)|)
    requires nx.Keys == (set p | p in Flat(chains))
    requires forall p, q :: p in Flat(chains) && q in Flat(chains) && p.key == q.key ==> p == q
    ensures SameLookups(chains, Walks(heads, paths))
    ensures Laid(nx, heads, Walks(heads, paths))
  {
    forall key, h: nat | HashOf(Flat(chains), key, h)
      ensures Lookup(Walks(heads, paths)[h % |heads|], key) == Lookup(chains[h % |chains|], key)
    {
      LookupBefore(chains, key, h);
      LookupAfter(nx, heads, paths, Flat(chains), key, h);
    }
  }

  /** The state in which the segment calls Redistribe: disjoint acyclic chains with unique keys, each in its bucket. */
  ghost predicate Ready(buckets: seq<Bucket>, chains: seq<seq<Pair>>, S: set<Pair>)
    reads buckets, S
  {
    && |chains| == |buckets| < 0x8000_0000_0000_0000 && S == (set p | p in Flat(chains))
    && DistinctBuckets(buckets) && Placed(chains) && Distinct(Flat(chains))
    && (forall p, q :: p in Flat(chains) && q in Flat(chains) && p.key == q.key ==> p == q)
    && Laid(Snap(S), Heads(buckets), chains)
  }

  lemma ChainsOf(S: set<Pair>, buckets: seq<Bucket>, chains: seq<seq<Pair>>)
    requires Laid(Snap(S), Heads(buckets), chains)
    ensures forall i :: 0 <= i < |buckets| ==> Chain(buckets[i].firstValue, chains[i])
  {
    forall i | 0 <= i < |buckets| ensures Chain(buckets[i].firstValue, chains[i]) {
      PathChain(S, Heads(buckets)[i], chains[i]);
    }
  }

  class Redistributor {
    var overweightBucketCount: nat
    var emptyBucketCount: nat

    /** The part of Redistribe that gathers the pairs and makes room. */
    method Prepare(buckets: seq<Bucket>, newNumber: nat, ghost chains: seq<seq<Pair>>, ghost S: set<Pair>)
      returns (all: seq<Bucket>, pairs: seq<Pair>, ghost paths: map<Pair, seq<Pair>>)
      requires Ready(buckets, chains, S) && 0 < |buckets| < newNumber
      modifies buckets
      ensures |all| == newNumber && buckets <= all && DistinctBuckets(all)
      ensures forall i :: |buckets| <= i < |all| ==> fresh(all[i])
      ensures pairs == Flat(chains) && Midway(Snap(S), Heads(all), paths, pairs, Slots(pairs, |all|), 0)
    {
      ghost var nx, heads := Snap(S), Heads(buckets);
      ChainsOf(S, buckets, chains);
      pairs := Collect(buckets, chains);
      all := Enlarge(buckets, newNumber);
      paths := StartMidway(nx, heads, chains, Heads(all));
    }

    /** The part of Redistribe that moves the pairs. */
    method Rehash(buckets: seq<Bucket>, newNumber: nat, ghost chains: seq<seq<Pair>>, ghost S: set<Pair>)
      returns (all: seq<Bucket>, ghost newChains: seq<seq<Pair>>)
      requires Ready(buckets, chains, S) && 0 < |buckets| < newNumber
      modifies buckets, S
      ensures |all| == newNumber == |newChains| && buckets <= all && SameLookups(chains, newChains)
      ensures forall b :: 0 <= b < |all| ==> Chain(all[b].firstValue, newChains[b])
      ensures forall p :: p in S ==> p.element == old(p.element)
    {
      var pairs;
      ghost var paths;
      all, pairs, paths := Prepare(buckets, newNumber, chains, S);
      paths := PutAll(all, pairs, S, paths);
      newChains := Conclude(all, paths, chains, S);
    }

    lemma Conclude(all: seq<Bucket>, paths: map<Pair, seq<Pair>>, chains: seq<seq<Pair>>, S: set<Pair>)
      returns (newChains: seq<seq<Pair>>)
      requires |all| > 0 && |chains| > 0 && Placed(chains) && S == set p | p in Flat(chains)
      requires Midway(Snap(S), Heads(all), paths, Flat(chains), Slots(Flat(chains), |all|), |Flat(chains)|)
      requires forall p, q :: p in Flat(chains) && q in Flat(chains) && p.key == q.key ==> p == q
      ensures |newChains| == |all| && SameLookups(chains, newChains)
      ensures forall b :: 0 <= b < |all| ==> Chain(all[b].firstValue, newChains[b])
    {
      LookupsKept(Snap(S), Heads(all), paths, chains);
      newChains := Walks(Heads(all), paths);
      ChainsOf(S, all, newChains);
    }

    /** The first part of Redistribe: whether to go on, and with how many buckets. */
    method NewNumber(status: nat, currentNumber: nat) returns (wanted: bool, newNumber: int)
      requires 2 * currentNumber < TWO_64
      ensures wanted == (
        || (status == OVERWEIGHT && currentNumber <= Wrap(overweightBucketCount * 4))
        || (status == UNDERWEIGHT && 100 <= currentNumber <= Wrap(emptyBucketCount * 4)))
      ensures wanted ==> newNumber == 2 * currentNumber
    {
      newNumber := currentNumber;
      if status == OVERWEIGHT {
        if Wrap(overweightBucketCount * 4) < currentNumber {
          return false, newNumber;
        }
        newNumber := Wrap(currentNumber * 2);
      } else if status == UNDERWEIGHT {
        if currentNumber < 100 || Wrap(emptyBucketCount * 4) < currentNumber {
          return false, newNumber;
        }
        newNumber := Wrap(currentNumber * 2);
        if newNumber < 2 {
          newNumber := 2;
        }
      } else {
        return false, newNumber;
      }
      wanted := true;
    }

    /**
     Redistribe. `changed` says whether the buckets were replaced. The number of buckets doubles, also when they are
     underweight; the branch of the source for a smaller number of buckets is never taken.
     */
    method Redistribe(status: nat, buckets: seq<Bucket>, ghost chains: seq<seq<Pair>>, ghost S: set<Pair>)
      returns (newBuckets: seq<Bucket>, changed: bool, ghost newChains: seq<seq<Pair>>)
      requires Ready(buckets, chains, S)
      modifies this, buckets, S
      ensures changed == (
        || (status == OVERWEIGHT && 0 < |buckets| <= Wrap(old(overweightBucketCount) * 4))
        || (status == UNDERWEIGHT && 100 <= |buckets| <= Wrap(old(emptyBucketCount) * 4)))
      ensures changed ==> |newBuckets| == |newChains| == 2 * |buckets| > 0 && SameLookups(chains, newChains)
      ensures changed ==> forall b :: 0 <= b < |newBuckets| ==> Chain(newBuckets[b].firstValue, newChains[b])
      ensures changed ==> overweightBucketCount == 0 && emptyBucketCount == 0
      ensures forall p :: p in S ==> p.element == old(p.element)
      ensures !changed ==> newBuckets == [] && unchanged(buckets) && unchanged(S)
    {
      newBuckets, changed, newChains := [], false, [];
      var currentNumber := |buckets|;
      var wanted, newNumber := NewNumber(status, currentNumber);
      if !wanted {
        return;
      }
      if newNumber == currentNumber {
        overweightBucketCount, emptyBucketCount := 0, 0;
        return;
      }
      newBuckets, newChains := Rehash(buckets, newNumber, chains, S);
      overweightBucketCount, emptyBucketCount := 0, 0;
      changed := true;
    }
  }
}
