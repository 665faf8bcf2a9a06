/**
 The consistent-hash ring of Consistent_Hashing/src/consistent.go. The hash is an arbitrary function; the circle and the
 members are maps and sets held in fields, and the sorted index is rebuilt after every change.
 */
module HashRing {
  type Hash = h: nat | h < 0x1_0000_0000

  datatype Result<T> = Ok(value: T) | EmptyCircle

  /** What a ring is configured with. */
  datatype Config = Config(hash: string -> Hash, replicas: nat)

  function Itoa(n: nat): string {
    if n < 10 then [Numeral(n)] else Itoa(n / 10) + [Numeral(n % 10)]
  }

  function Numeral(k: nat): char
    requires k < 10
  {
    '0' + k as char
  }

  function EltKey(elt: string, i: nat): string {
    Itoa(i) + elt
  }

  /** The `i`-th replica point of a member. */
  function Point(c: Config, elt: string, i: nat): Hash {
    c.hash(EltKey(elt, i))
  }

  ghost predicate IsPoint(c: Config, elt: string, h: Hash) {
    exists i :: 0 <= i < c.replicas && h == Point(c, elt, i)
  }

  // ---------- the clockwise owner ----------

  /** Going clockwise from `key`, `h` is the first point: the least one after it or, when there is none, the least of all. */
  ghost predicate Clockwise(points: set<Hash>, key: Hash, h: Hash) {
    && h in points
    && (if h > key then forall g :: g in points && g > key ==> h <= g
        else forall g :: g in points ==> g <= key && h <= g)
  }

  lemma ClockwiseUnique(points: set<Hash>, key: Hash, g: Hash, h: Hash)
    requires Clockwise(points, key, g) && Clockwise(points, key, h)
    ensures g == h
  { }

  ghost predicate Owns(circle: map<Hash, string>, key: Hash, owner: string) {
    exists h :: Clockwise(circle.Keys, key, h) && circle[h] == owner
  }

  /** Every key has an owner, and only one. */
  lemma {:induction false} OwnerUnique(circle: map<Hash, string>, key: Hash, a: string, b: string)
    requires Owns(circle, key, a) && Owns(circle, key, b)
    ensures a == b
  {
    var g :| Clockwise(circle.Keys, key, g) && circle[g] == a;
    var h :| Clockwise(circle.Keys, key, h) && circle[h] == b;
    ClockwiseUnique(circle.Keys, key, g, h);
  }

  // ---------- adding and removing a member ----------

  /** `after` is `before` with all the points of `elt` given to `elt`. */
  ghost predicate Grown(c: Config, before: map<Hash, string>, elt: string, after: map<Hash, string>) {
    forall h: Hash ::
      && (h in after <==> h in before || IsPoint(c, elt, h))
      && (h in after ==> after[h] == if IsPoint(c, elt, h) then elt else before[h])
  }

  /** `after` is `before` without the points of `elt`. */
  ghost predicate Shrunk(c: Config, before: map<Hash, string>, elt: string, after: map<Hash, string>) {
    forall h: Hash ::
      && (h in after <==> h in before && !IsPoint(c, elt, h))
      && (h in after ==> after[h] == before[h])
  }

  lemma {:induction false} PointMore(c: Config, elt: string, i: nat, h: Hash)
    ensures IsPoint(c.(replicas := i + 1), elt, h) <==> IsPoint(c.(replicas := i), elt, h) || h == Point(c, elt, i)
  {
    if h == Point(c, elt, i) { assert h == Point(c.(replicas := i + 1), elt, i); }
    if IsPoint(c.(replicas := i), elt, h) {
      var j :| 0 <= j < i && h == Point(c.(replicas := i), elt, j);
      assert h == Point(c.(replicas := i + 1), elt, j);
    }
    if IsPoint(c.(replicas := i + 1), elt, h) {
      var j :| 0 <= j < i + 1 && h == Point(c.(replicas := i + 1), elt, j);
      assert h == Point(c.(replicas := i), elt, j);
    }
  }

  lemma {:induction false} GrownMore(c: Config, before: map<Hash, string>, elt: string, mid: map<Hash, string>, i: nat)
    requires Grown(c.(replicas := i), before, elt, mid)
    ensures Grown(c.(replicas := i + 1), before, elt, mid[Point(c, elt, i) := elt])
  {
    forall h: Hash { PointMore(c, elt, i, h); }
  }

  lemma {:induction false} ShrunkMore(c: Config, before: map<Hash, string>, elt: string, mid: map<Hash, string>, i: nat)
    requires Shrunk(c.(replicas := i), before, elt, mid)
    ensures Shrunk(c.(replicas := i + 1), before, elt, mid - {Point(c, elt, i)})
  {
    forall h: Hash { PointMore(c, elt, i, h); }
  }

  /** Adding a member moves keys to that member only; points may even collide. */
  lemma {:induction false} AddMovesToNew(c: Config, before: map<Hash, string>, elt: string, after: map<Hash, string>,
                                         key: Hash, owner: string)
    requires Grown(c, before, elt, after) && Owns(after, key, owner) && owner != elt
    ensures Owns(before, key, owner)
  {
    var h :| Clockwise(after.Keys, key, h) && after[h] == owner;
    assert Clockwise(before.Keys, key, h);
  }

  /** The points of `elt` that are on the circle belong to it. */
  ghost predicate OwnPoints(c: Config, circle: map<Hash, string>, elt: string) {
    forall h: Hash :: h in circle && IsPoint(c, elt, h) ==> circle[h] == elt
  }

  /** Removing a member moves its own keys only. */
  lemma {:induction false} RemoveMovesOwn(c: Config, before: map<Hash, string>, elt: string, after: map<Hash, string>,
                                          key: Hash, owner: string)
    requires Shrunk(c, before, elt, after) && OwnPoints(c, before, elt)
    requires Owns(before, key, owner) && owner != elt
    ensures Owns(after, key, owner)
  {
    var h :| Clockwise(before.Keys, key, h) && before[h] == owner;
    assert Clockwise(after.Keys, key, h);
  }

  // ---------- the circle as a function of the members ----------

  /** No two members share a replica point. */
  ghost predicate NoClash(c: Config, members: set<string>) {
    forall a, b, h: Hash :: a in members && b in members && IsPoint(c, a, h) && IsPoint(c, b, h) ==> a == b
  }

  ghost predicate Exactly(c: Config, members: set<string>, circle: map<Hash, string>) {
    && (forall m, h: Hash :: m in members && IsPoint(c, m, h) ==> h in circle && circle[h] == m)
    && (forall h :: h in circle ==> circle[h] in members && IsPoint(c, circle[h], h))
  }

  /** The ring depends on the set of members only, whatever the history. */
  lemma {:induction false} SameMembersSameCircle(c: Config, members: set<string>, x: map<Hash, string>,
                                                 y: map<Hash, string>)
    requires Exactly(c, members, x) && Exactly(c, members, y)
    ensures x == y
  {
    forall h | h in x ensures h in y && y[h] == x[h] { assert IsPoint(c, x[h], h); }
    forall h | h in y ensures h in x && x[h] == y[h] { assert IsPoint(c, y[h], h); }
  }

  lemma {:induction false} GrownExactly(c: Config, members: set<string>, before: map<Hash, string>, elt: string,
                                        after: map<Hash, string>)
    requires Exactly(c, members, before) && Grown(c, before, elt, after) && NoClash(c, members + {elt})
    ensures Exactly(c, members + {elt}, after)
  {
    forall m, h: Hash | m in members + {elt} && IsPoint(c, m, h) ensures h in after && after[h] == m {
      assert m in members || m == elt;
      assert elt in members + {elt};
    }
  }

  /** Giving a member the points that it has already changes nothing. */
  lemma {:induction false} GrownAgain(c: Config, members: set<string>, before: map<Hash, string>, elt: string,
                                      after: map<Hash, string>)
    requires Exactly(c, members, before) && Grown(c, before, elt, after) && elt in members && c.replicas > 0
    ensures after == before && Point(c, elt, 0) in after
  {
    assert IsPoint(c, elt, Point(c, elt, 0));
    forall h: Hash | h in after ensures h in before && after[h] == before[h] { }
    forall h: Hash | h in before ensures h in after { }
  }

  lemma {:induction false} ShrunkExactly(c: Config, members: set<string>, before: map<Hash, string>, elt: string,
                                         after: map<Hash, string>)
    requires Exactly(c, members, before) && Shrunk(c, before, elt, after) && NoClash(c, members) && elt in members
    ensures Exactly(c, members - {elt}, after) && OwnPoints(c, before, elt)
  {
    forall m, h: Hash | m in members - {elt} && IsPoint(c, m, h) ensures h in after && after[h] == m {
      assert !IsPoint(c, elt, h);
    }
  }

  /** Every member of an exact circle owns a point of it: the owners are the members. */
  lemma {:induction false} OwnersAreMembers(c: Config, members: set<string>, circle: map<Hash, string>)
    requires Exactly(c, members, circle) && c.replicas > 0
    ensures circle.Values == members
  {
    forall m | m in members ensures m in circle.Values {
      var h := Point(c, m, 0);
      assert IsPoint(c, m, h);
      assert h in circle && circle[h] == m;
    }
  }

  // ---------- when replica keys coincide ----------

  predicate Digits(s: string) {
    forall k :: 0 <= k < |s| ==> '0' <= s[k] <= '9'
  }

  /** The number that a string of digits stands for. */
  function Value(s: string): nat
    requires Digits(s)
  {
    if s == "" then 0 else 10 * Value(s[..|s| - 1]) + (s[|s| - 1] - '0') as nat
  }

  /** Two names have a replica key in common. */
  ghost predicate ShareKey(a: string, b: string, replicas: nat) {
    exists i, j :: 0 <= i < replicas && 0 <= j < replicas && EltKey(a, i) == EltKey(b, j)
  }

  /** `a` is `b` behind some digits that, with a 1 in front, are still the index of a replica. */
  ghost predicate RunsInto(a: string, b: string, replicas: nat) {
    exists d :: d != "" && Digits(d) && Value("1" + d) < replicas && a == d + b
  }

  lemma {:induction false} ValueMore(s: string, k: nat)
    requires Digits(s) && k < 10
    ensures Digits(s + [Numeral(k)]) && Value(s + [Numeral(k)]) == 10 * Value(s) + k
  {
    var t := s + [Numeral(k)];
    assert t[..|t| - 1] == s;
    assert (Numeral(k) - '0') as nat == k;
  }

  lemma {:induction false} ItoaValue(n: nat)
    ensures Itoa(n) != "" && Digits(Itoa(n)) && Value(Itoa(n)) == n && (Itoa(n)[0] == '0' ==> n == 0)
  {
    if n < 10 {
      ItoaDigit(n);
    } else {
      ItoaValue(n / 10);
      ValueMore(Itoa(n / 10), n % 10);
      assert Itoa(n) == Itoa(n / 10) + [Numeral(n % 10)];
    }
  }

  lemma ItoaDigit(n: nat)
    requires n < 10
    ensures Itoa(n) == [Numeral(n)] && Digits(Itoa(n)) && Value(Itoa(n)) == n && (Numeral(n) == '0' ==> n == 0)
  {
    ValueMore("", n);
    assert "" + [Numeral(n)] == [Numeral(n)];
  }

  lemma ItoaMore(front: string, n: nat, k: nat)
    requires k < 10 && (if front == "" then n == 0 else n > 0 && Itoa(n) == front)
    ensures Itoa(10 * n + k) == front + [Numeral(k)]
  {
    assert (10 * n + k) / 10 == n && (10 * n + k) % 10 == k;
  }

  lemma LastDigit(s: string) returns (k: nat)
    requires s != "" && Digits(s)
    ensures k < 10 && Value(s) == 10 * Value(s[..|s| - 1]) + k && s == s[..|s| - 1] + [Numeral(k)]
    ensures |s| == 1 && s[0] != '0' ==> k > 0
  {
    k := (s[|s| - 1] - '0') as nat;
  }

  lemma {:induction false} ValueItoa(s: string)
    requires s != "" && Digits(s) && s[0] != '0'
    ensures Itoa(Value(s)) == s && Value(s) > 0
  {
    var front := s[..|s| - 1];
    var k := LastDigit(s);
    var n := Value(front);
    if front != "" { ValueItoa(front); } else { assert n == 0; }
    ItoaMore(front, n, k);
    var v := 10 * n + k;
    assert Itoa(v) == s;
    assert v == Value(s) > 0;
  }

  /** More in front of the same digits is more, and digits behind add digits. */
  lemma {:induction false} ValueBehind(a: string, b: string, d: string)
    requires Digits(a) && Digits(b) && Digits(d) && Value(a) <= Value(b)
    ensures Value(a) <= Value(a + d) <= Value(b + d) && (d != "" ==> 10 * Value(a) <= Value(a + d))
  {
    if d == "" {
      assert a + d == a && b + d == b;
    } else {
      var front := d[..|d| - 1];
      ValueBehind(a, b, front);
      assert (a + d)[..|a + d| - 1] == a + front && (b + d)[..|b + d| - 1] == b + front;
    }
  }

  /** Two ways to cut the same string. */
  lemma {:induction false} Split(x: string, a: string, y: string, b: string) returns (d: string)
    requires x + a == y + b && |x| <= |y|
    ensures y == x + d && a == d + b
  {
    d := y[|x|..];
    assert x == (y + b)[..|x|] == y[..|x|];
    assert a == (x + a)[|x|..] == (y + b)[|x|..];
  }

  lemma {:induction false} One()
    ensures Digits("1") && Value("1") == 1 && Itoa(1) == "1"
  {
    ValueMore("", 1);
    assert "" + [Numeral(1)] == "1";
  }

  lemma Behind(x: string, d: string, b: string)
    ensures x + (d + b) == (x + d) + b
  { }

  lemma {:induction false} LongerRunsInto(x: string, a: string, y: string, b: string, replicas: nat)
    requires x + a == y + b && |x| < |y| && Digits(x) && Digits(y) && Value(x) > 0 && Value(y) < replicas
    ensures RunsInto(a, b, replicas)
  {
    var d := Split(x, a, y, b);
    One();
    assert forall k :: 0 <= k < |d| ==> d[k] == y[|x| + k];
    ValueBehind("1", x, d);
  }

  /** A longer index in front of `b` reads as a shorter one in front of `a`. */
  lemma {:induction false} KeyRunsInto(a: string, b: string, i: nat, j: nat, replicas: nat)
    requires EltKey(a, i) == EltKey(b, j) && |Itoa(i)| < |Itoa(j)| && j < replicas
    ensures RunsInto(a, b, replicas)
  {
    ItoaValue(i);
    ItoaValue(j);
    assert Itoa(j)[0] == EltKey(b, j)[0] == Itoa(i)[0];
    LongerRunsInto(Itoa(i), a, Itoa(j), b, replicas);
  }

  lemma {:induction false} RunningKey(a: string, b: string, replicas: nat)
    requires RunsInto(a, b, replicas)
    ensures ShareKey(a, b, replicas) && a != b
  {
    var d :| d != "" && Digits(d) && Value("1" + d) < replicas && a == d + b;
    var j := Value("1" + d);
    ValueItoa("1" + d);
    One();
    ValueBehind("1", "1", d);
    Behind("1", d, b);
    assert EltKey(a, 1) == EltKey(b, j);
  }

  /**
   Replica keys put the index in front of the name without a separator. Two names have a key in common exactly when one
   is the other behind digits that an index has room for.
   */
  lemma {:induction false} WhenKeysCoincide(a: string, b: string, replicas: nat)
    requires a != b
    ensures ShareKey(a, b, replicas) <==> RunsInto(a, b, replicas) || RunsInto(b, a, replicas)
  {
    if ShareKey(a, b, replicas) {
      var i, j :| 0 <= i < replicas && 0 <= j < replicas && EltKey(a, i) == EltKey(b, j);
      if |Itoa(i)| < |Itoa(j)| {
        KeyRunsInto(a, b, i, j, replicas);
      } else if |Itoa(j)| < |Itoa(i)| {
        KeyRunsInto(b, a, j, i, replicas);
      } else {
        var d := Split(Itoa(i), a, Itoa(j), b);
        assert false;
      }
    }
    if RunsInto(a, b, replicas) { RunningKey(a, b, replicas); }
    if RunsInto(b, a, replicas) {
      RunningKey(b, a, replicas);
      var i, j :| 0 <= i < replicas && 0 <= j < replicas && EltKey(b, i) == EltKey(a, j);
      assert EltKey(a, j) == EltKey(b, i);
    }
  }

  /** With the twenty replicas of New, it takes exactly one digit. */
  lemma {:induction false} WithTwentyReplicas(a: string, b: string)
    ensures RunsInto(a, b, 20) <==> a != "" && '0' <= a[0] <= '9' && a[1..] == b
  {
    One();
    if RunsInto(a, b, 20) {
      var d :| d != "" && Digits(d) && Value("1" + d) < 20 && a == d + b;
      var front := d[..|d| - 1];
      assert ("1" + d)[..|"1" + d| - 1] == "1" + front;
      ValueBehind("1", "1", front);
      assert d == [d[0]];
    }
    if a != "" && '0' <= a[0] <= '9' && a[1..] == b {
      var d := [a[0]];
      assert ("1" + d)[..1] == "1";
      assert a == d + b;
    }
  }

  /** The hash keeps the replica keys of the members apart. */
  ghost predicate KeepsApart(c: Config, members: set<string>) {
    forall a, b, i, j :: a in members && b in members && 0 <= i < c.replicas && 0 <= j < c.replicas && Point(c, a, i) == Point(c, b, j)
      ==> EltKey(a, i) == EltKey(b, j)
  }

  ghost predicate NoneRunsInto(members: set<string>, replicas: nat) {
    forall a, b :: a in members && b in members ==> !RunsInto(a, b, replicas)
  }

  /**
   No hash keeps the members of a ring apart when one is another behind such digits; and when none is, every hash does
   that has no collisions of its own among their keys.
   */
  lemma {:induction false} WhenPointsClash(c: Config, members: set<string>)
    ensures NoClash(c, members) ==> NoneRunsInto(members, c.replicas)
    ensures KeepsApart(c, members) ==> (NoClash(c, members) <==> NoneRunsInto(members, c.replicas))
  {
    forall a, b | a in members && b in members && RunsInto(a, b, c.replicas) ensures !NoClash(c, members) {
      RunningKey(a, b, c.replicas);
      var i, j :| 0 <= i < c.replicas && 0 <= j < c.replicas && EltKey(a, i) == EltKey(b, j);
      var h := Point(c, a, i);
      assert h == Point(c, b, j);
      assert IsPoint(c, a, h) && IsPoint(c, b, h);
    }
    if KeepsApart(c, members) && NoneRunsInto(members, c.replicas) {
      forall a, b, h: Hash | a in members && b in members && IsPoint(c, a, h) && IsPoint(c, b, h) ensures a == b {
        var i :| 0 <= i < c.replicas && h == Point(c, a, i);
        var j :| 0 <= j < c.replicas && h == Point(c, b, j);
        assert EltKey(a, i) == EltKey(b, j);
        if a != b { WhenKeysCoincide(a, b, c.replicas); }
      }
    }
  }

  /** For example, "x" and "1x" always share a point. */
  lemma {:induction false} IndexRunsIntoName(c: Config)
    requires c.replicas == 20
    ensures !NoClash(c, {"x", "1x"})
  {
    var a, b := "1x", "x";
    WithTwentyReplicas(a, b);
    WhenPointsClash(c, {b, a});
  }

  // ---------- first appearances ----------

  /** The elements among the first `k` of `s`, in the order in which they first appear. */
  function Firsts(s: seq<string>, k: nat): seq<string>
    requires k <= |s|
  {
    if k == 0 then []
    else
      Append(Firsts(s, k - 1), s[k - 1])
  }

  function Append(found: seq<string>, member: string): seq<string> {
    if member in found then found else found + [member]
  }

  ghost predicate NoRepeats<T>(s: seq<T>) {
    forall i, j :: 0 <= i < j < |s| ==> s[i] != s[j]
  }

  /** They are exactly the elements of `s`, each once. */
  lemma {:induction false} FirstsDistinct(s: seq<string>, k: nat)
    requires k <= |s|
    ensures NoRepeats(Firsts(s, k)) && forall x :: x in Firsts(s, k) <==> x in s[..k]
  {
    if k > 0 {
      FirstsDistinct(s, k - 1);
      assert s[..k] == s[..k - 1] + [s[k - 1]];
    }
  }

  lemma {:induction false} FirstsPrefix(s: seq<string>, k: nat, n: nat)
    requires k <= n <= |s|
    ensures Firsts(s, k) <= Firsts(s, n)
  {
    if k < n { FirstsPrefix(s, k, n - 1); }
  }

  /** And they are in the order of their first positions: whatever precedes one in `s` precedes it here. */
  lemma {:induction false} FirstsOrdered(s: seq<string>, k: nat, i: nat, j: nat)
    requires k <= |s| && i < j < |Firsts(s, k)|
    ensures exists p, q :: 0 <= p < q < k && s[p] == Firsts(s, k)[i] && s[q] == Firsts(s, k)[j] && s[q] !in s[..q]
  {
    FirstsDistinct(s, k - 1);
    if j < |Firsts(s, k - 1)| {
      FirstsOrdered(s, k - 1, i, j);
    } else {
      assert Firsts(s, k - 1)[i] in s[..k - 1];
      var p :| 0 <= p < k - 1 && s[p] == Firsts(s, k - 1)[i];
      assert s[p] == Firsts(s, k)[i] && s[k - 1] == Firsts(s, k)[j] && s[k - 1] !in s[..k - 1];
    }
  }

  ghost function Elements(s: seq<string>): set<string> {
    set x | x in s
  }

  lemma {:induction false} NoRepeatsCount(s: seq<string>)
    requires NoRepeats(s)
    ensures |Elements(s)| == |s|
  {
    if s != [] {
      var t := s[..|s| - 1];
      NoRepeatsCount(t);
      assert Elements(s) == Elements(t) + {s[|s| - 1]};
      assert s[|s| - 1] !in Elements(t);
    }
  }

  // ---------- once round the circle ----------

  ghost predicate StrictlySorted(s: seq<Hash>) {
    forall i, j :: 0 <= i < j < |s| ==> s[i] < s[j]
  }

  ghost predicate Indexing(circle: map<Hash, string>, sorted: seq<Hash>) {
    StrictlySorted(sorted) && forall h :: h in sorted <==> h in circle
  }

  function Wrapped(start: nat, k: nat, length: nat): (i: nat)
    requires start < length && k < length
    ensures i < length
  {
    if start + k < length then start + k else start + k - length
  }

  /** The first `n` owners met going clockwise from index `start`. */
  ghost function Walk(circle: map<Hash, string>, sorted: seq<Hash>, start: nat, n: nat): (w: seq<string>)
    requires Indexing(circle, sorted) && start < |sorted| && n <= |sorted|
    ensures |w| == n
  {
    if n == 0 then [] else Walk(circle, sorted, start, n - 1) + [OwnerAt(circle, sorted, Wrapped(start, n - 1, |sorted|))]
  }

  function OwnerAt(circle: map<Hash, string>, sorted: seq<Hash>, i: nat): string
    requires Indexing(circle, sorted) && i < |sorted|
  {
    assert sorted[i] in sorted;
    circle[sorted[i]]
  }

  lemma {:induction false} WalkAt(circle: map<Hash, string>, sorted: seq<Hash>, start: nat, n: nat, k: nat)
    requires Indexing(circle, sorted) && start < |sorted| && k < n <= |sorted|
    ensures Walk(circle, sorted, start, n)[k] == OwnerAt(circle, sorted, Wrapped(start, k, |sorted|))
  {
    if k < n - 1 { WalkAt(circle, sorted, start, n - 1, k); }
  }

  /** Once round. */
  ghost function Round(circle: map<Hash, string>, sorted: seq<Hash>, start: nat): (w: seq<string>)
    requires Indexing(circle, sorted) && start < |sorted|
    ensures |w| == |sorted|
  {
    Walk(circle, sorted, start, |sorted|)
  }

  /** Once round meets every owner. */
  lemma {:induction false} WalkMeetsAll(circle: map<Hash, string>, sorted: seq<Hash>, start: nat)
    requires Indexing(circle, sorted) && start < |sorted|
    ensures Elements(Round(circle, sorted, start)) == circle.Values
    ensures |Firsts(Round(circle, sorted, start), |sorted|)| == |circle.Values|
  {
    var w := Round(circle, sorted, start);
    forall x | x in circle.Values ensures x in w {
      var h :| h in circle && circle[h] == x;
      assert h in sorted;
      var i :| 0 <= i < |sorted| && sorted[i] == h;
      var k := if i >= start then i - start else i + |sorted| - start;
      WalkAt(circle, sorted, start, |w|, k);
    }
    forall x | x in w ensures x in circle.Values {
      var k :| 0 <= k < |w| && w[k] == x;
      WalkAt(circle, sorted, start, |w|, k);
    }
    FirstsDistinct(w, |w|);
    assert w[..|w|] == w;
    NoRepeatsCount(Firsts(w, |w|));
    assert Elements(Firsts(w, |w|)) == Elements(w);
  }

  /** The first owner met, and how many there are. */
  lemma {:induction false} WalkCount(circle: map<Hash, string>, sorted: seq<Hash>, start: nat, w: seq<string>)
    requires Indexing(circle, sorted) && start < |sorted| && w == Round(circle, sorted, start)
    ensures sorted[start] in circle && w[0] == circle[sorted[start]] && Firsts(w, 1) == [w[0]]
    ensures |Firsts(w, |w|)| == |circle.Values| >= 1 && Firsts(w, |w|)[0] == w[0]
    ensures |circle.Values| >= 2 ==> |w| >= 2
    ensures [w[0]] == Firsts(w, |w|)[..1]
  {
    WalkAt(circle, sorted, start, |w|, 0);
    WalkMeetsAll(circle, sorted, start);
    WalkStep(w, 0);
    WalkDone(w, 1, Firsts(w, |w|));
  }

  /** One more step of a walk that has met fewer than all owners. */
  lemma {:induction false} WalkStep(w: seq<string>, k: nat)
    requires k < |w|
    ensures Firsts(w, k + 1) == Append(Firsts(w, k), w[k])
    ensures |Firsts(w, k + 1)| < |Firsts(w, |w|)| ==> k + 1 < |w|
  { }

  /** When as many as wanted have been met, they are the first ones of all. */
  lemma {:induction false} WalkDone(w: seq<string>, k: nat, all: seq<string>)
    requires k <= |w| && all == Firsts(w, |w|)
    ensures |Firsts(w, k)| <= |all| && Firsts(w, k) == all[..|Firsts(w, k)|]
  {
    FirstsPrefix(w, k, |w|);
  }

  // ---------- the ring ----------

  method Sort(hashes: seq<Hash>) returns (sorted: seq<Hash>)
    requires NoRepeats(hashes)
    ensures StrictlySorted(sorted) && forall h :: h in sorted <==> h in hashes
  {
    sorted := [];
    for n := 0 to |hashes|
      invariant StrictlySorted(sorted) && forall h :: h in sorted <==> h in hashes[..n]
    {
      var at := 0;
      while at < |sorted| && sorted[at] < hashes[n]
        invariant at <= |sorted| && forall k :: 0 <= k < at ==> sorted[k] < hashes[n]
      {
        at := at + 1;
      }
      ghost var was := sorted;
      assert hashes[n] !in was;
      sorted := sorted[..at] + [hashes[n]] + sorted[at..];
      Inserted(was, at, hashes[n]);
      assert hashes[..n + 1] == hashes[..n] + [hashes[n]];
    }
  }

  lemma {:induction false} Inserted(s: seq<Hash>, at: nat, x: Hash)
    requires StrictlySorted(s) && at <= |s| && x !in s
    requires (forall k :: 0 <= k < at ==> s[k] < x) && (at < |s| ==> s[at] >= x)
    ensures StrictlySorted(s[..at] + [x] + s[at..])
    ensures forall h :: h in s[..at] + [x] + s[at..] <==> h in s || h == x
  {
    var r := s[..at] + [x] + s[at..];
    forall h ensures h in r <==> h in s || h == x {
      if h in s {
        var k :| 0 <= k < |s| && s[k] == h;
        assert r[if k < at then k else k + 1] == h;
      }
      if h == x { assert r[at] == h; }
    }
    forall k | at <= k < |s| ensures s[k] > x {
      assert s[k] in s;
    }
  }

  /** Wraps the loop index and looks up the owner there: the `k`-th of the walk. */
  method At(circle: map<Hash, string>, sorted: seq<Hash>, i: nat, ghost begin: nat, ghost w: seq<string>, ghost k: nat)
    returns (j: nat, elem: string)
    requires Indexing(circle, sorted) && begin < |sorted| && k < |sorted| && w == Round(circle, sorted, begin)
    requires i == if begin + k <= |sorted| then begin + k else begin + k - |sorted|
    ensures j == Wrapped(begin, k, |sorted|) && elem == w[k]
  {
    j := i;
    if j >= |sorted| {
      j := 0;
    }
    WalkAt(circle, sorted, begin, |w|, k);
    elem := OwnerAt(circle, sorted, j);
  }

  // ---------- when the walks end ----------

  /** The loop index when the guard of a walk from `start` is tested for the time `k`. */
  function GuardIndex(start: nat, length: nat, k: nat): nat {
    if k <= 1 then start + 1 else (if GuardIndex(start, length, k - 1) >= length then 0 else GuardIndex(start, length, k - 1)) + 1
  }

  /** What has been found by then. */
  ghost function FoundBy(circle: map<Hash, string>, sorted: seq<Hash>, start: nat, k: nat): (found: seq<string>)
    requires Indexing(circle, sorted) && start < |sorted|
    decreases k
  {
    if k <= 1 then [OwnerAt(circle, sorted, start)]
    else
      var i := GuardIndex(start, |sorted|, k - 1);
      Append(FoundBy(circle, sorted, start, k - 1), OwnerAt(circle, sorted, if i >= |sorted| then 0 else i))
  }

  /** The walk stops at some test: `m` owners have been found, or the index is back where it began. */
  ghost predicate Ends(circle: map<Hash, string>, sorted: seq<Hash>, start: nat, m: int)
    requires Indexing(circle, sorted) && start < |sorted|
  {
    exists k :: k >= 1 && (|FoundBy(circle, sorted, start, k)| == m || GuardIndex(start, |sorted|, k) == start)
  }

  lemma {:induction false} GuardRound(start: nat, length: nat, k: nat)
    requires start < length && 1 <= k <= length
    ensures GuardIndex(start, length, k) == if start + k <= length then start + k else start + k - length
  {
    if k > 1 { GuardRound(start, length, k - 1); }
  }

  lemma {:induction false} GuardNotZero(length: nat, k: nat)
    requires length > 0
    ensures GuardIndex(0, length, k) > 0
  { }

  /** No owner is found twice, and at least the first one is. */
  lemma {:induction false} FoundOwners(circle: map<Hash, string>, sorted: seq<Hash>, start: nat, k: nat)
    requires Indexing(circle, sorted) && start < |sorted|
    ensures var found := FoundBy(circle, sorted, start, k);
      NoRepeats(found) && 1 <= |found| <= |circle.Values| && forall x :: x in found ==> x in circle.Values
  {
    if k > 1 { FoundOwners(circle, sorted, start, k - 1); }
    var found := FoundBy(circle, sorted, start, k);
    forall i: nat | i < |sorted| ensures OwnerAt(circle, sorted, i) in circle.Values { assert sorted[i] in circle; }
    NoRepeatsCount(found);
    Within(Elements(found), circle.Values);
  }

  lemma {:induction false} Within(a: set<string>, b: set<string>)
    requires a <= b
    ensures |a| <= |b|
  {
    assert b == a + (b - a);
  }

  /** In the first round, what is found are the first appearances. */
  lemma {:induction false} FoundFirsts(circle: map<Hash, string>, sorted: seq<Hash>, start: nat, k: nat)
    requires Indexing(circle, sorted) && start < |sorted| && 1 <= k <= |sorted|
    ensures FoundBy(circle, sorted, start, k) == Firsts(Round(circle, sorted, start), k)
  {
    var w := Round(circle, sorted, start);
    WalkAt(circle, sorted, start, |w|, k - 1);
    if k > 1 {
      FoundFirsts(circle, sorted, start, k - 1);
      FoundStep(circle, sorted, start, k);
      assert Firsts(w, k) == Append(Firsts(w, k - 1), w[k - 1]);
    } else {
      assert Firsts(w, 0) == [] && Firsts(w, 1) == Append([], w[0]);
    }
  }

  lemma {:induction false} FoundStep(circle: map<Hash, string>, sorted: seq<Hash>, start: nat, k: nat)
    requires Indexing(circle, sorted) && start < |sorted| && 1 < k <= |sorted|
    ensures FoundBy(circle, sorted, start, k)
         == Append(FoundBy(circle, sorted, start, k - 1), OwnerAt(circle, sorted, Wrapped(start, k - 1, |sorted|)))
  {
    GuardRound(start, |sorted|, k - 1);
  }

  /** Sizes grow by steps of at most one, so every size up to the last is reached. */
  lemma {:induction false} SizeReached(w: seq<string>, n: nat, m: nat) returns (k: nat)
    requires 1 <= n <= |w| && 1 <= m <= |Firsts(w, n)|
    ensures 1 <= k <= n && |Firsts(w, k)| == m
  {
    k := n;
    assert Firsts(w, 0) == [] && |Firsts(w, 1)| == 1;
    if |Firsts(w, n)| > m {
      k := SizeReached(w, n - 1, m);
    }
  }

  /**
   The walks end exactly when they begin behind index 0, or as many owners are wanted as there are. From index 0 the
   guard never stops them: the index is set to 0 in the body and increased before the next test.
   */
  lemma {:induction false} WhenWalksEnd(circle: map<Hash, string>, sorted: seq<Hash>, start: nat, m: int)
    requires Indexing(circle, sorted) && start < |sorted|
    ensures Ends(circle, sorted, start, m) <==> start > 0 || 1 <= m <= |circle.Values|
  {
    var n := |sorted|;
    if start > 0 {
      GuardRound(start, n, n);
      assert GuardIndex(start, n, n) == start;
    } else if 1 <= m <= |circle.Values| {
      var w := Round(circle, sorted, start);
      WalkMeetsAll(circle, sorted, start);
      var k := SizeReached(w, n, m);
      FoundFirsts(circle, sorted, start, k);
    } else {
      forall k | k >= 1 ensures |FoundBy(circle, sorted, start, k)| != m && GuardIndex(start, n, k) != start {
        FoundOwners(circle, sorted, start, k);
        GuardNotZero(n, k);
      }
    }
  }

  /** The first `m` of all, or all when there is no such number of them. */
  function Cut(all: seq<string>, m: int): seq<string> {
    if 1 <= m <= |all| then all[..m] else all
  }

  lemma CutAt(all: seq<string>, res: seq<string>, m: int)
    requires 1 <= |res| == m <= |all| && res == all[..|res|]
    ensures res == Cut(all, m)
  { }

  /** One more owner met on the way round. */
  lemma {:induction false} Met(w: seq<string>, k: nat, all: seq<string>)
    requires 1 <= k < |w| && all == Firsts(w, |w|)
    ensures Firsts(w, k + 1) == Append(Firsts(w, k), w[k])
    ensures |Firsts(w, k + 1)| <= |all| && Firsts(w, k + 1) == all[..|Firsts(w, k + 1)|]
    ensures k + 1 == |w| ==> Firsts(w, k + 1) == all
  {
    WalkDone(w, k + 1, all);
  }

  lemma SecondMet(w: seq<string>, k: nat, a: string, b: string, all: seq<string>)
    requires k < |w| && Firsts(w, k) == [a] && b == w[k] != a
    requires |Firsts(w, k + 1)| <= |all| && Firsts(w, k + 1) == all[..|Firsts(w, k + 1)|]
    ensures |all| >= 2 && all[0] == a && all[1] == b
  {
    assert Firsts(w, k + 1) == Append([a], b) == [a, b];
  }

  /** The loop of `GetN`: from index `begin` until `m` distinct owners are found, or once round. */
  method Collect(circle: map<Hash, string>, sorted: seq<Hash>, begin: nat, m: int, ghost w: seq<string>,
                 ghost all: seq<string>)
    returns (res: seq<string>)
    requires Indexing(circle, sorted) && begin < |sorted| && (begin > 0 || 1 <= m <= |circle.Values|)
    requires w == Round(circle, sorted, begin) && all == Firsts(w, |w|)
    ensures res == Cut(all, m)
  {
    WalkCount(circle, sorted, begin, w);
    res := [circle[sorted[begin]]];
    if |res| == m {
      CutAt(all, res, m);
      return;
    }
    var i := begin + 1;
    ghost var k := 1;
    while i != begin
      invariant 1 <= k <= |w| && res == Firsts(w, k) && |res| != m && (1 <= m <= |all| ==> |res| < m && k < |w|)
      invariant i == if begin + k <= |w| then begin + k else begin + k - |w|
      decreases |w| - k
    {
      var elem;
      i, elem := At(circle, sorted, i, begin, w, k);
      Met(w, k, all);
      res := Append(res, elem);
      if |res| == m {
        CutAt(all, res, m);
        return;
      }
      k := k + 1;
      i := i + 1;
    }
    assert k == |w| && !(1 <= m <= |all|);
  }

  /**
   The loop of `GetTwo`: from index `begin` until an owner other than the first is found, or once round, and then it has
   only met the first one again.
   */
  method Other(circle: map<Hash, string>, sorted: seq<Hash>, begin: nat, a: string, ghost w: seq<string>,
               ghost all: seq<string>)
    returns (b: string)
    requires Indexing(circle, sorted) && begin < |sorted| && (begin > 0 || 2 <= |circle.Values|)
    requires w == Round(circle, sorted, begin) && all == Firsts(w, |w|) && a == w[0]
    ensures |all| >= 1 && all[0] == a && b == if |all| >= 2 then all[1] else a
  {
    WalkCount(circle, sorted, begin, w);
    b := "";
    var i := begin + 1;
    ghost var k := 1;
    while i != begin
      invariant 1 <= k <= |w| && Firsts(w, k) == [a] && (|all| >= 2 ==> k < |w|) && b == if k == 1 then "" else a
      invariant i == if begin + k <= |w| then begin + k else begin + k - |w|
      decreases |w| - k
    {
      i, b := At(circle, sorted, i, begin, w, k);
      Met(w, k, all);
      if b != a {
        SecondMet(w, k, a, b, all);
        return;
      }
      k := k + 1;
      i := i + 1;
    }
  }

  class Consistent {
    const config: Config
    var circle: map<Hash, string>
    var members: set<string>
    var sortedHashes: seq<Hash>
    var count: int

    /** The index is the sorted key set of the circle. */
    ghost predicate Indexed()
      reads this
    {
      Indexing(circle, sortedHashes)
    }

    /** What holds after any run in which points do not collide and only non-members are added, only members removed. */
    ghost predicate Valid()
      reads this
    {
      && config.replicas > 0 && Indexed() && count == |members|
      && NoClash(config, members) && Exactly(config, members, circle)
    }

    /** Such a ring meets what `GetN` and `GetTwo` need. */
    lemma {:induction false} Counted()
      requires Valid()
      ensures Indexed() && count == |circle.Values|
    {
      OwnersAreMembers(config, members, circle);
    }

    constructor (config: Config)
      requires config.replicas > 0
      ensures Valid() && members == {} && this.config == config
    {
      this.config := config;
      circle, members, sortedHashes, count := map[], {}, [], 0;
    }

    method UpdateSortedHashes()
      modifies this`sortedHashes
      ensures Indexed()
    {
      var hashes: seq<Hash> := [];
      var todo := circle.Keys;
      while todo != {}
        invariant todo <= circle.Keys && NoRepeats(hashes)
        invariant forall h :: h in hashes <==> h in circle && h !in todo
        decreases |todo|
      {
        var k :| k in todo;
        hashes := hashes + [k];
        todo := todo - {k};
      }
      sortedHashes := Sort(hashes);
    }

    /** The general effect of adding, with or without collisions. */
    method AddPoints(elt: string)
      requires config.replicas > 0
      modifies this
      ensures Indexed() && Grown(config, old(circle), elt, circle)
      ensures members == old(members) + {elt} && count == old(count) + 1
    {
      for i := 0 to config.replicas
        invariant members == old(members) && count == old(count)
        invariant Grown(config.(replicas := i), old(circle), elt, circle)
      {
        GrownMore(config, old(circle), elt, circle, i);
        circle := circle[Point(config, elt, i) := elt];
      }
      members := members + {elt};
      UpdateSortedHashes();
      count := count + 1;
    }

    /** A new member without collisions keeps the ring valid; adding a member again makes the count drift. */
    method Add(elt: string)
      requires config.replicas > 0
      modifies this
      ensures Indexed() && members == old(members) + {elt} && count == old(count) + 1 && Grown(config, old(circle), elt, circle)
      ensures old(Valid()) && NoClash(config, members) ==> (Valid() <==> elt !in old(members))
    {
      AddPoints(elt);
      if old(Valid()) && NoClash(config, members) {
        GrownExactly(config, old(members), old(circle), elt, circle);
      }
    }

    method RemovePoints(elt: string)
      requires config.replicas > 0
      modifies this
      ensures Indexed() && Shrunk(config, old(circle), elt, circle)
      ensures members == old(members) - {elt} && count == old(count) - 1
    {
      for i := 0 to config.replicas
        invariant members == old(members) && count == old(count)
        invariant Shrunk(config.(replicas := i), old(circle), elt, circle)
      {
        ShrunkMore(config, old(circle), elt, circle, i);
        circle := circle - {Point(config, elt, i)};
      }
      members := members - {elt};
      UpdateSortedHashes();
      count := count - 1;
    }

    /** Removing a member of a valid ring keeps it valid; removing anything else makes the count drift. */
    method Remove(elt: string)
      requires config.replicas > 0
      modifies this
      ensures Indexed() && members == old(members) - {elt} && count == old(count) - 1 && Shrunk(config, old(circle), elt, circle)
      ensures old(Valid()) ==> (Valid() <==> elt in old(members))
      ensures old(Valid()) && elt in old(members) ==> OwnPoints(config, old(circle), elt)
    {
      RemovePoints(elt);
      if old(Valid()) && elt in old(members) {
        ShrunkExactly(config, old(members), old(circle), elt, circle);
      }
    }

    /** Removes what is not listed, then adds what is missing. */
    method Set(elts: seq<string>)
      requires config.replicas > 0 && Indexed()
      modifies this
      ensures Indexed() && members == Elements(elts)
      ensures old(Valid()) && NoClash(config, members) ==> Valid()
    {
      var todo := members;
      while todo != {}
        invariant Indexed() && (old(Valid()) ==> Valid()) && todo <= members
        invariant forall m :: m in members && m !in todo ==> m in elts
        decreases |todo|
      {
        var k :| k in todo;
        todo := todo - {k};
        if k !in elts {
          Remove(k);
        }
      }
      for i := 0 to |elts|
        invariant Indexed() && (old(Valid()) && NoClash(config, Elements(elts)) ==> Valid()) && members <= Elements(elts)
        invariant forall j :: 0 <= j < i ==> elts[j] in members
      {
        if elts[i] !in members {
          assert members + {elts[i]} <= Elements(elts);
          Add(elts[i]);
        }
      }
    }

    /** The first index whose hash is greater than `key`, or 0. */
    method Search(key: Hash) returns (i: nat)
      requires Indexed() && circle != map[]
      ensures i < |sortedHashes| && Clockwise(circle.Keys, key, sortedHashes[i])
    {
      assert |sortedHashes| > 0 by { var h :| h in circle; }
      i := 0;
      var j := |sortedHashes|;
      while i < j
        invariant i <= j <= |sortedHashes|
        invariant forall k :: 0 <= k < i ==> sortedHashes[k] <= key
        invariant forall k :: j <= k < |sortedHashes| ==> sortedHashes[k] > key
      {
        var m := (i + j) / 2;
        if !(sortedHashes[m] > key) { i := m + 1; } else { j := m; }
      }
      if i >= |sortedHashes| {
        i := 0;
      }
    }

    method Get(name: string) returns (r: Result<string>)
      requires Indexed()
      ensures r.EmptyCircle? <==> circle == map[]
      ensures r.Ok? ==> Owns(circle, config.hash(name), r.value)
    {
      if |circle| == 0 {
        return EmptyCircle;
      }
      var i := Search(config.hash(name));
      return Ok(circle[sortedHashes[i]]);
    }

    /** The walk from the point of `name` ends when `m` owners are wanted: see `WhenWalksEnd`. */
    ghost predicate MayWalk(name: string, m: int)
      requires Indexed()
      reads this
    {
      forall start :: 0 <= start < |sortedHashes| && Clockwise(circle.Keys, config.hash(name), sortedHashes[start]) ==>
        Ends(circle, sortedHashes, start, m)
    }

    /** A ring whose count is right lets every walk for at least one owner end. */
    lemma MayAlwaysWalk(name: string, n: int)
      requires Indexed() && count == |circle.Values| && n >= 1
      ensures MayWalk(name, if count < n then count else n)
    {
      var m := if count < n then count else n;
      forall start | 0 <= start < |sortedHashes| ensures Ends(circle, sortedHashes, start, m) {
        WalkMeetsAll(circle, sortedHashes, start);
        assert OwnerAt(circle, sortedHashes, start) in circle.Values by { assert sortedHashes[start] in circle; }
        WhenWalksEnd(circle, sortedHashes, start, m);
      }
    }

    /** With more owners wanted than there are, the walk ends unless the search gives index 0. */
    lemma {:induction false} DriftedWalks(name: string, m: int)
      requires Indexed() && sortedHashes != [] && m > |circle.Values|
      ensures MayWalk(name, m) <==> !Clockwise(circle.Keys, config.hash(name), sortedHashes[0])
    {
      forall start | 0 <= start < |sortedHashes| ensures Ends(circle, sortedHashes, start, m) <==> start > 0 {
        WhenWalksEnd(circle, sortedHashes, start, m);
      }
    }

    /**
     A ring whose count has drifted: a member is added again. From then on a walk for as many owners as are counted does
     not end for the names whose search gives index 0, and for no others.
     */
    method AddAgain(elt: string)
      requires Valid() && elt in members
      modifies this
      ensures members == old(members) && circle == old(circle) && Indexed() && sortedHashes != []
      ensures count == |members| + 1 == |circle.Values| + 1
      ensures forall name :: MayWalk(name, count) <==> !Clockwise(circle.Keys, config.hash(name), sortedHashes[0])
    {
      OwnersAreMembers(config, members, circle);
      Add(elt);
      GrownAgain(config, members, old(circle), elt, circle);
      assert Point(config, elt, 0) in sortedHashes;
      forall name { DriftedWalks(name, count); }
    }

    /**
     The walk goes on until `n` distinct owners are found. When the count is right, it cannot miss: after less than one
     round there are as many as the circle has, so the loop ends at its break even when it starts at index 0, where its
     own guard would not stop it. With a count that has drifted, or with an `n` of 0, it gives all owners, or does not
     end; a negative number makes the allocation of the result panic.
     */
    method GetN(name: string, n: int) returns (r: Result<seq<string>>, ghost start: nat)
      requires Indexed() && (circle == map[] || ((if count < n then count else n) >= 0 && MayWalk(name, if count < n then count else n)))
      ensures r.EmptyCircle? <==> circle == map[]
      ensures r.Ok? ==> start < |sortedHashes| && Clockwise(circle.Keys, config.hash(name), sortedHashes[start])
      ensures r.Ok? ==>
        var all := Firsts(Round(circle, sortedHashes, start), |sortedHashes|);
        |all| == |circle.Values| && r.value == Cut(all, if count < n then count else n)
    {
      start := 0;
      if |circle| == 0 {
        return EmptyCircle, 0;
      }
      var m := if count < n then count else n;
      var i := Search(config.hash(name));
      start := i;
      ghost var w := Round(circle, sortedHashes, i);
      WalkCount(circle, sortedHashes, i, w);
      WhenWalksEnd(circle, sortedHashes, i, m);
      var res := Collect(circle, sortedHashes, i, m, w, Firsts(w, |w|));
      return Ok(res), start;
    }

    /**
     The two nearest distinct owners: the same as `GetN` for 2, and only the first when there is just one member. When
     there is one owner and the count says otherwise, it is given twice, or the walk does not end.
     */
    method GetTwo(name: string) returns (r: Result<(string, string)>, ghost start: nat)
      requires Indexed() && (circle == map[] || count == 1 || MayWalk(name, 2))
      ensures r.EmptyCircle? <==> circle == map[]
      ensures r.Ok? ==> start < |sortedHashes| && Clockwise(circle.Keys, config.hash(name), sortedHashes[start])
      ensures r.Ok? ==>
        var all := Firsts(Round(circle, sortedHashes, start), |sortedHashes|);
        |all| == |circle.Values| && r.value == (all[0], if count == 1 then "" else if |all| >= 2 then all[1] else all[0])
    {
      start := 0;
      if |circle| == 0 {
        return EmptyCircle, 0;
      }
      var i := Search(config.hash(name));
      start := i;
      ghost var w := Round(circle, sortedHashes, i);
      WalkCount(circle, sortedHashes, i, w);
      var a := circle[sortedHashes[i]];
      if count == 1 {
        return Ok((a, "")), start;
      }
      WhenWalksEnd(circle, sortedHashes, i, 2);
      var b := Other(circle, sortedHashes, i, a, w, Firsts(w, |w|));
      return Ok((a, b)), start;
    }

    /** The two lookups agree whenever there are two members. */
    method BothAgree(name: string) returns (two: (string, string), list: seq<string>)
      requires Indexed() && count == |circle.Values| >= 2
      ensures list == [two.0, two.1]
    {
      MayAlwaysWalk(name, 2);
      var r, i := GetTwo(name);
      var s, j := GetN(name, 2);
      assert circle != map[];
      assert i == j by { SameIndex(circle, sortedHashes, config.hash(name), i, j); }
      FirstTwo(Firsts(Round(circle, sortedHashes, i), |sortedHashes|));
      two, list := r.value, s.value;
    }
  }

  lemma FirstTwo(all: seq<string>)
    ensures |all| >= 2 ==> Cut(all, 2) == [all[0], all[1]]
  { }

  lemma {:induction false} SameIndex(circle: map<Hash, string>, sorted: seq<Hash>, key: Hash, i: nat, j: nat)
    requires Indexing(circle, sorted) && i < |sorted| && j < |sorted|
    requires Clockwise(circle.Keys, key, sorted[i]) && Clockwise(circle.Keys, key, sorted[j])
    ensures i == j
  {
    ClockwiseUnique(circle.Keys, key, sorted[i], sorted[j]);
  }
}
