/**
 What preg_match reports for a route of MinWebFramework/Core/Routing/BaseRouteCompiler.php whose tokens may all be left
 off: the first of the ways to match. In particular, when it leaves off an earlier variable and not a later one.
 */
module RouteReport {
  import opened RouteRegex
  import opened RouteCompiler
  import opened RouteLanguage

  /** The reported way, if there is one, leaves optional variables off from the end only. */
  ghost predicate ReportsFromTheEnd(tokens: seq<Token>, first: nat, s: string, caseless: bool)
    requires OptionalTail(tokens, first)
  {
    var all := Accepted(RouteTree(tokens, 0, first), s, 0, caseless);
    all != [] ==> !SkipsEarlier(tokens, first, all[0])
  }

  ghost predicate AlwaysFromTheEnd(tokens: seq<Token>, first: nat, caseless: bool)
    requires OptionalTail(tokens, first)
  {
    forall s: string :: ReportsFromTheEnd(tokens, first, s, caseless)
  }

  /** The first separator in a list of variables from `k` on. */
  function NextSeparator(tokens: seq<Token>, k: nat): string
    decreases |tokens| - k
  {
    if k >= |tokens| then ""
    else if tokens[k].VariableToken? && tokens[k].separator != "" then tokens[k].separator
    else NextSeparator(tokens, k + 1)
  }

  lemma {:induction false} NextIsFirst(tokens: seq<Token>, k: nat, m: nat)
    requires k <= m <= |tokens|
    requires forall a :: k <= a < m ==> tokens[a].VariableToken? && tokens[a].separator == ""
    requires m < |tokens| ==> tokens[m].VariableToken? && tokens[m].separator != ""
    ensures NextSeparator(tokens, k) == if m < |tokens| then tokens[m].separator else ""
    decreases m - k
  {
    if k < m { NextIsFirst(tokens, k + 1, m); }
  }

  function Characters(s: string): set<char> {
    set c | c in s
  }

  /** A variable without a requirement: it matches all but the slash and the next separator. */
  ghost predicate PlainAt(tokens: seq<Token>, k: nat)
    requires k < |tokens|
  {
    var t := tokens[k];
    && t.VariableToken? && t.body.Class? && t.body.excluded == Characters("/") + Characters(NextSeparator(tokens, k + 1))
    && (t.separator == "" || (|t.separator| == 1 && IsSeparator(t.separator[0])))
  }

  ghost predicate AllPlain(tokens: seq<Token>) {
    forall k :: 0 <= k < |tokens| ==> PlainAt(tokens, k)
  }

  // ---------- a character that no variable matches ----------

  /** A variable without a separator in front that does not match `x`. */
  predicate Avoids(t: Token, x: char) {
    t.VariableToken? && t.separator == "" && t.body.Class? && x in t.body.excluded
  }

  /** Such variables cannot cover that character. */
  lemma {:induction false} NoneCovers(tokens: seq<Token>, k: nat, m: nat, s: string, i: nat, q: nat, c: Captures, caseless: bool)
    requires k <= m <= |tokens| && i <= q < |s| && forall a :: k <= a < m ==> Avoids(tokens[a], s[q])
    ensures !Tiled(tokens, k, m, s, i, c, caseless)
    decreases m - k
  {
    if k < m && Tiled(tokens, k, m, s, i, c, caseless) {
      var j: nat, d :| Spans(tokens[k], s, i, j, caseless) && Tiled(tokens, k + 1, m, s, j, d, caseless) && c == CapturesOf(tokens[k], s, i, j) + d;
      assert Avoids(tokens[k], s[q]);
      NoneCovers(tokens, k + 1, m, s, j, q, d, caseless);
      assert false;
    }
  }

  // ---------- the ways to match, token by token ----------

  lemma FirstTree(tokens: seq<Token>)
    requires tokens != [] && tokens[0].VariableToken?
    ensures var t := tokens[0];
      RouteTree(tokens, 0, 0) == Literal(t.separator, Then(Variable(t.name, t.body, true), RouteTree(tokens, 1, 0)))
  { }

  lemma LaterTree(tokens: seq<Token>, k: nat)
    requires 0 < k < |tokens| && tokens[k].VariableToken?
    ensures var t := tokens[k];
      RouteTree(tokens, k, 0)
      == Then(OptionalGroup(Literal(t.separator, Then(Variable(t.name, t.body, false), RouteTree(tokens, k + 1, 0)))), End)
  { }

  /** The ways to match in which the token is not left off, when `rest` follows it. */
  function OfToken(t: Token, rest: Regex, s: string, i: nat, caseless: bool): seq<Captures>
    requires t.VariableToken?
  {
    var b := i + |t.separator|;
    if LiteralAt(t.separator, s, i, caseless) then AcceptedEnds(t.name, Ends(t.body, s, b), rest, s, b, caseless) else []
  }

  lemma {:induction false} OptionalToken(t: Token, rest: Regex, tree: Regex, s: string, caseless: bool)
    requires t.VariableToken? && tree == Literal(t.separator, Then(Variable(t.name, t.body, true), rest))
    ensures Accepted(tree, s, 0, caseless)
         == OfToken(t, rest, s, 0, caseless)
            + if LiteralAt(t.separator, s, 0, caseless) then Accepted(rest, s, |t.separator|, caseless) else []
  {
    var x, b := Then(Variable(t.name, t.body, true), rest), |t.separator|;
    if LiteralAt(t.separator, s, 0, caseless) {
      calc {
        Accepted(tree, s, 0, caseless);
        { AcceptedLiteral(t.separator, x, s, 0, caseless); }
        Accepted(x, s, b, caseless);
        { AcceptedVariable(t.name, t.body, true, rest, s, b, caseless); }
        AcceptedEnds(t.name, Ends(t.body, s, b), rest, s, b, caseless) + Accepted(rest, s, b, caseless);
      }
    } else {
      AcceptedLiteral(t.separator, x, s, 0, caseless);
    }
  }

  lemma {:induction false} GroupedToken(t: Token, rest: Regex, tree: Regex, s: string, i: nat, caseless: bool)
    requires t.VariableToken?
    requires tree == Then(OptionalGroup(Literal(t.separator, Then(Variable(t.name, t.body, false), rest))), End)
    ensures Accepted(tree, s, i, caseless) == OfToken(t, rest, s, i, caseless) + if i == |s| then [map[]] else []
  {
    var inner := Literal(t.separator, Then(Variable(t.name, t.body, false), rest));
    AcceptedGroup(inner, s, i, caseless);
    InsideGroup(t, rest, inner, s, i, caseless);
  }

  lemma {:induction false} InsideGroup(t: Token, rest: Regex, inner: Regex, s: string, i: nat, caseless: bool)
    requires t.VariableToken? && inner == Literal(t.separator, Then(Variable(t.name, t.body, false), rest))
    ensures Accepted(inner, s, i, caseless) == OfToken(t, rest, s, i, caseless)
  {
    if LiteralAt(t.separator, s, i, caseless) {
      InsideMatched(t.separator, t.name, t.body, rest, inner, s, i, i + |t.separator|, caseless);
    } else {
      AcceptedLiteral(t.separator, Then(Variable(t.name, t.body, false), rest), s, i, caseless);
    }
  }

  lemma {:induction false} InsideMatched(separator: string, name: string, body: Body, rest: Regex, inner: Regex, s: string,
                                         i: nat, b: nat, caseless: bool)
    requires inner == Literal(separator, Then(Variable(name, body, false), rest)) && b == i + |separator|
    requires LiteralAt(separator, s, i, caseless)
    ensures Accepted(inner, s, i, caseless) == AcceptedEnds(name, Ends(body, s, b), rest, s, b, caseless)
  {
    var x := Then(Variable(name, body, false), rest);
    calc {
      Accepted(inner, s, i, caseless);
      { AcceptedLiteral(separator, x, s, i, caseless); }
      Accepted(x, s, b, caseless);
      { RequiredVariable(name, body, rest, s, b, caseless); }
      AcceptedEnds(name, Ends(body, s, b), rest, s, b, caseless);
    }
  }

  // ---------- no separator behind the first ----------

  /** At the end of the subject, nothing more is captured. */
  lemma {:induction false} NothingBehind(tokens: seq<Token>, k: nat, s: string, caseless: bool)
    requires 0 < k <= |tokens| && (k < |tokens| ==> tokens[k].VariableToken? && tokens[k].separator == "" && tokens[k].body.Class?)
    ensures Accepted(RouteTree(tokens, k, 0), s, |s|, caseless) == [map[]]
  {
    if k == |tokens| {
      AcceptedEnd(s, |s|, caseless);
    } else {
      LaterTree(tokens, k);
      GroupedToken(tokens[k], RouteTree(tokens, k + 1, 0), RouteTree(tokens, k, 0), s, |s|, caseless);
    }
  }

  /** Where a character follows that all variables avoid, nothing is accepted. */
  lemma {:induction false} BlockedBehind(tokens: seq<Token>, s: string, q: nat, caseless: bool)
    requires AllGuarded(tokens) && OptionalTail(tokens, 0) && tokens != [] && tokens[0].body.Class?
    requires |tokens[0].separator| <= q < |s| && s[q] in tokens[0].body.excluded
    requires forall a :: 1 <= a < |tokens| ==> Avoids(tokens[a], s[q])
    ensures Accepted(RouteTree(tokens, 0, 0), s, 0, caseless) == []
  {
    var all := Accepted(RouteTree(tokens, 0, 0), s, 0, caseless);
    if all != [] {
      var c := all[0];
      OptionalRouteAccepts(tokens, s, caseless, c);
      var i: nat, d: Captures := |tokens[0].separator|, c;
      if StepCovered(tokens, 0, 0, s, 0, c, caseless) {
        i, d :| Spans(tokens[0], s, 0, i, caseless) && Covered(tokens, 1, 0, s, i, d, caseless) && c == CapturesOf(tokens[0], s, 0, i) + d;
      }
      assert i <= q;
      var m: nat :| 1 <= m <= |tokens| && Needed(tokens, 0) <= m && Tiled(tokens, 1, m, s, i, d, caseless);
      NoneCovers(tokens, 1, m, s, i, q, d, caseless);
      assert false;
    }
  }

  /** What is reported when the first variable takes a run that reaches the end of the subject. */
  lemma {:induction false} LongestRunFirst(tokens: seq<Token>, s: string, caseless: bool)
    requires tokens != [] && tokens[0].VariableToken? && tokens[0].body.Class?
    requires |tokens| > 1 ==> tokens[1].VariableToken? && tokens[1].separator == "" && tokens[1].body.Class?
    requires var b := |tokens[0].separator|; b + RunLength(s, b, tokens[0].body.excluded) == |s|
    ensures var t, all := tokens[0], Accepted(RouteTree(tokens, 0, 0), s, 0, caseless);
      all != [] ==> all[0] == if |t.separator| < |s| then map[t.name := Slice(s, |t.separator|, |s|)] else map[]
  {
    var t, rest := tokens[0], RouteTree(tokens, 1, 0);
    var b := |t.separator|;
    FirstTree(tokens);
    OptionalToken(t, RouteTree(tokens, 1, 0), RouteTree(tokens, 0, 0), s, caseless);
    NothingBehind(tokens, 1, s, caseless);
    if b < |s| { FirstEnd(t.name, Ends(t.body, s, b), rest, s, b, caseless); }
  }

  lemma {:induction false} FirstEnd(name: string, ends: seq<nat>, r: Regex, s: string, b: nat, caseless: bool)
    requires ends != [] && Accepted(r, s, ends[0], caseless) == [map[]]
    ensures var all := AcceptedEnds(name, ends, r, s, b, caseless);
      all != [] && all[0] == map[name := Slice(s, b, ends[0])]
  {
    var c := map[name := Slice(s, b, ends[0])];
    assert Under(c, [map[]])[0] == c + map[] == c;
  }

  lemma {:induction false} LiteralFits(text: string, s: string, i: nat, caseless: bool)
    requires LiteralAt(text, s, i, caseless) && i <= |s|
    ensures i + |text| <= |s|
  {
    if text != "" { LiteralFits(text[1..], s, i + 1, caseless); }
  }

  /** Without another separator, the first variable takes all that there is, or nothing matches. */
  lemma {:induction false} OneRun(tokens: seq<Token>, s: string, caseless: bool)
    requires AllGuarded(tokens) && OptionalTail(tokens, 0) && DistinctNames(tokens) && AllPlain(tokens) && tokens != []
    requires forall k :: 1 <= k < |tokens| ==> tokens[k].separator == ""
    ensures ReportsFromTheEnd(tokens, 0, s, caseless)
  {
    var t := tokens[0];
    var b := |t.separator|;
    assert PlainAt(tokens, 0);
    if LiteralAt(t.separator, s, 0, caseless) {
      LiteralFits(t.separator, s, 0, caseless);
      OneSet(tokens);
      var end := b + RunLength(s, b, t.body.excluded);
      if end < |s| {
        BlockedBehind(tokens, s, end, caseless);
      } else {
        LongestRunFirst(tokens, s, caseless);
      }
    } else {
      FirstTree(tokens);
      OptionalToken(t, RouteTree(tokens, 1, 0), RouteTree(tokens, 0, 0), s, caseless);
    }
  }

  lemma {:induction false} OneSet(tokens: seq<Token>)
    requires OptionalTail(tokens, 0) && AllPlain(tokens) && forall k :: 1 <= k < |tokens| ==> tokens[k].separator == ""
    ensures forall k :: 0 <= k < |tokens| ==> tokens[k].VariableToken? && tokens[k].body.Class? && tokens[k].body.excluded == Characters("/")
  {
    forall k | 0 <= k < |tokens|
      ensures tokens[k].VariableToken? && tokens[k].body.Class? && tokens[k].body.excluded == Characters("/")
    {
      assert PlainAt(tokens, k);
      NextIsFirst(tokens, k + 1, |tokens|);
    }
  }

  // ---------- another separator ----------

  function Repeat(x: char, n: nat): string {
    if n == 0 then "" else [x] + Repeat(x, n - 1)
  }

  /** One character for each variable, and for the last its separator and one character. */
  lemma {:induction false} TileRun(tokens: seq<Token>, k: nat, m: nat, x: char, s: string, i: nat, caseless: bool) returns (c: Captures)
    requires k <= m < |tokens| && i <= |s| && tokens[m].VariableToken? && tokens[m].body.Class? && x !in tokens[m].body.excluded
    requires forall a :: k <= a < m ==>
      tokens[a].VariableToken? && tokens[a].separator == "" && tokens[a].body.Class? && x !in tokens[a].body.excluded
    requires s[i..] == Repeat(x, m - k) + (tokens[m].separator + [x])
    ensures Tiled(tokens, k, m + 1, s, i, c, caseless)
    decreases m - k
  {
    if k == m {
      SpansOne(tokens[m], s, i, x, caseless);
      assert Tiled(tokens, m + 1, m + 1, s, |s|, map[], caseless);
      c := CapturesOf(tokens[m], s, i, |s|) + map[];
    } else {
      assert s[i] == s[i..][0] == x;
      assert s[i + 1..] == s[i..][1..] == Repeat(x, m - k - 1) + (tokens[m].separator + [x]);
      var d := TileRun(tokens, k + 1, m, x, s, i + 1, caseless);
      assert Spans(tokens[k], s, i, i + 1, caseless);
      c := CapturesOf(tokens[k], s, i, i + 1) + d;
    }
  }

  /** Variables that need more characters than there are in front of one that they avoid. */
  lemma {:induction false} NoRoom(tokens: seq<Token>, k: nat, m: nat, n: nat, s: string, i: nat, q: nat, c: Captures, caseless: bool)
    requires k <= m <= |tokens| && k <= n <= |tokens| && i <= q < |s| && forall a :: k <= a < m ==> Avoids(tokens[a], s[q])
    requires q < i + (m - k)
    ensures !Tiled(tokens, k, n, s, i, c, caseless)
    decreases m - k
  {
    if k < n && Tiled(tokens, k, n, s, i, c, caseless) {
      var j: nat, d :| Spans(tokens[k], s, i, j, caseless) && Tiled(tokens, k + 1, n, s, j, d, caseless) && c == CapturesOf(tokens[k], s, i, j) + d;
      assert Avoids(tokens[k], s[q]);
      NoRoom(tokens, k + 1, m, n, s, j, q, d, caseless);
      assert false;
    }
  }

  /** The variables in front of `m` avoid the separator of `m`, and `x` fits them all. */
  ghost predicate Facing(tokens: seq<Token>, m: nat, x: char)
    requires OptionalTail(tokens, 0)
  {
    && 1 <= m < |tokens| && |tokens[m].separator| == 1
    && tokens[0].body.Class? && tokens[m].separator[0] in tokens[0].body.excluded
    && (forall a :: 1 <= a < m ==> Avoids(tokens[a], tokens[m].separator[0]))
    && (forall a :: 1 <= a <= m ==> tokens[a].body.Class? && x !in tokens[a].body.excluded)
  }

  /** The subject with one character for each variable from the second one to the first one with a separator. */
  function Short(tokens: seq<Token>, m: nat, x: char): string
    requires OptionalTail(tokens, 0) && 1 <= m < |tokens|
  {
    tokens[0].separator + (Repeat(x, m - 1) + (tokens[m].separator + [x]))
  }

  lemma {:induction false} RepeatLength(x: char, n: nat)
    ensures |Repeat(x, n)| == n
  {
    if n > 0 { RepeatLength(x, n - 1); }
  }

  lemma {:induction false} ShortMatches(tokens: seq<Token>, m: nat, x: char, caseless: bool)
    requires AllGuarded(tokens) && OptionalTail(tokens, 0) && Facing(tokens, m, x)
    ensures Accepted(RouteTree(tokens, 0, 0), Short(tokens, m, x), 0, caseless) != []
  {
    var s, b := Short(tokens, m, x), |tokens[0].separator|;
    assert s[..b] == tokens[0].separator && s[b..] == Repeat(x, m - 1) + (tokens[m].separator + [x]);
    LiteralSelf(tokens[0].separator, s, 0, caseless);
    forall a | 1 <= a < m
      ensures tokens[a].VariableToken? && tokens[a].separator == "" && tokens[a].body.Class? && x !in tokens[a].body.excluded
    {
      assert Avoids(tokens[a], tokens[m].separator[0]);
    }
    var c := TileRun(tokens, 1, m, x, s, b, caseless);
    assert Covered(tokens, 1, 0, s, b, c, caseless);
    OptionalRouteAccepts(tokens, s, caseless, c);
  }

  /** No way with the first variable matches that subject, so every way leaves it off and keeps a later one. */
  lemma {:induction false} EveryWaySkips(tokens: seq<Token>, m: nat, x: char, caseless: bool, c: Captures)
    requires AllGuarded(tokens) && OptionalTail(tokens, 0) && DistinctNames(tokens) && Facing(tokens, m, x)
    requires c in Accepted(RouteTree(tokens, 0, 0), Short(tokens, m, x), 0, caseless)
    ensures SkipsEarlier(tokens, 0, c)
  {
    var s, b := Short(tokens, m, x), |tokens[0].separator|;
    var q := b + m - 1;
    RepeatLength(x, m - 1);
    assert s[q] == tokens[m].separator[0];
    OptionalRouteAccepts(tokens, s, caseless, c);
    FirstFits(tokens, m, s, q, caseless, c);
    var n: nat :| 1 <= n <= |tokens| && Needed(tokens, 0) <= n && Tiled(tokens, 1, n, s, b, c, caseless);
    if n <= m { NoneCovers(tokens, 1, n, s, b, q, c, caseless); }
    TiledNames(tokens, 1, n, s, b, c, caseless);
    assert tokens[0].name !in c && tokens[m].name in c;
  }

  lemma {:induction false} FirstFits(tokens: seq<Token>, m: nat, s: string, q: nat, caseless: bool, c: Captures)
    requires OptionalTail(tokens, 0) && 1 <= m < |tokens| && tokens[0].body.Class? && q < |s| && q == |tokens[0].separator| + m - 1
    requires s[q] in tokens[0].body.excluded && forall a :: 1 <= a < m ==> Avoids(tokens[a], s[q])
    ensures !StepCovered(tokens, 0, 0, s, 0, c, caseless)
  {
    if StepCovered(tokens, 0, 0, s, 0, c, caseless) {
      var i: nat, d: Captures :| Spans(tokens[0], s, 0, i, caseless) && Covered(tokens, 1, 0, s, i, d, caseless) && c == CapturesOf(tokens[0], s, 0, i) + d;
      var n: nat :| 1 <= n <= |tokens| && Needed(tokens, 0) <= n && Tiled(tokens, 1, n, s, i, d, caseless);
      NoRoom(tokens, 1, m, n, s, i, q, d, caseless);
      assert false;
    }
  }

  // ---------- when it is reported ----------

  lemma {:induction false} FirstSeparator(tokens: seq<Token>, k: nat) returns (m: nat)
    requires OptionalTail(tokens, 0) && 1 <= k < |tokens| && tokens[k].separator != ""
    ensures 1 <= m <= k && tokens[m].separator != "" && forall a :: 1 <= a < m ==> tokens[a].separator == ""
  {
    m := 1;
    while tokens[m].separator == ""
      invariant 1 <= m <= k && forall a :: 1 <= a < m ==> tokens[a].separator == ""
      decreases k - m
    {
      m := m + 1;
    }
  }

  lemma {:induction false} SeparatorFaced(tokens: seq<Token>, m: nat, x: char)
    requires OptionalTail(tokens, 0) && AllPlain(tokens) && 1 <= m < |tokens| && tokens[m].separator != ""
    requires forall a :: 1 <= a < m ==> tokens[a].separator == ""
    requires forall a :: 0 <= a < |tokens| ==> tokens[a].body.Class? && x !in tokens[a].body.excluded
    ensures Facing(tokens, m, x)
  {
    assert PlainAt(tokens, m);
    forall a | 0 <= a < m ensures tokens[a].body.Class? && tokens[m].separator[0] in tokens[a].body.excluded {
      assert PlainAt(tokens, a);
      NextIsFirst(tokens, a + 1, m);
    }
  }

  /**
   For variables without requirements, what is reported leaves optional ones off from the end only, exactly when a token
   in front is required or no token but the first has a separator.
   */
  lemma {:induction false} WhenReportedFromTheEnd(tokens: seq<Token>, first: nat, x: char, caseless: bool)
    requires AllGuarded(tokens) && OptionalTail(tokens, first) && DistinctNames(tokens)
    requires first == 0 ==> AllPlain(tokens) && forall a :: 0 <= a < |tokens| ==> tokens[a].body.Class? && x !in tokens[a].body.excluded
    ensures AlwaysFromTheEnd(tokens, first, caseless)
       <==> first > 0 || forall k :: 1 <= k < |tokens| ==> tokens[k].VariableToken? && tokens[k].separator == ""
  {
    if first > 0 {
      forall s: string ensures ReportsFromTheEnd(tokens, first, s, caseless) {
        RequiredReports(tokens, first, s, caseless);
      }
    } else if k :| 1 <= k < |tokens| && tokens[k].separator != "" {
      var m := FirstSeparator(tokens, k);
      SeparatorFaced(tokens, m, x);
      var s := Short(tokens, m, x);
      ShortMatches(tokens, m, x, caseless);
      EveryWaySkips(tokens, m, x, caseless, Accepted(RouteTree(tokens, 0, 0), s, 0, caseless)[0]);
      assert !ReportsFromTheEnd(tokens, 0, s, caseless);
    } else {
      forall s: string ensures ReportsFromTheEnd(tokens, 0, s, caseless) {
        if tokens != [] { OneRun(tokens, s, caseless); }
      }
    }
  }

  lemma {:induction false} RequiredReports(tokens: seq<Token>, first: nat, s: string, caseless: bool)
    requires AllGuarded(tokens) && OptionalTail(tokens, first) && DistinctNames(tokens) && first > 0
    ensures ReportsFromTheEnd(tokens, first, s, caseless)
  {
    var all := Accepted(RouteTree(tokens, 0, first), s, 0, caseless);
    if all != [] {
      var c := all[0];
      RouteAccepts(tokens, first, s, caseless, c);
      var m: nat :| 0 <= m <= |tokens| && Needed(tokens, first) <= m && Tiled(tokens, 0, m, s, 0, c, caseless);
      TiledSkipsNone(tokens, first, m, s, c, caseless);
    }
  }
}
