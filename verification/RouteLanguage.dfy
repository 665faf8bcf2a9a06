/**
 Which subjects a compiled route accepts (MinWebFramework/Core/Routing/BaseRouteCompiler.php), said without the regular
 expression: the tokens, one after the other, cover the subject, and the optional ones may be left off from the end.
 */
module RouteLanguage {
  import opened RouteRegex
  import opened RouteCompiler

  /** What a variable may cover: the possessive plus plays no role. */
  ghost predicate BodySpans(body: Body, s: string, b: nat, j: nat) {
    match body
    case Class(excluded, _) => b < j <= |s| && forall k :: b <= k < j ==> s[k] !in excluded
    case Custom(ends) => j in ends(s, b)
  }

  /** The token covers `s` from `i` to `j`. */
  ghost predicate Spans(token: Token, s: string, i: nat, j: nat, caseless: bool) {
    match token
    case TextToken(text) => LiteralAt(text, s, i, caseless) && j == i + |text|
    case VariableToken(separator, body, _) =>
      LiteralAt(separator, s, i, caseless) && BodySpans(body, s, i + |separator|, j)
  }

  function CapturesOf(token: Token, s: string, i: nat, j: nat): Captures {
    match token
    case TextToken(_) => map[]
    case VariableToken(separator, _, name) => map[name := Slice(s, i + |separator|, j)]
  }

  /** The tokens from `k` to before `m` cover all of `s` from `i` on, capturing `c`. */
  ghost predicate Tiled(tokens: seq<Token>, k: nat, m: nat, s: string, i: nat, c: Captures, caseless: bool)
    requires k <= m <= |tokens|
    decreases m - k
  {
    if k == m then i == |s| && c == map[]
    else exists j: nat, d: Captures ::
      Spans(tokens[k], s, i, j, caseless) && Tiled(tokens, k + 1, m, s, j, d, caseless) && c == CapturesOf(tokens[k], s, i, j) + d
  }

  function Needed(tokens: seq<Token>, first: nat): nat {
    if first < |tokens| then first else |tokens|
  }

  /** The required tokens and some initial run of the optional ones cover the subject. */
  ghost predicate Covered(tokens: seq<Token>, k: nat, first: nat, s: string, i: nat, c: Captures, caseless: bool) {
    exists m: nat :: k <= m <= |tokens| && Needed(tokens, first) <= m && Tiled(tokens, k, m, s, i, c, caseless)
  }

  lemma {:induction false} InUnder(captures: Captures, all: seq<Captures>, c: Captures)
    ensures c in Under(captures, all) <==> exists d :: d in all && c == captures + d
  {
    var u := Under(captures, all);
    if c in u {
      var k :| 0 <= k < |u| && u[k] == c;
      assert all[k] in all;
    }
    if exists d :: d in all && c == captures + d {
      var d :| d in all && c == captures + d;
      var k :| 0 <= k < |all| && all[k] == d;
      assert u[k] == c;
    }
  }

  lemma {:induction false} InEnds(name: string, ends: seq<nat>, r: Regex, s: string, i: nat, caseless: bool,
                                  c: Captures)
    ensures c in AcceptedEnds(name, ends, r, s, i, caseless)
       <==> exists j: nat, d :: j in ends && d in Accepted(r, s, j, caseless) && c == map[name := Slice(s, i, j)] + d
  {
    if ends != [] {
      var j := ends[0];
      InUnder(map[name := Slice(s, i, j)], Accepted(r, s, j, caseless), c);
      InEnds(name, ends[1..], r, s, i, caseless, c);
    }
  }

  /** The ends that a plain plus offers are those of the spans. */
  lemma {:induction false} PlainEnds(body: Body, s: string, b: nat, j: nat)
    requires body.Class? ==> !body.possessive
    ensures j in Ends(body, s, b) <==> BodySpans(body, s, b, j)
  {
    if body.Class? {
      var n := RunLength(s, b, body.excluded);
      var ends := Descending(b, n);
      if b < j <= b + n { assert ends[b + n - j] == j; }
    }
  }

  lemma {:induction false} InSpans(t: Token, r: Regex, s: string, b: nat, caseless: bool, c: Captures)
    requires t.VariableToken? && (t.body.Class? ==> !t.body.possessive)
    ensures c in AcceptedEnds(t.name, Ends(t.body, s, b), r, s, b, caseless)
       <==> exists j: nat, d :: BodySpans(t.body, s, b, j) && d in Accepted(r, s, j, caseless) && c == map[t.name := Slice(s, b, j)] + d
  {
    InEnds(t.name, Ends(t.body, s, b), r, s, b, caseless, c);
    forall j: nat ensures j in Ends(t.body, s, b) <==> BodySpans(t.body, s, b, j) {
      PlainEnds(t.body, s, b, j);
    }
  }

  lemma {:induction false} RequiredVariable(name: string, body: Body, r: Regex, s: string, b: nat, caseless: bool)
    ensures Accepted(Then(Variable(name, body, false), r), s, b, caseless) == AcceptedEnds(name, Ends(body, s, b), r, s, b, caseless)
  {
    AcceptedVariable(name, body, false, r, s, b, caseless);
    var all := AcceptedEnds(name, Ends(body, s, b), r, s, b, caseless);
    assert all + [] == all;
  }

  /** One token in front of a rest whose language is known. */
  lemma {:induction false} VariableInFront(t: Token, r: Regex, s: string, i: nat, caseless: bool, c: Captures)
    requires t.VariableToken? && (t.body.Class? ==> !t.body.possessive)
    ensures c in Accepted(Literal(t.separator, Then(Variable(t.name, t.body, false), r)), s, i, caseless)
       <==> exists j: nat, d :: Spans(t, s, i, j, caseless) && d in Accepted(r, s, j, caseless) && c == CapturesOf(t, s, i, j) + d
  {
    var b := i + |t.separator|;
    var x := Then(Variable(t.name, t.body, false), r);
    AcceptedLiteral(t.separator, x, s, i, caseless);
    RequiredVariable(t.name, t.body, r, s, b, caseless);
    InSpans(t, r, s, b, caseless, c);
    forall j: nat ensures Spans(t, s, i, j, caseless) <==> LiteralAt(t.separator, s, i, caseless) && BodySpans(t.body, s, b, j) { }
    forall j: nat ensures CapturesOf(t, s, i, j) == map[t.name := Slice(s, b, j)] { }
  }

  lemma {:induction false} TextInFront(t: Token, r: Regex, s: string, i: nat, caseless: bool, c: Captures)
    requires t.TextToken?
    ensures c in Accepted(Literal(t.text, r), s, i, caseless)
       <==> exists j: nat, d :: Spans(t, s, i, j, caseless) && d in Accepted(r, s, j, caseless) && c == CapturesOf(t, s, i, j) + d
  {
    AcceptedLiteral(t.text, r, s, i, caseless);
    forall j: nat ensures Spans(t, s, i, j, caseless) <==> LiteralAt(t.text, s, i, caseless) && j == i + |t.text| { }
    forall j: nat, d ensures CapturesOf(t, s, i, j) + d == d { }
  }

  /** The accepted ways, from token `k` on, are the coverings. */
  lemma {:induction false} AcceptedIsCovered(tokens: seq<Token>, k: nat, first: nat, s: string, i: nat,
                                             caseless: bool, c: Captures)
    requires OptionalTail(tokens, first) && k <= |tokens| && (k > 0 || first > 0)
    ensures c in Accepted(RouteTree(Plain(tokens), k, first), s, i, caseless) <==> Covered(tokens, k, first, s, i, c, caseless)
    decreases |tokens| - k
  {
    if k == |tokens| {
      AcceptedEnd(s, i, caseless);
      CoveredEnd(tokens, first, s, i, c, caseless);
    } else {
      var rest := RouteTree(Plain(tokens), k + 1, first);
      var t := Plain(tokens)[k];
      forall j: nat, d ensures d in Accepted(rest, s, j, caseless) <==> Covered(tokens, k + 1, first, s, j, d, caseless) {
        AcceptedIsCovered(tokens, k + 1, first, s, j, caseless, d);
      }
      CoveredStep(tokens, k, first, s, i, c, caseless);
      InFront(tokens, k, first, rest, s, i, caseless, c);
    }
  }

  /** Some token from `k` on covers, and the rest is covered: the first disjunct of `Covered`, unfolded once. */
  ghost predicate StepCovered(tokens: seq<Token>, k: nat, first: nat, s: string, i: nat, c: Captures, caseless: bool)
    requires k < |tokens|
  {
    exists j: nat, d ::
      Spans(tokens[k], s, i, j, caseless) && Covered(tokens, k + 1, first, s, j, d, caseless) && c == CapturesOf(tokens[k], s, i, j) + d
  }

  lemma {:induction false} CoveredEnd(tokens: seq<Token>, first: nat, s: string, i: nat, c: Captures, caseless: bool)
    ensures Covered(tokens, |tokens|, first, s, i, c, caseless) <==> i == |s| && c == map[]
  {
    if i == |s| && c == map[] { assert Tiled(tokens, |tokens|, |tokens|, s, i, c, caseless); }
  }

  lemma {:induction false} CoveredStep(tokens: seq<Token>, k: nat, first: nat, s: string, i: nat, c: Captures,
                                       caseless: bool)
    requires k < |tokens|
    ensures Covered(tokens, k, first, s, i, c, caseless)
       <==> StepCovered(tokens, k, first, s, i, c, caseless) || (k >= first && i == |s| && c == map[])
  {
    if Covered(tokens, k, first, s, i, c, caseless) {
      var m: nat :| k <= m <= |tokens| && Needed(tokens, first) <= m && Tiled(tokens, k, m, s, i, c, caseless);
      if k < m {
        var j: nat, d :| Spans(tokens[k], s, i, j, caseless) && Tiled(tokens, k + 1, m, s, j, d, caseless) && c == CapturesOf(tokens[k], s, i, j) + d;
        assert Covered(tokens, k + 1, first, s, j, d, caseless);
      }
    }
    if StepCovered(tokens, k, first, s, i, c, caseless) {
      var j: nat, d :| Spans(tokens[k], s, i, j, caseless) && Covered(tokens, k + 1, first, s, j, d, caseless) && c == CapturesOf(tokens[k], s, i, j) + d;
      var m: nat :| k + 1 <= m <= |tokens| && Needed(tokens, first) <= m && Tiled(tokens, k + 1, m, s, j, d, caseless);
      assert Tiled(tokens, k, m, s, i, c, caseless);
    }
    if k >= first && i == |s| && c == map[] {
      assert Tiled(tokens, k, k, s, i, c, caseless);
    }
  }

  lemma {:induction false} InFront(tokens: seq<Token>, k: nat, first: nat, rest: Regex, s: string, i: nat,
                                   caseless: bool, c: Captures)
    requires OptionalTail(tokens, first) && k < |tokens| && (k > 0 || first > 0) && rest == RouteTree(Plain(tokens), k + 1, first)
    requires forall j: nat, d :: d in Accepted(rest, s, j, caseless) <==> Covered(tokens, k + 1, first, s, j, d, caseless)
    ensures c in Accepted(RouteTree(Plain(tokens), k, first), s, i, caseless)
       <==> StepCovered(tokens, k, first, s, i, c, caseless) || (k >= first && i == |s| && c == map[])
  {
    var t := PlainToken(tokens[k]);
    SameSpans(tokens[k], s, i, caseless);
    match t
    case TextToken(text) =>
      TextInFront(t, rest, s, i, caseless, c);
    case VariableToken(separator, body, name) =>
      VariableInFront(t, rest, s, i, caseless, c);
      AcceptedGroup(Literal(separator, Then(Variable(name, body, false), rest)), s, i, caseless);
  }

  lemma SameSpans(t: Token, s: string, i: nat, caseless: bool)
    ensures forall j: nat :: Spans(PlainToken(t), s, i, j, caseless) <==> Spans(t, s, i, j, caseless)
    ensures forall j: nat :: CapturesOf(PlainToken(t), s, i, j) == CapturesOf(t, s, i, j)
  { }

  /**
   A route with a required first token accepts exactly the subjects that its required tokens followed by some initial
   run of its optional tail cover, with exactly the captures of such a covering; and it does so with its possessive
   quantifiers in place.
   */
  lemma {:induction false} RouteAccepts(tokens: seq<Token>, first: nat, s: string, caseless: bool, c: Captures)
    requires AllGuarded(tokens) && OptionalTail(tokens, first) && first > 0
    ensures c in Accepted(RouteTree(tokens, 0, first), s, 0, caseless) <==> Covered(tokens, 0, first, s, 0, c, caseless)
  {
    PossessiveKeepsMeaning(tokens, 0, first, s, 0, caseless);
    AcceptedIsCovered(tokens, 0, first, s, 0, caseless, c);
  }

  /** The first token and an initial run of the others cover the subject, or the first separator and such a run. */
  ghost predicate SeparatorCovered(tokens: seq<Token>, s: string, c: Captures, caseless: bool)
    requires tokens != [] && tokens[0].VariableToken?
  {
    || StepCovered(tokens, 0, 0, s, 0, c, caseless)
    || (LiteralAt(tokens[0].separator, s, 0, caseless) && Covered(tokens, 1, 0, s, |tokens[0].separator|, c, caseless))
  }

  /**
   When even the first token is optional, its separator stays required and its variable may be left off on its own: the
   second and later tokens may then follow the separator without it.
   */
  lemma {:induction false} OptionalRouteAccepts(tokens: seq<Token>, s: string, caseless: bool, c: Captures)
    requires AllGuarded(tokens) && OptionalTail(tokens, 0) && tokens != []
    ensures c in Accepted(RouteTree(tokens, 0, 0), s, 0, caseless)
       <==> SeparatorCovered(tokens, s, c, caseless)
  {
    PossessiveKeepsMeaning(tokens, 0, 0, s, 0, caseless);
    var t := PlainToken(tokens[0]);
    var rest := RouteTree(Plain(tokens), 1, 0);
    SameSpans(tokens[0], s, 0, caseless);
    forall j: nat, d ensures d in Accepted(rest, s, j, caseless) <==> Covered(tokens, 1, 0, s, j, d, caseless) {
      AcceptedIsCovered(tokens, 1, 0, s, j, caseless, d);
    }
    VariableInFront(t, rest, s, 0, caseless, c);
    OptionalInFront(t, rest, s, caseless, c);
  }

  lemma {:induction false} OptionalInFront(t: Token, r: Regex, s: string, caseless: bool, c: Captures)
    requires t.VariableToken?
    ensures c in Accepted(Literal(t.separator, Then(Variable(t.name, t.body, true), r)), s, 0, caseless)
       <==> c in Accepted(Literal(t.separator, Then(Variable(t.name, t.body, false), r)), s, 0, caseless)
            || (LiteralAt(t.separator, s, 0, caseless) && c in Accepted(r, s, |t.separator|, caseless))
  {
    var x, y := Then(Variable(t.name, t.body, true), r), Then(Variable(t.name, t.body, false), r);
    AcceptedLiteral(t.separator, x, s, 0, caseless);
    AcceptedLiteral(t.separator, y, s, 0, caseless);
    OptionalVariable(t.name, t.body, r, s, |t.separator|, caseless);
  }

  lemma {:induction false} OptionalVariable(name: string, body: Body, r: Regex, s: string, b: nat, caseless: bool)
    ensures Accepted(Then(Variable(name, body, true), r), s, b, caseless)
         == Accepted(Then(Variable(name, body, false), r), s, b, caseless) + Accepted(r, s, b, caseless)
  {
    AcceptedVariable(name, body, true, r, s, b, caseless);
    RequiredVariable(name, body, r, s, b, caseless);
  }

  // ---------- what may be left off ----------

  ghost predicate DistinctNames(tokens: seq<Token>) {
    forall a, b :: 0 <= a < b < |tokens| && tokens[a].VariableToken? && tokens[b].VariableToken? ==> tokens[a].name != tokens[b].name
  }

  /** An optional variable is left off, and a later one is not. */
  ghost predicate SkipsEarlier(tokens: seq<Token>, first: nat, c: Captures)
    requires OptionalTail(tokens, first)
  {
    exists a, b :: first <= a < b < |tokens| && tokens[a].name !in c && tokens[b].name in c
  }

  /** In every way to match, the optional variables are left off from the end only. */
  ghost predicate OnlyFromTheEnd(tokens: seq<Token>, first: nat, caseless: bool)
    requires OptionalTail(tokens, first)
  {
    forall s: string, c :: c in Accepted(RouteTree(tokens, 0, first), s, 0, caseless) ==> !SkipsEarlier(tokens, first, c)
  }

  /** A covering captures the variables of its tokens, and no others. */
  lemma {:induction false} TiledNames(tokens: seq<Token>, k: nat, m: nat, s: string, i: nat, c: Captures, caseless: bool)
    requires k <= m <= |tokens| && Tiled(tokens, k, m, s, i, c, caseless)
    ensures forall a :: k <= a < m && tokens[a].VariableToken? ==> tokens[a].name in c
    ensures forall n :: n in c ==> exists a :: k <= a < m && tokens[a].VariableToken? && tokens[a].name == n
    decreases m - k
  {
    if k < m {
      var j: nat, d :| Spans(tokens[k], s, i, j, caseless) && Tiled(tokens, k + 1, m, s, j, d, caseless) && c == CapturesOf(tokens[k], s, i, j) + d;
      TiledNames(tokens, k + 1, m, s, j, d, caseless);
    }
  }

  lemma {:induction false} TiledSkipsNone(tokens: seq<Token>, first: nat, m: nat, s: string, c: Captures, caseless: bool)
    requires OptionalTail(tokens, first) && DistinctNames(tokens) && m <= |tokens| && Tiled(tokens, 0, m, s, 0, c, caseless)
    ensures !SkipsEarlier(tokens, first, c)
  {
    TiledNames(tokens, 0, m, s, 0, c, caseless);
    forall a, b | first <= a < b < |tokens| && tokens[b].name in c ensures tokens[a].name in c {
      var e :| 0 <= e < m && tokens[e].VariableToken? && tokens[e].name == tokens[b].name;
      assert e == b;
    }
  }

  lemma {:induction false} LiteralSelf(text: string, s: string, i: nat, caseless: bool)
    requires i + |text| <= |s| && s[i..i + |text|] == text
    ensures LiteralAt(text, s, i, caseless)
  {
    if text != "" {
      assert s[i] == text[0];
      assert s[i + 1..i + |text|] == text[1..];
      LiteralSelf(text[1..], s, i + 1, caseless);
    }
  }

  /** Without a required token in front, some way to match leaves the first variable off and has the second one. */
  lemma {:induction false} SecondAlone(tokens: seq<Token>, x: char, caseless: bool) returns (s: string, c: Captures)
    requires AllGuarded(tokens) && OptionalTail(tokens, 0) && DistinctNames(tokens) && |tokens| > 1
    requires tokens[1].body.Class? && x !in tokens[1].body.excluded
    ensures s == tokens[0].separator + tokens[1].separator + [x] && c == map[tokens[1].name := [x]]
    ensures c in Accepted(RouteTree(tokens, 0, 0), s, 0, caseless)
    ensures SkipsEarlier(tokens, 0, c) && !Covered(tokens, 0, 0, s, 0, c, caseless)
  {
    var t, u := tokens[0], tokens[1];
    var i := |t.separator|;
    s, c := t.separator + u.separator + [x], map[u.name := [x]];
    LiteralSelf(t.separator, s, 0, caseless);
    SpansOne(u, s, i, x, caseless);
    assert Tiled(tokens, 2, 2, s, |s|, map[], caseless);
    assert CapturesOf(u, s, i, |s|) + map[] == c;
    assert Tiled(tokens, 1, 2, s, i, c, caseless);
    assert Covered(tokens, 1, 0, s, i, c, caseless);
    OptionalRouteAccepts(tokens, s, caseless, c);
    assert t.name !in c && u.name in c;
    forall m: nat | m <= |tokens| && Tiled(tokens, 0, m, s, 0, c, caseless) ensures false {
      TiledSkipsNone(tokens, 0, m, s, c, caseless);
    }
  }

  lemma {:induction false} SpansOne(u: Token, s: string, i: nat, x: char, caseless: bool)
    requires u.VariableToken? && u.body.Class? && x !in u.body.excluded
    requires i <= |s| && s[i..] == u.separator + [x]
    ensures Spans(u, s, i, |s|, caseless) && CapturesOf(u, s, i, |s|) == map[u.name := [x]]
  {
    var b := i + |u.separator|;
    assert s[i..][..|u.separator|] == s[i..b];
    LiteralSelf(u.separator, s, i, caseless);
    assert s[b] == s[i..][|u.separator|];
    assert s[b..|s|] == [x];
  }

  /**
   In all ways to match, also those that are never reported, optional variables are left off from the end only, exactly
   when a token in front is required or there is no second token.
   */
  lemma {:induction false} WhenOnlyFromTheEnd(tokens: seq<Token>, first: nat, x: char, caseless: bool)
    requires AllGuarded(tokens) && OptionalTail(tokens, first) && DistinctNames(tokens)
    requires first == 0 && |tokens| > 1 ==> tokens[1].body.Class? && x !in tokens[1].body.excluded
    ensures OnlyFromTheEnd(tokens, first, caseless) <==> first > 0 || |tokens| <= 1
  {
    if first > 0 {
      forall s: string, c | c in Accepted(RouteTree(tokens, 0, first), s, 0, caseless) ensures !SkipsEarlier(tokens, first, c) {
        RouteAccepts(tokens, first, s, caseless, c);
        var m: nat :| 0 <= m <= |tokens| && Needed(tokens, first) <= m && Tiled(tokens, 0, m, s, 0, c, caseless);
        TiledSkipsNone(tokens, first, m, s, c, caseless);
      }
    } else if |tokens| > 1 {
      var s, c := SecondAlone(tokens, x, caseless);
    }
  }
}
