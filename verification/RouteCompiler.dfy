/**
 The route compiler of MinWebFramework/Core/Routing/BaseRouteCompiler.php: from a URL pattern to tokens, to a regular
 expression, and to a static prefix. Names written in braces are variables; the last ones with a default are optional.
 */
module RouteCompiler {
  import opened RouteRegex

  const SEPARATORS: string := "/,;.:-_~+*=@|"
  const VARIABLE_MAXIMUM_LENGTH: nat := 32
  const PHP_INT_MAX: nat := 0x7FFF_FFFF_FFFF_FFFF

  /** The variables that have a default, and the custom requirements by variable. */
  datatype Route = Route(defaults: set<string>, requirements: map<string, (string, nat) -> seq<nat>>)

  datatype Token = TextToken(text: string) | VariableToken(separator: string, body: Body, name: string)

  datatype Error = StartsWithDigit(name: string) | Repeated(name: string) | TooLong(name: string)

  datatype Result<T> = Ok(value: T) | Err(error: Error)

  // ---------- the regular expression of a token list ----------

  function RouteTree(tokens: seq<Token>, k: nat, first: nat): Regex
    decreases |tokens| - k
  {
    if k >= |tokens| then End
    else match tokens[k]
      case TextToken(text) => Literal(text, RouteTree(tokens, k + 1, first))
      case VariableToken(separator, body, name) =>
        if k == 0 && first == 0 then Literal(separator, Then(Variable(name, body, true), RouteTree(tokens, 1, first)))
        else
          var r := Literal(separator, Then(Variable(name, body, false), RouteTree(tokens, k + 1, first)));
          if k >= first then Then(OptionalGroup(r), End) else r
  }

  function Quote(text: string): seq<Symbol> {
    if text == "" then [] else [Quoted(text[0])] + Quote(text[1..])
  }

  function Closers(n: nat): seq<Symbol> {
    if n == 0 then [] else [Close, Question] + Closers(n - 1)
  }

  function ComputeRegexp(tokens: seq<Token>, index: nat, first: nat): seq<Symbol>
    requires index < |tokens|
  {
    match tokens[index]
    case TextToken(text) => Quote(text)
    case VariableToken(separator, body, name) =>
      var regexp := Quote(separator) + [OpenNamed(name), Atom(body), Close];
      if index == 0 && first == 0 then Quote(separator) + [OpenNamed(name), Atom(body), Close, Question]
      else if index >= first then
        [OpenGroup] + regexp
        + if |tokens| - 1 == index then Closers(|tokens| - first - if first == 0 then 1 else 0) else []
      else regexp
  }

  /** The text for the tokens from `k` on. */
  function RegexpFrom(tokens: seq<Token>, k: nat, first: nat): seq<Symbol>
    requires k <= |tokens|
    decreases |tokens| - k
  {
    if k == |tokens| then [] else ComputeRegexp(tokens, k, first) + RegexpFrom(tokens, k + 1, first)
  }

  /** Every token from `first` on is a variable. */
  ghost predicate OptionalTail(tokens: seq<Token>, first: nat) {
    forall k :: first <= k < |tokens| ==> tokens[k].VariableToken?
  }

  /** How many optional groups are open in front of token `k`. */
  function Opened(k: nat, first: nat): nat {
    var from := if first == 0 then 1 else first;
    if k > from then k - from else 0
  }

  lemma {:induction false} LiteralText(text: string, r: Regex)
    ensures Text(Literal(text, r)) == Quote(text) + Text(r)
  {
    if text != "" { LiteralText(text[1..], r); }
  }

  /** The text is that of the tree, with the groups opened before closed at the end. */
  lemma {:induction false} TreeText(tokens: seq<Token>, k: nat, first: nat)
    requires OptionalTail(tokens, first) && k < |tokens|
    ensures RegexpFrom(tokens, k, first) == Text(RouteTree(tokens, k, first)) + Closers(Opened(k, first))
    decreases |tokens| - k
  {
    var rest := RouteTree(tokens, k + 1, first);
    var after := RegexpFrom(tokens, k + 1, first);
    if k + 1 < |tokens| {
      TreeText(tokens, k + 1, first);
    } else {
      assert after == [] && Text(rest) == [];
    }
    if tokens[k].TextToken? {
      LiteralText(tokens[k].text, rest);
    } else if k >= first && k > 0 {
      GroupTreeText(tokens, k, first, rest, after);
    } else {
      VariableTreeText(tokens, k, first, rest, after);
    }
  }

  lemma {:induction false} VariableTreeText(tokens: seq<Token>, k: nat, first: nat, rest: Regex, after: seq<Symbol>)
    requires k < |tokens| && tokens[k].VariableToken? && (k < first || k == 0)
    requires rest == RouteTree(tokens, k + 1, first) && after == RegexpFrom(tokens, k + 1, first) == Text(rest)
    ensures RegexpFrom(tokens, k, first) == Text(RouteTree(tokens, k, first))
  {
    var t := tokens[k];
    var variable := Variable(t.name, t.body, k == 0 && first == 0);
    LiteralText(t.separator, Then(variable, rest));
    Associative(Quote(t.separator), ItemText(variable), Text(rest));
  }

  lemma {:induction false} GroupTreeText(tokens: seq<Token>, k: nat, first: nat, rest: Regex, after: seq<Symbol>)
    requires k < |tokens| && tokens[k].VariableToken? && k >= first && k > 0
    requires rest == RouteTree(tokens, k + 1, first) && after == RegexpFrom(tokens, k + 1, first)
    requires if k + 1 < |tokens| then after == Text(rest) + Closers(Opened(k + 1, first)) else after == Text(rest) == []
    ensures RegexpFrom(tokens, k, first) == Text(RouteTree(tokens, k, first)) + Closers(Opened(k, first))
  {
    var t := tokens[k];
    var variable := Variable(t.name, t.body, false);
    var o := Opened(k, first);
    var inner := Quote(t.separator) + ItemText(variable);
    LiteralText(t.separator, Then(variable, rest));
    Associative(Quote(t.separator), ItemText(variable), Text(rest));
    CloseGroup(inner, Text(rest), o);
    LastGroupText(Literal(t.separator, Then(variable, rest)));
    assert Text(RouteTree(tokens, k, first)) == [OpenGroup] + (inner + Text(rest)) + [Close, Question];
    GroupRegexp(tokens, k, first, inner);
    if k + 1 == |tokens| { assert RegexpFrom(tokens, k, first) == ComputeRegexp(tokens, k, first); }
  }

  lemma GroupRegexp(tokens: seq<Token>, k: nat, first: nat, inner: seq<Symbol>)
    requires k < |tokens| && tokens[k].VariableToken? && k >= first && k > 0
    requires inner == Quote(tokens[k].separator) + [OpenNamed(tokens[k].name), Atom(tokens[k].body), Close]
    ensures ComputeRegexp(tokens, k, first)
         == if k + 1 < |tokens| then [OpenGroup] + inner else [OpenGroup] + inner + Closers(Opened(k, first) + 1)
  {
    if k + 1 < |tokens| { assert ([OpenGroup] + inner) + [] == [OpenGroup] + inner; }
  }

  lemma LastGroupText(r: Regex)
    ensures Text(Then(OptionalGroup(r), End)) == [OpenGroup] + Text(r) + [Close, Question]
  { }

  lemma CloseGroup(inner: seq<Symbol>, rest: seq<Symbol>, open: nat)
    ensures ([OpenGroup] + inner) + (rest + Closers(open + 1)) == ([OpenGroup] + (inner + rest) + [Close, Question]) + Closers(open)
    ensures rest == [] ==> [OpenGroup] + inner + Closers(open + 1) == ([OpenGroup] + (inner + rest) + [Close, Question]) + Closers(open)
  {
    assert Closers(open + 1) == [Close, Question] + Closers(open);
  }

  /** The groups are balanced: the text reads back as the tree. */
  lemma {:induction false} Balanced(tokens: seq<Token>, first: nat)
    requires OptionalTail(tokens, first)
    ensures Parse(RegexpFrom(tokens, 0, first)) == Some(RouteTree(tokens, 0, first))
  {
    var tree := RouteTree(tokens, 0, first);
    if tokens != [] { TreeText(tokens, 0, first); }
    assert RegexpFrom(tokens, 0, first) == Text(tree) + [];
    ParseText(tree, []);
  }

  // ---------- the possessive plus ----------

  predicate IsSeparator(c: char) {
    c in SEPARATORS
  }

  lemma SeparatorSame(c: char, d: char, caseless: bool)
    requires IsSeparator(c) && Same(c, d, caseless)
    ensures c == d
  {
    assert !('A' <= c <= 'Z') && !('a' <= c <= 'z');
  }

  function FirstLiteral(token: Token): Option<char> {
    match token
    case TextToken(text) => if text == "" then None else Some(text[0])
    case VariableToken(separator, _, _) => if separator == "" then None else Some(separator[0])
  }

  /** A possessive variable is last, or in front of a separator that it cannot match. */
  ghost predicate Guarded(tokens: seq<Token>, k: nat)
    requires k < |tokens|
  {
    tokens[k].VariableToken? && tokens[k].body.Class? && tokens[k].body.possessive && k + 1 < |tokens| ==>
      var c := FirstLiteral(tokens[k + 1]);
      c.Some? && IsSeparator(c.value) && c.value in tokens[k].body.excluded
  }

  ghost predicate AllGuarded(tokens: seq<Token>) {
    forall k :: 0 <= k < |tokens| ==> Guarded(tokens, k)
  }

  function PlainToken(token: Token): Token {
    match token
    case VariableToken(separator, Class(excluded, _), name) => VariableToken(separator, Class(excluded, false), name)
    case _ => token
  }

  /** The tokens with the possessive plus left off. */
  function Plain(tokens: seq<Token>): (p: seq<Token>)
    ensures |p| == |tokens| && forall k :: 0 <= k < |p| ==> p[k] == PlainToken(tokens[k])
  {
    if tokens == [] then [] else Plain(tokens[..|tokens| - 1]) + [PlainToken(tokens[|tokens| - 1])]
  }

  /** In front of a character that the variable before could have matched, nothing that follows it matches. */
  lemma {:induction false} Dead(tokens: seq<Token>, k: nat, first: nat, s: string, j: nat, caseless: bool)
    requires 0 < k <= |tokens| && j < |s|
    requires k < |tokens| ==>
      var c := FirstLiteral(tokens[k]);
      c.Some? && IsSeparator(c.value) && c.value != s[j]
    ensures Accepted(RouteTree(tokens, k, first), s, j, caseless) == []
  {
    if k == |tokens| {
      AcceptedEnd(s, j, caseless);
    } else {
      var c := FirstLiteral(tokens[k]).value;
      if Same(c, s[j], caseless) { SeparatorSame(c, s[j], caseless); }
      var rest := RouteTree(tokens, k + 1, first);
      match tokens[k]
      case TextToken(text) =>
        NoLiteral(text, rest, s, j, caseless);
      case VariableToken(separator, body, name) =>
        var inner := Then(Variable(name, body, false), rest);
        NoLiteral(separator, inner, s, j, caseless);
        AcceptedGroup(Literal(separator, inner), s, j, caseless);
    }
  }

  lemma {:induction false} NoLiteral(text: string, r: Regex, s: string, j: nat, caseless: bool)
    requires text != "" && j < |s| && !Same(text[0], s[j], caseless)
    ensures Accepted(Literal(text, r), s, j, caseless) == []
  {
    AcceptedLiteral(text, r, s, j, caseless);
  }

  lemma {:induction false} DeadEnds(name: string, ends: seq<nat>, r: Regex, s: string, i: nat, caseless: bool)
    requires forall k :: 0 <= k < |ends| ==> Accepted(r, s, ends[k], caseless) == []
    ensures AcceptedEnds(name, ends, r, s, i, caseless) == []
  {
    if ends != [] {
      assert Accepted(r, s, ends[0], caseless) == [];
      DeadEnds(name, ends[1..], r, s, i, caseless);
    }
  }

  /** Giving characters back is in vain when nothing matches behind a shorter run. */
  lemma {:induction false} GreedyOnly(name: string, n: nat, r: Regex, s: string, i: nat, caseless: bool)
    requires n > 0 && forall j :: i < j < i + n ==> Accepted(r, s, j, caseless) == []
    ensures AcceptedEnds(name, Descending(i, n), r, s, i, caseless) == AcceptedEnds(name, [i + n], r, s, i, caseless)
  {
    var shorter := Descending(i, n - 1);
    forall k | 0 <= k < |shorter| ensures Accepted(r, s, shorter[k], caseless) == [] {
      assert shorter[k] == i + n - 1 - k;
    }
    DeadEnds(name, shorter, r, s, i, caseless);
    assert Descending(i, n)[0] == i + n && Descending(i, n)[1..] == shorter;
    assert [i + n][1..] == [];
  }

  /** Behind a shorter run than the longest, nothing matches. */
  lemma {:induction false} DeadShorter(tokens: seq<Token>, k: nat, first: nat, rest: Regex, s: string, i: nat, n: nat,
                                       caseless: bool)
    requires k < |tokens| && tokens[k].VariableToken? && tokens[k].body.Class? && tokens[k].body.possessive && Guarded(tokens, k)
    requires rest == RouteTree(tokens, k + 1, first) && n == RunLength(s, i, tokens[k].body.excluded)
    ensures forall j :: i < j < i + n ==> Accepted(rest, s, j, caseless) == []
  {
    forall j | i < j < i + n ensures Accepted(rest, s, j, caseless) == [] {
      assert s[j] !in tokens[k].body.excluded;
      Dead(tokens, k + 1, first, s, j, caseless);
    }
  }

  /** One variable, with and without the possessive plus. */
  lemma {:induction false} PossessiveVariable(tokens: seq<Token>, k: nat, first: nat, rest: Regex, s: string, i: nat,
                                              caseless: bool)
    requires k < |tokens| && tokens[k].VariableToken? && tokens[k].body.Class? && Guarded(tokens, k)
    requires rest == RouteTree(tokens, k + 1, first)
    ensures AcceptedEnds(tokens[k].name, Ends(tokens[k].body, s, i), rest, s, i, caseless)
         == AcceptedEnds(tokens[k].name, Ends(PlainToken(tokens[k]).body, s, i), rest, s, i, caseless)
  {
    var n := RunLength(s, i, tokens[k].body.excluded);
    if !tokens[k].body.possessive {
      assert PlainToken(tokens[k]).body == tokens[k].body;
    } else if n > 0 {
      DeadShorter(tokens, k, first, rest, s, i, n, caseless);
      GreedyOnly(tokens[k].name, n, rest, s, i, caseless);
      assert Ends(tokens[k].body, s, i) == [i + n];
      assert Ends(PlainToken(tokens[k]).body, s, i) == Descending(i, n);
    }
  }

  lemma {:induction false} SameEnds(name: string, ends: seq<nat>, r: Regex, q: Regex, s: string, i: nat, caseless: bool)
    requires forall j: nat :: Accepted(r, s, j, caseless) == Accepted(q, s, j, caseless)
    ensures AcceptedEnds(name, ends, r, s, i, caseless) == AcceptedEnds(name, ends, q, s, i, caseless)
  {
    if ends != [] { SameEnds(name, ends[1..], r, q, s, i, caseless); }
  }

  /**
   The possessive plus changes nothing: the same subjects are accepted, in the same ways, with the same captures, and
   in the same order of preference.
   */
  lemma {:induction false} PossessiveKeepsMeaning(tokens: seq<Token>, k: nat, first: nat, s: string, i: nat,
                                                  caseless: bool)
    requires AllGuarded(tokens) && k <= |tokens|
    ensures Accepted(RouteTree(tokens, k, first), s, i, caseless) == Accepted(RouteTree(Plain(tokens), k, first), s, i, caseless)
    decreases |tokens| - k
  {
    if k < |tokens| {
      var rest, plain := RouteTree(tokens, k + 1, first), RouteTree(Plain(tokens), k + 1, first);
      forall j: nat ensures Accepted(rest, s, j, caseless) == Accepted(plain, s, j, caseless) {
        PossessiveKeepsMeaning(tokens, k + 1, first, s, j, caseless);
      }
      assert Plain(tokens)[k] == PlainToken(tokens[k]);
      match tokens[k]
      case TextToken(text) =>
        AcceptedLiteral(text, rest, s, i, caseless);
        AcceptedLiteral(text, plain, s, i, caseless);
      case VariableToken(separator, body, name) =>
        PossessiveToken(tokens, k, first, rest, plain, s, i, caseless);
    }
  }

  lemma {:induction false} PossessiveToken(tokens: seq<Token>, k: nat, first: nat, rest: Regex, plain: Regex,
                                           s: string, i: nat, caseless: bool)
    requires AllGuarded(tokens) && k < |tokens| && tokens[k].VariableToken?
    requires rest == RouteTree(tokens, k + 1, first) && plain == RouteTree(Plain(tokens), k + 1, first)
    requires forall j: nat :: Accepted(rest, s, j, caseless) == Accepted(plain, s, j, caseless)
    ensures Accepted(RouteTree(tokens, k, first), s, i, caseless) == Accepted(RouteTree(Plain(tokens), k, first), s, i, caseless)
  {
    var t, p := tokens[k], PlainToken(tokens[k]);
    var optional := k == 0 && first == 0;
    var b := i + |t.separator|;
    var x, y := Then(Variable(t.name, t.body, optional), rest), Then(Variable(t.name, p.body, optional), plain);
    assert Accepted(x, s, b, caseless) == Accepted(y, s, b, caseless) by {
      PossessiveStep(tokens, k, first, rest, plain, optional, s, b, caseless);
    }
    SeparatorGroup(t.separator, x, y, s, i, caseless);
  }

  lemma {:induction false} PossessiveStep(tokens: seq<Token>, k: nat, first: nat, rest: Regex, plain: Regex,
                                          optional: bool, s: string, b: nat, caseless: bool)
    requires AllGuarded(tokens) && k < |tokens| && tokens[k].VariableToken?
    requires rest == RouteTree(tokens, k + 1, first)
    requires forall j: nat :: Accepted(rest, s, j, caseless) == Accepted(plain, s, j, caseless)
    ensures Accepted(Then(Variable(tokens[k].name, tokens[k].body, optional), rest), s, b, caseless)
         == Accepted(Then(Variable(tokens[k].name, PlainToken(tokens[k]).body, optional), plain), s, b, caseless)
  {
    var t, p := tokens[k], PlainToken(tokens[k]);
    assert Guarded(tokens, k);
    if t.body.Class? { PossessiveVariable(tokens, k, first, rest, s, b, caseless); }
    SameEnds(t.name, Ends(p.body, s, b), rest, plain, s, b, caseless);
    AcceptedVariable(t.name, t.body, optional, rest, s, b, caseless);
    AcceptedVariable(t.name, p.body, optional, plain, s, b, caseless);
  }

  lemma {:induction false} SeparatorGroup(separator: string, x: Regex, y: Regex, s: string, i: nat, caseless: bool)
    requires Accepted(x, s, i + |separator|, caseless) == Accepted(y, s, i + |separator|, caseless)
    ensures Accepted(Literal(separator, x), s, i, caseless) == Accepted(Literal(separator, y), s, i, caseless)
    ensures Accepted(Then(OptionalGroup(Literal(separator, x)), End), s, i, caseless)
         == Accepted(Then(OptionalGroup(Literal(separator, y)), End), s, i, caseless)
  {
    AcceptedLiteral(separator, x, s, i, caseless);
    AcceptedLiteral(separator, y, s, i, caseless);
    AcceptedGroup(Literal(separator, x), s, i, caseless);
    AcceptedGroup(Literal(separator, y), s, i, caseless);
  }
}
