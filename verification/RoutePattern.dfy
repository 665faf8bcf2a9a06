/**
 Compiling a URL pattern (MinWebFramework/Core/Routing/BaseRouteCompiler.php): cutting it into tokens at the names in
 braces, choosing what each variable may match, and putting the route together.
 */
module RoutePattern {
  import opened RouteRegex
  import opened RouteCompiler
  import opened RouteLanguage
  import opened RouteReport

  // ---------- names in braces ----------

  predicate Word(c: char) {
    'a' <= c <= 'z' || 'A' <= c <= 'Z' || '0' <= c <= '9' || c == '_'
  }

  function WordEnd(p: string, i: nat): (j: nat)
    requires i <= |p|
    ensures i <= j <= |p| && (forall k :: i <= k < j ==> Word(p[k])) && (j < |p| ==> !Word(p[j]))
    decreases |p| - i
  {
    if i < |p| && Word(p[i]) then WordEnd(p, i + 1) else i
  }

  /** A match of the expression \{\w+\} at `i`. */
  predicate PlaceholderAt(p: string, i: nat) {
    i + 1 < |p| && p[i] == '{' && i + 1 < WordEnd(p, i + 1) < |p| && p[WordEnd(p, i + 1)] == '}'
  }

  function PlaceholderEnd(p: string, i: nat): (e: nat)
    requires PlaceholderAt(p, i)
    ensures i + 3 <= e <= |p|
  {
    WordEnd(p, i + 1) + 1
  }

  datatype Match = Match(from: nat, to: nat)

  /** All matches from `i` on, from left to right. */
  function Matches(p: string, i: nat): (m: seq<Match>)
    decreases |p| - i
  {
    if i >= |p| then []
    else if PlaceholderAt(p, i) then [Match(i, PlaceholderEnd(p, i))] + Matches(p, PlaceholderEnd(p, i))
    else Matches(p, i + 1)
  }

  /** The pattern from `i` on without its placeholders. */
  function Stripped(p: string, i: nat): string
    decreases |p| - i
  {
    if i >= |p| then ""
    else if PlaceholderAt(p, i) then Stripped(p, PlaceholderEnd(p, i))
    else [p[i]] + Stripped(p, i + 1)
  }

  // ---------- one variable ----------

  /** The next static character after `i` if it is a separator, else the empty string. */
  function FindNextSeparator(p: string, i: nat): string {
    var stripped := Stripped(p, i);
    if stripped == "" then "" else if IsSeparator(stripped[0]) then [stripped[0]] else ""
  }

  function BodyFor(route: Route, p: string, isHost: bool, name: string, to: nat): Body {
    if name in route.requirements then Custom(route.requirements[name])
    else
      var next := FindNextSeparator(p, to);
      Class(Characters(if isHost then "." else "/") + Characters(next), (next != "" && !PlaceholderAt(p, to)) || to >= |p|)
  }

  predicate EndsInSeparator(text: string) {
    text != "" && IsSeparator(text[|text| - 1])
  }

  /** The text in front of a variable, without a separator that goes to the variable. */
  function TextTokens(preceding: string): seq<Token> {
    if EndsInSeparator(preceding) then
      if |preceding| == 1 then [] else [TextToken(preceding[..|preceding| - 1])]
    else if preceding == "" then [] else [TextToken(preceding)]
  }

  function SeparatorOf(preceding: string): string {
    if EndsInSeparator(preceding) then [preceding[|preceding| - 1]] else ""
  }

  function Name(p: string, m: Match): string {
    if m.to == 0 then "" else Slice(p, m.from + 1, m.to - 1)
  }

  function VariableTokens(route: Route, p: string, isHost: bool, pos: nat, m: Match): seq<Token> {
    var preceding := Slice(p, pos, m.from);
    TextTokens(preceding) + [VariableToken(SeparatorOf(preceding), BodyFor(route, p, isHost, Name(p, m), m.to), Name(p, m))]
  }

  /** The tokens for the pattern from `pos` on, where `matches` are the placeholders there. */
  function TokensFrom(route: Route, p: string, isHost: bool, pos: nat, matches: seq<Match>): seq<Token>
    decreases |matches|
  {
    if matches == [] then if pos < |p| then [TextToken(p[pos..])] else []
    else VariableTokens(route, p, isHost, pos, matches[0]) + TokensFrom(route, p, isHost, matches[0].to, matches[1..])
  }

  function Tokens(route: Route, p: string, isHost: bool): seq<Token> {
    TokensFrom(route, p, isHost, 0, Matches(p, 0))
  }

  // ---------- what the tokens mean ----------

  function TokenSource(t: Token): string {
    match t
    case TextToken(text) => text
    case VariableToken(separator, _, name) => separator + ("{" + name + "}")
  }

  function Source(tokens: seq<Token>): string {
    if tokens == [] then "" else TokenSource(tokens[0]) + Source(tokens[1..])
  }

  lemma {:induction false} SourceConcat(a: seq<Token>, b: seq<Token>)
    ensures Source(a + b) == Source(a) + Source(b)
  {
    if a == [] {
      assert a + b == b;
    } else {
      var t, rest := a + b, a[1..] + b;
      assert t[0] == a[0] && t[1..] == rest;
      calc {
        Source(t);
        TokenSource(a[0]) + Source(rest);
        { SourceConcat(a[1..], b); }
        TokenSource(a[0]) + (Source(a[1..]) + Source(b));
        { Associative(TokenSource(a[0]), Source(a[1..]), Source(b)); }
        (TokenSource(a[0]) + Source(a[1..])) + Source(b);
        Source(a) + Source(b);
      }
    }
  }

  /** The matches lie in order behind `pos`, each is a placeholder, and nothing between is one. */
  ghost predicate InOrder(p: string, pos: nat, matches: seq<Match>)
    decreases |matches|
  {
    && pos <= |p|
    && if matches == [] then forall k :: pos <= k < |p| ==> !PlaceholderAt(p, k)
       else
         var m := matches[0];
         && pos <= m.from && PlaceholderAt(p, m.from) && m.to == PlaceholderEnd(p, m.from)
         && (forall k :: pos <= k < m.from ==> !PlaceholderAt(p, k))
         && InOrder(p, m.to, matches[1..])
  }

  lemma {:induction false} MatchesInOrder(p: string, i: nat)
    requires i <= |p|
    ensures InOrder(p, i, Matches(p, i))
    decreases |p| - i
  {
    if i < |p| {
      MatchesInOrder(p, if PlaceholderAt(p, i) then PlaceholderEnd(p, i) else i + 1);
    }
  }

  lemma PlaceholderSource(p: string, m: Match)
    requires PlaceholderAt(p, m.from) && m.to == PlaceholderEnd(p, m.from)
    ensures p[m.from..m.to] == "{" + Name(p, m) + "}"
  { }

  /** Nothing is lost: written out again, the tokens are the pattern. */
  lemma {:induction false} SourceFrom(route: Route, p: string, isHost: bool, pos: nat, matches: seq<Match>)
    requires InOrder(p, pos, matches)
    ensures Source(TokensFrom(route, p, isHost, pos, matches)) == p[pos..]
    decreases |matches|
  {
    if matches == [] {
      if pos < |p| { SourceOne(TextToken(p[pos..])); }
    } else {
      var m := matches[0];
      SourceFrom(route, p, isHost, m.to, matches[1..]);
      SourceConcat(VariableTokens(route, p, isHost, pos, m), TokensFrom(route, p, isHost, m.to, matches[1..]));
      SourceVariable(route, p, isHost, pos, m);
      CutEnd(p, pos, m.to);
    }
  }

  lemma CutEnd(p: string, i: nat, j: nat)
    requires i <= j <= |p|
    ensures p[i..] == p[i..j] + p[j..]
  { }

  lemma Cut(p: string, i: nat, j: nat, k: nat)
    requires i <= j <= k <= |p|
    ensures p[i..k] == p[i..j] + p[j..k]
  { }

  lemma SourceVariable(route: Route, p: string, isHost: bool, pos: nat, m: Match)
    requires pos <= m.from && PlaceholderAt(p, m.from) && m.to == PlaceholderEnd(p, m.from)
    ensures Source(VariableTokens(route, p, isHost, pos, m)) == p[pos..m.to]
  {
    var preceding := p[pos..m.from];
    var v := VariableToken(SeparatorOf(preceding), BodyFor(route, p, isHost, Name(p, m), m.to), Name(p, m));
    SourceConcat(TextTokens(preceding), [v]);
    SourceOne(v);
    SourceText(preceding);
    PlaceholderSource(p, m);
    Cut(p, pos, m.from, m.to);
    Associative(Source(TextTokens(preceding)), SeparatorOf(preceding), "{" + Name(p, m) + "}");
  }

  lemma SourceOne(t: Token)
    ensures Source([t]) == TokenSource(t)
  {
    assert Source([t][1..]) == "";
  }

  lemma SourceText(preceding: string)
    ensures Source(TextTokens(preceding)) + SeparatorOf(preceding) == preceding
  {
    if TextTokens(preceding) != [] { SourceOne(TextTokens(preceding)[0]); }
  }

  /** The first token begins with the next static character. */
  lemma {:induction false} FirstToken(route: Route, p: string, isHost: bool, pos: nat, matches: seq<Match>)
    requires InOrder(p, pos, matches) && pos < |p| && !PlaceholderAt(p, pos)
    ensures var tokens := TokensFrom(route, p, isHost, pos, matches);
      tokens != [] && FirstLiteral(tokens[0]) == Some(p[pos])
  {
    if matches != [] {
      var preceding := p[pos..matches[0].from];
      assert preceding[0] == p[pos];
      assert SeparatorOf(preceding) != "" ==> SeparatorOf(preceding)[0] == preceding[|preceding| - 1];
    }
  }

  /** A variable is possessive only in front of a separator that it excludes, or at the end. */
  lemma {:induction false} BodyGuarded(route: Route, p: string, isHost: bool, name: string, to: nat,
                                       matches: seq<Match>)
    requires InOrder(p, to, matches)
    ensures var body := BodyFor(route, p, isHost, name, to);
      var after := TokensFrom(route, p, isHost, to, matches);
      body.Class? && body.possessive && after != [] ==>
        var c := FirstLiteral(after[0]);
        c.Some? && IsSeparator(c.value) && c.value in body.excluded
  {
    if to < |p| && !PlaceholderAt(p, to) {
      FirstToken(route, p, isHost, to, matches);
      assert Stripped(p, to)[0] == p[to];
    }
  }

  /** So every possessive variable of a compiled pattern is guarded. */
  lemma {:induction false} TokensGuarded(route: Route, p: string, isHost: bool, pos: nat, matches: seq<Match>)
    requires InOrder(p, pos, matches)
    ensures AllGuarded(TokensFrom(route, p, isHost, pos, matches))
    decreases |matches|
  {
    if matches != [] {
      var m := matches[0];
      TokensGuarded(route, p, isHost, m.to, matches[1..]);
      BodyGuarded(route, p, isHost, Name(p, m), m.to, matches[1..]);
      GuardedConcat(VariableTokens(route, p, isHost, pos, m), TokensFrom(route, p, isHost, m.to, matches[1..]));
    }
  }

  lemma {:induction false} GuardedConcat(a: seq<Token>, b: seq<Token>)
    requires a != [] && AllGuarded(b) && forall k :: 0 <= k < |a| - 1 ==> a[k].TextToken?
    requires var v := a[|a| - 1];
      v.VariableToken? && v.body.Class? && v.body.possessive && b != [] ==>
        var c := FirstLiteral(b[0]);
        c.Some? && IsSeparator(c.value) && c.value in v.body.excluded
    ensures AllGuarded(a + b)
  {
    var t := a + b;
    forall k | 0 <= k < |t| ensures Guarded(t, k) {
      if k >= |a| { assert Guarded(b, k - |a|); }
    }
  }

  lemma {:induction false} TokensFit(route: Route, p: string, isHost: bool, pos: nat, matches: seq<Match>)
    requires InOrder(p, pos, matches)
    ensures |TokensFrom(route, p, isHost, pos, matches)| <= |p| - pos
    ensures pos < |p| ==> TokensFrom(route, p, isHost, pos, matches) != []
    decreases |matches|
  {
    if matches != [] { TokensFit(route, p, isHost, matches[0].to, matches[1..]); }
  }

  // ---------- names ----------

  predicate Digit(c: char) {
    '0' <= c <= '9'
  }

  function NameError(name: string, seen: seq<string>): Option<Error> {
    if name != "" && Digit(name[0]) then Some(StartsWithDigit(name))
    else if name in seen then Some(Repeated(name))
    else if |name| > VARIABLE_MAXIMUM_LENGTH then Some(TooLong(name))
    else None
  }

  /** The names of the first `n` matches. */
  function Names(p: string, matches: seq<Match>, n: nat): (names: seq<string>)
    requires n <= |matches|
    ensures |names| == n
  {
    if n == 0 then [] else Names(p, matches, n - 1) + [Name(p, matches[n - 1])]
  }

  /** The error of the first bad name among the first `n`, if there is one. */
  function FirstError(p: string, matches: seq<Match>, n: nat): Option<Error>
    requires n <= |matches|
  {
    if n == 0 then None
    else
      var e := FirstError(p, matches, n - 1);
      if e.Some? then e else NameError(Name(p, matches[n - 1]), Names(p, matches, n - 1))
  }

  ghost predicate AllGood(names: seq<string>) {
    && (forall k :: 0 <= k < |names| ==> |names[k]| <= VARIABLE_MAXIMUM_LENGTH && !(names[k] != "" && Digit(names[k][0])))
    && (forall j, k :: 0 <= j < k < |names| ==> names[j] != names[k])
  }

  lemma {:induction false} GoodName(seen: seq<string>, name: string, names: seq<string>)
    requires names == seen + [name]
    ensures AllGood(names) <==> AllGood(seen) && NameError(name, seen) == None
  {
    assert forall k :: 0 <= k < |seen| ==> seen[k] == names[k];
    assert names[|seen|] == name;
  }

  /** A pattern is accepted exactly when its names are distinct, not too long, and do not start with a digit. */
  lemma {:induction false} GoodNames(p: string, matches: seq<Match>, n: nat, names: seq<string>)
    requires n <= |matches| && names == Names(p, matches, n)
    ensures FirstError(p, matches, n) == None <==> AllGood(names)
  {
    if n > 0 {
      var seen := Names(p, matches, n - 1);
      GoodNames(p, matches, n - 1, seen);
      GoodName(seen, Name(p, matches[n - 1]), names);
    }
  }

  /** The variables of the tokens are the names of the placeholders, in order. */
  function Variables(tokens: seq<Token>): seq<string> {
    if tokens == [] then []
    else (if tokens[0].VariableToken? then [tokens[0].name] else []) + Variables(tokens[1..])
  }

  lemma {:induction false} VariablesConcat(a: seq<Token>, b: seq<Token>)
    ensures Variables(a + b) == Variables(a) + Variables(b)
  {
    if a == [] {
      assert a + b == b;
    } else {
      VariablesConcat(a[1..], b);
      assert (a + b)[0] == a[0] && (a + b)[1..] == a[1..] + b;
      Associative(if a[0].VariableToken? then [a[0].name] else [], Variables(a[1..]), Variables(b));
    }
  }

  lemma {:induction false} NamesAt(p: string, matches: seq<Match>, n: nat, k: nat)
    requires k < n <= |matches|
    ensures Names(p, matches, n)[k] == Name(p, matches[k])
  {
    if k < n - 1 { NamesAt(p, matches, n - 1, k); }
  }

  lemma {:induction false} VariablesFrom(route: Route, p: string, isHost: bool, pos: nat, matches: seq<Match>)
    ensures var v := Variables(TokensFrom(route, p, isHost, pos, matches));
      |v| == |matches| && forall k :: 0 <= k < |v| ==> v[k] == Name(p, matches[k])
    decreases |matches|
  {
    if matches != [] {
      var a, b := VariableTokens(route, p, isHost, pos, matches[0]), TokensFrom(route, p, isHost, matches[0].to, matches[1..]);
      VariablesFrom(route, p, isHost, matches[0].to, matches[1..]);
      VariablesConcat(a, b);
      OneVariable(route, p, isHost, pos, matches[0]);
      InFrontOf(Name(p, matches[0]), Variables(b));
    }
  }

  lemma InFrontOf<T>(x: T, s: seq<T>)
    ensures |[x] + s| == |s| + 1 && ([x] + s)[0] == x && forall k :: 0 < k <= |s| ==> ([x] + s)[k] == s[k - 1]
  { }

  lemma OneVariable(route: Route, p: string, isHost: bool, pos: nat, m: Match)
    ensures Variables(VariableTokens(route, p, isHost, pos, m)) == [Name(p, m)]
  {
    var texts := TextTokens(Slice(p, pos, m.from));
    var v := VariableTokens(route, p, isHost, pos, m)[|texts|];
    VariablesConcat(texts, [v]);
    assert Variables([v][1..]) == [];
    if texts != [] { assert Variables(texts[1..]) == []; }
  }

  lemma {:induction false} VariableIn(tokens: seq<Token>, b: nat)
    requires b < |tokens| && tokens[b].VariableToken?
    ensures tokens[b].name in Variables(tokens)
  {
    if b > 0 { VariableIn(tokens[1..], b - 1); }
  }

  ghost predicate NoRepeats(names: seq<string>) {
    forall j, k :: 0 <= j < k < |names| ==> names[j] != names[k]
  }

  lemma NoRepeatsRest(front: seq<string>, rest: seq<string>)
    requires NoRepeats(front + rest)
    ensures NoRepeats(rest) && forall x, y :: x in front && y in rest ==> x != y
  {
    assert forall k :: 0 <= k < |rest| ==> rest[k] == (front + rest)[|front| + k];
    assert forall k :: 0 <= k < |front| ==> front[k] == (front + rest)[k];
  }

  lemma {:induction false} VariablesDistinct(tokens: seq<Token>)
    requires NoRepeats(Variables(tokens))
    ensures DistinctNames(tokens)
  {
    if tokens != [] {
      var rest := tokens[1..];
      var front := if tokens[0].VariableToken? then [tokens[0].name] else [];
      NoRepeatsRest(front, Variables(rest));
      VariablesDistinct(rest);
      forall a, b | 0 <= a < b < |tokens| && tokens[a].VariableToken? && tokens[b].VariableToken? ensures tokens[a].name != tokens[b].name {
        assert tokens[b] == rest[b - 1];
        VariableIn(rest, b - 1);
        if a > 0 { assert rest[a - 1] == tokens[a]; } else { assert tokens[a].name in front; }
      }
    }
  }

  /** The tokens of an accepted pattern have different names, and a variable without a requirement matches letters. */
  lemma {:induction false} AcceptedNames(route: Route, p: string, isHost: bool)
    requires var matches := Matches(p, 0); FirstError(p, matches, |matches|) == None
    ensures DistinctNames(Tokens(route, p, isHost))
  {
    var matches := Matches(p, 0);
    var names := Names(p, matches, |matches|);
    GoodNames(p, matches, |matches|, names);
    VariablesFrom(route, p, isHost, 0, matches);
    forall k | 0 <= k < |matches| ensures Variables(Tokens(route, p, isHost))[k] == names[k] {
      NamesAt(p, matches, |matches|, k);
    }
    VariablesDistinct(Tokens(route, p, isHost));
  }

  /** A variable without a requirement may match any letter. */
  lemma {:induction false} LettersFit(route: Route, p: string, isHost: bool, pos: nat, matches: seq<Match>, k: nat)
    requires k < |TokensFrom(route, p, isHost, pos, matches)|
    ensures var t := TokensFrom(route, p, isHost, pos, matches)[k];
      t.VariableToken? && t.name !in route.requirements ==> t.body.Class? && 'x' !in t.body.excluded
    decreases |matches|
  {
    if matches != [] {
      var a := VariableTokens(route, p, isHost, pos, matches[0]);
      if k >= |a| { LettersFit(route, p, isHost, matches[0].to, matches[1..], k - |a|); }
    }
  }

  // ---------- the first optional token ----------

  predicate MayBeLeftOff(route: Route, t: Token) {
    t.VariableToken? && t.name in route.defaults
  }

  /** The optional tokens are the longest tail of variables with defaults; a host has none. */
  ghost predicate IsFirstOptional(route: Route, tokens: seq<Token>, isHost: bool, first: nat) {
    if isHost then first == PHP_INT_MAX
    else
      && (first == PHP_INT_MAX || first < |tokens|)
      && (forall k :: first <= k < |tokens| ==> MayBeLeftOff(route, tokens[k]))
      && (first < |tokens| ==> first == 0 || !MayBeLeftOff(route, tokens[first - 1]))
      && (first >= |tokens| && tokens != [] ==> !MayBeLeftOff(route, tokens[|tokens| - 1]))
  }

  // ---------- the static prefix ----------

  function DetermineStaticPrefix(route: Route, tokens: seq<Token>): string
    requires tokens != []
  {
    match tokens[0]
    case VariableToken(separator, _, name) =>
      if name in route.defaults || separator == "/" then "" else separator
    case TextToken(text) =>
      if |tokens| > 1 && tokens[1].VariableToken? && tokens[1].separator != "/" && tokens[1].name !in route.defaults
      then text + tokens[1].separator
      else text
  }

  /** Every accepted subject begins with the static prefix. */
  lemma {:induction false} PrefixOfAll(route: Route, tokens: seq<Token>, isHost: bool, first: nat, s: string,
                                       caseless: bool, c: Captures)
    requires AllGuarded(tokens) && 0 < |tokens| < PHP_INT_MAX && IsFirstOptional(route, tokens, isHost, first)
    requires c in Accepted(RouteTree(tokens, 0, first), s, 0, caseless)
    ensures LiteralAt(DetermineStaticPrefix(route, tokens), s, 0, caseless)
  {
    if first > 0 {
      RouteAccepts(tokens, first, s, caseless, c);
      var m: nat :| 0 <= m <= |tokens| && Needed(tokens, first) <= m && Tiled(tokens, 0, m, s, 0, c, caseless);
      var j: nat, d :| Spans(tokens[0], s, 0, j, caseless) && Tiled(tokens, 1, m, s, j, d, caseless) && c == CapturesOf(tokens[0], s, 0, j) + d;
      if tokens[0].TextToken? && DetermineStaticPrefix(route, tokens) != tokens[0].text {
        assert !MayBeLeftOff(route, tokens[1]);
        LiteralBoth(tokens[0].text, tokens[1].separator, s, 0, caseless);
      }
    }
  }

  lemma {:induction false} LiteralBoth(a: string, b: string, s: string, i: nat, caseless: bool)
    requires LiteralAt(a, s, i, caseless) && LiteralAt(b, s, i + |a|, caseless)
    ensures LiteralAt(a + b, s, i, caseless)
  {
    if a == "" {
      assert a + b == b;
    } else {
      LiteralBoth(a[1..], b, s, i + 1, caseless);
      assert (a + b)[1..] == a[1..] + b;
    }
  }

  // ---------- compiling ----------

  datatype Compiled = Compiled(staticPrefix: string, regex: seq<Symbol>, tokens: seq<Token>, variables: seq<string>)

  function Reversed<T>(s: seq<T>): (r: seq<T>)
    ensures |r| == |s| && forall k :: 0 <= k < |s| ==> r[k] == s[|s| - 1 - k]
  {
    if s == [] then [] else Reversed(s[1..]) + [s[0]]
  }

  method FindFirstOptional(route: Route, tokens: seq<Token>, isHost: bool) returns (first: nat)
    requires |tokens| < PHP_INT_MAX
    ensures IsFirstOptional(route, tokens, isHost, first)
  {
    first := PHP_INT_MAX;
    if !isHost {
      var i := |tokens| - 1;
      while i >= 0
        invariant -1 <= i < |tokens|
        invariant if i == |tokens| - 1 then first == PHP_INT_MAX else first == i + 1
        invariant forall k :: i < k < |tokens| ==> MayBeLeftOff(route, tokens[k])
      {
        if MayBeLeftOff(route, tokens[i]) {
          first := i;
        } else {
          break;
        }
        i := i - 1;
      }
    }
  }

  lemma TokensStep(route: Route, p: string, isHost: bool, pos: nat, matches: seq<Match>, n: nat, tokens: seq<Token>)
    requires n < |matches|
    ensures tokens + TokensFrom(route, p, isHost, pos, matches[n..])
         == (tokens + VariableTokens(route, p, isHost, pos, matches[n])) + TokensFrom(route, p, isHost, matches[n].to, matches[n + 1..])
  {
    assert matches[n..][0] == matches[n] && matches[n..][1..] == matches[n + 1..];
    Associative(tokens, VariableTokens(route, p, isHost, pos, matches[n]), TokensFrom(route, p, isHost, matches[n].to, matches[n + 1..]));
  }

  lemma TokensDone(route: Route, p: string, isHost: bool, pos: nat, matches: seq<Match>, tokens: seq<Token>)
    ensures tokens + TokensFrom(route, p, isHost, pos, matches[|matches|..])
         == if pos < |p| then tokens + [TextToken(p[pos..])] else tokens
  {
    assert matches[|matches|..] == [];
  }

  /** The loop over the placeholders. */
  method Tokenize(route: Route, p: string, isHost: bool) returns (r: Result<(seq<Token>, seq<string>)>)
    ensures var matches := Matches(p, 0);
      match FirstError(p, matches, |matches|)
      case Some(e) => r == Err(e)
      case None => r == Ok((Tokens(route, p, isHost), Names(p, matches, |matches|)))
  {
    var matches := Matches(p, 0);
    var tokens: seq<Token>, variables: seq<string>, pos: nat := [], [], 0;
    for n := 0 to |matches|
      invariant variables == Names(p, matches, n) && FirstError(p, matches, n) == None
      invariant Tokens(route, p, isHost) == tokens + TokensFrom(route, p, isHost, pos, matches[n..])
    {
      var m := matches[n];
      TokensStep(route, p, isHost, pos, matches, n, tokens);
      var name := Name(p, m);
      var error := NameError(name, variables);
      if error.Some? {
        ErrorStays(p, matches, n + 1, |matches|, error);
        return Err(error.value);
      }
      tokens := tokens + VariableTokens(route, p, isHost, pos, m);
      variables := variables + [name];
      pos := m.to;
    }
    TokensDone(route, p, isHost, pos, matches, tokens);
    if pos < |p| {
      tokens := tokens + [TextToken(p[pos..])];
    }
    return Ok((tokens, variables));
  }

  lemma JoinStep(tokens: seq<Token>, i: nat, first: nat, regexp: seq<Symbol>)
    requires i < |tokens|
    ensures regexp + RegexpFrom(tokens, i, first) == (regexp + ComputeRegexp(tokens, i, first)) + RegexpFrom(tokens, i + 1, first)
  {
    Associative(regexp, ComputeRegexp(tokens, i, first), RegexpFrom(tokens, i + 1, first));
  }

  /** The loop over the tokens. */
  method JoinRegexp(tokens: seq<Token>, first: nat) returns (regexp: seq<Symbol>)
    ensures regexp == RegexpFrom(tokens, 0, first)
  {
    regexp := [];
    for i := 0 to |tokens|
      invariant RegexpFrom(tokens, 0, first) == regexp + RegexpFrom(tokens, i, first)
    {
      JoinStep(tokens, i, first, regexp);
      regexp := regexp + ComputeRegexp(tokens, i, first);
    }
  }

  method CompilePattern(route: Route, p: string, isHost: bool) returns (r: Result<Compiled>)
    requires 0 < |p| < PHP_INT_MAX
    ensures var matches := Matches(p, 0);
      match FirstError(p, matches, |matches|)
      case Some(e) => r == Err(e)
      case None => r.Ok? && r.value.variables == Names(p, matches, |matches|)
    ensures r.Ok? ==>
      var tokens := Tokens(route, p, isHost);
      tokens != [] && r.value.tokens == Reversed(tokens) && r.value.staticPrefix == DetermineStaticPrefix(route, tokens)
    ensures r.Ok? ==> exists first ::
      var tokens := Tokens(route, p, isHost);
      IsFirstOptional(route, tokens, isHost, first) && r.value.regex == RegexpFrom(tokens, 0, first)
  {
    var cut := Tokenize(route, p, isHost);
    if cut.Err? {
      return Err(cut.error);
    }
    var (tokens, variables) := cut.value;
    MatchesInOrder(p, 0);
    TokensFit(route, p, isHost, 0, Matches(p, 0));
    var first := FindFirstOptional(route, tokens, isHost);
    var regexp := JoinRegexp(tokens, first);
    r := Ok(Compiled(DetermineStaticPrefix(route, tokens), regexp, Reversed(tokens), variables));
  }

  lemma {:induction false} ErrorStays(p: string, matches: seq<Match>, k: nat, n: nat, e: Option<Error>)
    requires k <= n <= |matches| && e.Some? && FirstError(p, matches, k) == e
    ensures FirstError(p, matches, n) == e
  {
    if k < n {
      ErrorStays(p, matches, k, n - 1, e);
      assert FirstError(p, matches, n - 1).Some?;
    }
  }

  /**
   What a compiled pattern means, for every pattern and route: the tokens spell the pattern, the text of the regular
   expression reads back as a balanced tree, the possessive quantifiers change nothing, a route whose first token is
   required accepts exactly the coverings by its required tokens and an initial run of the optional ones, any other one
   also the first separator followed by such a run, and every accepted subject begins with the static prefix.
   */
  lemma {:induction false} CompiledMeaning(route: Route, p: string, isHost: bool, first: nat, s: string, c: Captures)
    requires 0 < |p| < PHP_INT_MAX && IsFirstOptional(route, Tokens(route, p, isHost), isHost, first)
    ensures var tokens := Tokens(route, p, isHost);
      && tokens != [] && Source(tokens) == p && Parse(RegexpFrom(tokens, 0, first)) == Some(RouteTree(tokens, 0, first))
      && Accepted(RouteTree(tokens, 0, first), s, 0, isHost) == Accepted(RouteTree(Plain(tokens), 0, first), s, 0, isHost)
      && (first > 0 ==> (c in Accepted(RouteTree(tokens, 0, first), s, 0, isHost) <==> Covered(tokens, 0, first, s, 0, c, isHost)))
      && (first == 0 ==> tokens[0].VariableToken?)
      && (first == 0 ==>
           (c in Accepted(RouteTree(tokens, 0, first), s, 0, isHost) <==> SeparatorCovered(tokens, s, c, isHost)))
      && (c in Accepted(RouteTree(tokens, 0, first), s, 0, isHost) ==> LiteralAt(DetermineStaticPrefix(route, tokens), s, 0, isHost))
  {
    var tokens := Tokens(route, p, isHost);
    MatchesInOrder(p, 0);
    SourceFrom(route, p, isHost, 0, Matches(p, 0));
    assert p[0..] == p;
    TokensGuarded(route, p, isHost, 0, Matches(p, 0));
    TokensFit(route, p, isHost, 0, Matches(p, 0));
    Balanced(tokens, first);
    PossessiveKeepsMeaning(tokens, 0, first, s, 0, isHost);
    if first > 0 { RouteAccepts(tokens, first, s, isHost, c); } else { OptionalRouteAccepts(tokens, s, isHost, c); }
    if c in Accepted(RouteTree(tokens, 0, first), s, 0, isHost) {
      PrefixOfAll(route, tokens, isHost, first, s, isHost, c);
    }
  }

  // ---------- when the first variable is left off and a later one is not ----------

  ghost predicate AllVariables(tokens: seq<Token>) {
    forall k :: 0 <= k < |tokens| ==> tokens[k].VariableToken?
  }

  lemma NextBehind(v: Token, rest: seq<Token>, k: nat)
    ensures NextSeparator([v] + rest, k + 1) == NextSeparator(rest, k)
    decreases |rest| - k
  {
    if k < |rest| { NextBehind(v, rest, k + 1); }
  }

  lemma NextOne(v: Token, rest: seq<Token>)
    requires v.VariableToken?
    ensures NextSeparator([v] + rest, 0) == if v.separator != "" then v.separator else NextSeparator(rest, 0)
  {
    NextBehind(v, rest, 0);
  }

  /** A placeholder with nothing but a separator in front, if anything. */
  lemma OnlySeparator(route: Route, p: string, isHost: bool, pos: nat, m: Match)
    requires pos <= m.from <= |p| && AllVariables(VariableTokens(route, p, isHost, pos, m))
    ensures p[pos..m.from] == "" || (m.from == pos + 1 && IsSeparator(p[pos]))
    ensures VariableTokens(route, p, isHost, pos, m) == [VariableToken(p[pos..m.from], BodyFor(route, p, isHost, Name(p, m), m.to), Name(p, m))]
  {
    var preceding := Slice(p, pos, m.from);
    if TextTokens(preceding) != [] {
      TextComesFirst(route, p, isHost, pos, m);
      assert false;
    }
    if preceding != "" { assert preceding == [p[pos]]; }
  }

  lemma TextComesFirst(route: Route, p: string, isHost: bool, pos: nat, m: Match)
    requires TextTokens(Slice(p, pos, m.from)) != []
    ensures VariableTokens(route, p, isHost, pos, m)[0].TextToken?
  { }

  /** When all tokens are variables, the next static character after a place is the next separator. */
  lemma {:induction false} NextStatic(route: Route, p: string, isHost: bool, pos: nat, matches: seq<Match>)
    requires InOrder(p, pos, matches) && AllVariables(TokensFrom(route, p, isHost, pos, matches))
    ensures FindNextSeparator(p, pos) == NextSeparator(TokensFrom(route, p, isHost, pos, matches), 0)
    decreases |matches|
  {
    if matches == [] {
      NoTextLeft(route, p, isHost, pos);
    } else {
      var m := matches[0];
      var v, rest := VariableTokens(route, p, isHost, pos, m), TokensFrom(route, p, isHost, m.to, matches[1..]);
      SplitVariables(v, rest);
      OnlySeparator(route, p, isHost, pos, m);
      NextStatic(route, p, isHost, m.to, matches[1..]);
      NextOne(v[0], rest);
      StaticInFront(p, pos, m);
    }
  }

  lemma TextIsLeft(route: Route, p: string, isHost: bool, pos: nat)
    requires pos < |p|
    ensures var tokens := TokensFrom(route, p, isHost, pos, []);
      tokens != [] && tokens[0].TextToken?
  { }

  lemma NoTextLeft(route: Route, p: string, isHost: bool, pos: nat)
    requires pos <= |p| && AllVariables(TokensFrom(route, p, isHost, pos, []))
    ensures pos == |p|
  {
    if pos < |p| {
      TextIsLeft(route, p, isHost, pos);
      assert false;
    }
  }

  lemma StaticInFront(p: string, pos: nat, m: Match)
    requires pos <= m.from && PlaceholderAt(p, m.from) && m.to == PlaceholderEnd(p, m.from)
    requires pos < m.from ==> !PlaceholderAt(p, pos)
    requires p[pos..m.from] == "" || (m.from == pos + 1 && IsSeparator(p[pos]))
    ensures FindNextSeparator(p, pos) == if pos < m.from then p[pos..m.from] else FindNextSeparator(p, m.to)
  {
    if pos < m.from { assert Stripped(p, pos)[0] == p[pos]; }
  }

  lemma SplitVariables(a: seq<Token>, b: seq<Token>)
    requires AllVariables(a + b)
    ensures AllVariables(a) && AllVariables(b)
  {
    assert forall k :: 0 <= k < |a| ==> a[k] == (a + b)[k];
    assert forall k :: 0 <= k < |b| ==> b[k] == (a + b)[|a| + k];
  }

  lemma {:induction false} PlainInFront(v: Token, rest: seq<Token>)
    requires AllPlain(rest) && v.VariableToken? && v.body.Class?
    requires v.body.excluded == Characters("/") + Characters(NextSeparator(rest, 0))
    requires v.separator == "" || (|v.separator| == 1 && IsSeparator(v.separator[0]))
    ensures AllPlain([v] + rest)
  {
    var tokens := [v] + rest;
    forall k | 0 <= k < |tokens| ensures PlainAt(tokens, k) {
      NextBehind(v, rest, k);
      if k > 0 { assert PlainAt(rest, k - 1); }
    }
  }

  /** Variables without requirements match all but the slash and the next separator. */
  lemma {:induction false} CompiledPlain(route: Route, p: string, pos: nat, matches: seq<Match>)
    requires InOrder(p, pos, matches) && AllVariables(TokensFrom(route, p, false, pos, matches))
    requires forall t :: t in TokensFrom(route, p, false, pos, matches) && t.VariableToken? ==> t.name !in route.requirements
    ensures AllPlain(TokensFrom(route, p, false, pos, matches))
    decreases |matches|
  {
    if matches != [] {
      var m := matches[0];
      var v, rest := VariableTokens(route, p, false, pos, m), TokensFrom(route, p, false, m.to, matches[1..]);
      SplitVariables(v, rest);
      OnlySeparator(route, p, false, pos, m);
      CompiledPlain(route, p, m.to, matches[1..]);
      NextStatic(route, p, false, m.to, matches[1..]);
      assert v[0] in TokensFrom(route, p, false, pos, matches);
      PlainInFront(v[0], rest);
    } else {
      NoTextLeft(route, p, false, pos);
    }
  }

  /**
   Which compiled routes leave optional variables off from the end only, as far as the first way to match is concerned,
   which is the one that is reported: those with a required token in front, and those in which no token but the first
   has a separator.
   */
  lemma {:induction false} CompiledLeavesOff(route: Route, p: string, isHost: bool, first: nat)
    requires 0 < |p| < PHP_INT_MAX && IsFirstOptional(route, Tokens(route, p, isHost), isHost, first)
    requires var matches := Matches(p, 0); FirstError(p, matches, |matches|) == None
    requires first == 0 ==> forall t :: t in Tokens(route, p, isHost) && t.VariableToken? ==> t.name !in route.requirements
    ensures var tokens := Tokens(route, p, isHost);
      && OptionalTail(tokens, first)
      && (AlwaysFromTheEnd(tokens, first, isHost)
          <==> first > 0 || forall k :: 1 <= k < |tokens| ==> tokens[k].VariableToken? && tokens[k].separator == "")
  {
    var tokens := Tokens(route, p, isHost);
    CompiledReady(route, p, isHost, first);
    if first == 0 {
      MatchesInOrder(p, 0);
      CompiledPlain(route, p, 0, Matches(p, 0));
      forall k | 0 <= k < |tokens| ensures tokens[k].body.Class? && 'x' !in tokens[k].body.excluded {
        assert tokens[k] in tokens;
        LettersFit(route, p, isHost, 0, Matches(p, 0), k);
      }
    }
    WhenReportedFromTheEnd(tokens, first, 'x', isHost);
  }

  /** Among all ways to match, also those that are never reported: only routes without a second token do without. */
  lemma {:induction false} CompiledWays(route: Route, p: string, isHost: bool, first: nat)
    requires 0 < |p| < PHP_INT_MAX && IsFirstOptional(route, Tokens(route, p, isHost), isHost, first)
    requires var matches := Matches(p, 0); FirstError(p, matches, |matches|) == None
    requires var tokens := Tokens(route, p, isHost);
      first == 0 && |tokens| > 1 && tokens[1].VariableToken? ==> tokens[1].name !in route.requirements
    ensures var tokens := Tokens(route, p, isHost);
      OptionalTail(tokens, first) && (OnlyFromTheEnd(tokens, first, isHost) <==> first > 0 || |tokens| <= 1)
  {
    var tokens := Tokens(route, p, isHost);
    CompiledReady(route, p, isHost, first);
    if |tokens| > 1 { LettersFit(route, p, isHost, 0, Matches(p, 0), 1); }
    WhenOnlyFromTheEnd(tokens, first, 'x', isHost);
  }

  lemma {:induction false} CompiledReady(route: Route, p: string, isHost: bool, first: nat)
    requires 0 < |p| < PHP_INT_MAX && IsFirstOptional(route, Tokens(route, p, isHost), isHost, first)
    requires var matches := Matches(p, 0); FirstError(p, matches, |matches|) == None
    ensures var tokens := Tokens(route, p, isHost);
      AllGuarded(tokens) && OptionalTail(tokens, first) && DistinctNames(tokens) && (first == 0 ==> !isHost && AllVariables(tokens))
  {
    MatchesInOrder(p, 0);
    TokensGuarded(route, p, isHost, 0, Matches(p, 0));
    TokensFit(route, p, isHost, 0, Matches(p, 0));
    AcceptedNames(route, p, isHost);
  }

  lemma OneLetter(p: string, i: nat)
    requires i + 2 < |p| && p[i] == '{' && Word(p[i + 1]) && p[i + 2] == '}'
    ensures PlaceholderAt(p, i) && PlaceholderEnd(p, i) == i + 3
  {
    assert WordEnd(p, i + 2) == i + 2;
    assert WordEnd(p, i + 1) == i + 2;
  }

  lemma TwoMatches(p: string)
    requires p == "/{a}.{b}"
    ensures Matches(p, 0) == [Match(1, 4), Match(5, 8)] && !PlaceholderAt(p, 4)
  {
    OneLetter(p, 1);
    OneLetter(p, 5);
    assert Matches(p, 5) == [Match(5, 8)] + Matches(p, 8) == [Match(5, 8)];
    assert Matches(p, 4) == Matches(p, 5);
    assert Matches(p, 1) == [Match(1, 4)] + Matches(p, 4);
  }

  lemma TwoBodies(route: Route, p: string)
    requires p == "/{a}.{b}" && "a" !in route.requirements && "b" !in route.requirements
    ensures BodyFor(route, p, false, "a", 4) == Class({'/', '.'}, true) && BodyFor(route, p, false, "b", 8) == Class({'/'}, true)
  {
    TwoMatches(p);
    assert Stripped(p, 4) == ['.'] + Stripped(p, 5);
    assert Characters("/") == {'/'} && Characters(".") == {'.'} && Characters("") == {};
    assert FindNextSeparator(p, 4) == "." && FindNextSeparator(p, 8) == "";
  }

  lemma SeparatorAndName(route: Route, p: string, pos: nat, m: Match, separator: string)
    requires pos < m.from <= m.to <= |p| && p[pos..m.from] == separator && |separator| == 1 && IsSeparator(separator[0])
    ensures VariableTokens(route, p, false, pos, m) == [VariableToken(separator, BodyFor(route, p, false, Name(p, m), m.to), Name(p, m))]
  {
    assert Slice(p, pos, m.from) == separator && TextTokens(separator) == [];
    assert [separator[0]] == separator;
  }

  /** The two variables of the pattern "/{a}.{b}". */
  function A(): Token {
    VariableToken("/", Class({'/', '.'}, true), "a")
  }

  function B(): Token {
    VariableToken(".", Class({'/'}, true), "b")
  }

  lemma TwoNames(p: string)
    requires p == "/{a}.{b}"
    ensures |p| == 8 && p[0..1] == "/" && p[4..5] == "." && Name(p, Match(1, 4)) == "a" && Name(p, Match(5, 8)) == "b"
  { }

  lemma TwoPieces(route: Route, p: string)
    requires p == "/{a}.{b}" && "a" !in route.requirements && "b" !in route.requirements
    ensures VariableTokens(route, p, false, 0, Match(1, 4)) == [A()] && VariableTokens(route, p, false, 4, Match(5, 8)) == [B()]
  {
    TwoBodies(route, p);
    TwoNames(p);
    SeparatorAndName(route, p, 0, Match(1, 4), "/");
    SeparatorAndName(route, p, 4, Match(5, 8), ".");
  }

  lemma TwoVariables(route: Route, p: string, m: Match, n: Match)
    requires n.to == |p|
    ensures TokensFrom(route, p, false, 0, [m, n]) == VariableTokens(route, p, false, 0, m) + VariableTokens(route, p, false, m.to, n)
  {
    assert [m, n][1..] == [n] && [n][1..] == [];
    assert TokensFrom(route, p, false, n.to, []) == [];
  }

  /** Cuts the pattern "/{a}.{b}". */
  lemma TwoTokens(route: Route, p: string)
    requires p == "/{a}.{b}" && "a" !in route.requirements && "b" !in route.requirements
    ensures Tokens(route, p, false) == [A(), B()]
  {
    TwoMatches(p);
    TwoPieces(route, p);
    TwoVariables(route, p, Match(1, 4), Match(5, 8));
  }

  /** The only way to match "/.x" captures the second variable alone. */
  lemma SkippedFirst()
    ensures Accepted(RouteTree([A(), B()], 0, 0), "/.x", 0, false) == [map["b" := "x"]]
  {
    var tokens, s := [A(), B()], "/.x";
    assert Ends(A().body, s, 1) == [];
    FirstTree(tokens);
    OptionalToken(A(), RouteTree(tokens, 1, 0), RouteTree(tokens, 0, 0), s, false);
    SecondCaptured();
  }

  lemma SecondCaptured()
    ensures Accepted(RouteTree([A(), B()], 1, 0), "/.x", 1, false) == [map["b" := "x"]]
  {
    var s := "/.x";
    OneLeft(s);
    LaterTree([A(), B()], 1);
    GroupedToken(B(), RouteTree([A(), B()], 2, 0), RouteTree([A(), B()], 1, 0), s, 1, false);
    AcceptedEnd(s, 3, false);
    OneEnd("b", 3, s, 2, false);
  }

  lemma OneLeft(s: string)
    requires s == "/.x"
    ensures Ends(B().body, s, 2) == [3] && Slice(s, 2, 3) == "x"
  {
    assert RunLength(s, 3, {'/'}) == 0;
    assert RunLength(s, 2, {'/'}) == 1;
  }

  lemma OneEnd(name: string, end: nat, s: string, b: nat, caseless: bool)
    requires Accepted(End, s, end, caseless) == [map[]]
    ensures AcceptedEnds(name, [end], End, s, b, caseless) == [map[name := Slice(s, b, end)]]
  {
    var c: Captures := map[name := Slice(s, b, end)];
    assert [end][1..] == [];
    assert Under(c, [map[]])[0] == c + map[] == c;
  }

  /**
   Two defaulted variables and nothing required in front: for the subject "/.x" it is reported that the first variable
   is left off and the second one is not, which no initial run of the tokens covers.
   */
  lemma {:induction false} FirstMayBeSkipped(route: Route)
    requires route.defaults == {"a", "b"} && route.requirements == map[]
    ensures var tokens := Tokens(route, "/{a}.{b}", false);
      && IsFirstOptional(route, tokens, false, 0) && OptionalTail(tokens, 0)
      && Accepted(RouteTree(tokens, 0, 0), "/.x", 0, false) == [map["b" := "x"]]
      && SkipsEarlier(tokens, 0, map["b" := "x"]) && !Covered(tokens, 0, 0, "/.x", 0, map["b" := "x"], false)
  {
    TwoTokens(route, "/{a}.{b}");
    SkippedFirst();
    NotCovered();
  }

  lemma NotCovered()
    ensures IsFirstOptional(Route({"a", "b"}, map[]), [A(), B()], false, 0)
    ensures SkipsEarlier([A(), B()], 0, map["b" := "x"]) && !Covered([A(), B()], 0, 0, "/.x", 0, map["b" := "x"], false)
  {
    assert AllGuarded([A(), B()]) by { assert Guarded([A(), B()], 0) && Guarded([A(), B()], 1); }
    var s, c := SecondAlone([A(), B()], 'x', false);
    assert s == "/.x" && c == map["b" := "x"];
  }
}
