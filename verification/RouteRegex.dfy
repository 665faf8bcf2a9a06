/**
 The regular expressions that the route compiler writes (MinWebFramework/Core/Routing/BaseRouteCompiler.php): their text
 as a sequence of symbols, their syntax tree, and a backtracking matcher that gives all ways to match in the order in
 which PCRE tries them.
 */
module RouteRegex {
  datatype Option<T> = None | Some(value: T)

  type Captures = map<string, string>

  /**
   What a variable may match: one or more characters outside a set, with or without the possessive plus, or a custom
   requirement, of which only the end positions it offers at a place of the subject, in order, are known.
   */
  datatype Body =
    | Class(excluded: set<char>, possessive: bool)
    | Custom(ends: (string, nat) -> seq<nat>)

  datatype Regex = End | Then(item: Item, rest: Regex)

  datatype Item =
    | Char(c: char)
    | Variable(name: string, body: Body, optional: bool)
    | OptionalGroup(inner: Regex)

  // ---------- text ----------

  /** The text of an expression; a quoted character is one symbol. */
  datatype Symbol = Quoted(c: char) | OpenNamed(name: string) | Atom(body: Body) | OpenGroup | Close | Question

  function Text(r: Regex): seq<Symbol> {
    match r
    case End => []
    case Then(item, rest) => ItemText(item) + Text(rest)
  }

  function ItemText(item: Item): seq<Symbol> {
    match item
    case Char(c) => [Quoted(c)]
    case Variable(name, body, optional) =>
      if optional then [OpenNamed(name), Atom(body), Close, Question] else [OpenNamed(name), Atom(body), Close]
    case OptionalGroup(inner) => [OpenGroup] + Text(inner) + [Close, Question]
  }

  datatype Parsed = Parsed(regex: Regex, left: seq<Symbol>)

  /** Reads up to the end or to a parenthesis that closes a group opened before. */
  function ParseSequence(t: seq<Symbol>): (p: Option<Parsed>)
    ensures p.Some? ==> |p.value.left| <= |t|
    decreases |t|
  {
    if t == [] || t[0] == Close then Some(Parsed(End, t))
    else match t[0]
      case Quoted(c) => Before(Char(c), ParseSequence(t[1..]))
      case OpenNamed(name) =>
        if |t| < 3 || !t[1].Atom? || t[2] != Close then None
        else if |t| > 3 && t[3] == Question then Before(Variable(name, t[1].body, true), ParseSequence(t[4..]))
        else Before(Variable(name, t[1].body, false), ParseSequence(t[3..]))
      case OpenGroup =>
        (match ParseSequence(t[1..])
         case None => None
         case Some(p) =>
           if |p.left| < 2 || p.left[0] != Close || p.left[1] != Question then None
           else Before(OptionalGroup(p.regex), ParseSequence(p.left[2..])))
      case _ => None
  }

  function Before(item: Item, p: Option<Parsed>): Option<Parsed> {
    match p
    case None => None
    case Some(q) => Some(Parsed(Then(item, q.regex), q.left))
  }

  function Parse(t: seq<Symbol>): Option<Regex> {
    match ParseSequence(t)
    case None => None
    case Some(p) => if p.left == [] then Some(p.regex) else None
  }

  /** Reading back what was written, in front of anything that closes. */
  lemma {:induction false} ParseText(r: Regex, tail: seq<Symbol>)
    requires tail == [] || tail[0] == Close
    ensures ParseSequence(Text(r) + tail) == Some(Parsed(r, tail))
    decreases r
  {
    match r
    case End =>
      assert Text(r) + tail == tail;
    case Then(item, rest) =>
      ParseText(rest, tail);
      FirstSymbol(rest);
      assert Text(r) + tail == ItemText(item) + (Text(rest) + tail);
      ParseItem(item, Text(rest) + tail);
  }

  lemma {:induction false} ParseItem(item: Item, after: seq<Symbol>)
    requires after != [] ==> after[0] != Question
    ensures ParseSequence(ItemText(item) + after) == Before(item, ParseSequence(after))
    decreases item
  {
    match item
    case Char(c) =>
      ParseQuoted(c, after);
    case Variable(name, body, optional) =>
      ParseVariable(name, body, optional, after);
    case OptionalGroup(inner) =>
      var closed := [Close, Question] + after;
      ParseText(inner, closed);
      GroupText(Text(inner), after);
      ParseGroup(Text(inner) + closed, closed, inner, after);
  }

  lemma GroupText(inner: seq<Symbol>, after: seq<Symbol>)
    ensures ([OpenGroup] + inner + [Close, Question]) + after == [OpenGroup] + (inner + ([Close, Question] + after))
  { }

  lemma ParseQuoted(c: char, after: seq<Symbol>)
    ensures ParseSequence([Quoted(c)] + after) == Before(Char(c), ParseSequence(after))
  {
    assert ([Quoted(c)] + after)[1..] == after;
  }

  lemma ParseVariable(name: string, body: Body, optional: bool, after: seq<Symbol>)
    requires after != [] ==> after[0] != Question
    ensures ParseSequence(ItemText(Variable(name, body, optional)) + after) == Before(Variable(name, body, optional), ParseSequence(after))
  {
    var t := ItemText(Variable(name, body, optional)) + after;
    if optional {
      assert t[4..] == after;
    } else {
      assert t[3..] == after;
    }
  }

  lemma ParseGroup(t: seq<Symbol>, closed: seq<Symbol>, inner: Regex, after: seq<Symbol>)
    requires closed == [Close, Question] + after && ParseSequence(t) == Some(Parsed(inner, closed))
    ensures ParseSequence([OpenGroup] + t) == Before(OptionalGroup(inner), ParseSequence(after))
  {
    assert ([OpenGroup] + t)[1..] == t;
    assert closed[2..] == after;
  }

  lemma FirstSymbol(r: Regex)
    ensures Text(r) != [] ==> Text(r)[0] != Question && Text(r)[0] != Close
  { }

  // ---------- the backtracking matcher ----------

  /** One way to match: where it ends and what the named groups captured. */
  datatype Outcome = Outcome(end: nat, captures: Captures)

  function Lower(c: char): char {
    if 'A' <= c <= 'Z' then (c - 'A') + 'a' else c
  }

  predicate Same(c: char, d: char, caseless: bool) {
    c == d || (caseless && Lower(c) == Lower(d))
  }

  function Slice(s: string, i: nat, j: nat): string {
    if i <= j <= |s| then s[i..j] else ""
  }

  /** How many characters from `i` on are outside `excluded`. */
  function RunLength(s: string, i: nat, excluded: set<char>): (n: nat)
    ensures i + n <= |s| || n == 0
    ensures forall k :: i <= k < i + n ==> s[k] !in excluded
    ensures i + n < |s| ==> s[i + n] in excluded
    decreases |s| - i
  {
    if i < |s| && s[i] !in excluded then 1 + RunLength(s, i + 1, excluded) else 0
  }

  /** The ends `i + n`, `i + n - 1`, ..., `i + 1`: a greedy plus gives back one character at a time. */
  function Descending(i: nat, n: nat): (ends: seq<nat>)
    ensures |ends| == n && forall k :: 0 <= k < n ==> ends[k] == i + n - k
  {
    if n == 0 then [] else [i + n] + Descending(i, n - 1)
  }

  function Ends(body: Body, s: string, i: nat): seq<nat> {
    match body
    case Class(excluded, possessive) =>
      var n := RunLength(s, i, excluded);
      if n == 0 then [] else if possessive then [i + n] else Descending(i, n)
    case Custom(ends) => ends(s, i)
  }

  function Captured(name: string, ends: seq<nat>, s: string, i: nat): (o: seq<Outcome>)
    ensures |o| == |ends| && forall k :: 0 <= k < |o| ==> o[k] == Outcome(ends[k], map[name := Slice(s, i, ends[k])])
  {
    if ends == [] then []
    else [Outcome(ends[0], map[name := Slice(s, i, ends[0])])] + Captured(name, ends[1..], s, i)
  }

  function ItemOutcomes(item: Item, s: string, i: nat, caseless: bool): seq<Outcome>
    decreases item, 0
  {
    match item
    case Char(c) => if i < |s| && Same(c, s[i], caseless) then [Outcome(i + 1, map[])] else []
    case Variable(name, body, optional) =>
      Captured(name, Ends(body, s, i), s, i) + if optional then [Outcome(i, map[])] else []
    case OptionalGroup(inner) => Outcomes(inner, s, i, caseless) + [Outcome(i, map[])]
  }

  /** All ways to match from `i` on, the preferred first. */
  function Outcomes(r: Regex, s: string, i: nat, caseless: bool): seq<Outcome>
    decreases r, 0
  {
    match r
    case End => [Outcome(i, map[])]
    case Then(item, rest) => Continue(ItemOutcomes(item, s, i, caseless), rest, s, caseless)
  }

  function Continue(from: seq<Outcome>, r: Regex, s: string, caseless: bool): seq<Outcome>
    decreases r, 1, from
  {
    if from == [] then []
    else With(from[0].captures, Outcomes(r, s, from[0].end, caseless)) + Continue(from[1..], r, s, caseless)
  }

  function With(captures: Captures, outcomes: seq<Outcome>): seq<Outcome> {
    if outcomes == [] then []
    else [Outcome(outcomes[0].end, captures + outcomes[0].captures)] + With(captures, outcomes[1..])
  }

  /** The captures of the ways that end where the subject ends, which is what the anchor `$` with the flag D asks. */
  function Finals(outcomes: seq<Outcome>, n: nat): seq<Captures> {
    if outcomes == [] then []
    else (if outcomes[0].end == n then [outcomes[0].captures] else []) + Finals(outcomes[1..], n)
  }

  /** The accepted ways to match `s` from `i` on; a call of preg_match reports the first. */
  function Accepted(r: Regex, s: string, i: nat, caseless: bool): seq<Captures> {
    Finals(Outcomes(r, s, i, caseless), |s|)
  }

  // ---------- accepted ways, compositionally ----------

  function Under(captures: Captures, all: seq<Captures>): (u: seq<Captures>)
    ensures |u| == |all| && forall k :: 0 <= k < |all| ==> u[k] == captures + all[k]
  {
    if all == [] then [] else [captures + all[0]] + Under(captures, all[1..])
  }

  function AcceptedEach(from: seq<Outcome>, r: Regex, s: string, caseless: bool): seq<Captures> {
    if from == [] then []
    else Under(from[0].captures, Accepted(r, s, from[0].end, caseless)) + AcceptedEach(from[1..], r, s, caseless)
  }

  lemma Associative<T>(a: seq<T>, b: seq<T>, c: seq<T>)
    ensures (a + b) + c == a + (b + c)
  { }

  lemma {:induction false} FinalsConcat(a: seq<Outcome>, b: seq<Outcome>, n: nat)
    ensures Finals(a + b, n) == Finals(a, n) + Finals(b, n)
  {
    if a == [] {
      assert a + b == b;
    } else {
      FinalsConcat(a[1..], b, n);
      assert (a + b)[1..] == a[1..] + b && (a + b)[0] == a[0];
      Associative(if a[0].end == n then [a[0].captures] else [], Finals(a[1..], n), Finals(b, n));
    }
  }

  lemma {:induction false} FinalsWith(captures: Captures, outcomes: seq<Outcome>, n: nat)
    ensures Finals(With(captures, outcomes), n) == Under(captures, Finals(outcomes, n))
  {
    if outcomes != [] { FinalsWith(captures, outcomes[1..], n); }
  }

  lemma {:induction false} AcceptedContinue(from: seq<Outcome>, r: Regex, s: string, caseless: bool)
    ensures Finals(Continue(from, r, s, caseless), |s|) == AcceptedEach(from, r, s, caseless)
  {
    if from != [] {
      var first := With(from[0].captures, Outcomes(r, s, from[0].end, caseless));
      AcceptedContinue(from[1..], r, s, caseless);
      FinalsConcat(first, Continue(from[1..], r, s, caseless), |s|);
      FinalsWith(from[0].captures, Outcomes(r, s, from[0].end, caseless), |s|);
    }
  }

  lemma {:induction false} AcceptedEachConcat(a: seq<Outcome>, b: seq<Outcome>, r: Regex, s: string, caseless: bool)
    ensures AcceptedEach(a + b, r, s, caseless) == AcceptedEach(a, r, s, caseless) + AcceptedEach(b, r, s, caseless)
  {
    if a == [] {
      assert a + b == b;
    } else {
      AcceptedEachConcat(a[1..], b, r, s, caseless);
      assert (a + b)[1..] == a[1..] + b && (a + b)[0] == a[0];
      Associative(Under(a[0].captures, Accepted(r, s, a[0].end, caseless)), AcceptedEach(a[1..], r, s, caseless), AcceptedEach(b, r, s, caseless));
    }
  }

  lemma UnderNothing(all: seq<Captures>)
    ensures Under(map[], all) == all
  {
    forall k | 0 <= k < |all| ensures Under(map[], all)[k] == all[k] {
      assert map[] + all[k] == all[k];
    }
  }

  lemma {:induction false} AcceptedOne(o: Outcome, r: Regex, s: string, caseless: bool)
    ensures AcceptedEach([o], r, s, caseless) == Under(o.captures, Accepted(r, s, o.end, caseless))
  {
    assert AcceptedEach([o][1..], r, s, caseless) == [];
  }

  // ---------- the pieces that the compiler writes ----------

  /** The characters of `text` in front of `r`. */
  function Literal(text: string, r: Regex): Regex {
    if text == "" then r else Then(Char(text[0]), Literal(text[1..], r))
  }

  predicate LiteralAt(text: string, s: string, i: nat, caseless: bool) {
    text == "" || (i < |s| && Same(text[0], s[i], caseless) && LiteralAt(text[1..], s, i + 1, caseless))
  }

  lemma {:induction false} AcceptedLiteral(text: string, r: Regex, s: string, i: nat, caseless: bool)
    ensures Accepted(Literal(text, r), s, i, caseless)
         == if LiteralAt(text, s, i, caseless) then Accepted(r, s, i + |text|, caseless) else []
  {
    if text != "" {
      var rest := Literal(text[1..], r);
      var one := ItemOutcomes(Char(text[0]), s, i, caseless);
      AcceptedContinue(one, rest, s, caseless);
      if i < |s| && Same(text[0], s[i], caseless) {
        AcceptedOne(Outcome(i + 1, map[]), rest, s, caseless);
        UnderNothing(Accepted(rest, s, i + 1, caseless));
        AcceptedLiteral(text[1..], r, s, i + 1, caseless);
      }
    }
  }

  /** What is accepted when a variable captures up to one of `ends`. */
  function AcceptedEnds(name: string, ends: seq<nat>, r: Regex, s: string, i: nat, caseless: bool): seq<Captures> {
    if ends == [] then []
    else Under(map[name := Slice(s, i, ends[0])], Accepted(r, s, ends[0], caseless)) + AcceptedEnds(name, ends[1..], r, s, i, caseless)
  }

  lemma {:induction false} AcceptedCaptured(name: string, ends: seq<nat>, r: Regex, s: string, i: nat, caseless: bool)
    ensures AcceptedEach(Captured(name, ends, s, i), r, s, caseless) == AcceptedEnds(name, ends, r, s, i, caseless)
  {
    if ends != [] {
      AcceptedCaptured(name, ends[1..], r, s, i, caseless);
      assert Captured(name, ends, s, i)[1..] == Captured(name, ends[1..], s, i);
    }
  }

  lemma {:induction false} AcceptedVariable(name: string, body: Body, optional: bool, r: Regex, s: string, i: nat,
                                            caseless: bool)
    ensures Accepted(Then(Variable(name, body, optional), r), s, i, caseless)
         == AcceptedEnds(name, Ends(body, s, i), r, s, i, caseless)
            + if optional then Accepted(r, s, i, caseless) else []
  {
    var captured := Captured(name, Ends(body, s, i), s, i);
    var none := [Outcome(i, map[])];
    AcceptedContinue(ItemOutcomes(Variable(name, body, optional), s, i, caseless), r, s, caseless);
    AcceptedCaptured(name, Ends(body, s, i), r, s, i, caseless);
    if optional {
      AcceptedEachConcat(captured, none, r, s, caseless);
      AcceptedOne(none[0], r, s, caseless);
      UnderNothing(Accepted(r, s, i, caseless));
    } else {
      assert captured + [] == captured;
    }
  }

  /** A last optional group: what its inside accepts, and then the empty rest. */
  lemma {:induction false} AcceptedGroup(inner: Regex, s: string, i: nat, caseless: bool)
    ensures Accepted(Then(OptionalGroup(inner), End), s, i, caseless)
         == Accepted(inner, s, i, caseless) + if i == |s| then [map[]] else []
  {
    var all := Outcomes(inner, s, i, caseless) + [Outcome(i, map[])];
    assert ItemOutcomes(OptionalGroup(inner), s, i, caseless) == all;
    AcceptedContinue(all, End, s, caseless);
    ContinueEnd(all, s, caseless);
    FinalsConcat(Outcomes(inner, s, i, caseless), [Outcome(i, map[])], |s|);
    AcceptedEnd(s, i, caseless);
    assert Outcomes(End, s, i, caseless) == [Outcome(i, map[])];
  }

  lemma {:induction false} ContinueEnd(from: seq<Outcome>, s: string, caseless: bool)
    ensures AcceptedEach(from, End, s, caseless) == Finals(from, |s|)
  {
    if from != [] {
      ContinueEnd(from[1..], s, caseless);
      AcceptedEnd(s, from[0].end, caseless);
      assert from[0].captures + map[] == from[0].captures;
    }
  }

  lemma AcceptedEnd(s: string, i: nat, caseless: bool)
    ensures Accepted(End, s, i, caseless) == if i == |s| then [map[]] else []
  {
    assert Finals([Outcome(i, map[])][1..], |s|) == [];
  }
}
