/**
 Base64 as in WebSocket/WebSocket_2/src/base64.cpp, against section 4 of RFC 4648: three octets become four characters,
 and one or two octets at the end are padded.
 */
module Base64 {
  type Octet = bv8

  const UPPER: string := "ABCDEFGHIJKLMNOPQRSTUVWXYZ"
  const LOWER: string := "abcdefghijklmnopqrstuvwxyz"
  const DIGITS: string := "0123456789"
  const CHARS: string := UPPER + LOWER + DIGITS + "+/"

  /** The value of a failed search, as the octet that it is stored in. */
  const NOT_FOUND: Octet := 0xFF

  predicate IsBase64(c: char) {
    'A' <= c <= 'Z' || 'a' <= c <= 'z' || '0' <= c <= '9' || c == '+' || c == '/'
  }

  function FindFrom(c: char, i: nat): Octet
    requires i <= |CHARS| == 64
    decreases 64 - i
  {
    if i == 64 then NOT_FOUND else if CHARS[i] == c then i as Octet else FindFrom(c, i + 1)
  }

  function Find(c: char): Octet {
    FindFrom(c, 0)
  }

  // ---------- the alphabet ----------

  function Code(i: nat): int
    requires i < 64
  {
    if i < 26 then 'A' as int + i else if i < 52 then 'a' as int + i - 26 else if i < 62 then '0' as int + i - 52
    else if i == 62 then '+' as int else '/' as int
  }

  lemma Upper(i: nat)
    requires i < 26
    ensures UPPER[i] as int == 'A' as int + i
  { }

  lemma Lower(i: nat)
    requires i < 26
    ensures LOWER[i] as int == 'a' as int + i
  { }

  lemma Digits(i: nat)
    requires i < 10
    ensures DIGITS[i] as int == '0' as int + i
  { }

  lemma CharCode(i: nat)
    requires i < 64
    ensures CHARS[i] as int == Code(i)
  {
    if i < 26 { Upper(i); } else if i < 52 { Lower(i - 26); } else if i < 62 { Digits(i - 52); }
  }

  /** Every character of the alphabet is one of base64, and is found at its own place only. */
  lemma {:induction false} FindChar(i: nat, k: nat)
    requires k <= i < 64
    ensures FindFrom(CHARS[i], k) == i as Octet && IsBase64(CHARS[i]) && CHARS[i] != '='
    decreases i - k
  {
    CharCode(i);
    CharCode(k);
    if k < i { FindChar(i, k + 1); }
  }

  function Char(s: Octet): (c: char)
    requires s < 64
  {
    CHARS[s as int]
  }

  lemma FindSextet(s: Octet)
    requires s < 64
    ensures Find(Char(s)) == s && IsBase64(Char(s)) && Char(s) != '='
  {
    FindChar(s as int, 0);
  }

  // ---------- three octets as four sextets ----------

  datatype Quad = Quad(a: Octet, b: Octet, c: Octet, d: Octet)

  datatype Triple = Triple(a: Octet, b: Octet, c: Octet)

  function Split(a: Octet, b: Octet, c: Octet): (q: Quad)
    ensures q.a < 64 && q.b < 64 && q.c < 64 && q.d < 64
  {
    Quad((a & 0xfc) >> 2, ((a & 0x03) << 4) + ((b & 0xf0) >> 4), ((b & 0x0f) << 2) + ((c & 0xc0) >> 6), c & 0x3f)
  }

  function Join(q: Quad): Triple {
    Triple((q.a << 2) + ((q.b & 0x30) >> 4), ((q.b & 0xf) << 4) + ((q.c & 0x3c) >> 2), ((q.c & 0x3) << 6) + q.d)
  }

  lemma JoinSplit(a: Octet, b: Octet, c: Octet)
    ensures Join(Split(a, b, c)) == Triple(a, b, c)
  { }

  /** What a cut-off group gives does not depend on the sextets that are missing. */
  lemma JoinCut(a: Octet, b: Octet, c: Octet, x: Octet, y: Octet)
    ensures Join(Split(a, 0, 0).(c := x, d := y)).a == a
    ensures Join(Split(a, b, 0).(d := y)).a == a && Join(Split(a, b, 0).(d := y)).b == b
  { }

  // ---------- the encoding ----------

  function Chars(q: Quad): (s: string)
    requires q.a < 64 && q.b < 64 && q.c < 64 && q.d < 64
    ensures |s| == 4
  {
    [Char(q.a), Char(q.b), Char(q.c), Char(q.d)]
  }

  function Encoded(b: seq<Octet>): string {
    if |b| == 0 then ""
    else if |b| == 1 then Chars(Split(b[0], 0, 0))[..2] + "=="
    else if |b| == 2 then Chars(Split(b[0], b[1], 0))[..3] + "="
    else Chars(Split(b[0], b[1], b[2])) + Encoded(b[3..])
  }

  /** Four characters for every three octets or part of them. */
  lemma {:induction false} EncodedLength(b: seq<Octet>)
    ensures |Encoded(b)| == 4 * ((|b| + 2) / 3)
  {
    if |b| >= 3 {
      EncodedLength(b[3..]);
      assert (|b| + 2) / 3 == (|b| - 3 + 2) / 3 + 1;
    }
  }

  // ---------- the decoding ----------

  /** How many characters there are in front of the first that is not one of base64. */
  function BodyLength(s: string): (n: nat)
    ensures n <= |s|
  {
    if s != "" && s[0] != '=' && IsBase64(s[0]) then 1 + BodyLength(s[1..]) else 0
  }

  function FindAll(s: string): Quad
    requires |s| == 4
  {
    Quad(Find(s[0]), Find(s[1]), Find(s[2]), Find(s[3]))
  }

  function Octets(t: Triple): seq<Octet> {
    [t.a, t.b, t.c]
  }

  const NUL: char := 0 as char

  /** Groups of four, and what a last group of two or three gives. */
  function DecodedBody(s: string): seq<Octet> {
    if |s| == 0 then []
    else if |s| == 1 then []
    else if |s| == 2 then Octets(Join(FindAll(s + [NUL, NUL])))[..1]
    else if |s| == 3 then Octets(Join(FindAll(s + [NUL])))[..2]
    else Octets(Join(FindAll(s[..4]))) + DecodedBody(s[4..])
  }

  function Decoded(s: string): seq<Octet> {
    DecodedBody(s[..BodyLength(s)])
  }

  // ---------- the round trip ----------

  /** The encoding without its padding. */
  function Bare(b: seq<Octet>): string {
    if |b| == 0 then ""
    else if |b| == 1 then Chars(Split(b[0], 0, 0))[..2]
    else if |b| == 2 then Chars(Split(b[0], b[1], 0))[..3]
    else Chars(Split(b[0], b[1], b[2])) + Bare(b[3..])
  }

  predicate Padding(p: string) {
    p == "" || p[0] == '='
  }

  /** Section 4: nothing, two characters or one, by the octets in the last group. */
  function PaddingFor(n: nat): (p: string)
    ensures Padding(p)
  {
    if n % 3 == 0 then "" else if n % 3 == 1 then "==" else "="
  }

  lemma {:induction false} BodyOf(s: string, p: string)
    requires (forall i :: 0 <= i < |s| ==> s[i] != '=' && IsBase64(s[i])) && Padding(p)
    ensures BodyLength(s + p) == |s|
  {
    if s == "" {
      assert s + p == p;
    } else {
      assert (s + p)[1..] == s[1..] + p;
      BodyOf(s[1..], p);
    }
  }

  lemma CharsFound(q: Quad)
    requires q.a < 64 && q.b < 64 && q.c < 64 && q.d < 64
    ensures forall i :: 0 <= i < 4 ==> Chars(q)[i] != '=' && IsBase64(Chars(q)[i])
    ensures Find(Chars(q)[0]) == q.a && Find(Chars(q)[1]) == q.b && Find(Chars(q)[2]) == q.c && Find(Chars(q)[3]) == q.d
  {
    FindSextet(q.a);
    FindSextet(q.b);
    FindSextet(q.c);
    FindSextet(q.d);
  }

  lemma {:induction false} BareBody(b: seq<Octet>)
    ensures forall i :: 0 <= i < |Bare(b)| ==> Bare(b)[i] != '=' && IsBase64(Bare(b)[i])
  {
    if |b| == 1 {
      CharsFound(Split(b[0], 0, 0));
    } else if |b| == 2 {
      CharsFound(Split(b[0], b[1], 0));
    } else if |b| >= 3 {
      CharsFound(Split(b[0], b[1], b[2]));
      BareBody(b[3..]);
    }
  }

  /** The encoding ends in the padding that the number of octets asks for, and has none before. */
  lemma {:induction false} BarePadded(b: seq<Octet>)
    ensures Encoded(b) == Bare(b) + PaddingFor(|b|)
  {
    if |b| >= 3 {
      BarePadded(b[3..]);
      assert |b| % 3 == (|b| - 3) % 3;
      PutBefore(Chars(Split(b[0], b[1], b[2])), Bare(b[3..]), PaddingFor(|b|));
    }
  }

  lemma PutBefore(a: string, b: string, c: string)
    ensures a + (b + c) == (a + b) + c
  { }

  lemma {:induction false} BareRoundTrip(b: seq<Octet>)
    ensures DecodedBody(Bare(b)) == b
  {
    if |b| == 1 {
      var q := Split(b[0], 0, 0);
      CharsFound(q);
      JoinCut(b[0], 0, 0, Find(NUL), Find(NUL));
    } else if |b| == 2 {
      var q := Split(b[0], b[1], 0);
      CharsFound(q);
      JoinCut(b[0], b[1], 0, 0, Find(NUL));
    } else if |b| >= 3 {
      var q := Split(b[0], b[1], b[2]);
      CharsFound(q);
      JoinSplit(b[0], b[1], b[2]);
      BareRoundTrip(b[3..]);
      assert Bare(b)[..4] == Chars(q) && Bare(b)[4..] == Bare(b[3..]);
    }
  }

  /** Decoding the encoding of any octets gives them back. */
  lemma {:induction false} RoundTrip(b: seq<Octet>)
    ensures Decoded(Encoded(b)) == b
  {
    BarePadded(b);
    BareBody(b);
    BodyOf(Bare(b), PaddingFor(|b|));
    assert Encoded(b)[..|Bare(b)|] == Bare(b);
    BareRoundTrip(b);
  }

  // ---------- the loops ----------

  method SplitGroup(three: array<Octet>, four: array<Octet>)
    requires three.Length == 3 && four.Length == 4 && three != four
    modifies four
    ensures Quad(four[0], four[1], four[2], four[3]) == Split(three[0], three[1], three[2])
  {
    four[0] := (three[0] & 0xfc) >> 2;
    four[1] := ((three[0] & 0x03) << 4) + ((three[1] & 0xf0) >> 4);
    four[2] := ((three[1] & 0x0f) << 2) + ((three[2] & 0xc0) >> 6);
    four[3] := three[2] & 0x3f;
  }

  /** The characters of the first `n` sextets. */
  method Append(ret: string, four: array<Octet>, n: nat, ghost q: Quad) returns (r: string)
    requires four.Length == 4 && n <= 4 && Quad(four[0], four[1], four[2], four[3]) == q
    requires q.a < 64 && q.b < 64 && q.c < 64 && q.d < 64
    ensures r == ret + Chars(q)[..n]
  {
    r := ret;
    for j := 0 to n
      invariant r == ret + Chars(q)[..j]
    {
      r := r + [Char(four[j])];
      assert Chars(q)[..j + 1] == Chars(q)[..j] + [Chars(q)[j]];
    }
  }

  method EncodeGroup(ret: string, three: array<Octet>, n: nat) returns (r: string)
    requires three.Length == 3 && n <= 4
    ensures r == ret + Chars(Split(three[0], three[1], three[2]))[..n]
  {
    var four := new Octet[4];
    SplitGroup(three, four);
    r := Append(ret, four, n, Split(three[0], three[1], three[2]));
  }

  /** The last one or two octets, with their padding. */
  method EncodeRest(ret: string, three: array<Octet>, count: nat, ghost rest: seq<Octet>) returns (r: string)
    requires three.Length == 3 && 1 <= count == |rest| <= 2 && forall j :: 0 <= j < count ==> three[j] == rest[j]
    modifies three
    ensures r == ret + Encoded(rest)
  {
    for j := count to 3
      invariant forall n :: 0 <= n < count ==> three[n] == rest[n]
      invariant forall n :: count <= n < j ==> three[n] == 0
    {
      three[j] := 0;
    }
    r := EncodeGroup(ret, three, count + 1);
    ghost var chars, pad := r, "";
    var i := count;
    while i < 3
      invariant count <= i <= 3 && r == chars + pad && |pad| == i - count && forall n :: 0 <= n < |pad| ==> pad[n] == '='
    {
      r, pad := r + "=", pad + "=";
      i := i + 1;
    }
    assert pad == if count == 1 then "==" else "=";
  }

  method EncodeFull(ret: string, three: array<Octet>, ghost bytes: seq<Octet>, ghost done: nat) returns (r: string)
    requires three.Length == 3 && done + 3 <= |bytes| && forall j :: 0 <= j < 3 ==> three[j] == bytes[done + j]
    requires Encoded(bytes) == ret + Encoded(bytes[done..])
    ensures Encoded(bytes) == r + Encoded(bytes[done + 3..])
  {
    FullGroup(bytes, done, ret);
    r := EncodeGroup(ret, three, 4);
  }

  method Encode(bytes: seq<Octet>) returns (ret: string)
    ensures ret == Encoded(bytes)
  {
    ret := "";
    var i, k := 0, 0;
    var three := new Octet[3];
    ghost var done := 0;
    while k < |bytes|
      invariant i < 3 && k == done + i <= |bytes| && forall j :: 0 <= j < i ==> three[j] == bytes[done + j]
      invariant Encoded(bytes) == ret + Encoded(bytes[done..])
    {
      three[i] := bytes[k];
      i, k := i + 1, k + 1;
      if i == 3 {
        ret := EncodeFull(ret, three, bytes, done);
        i, done := 0, k;
      }
    }
    if i > 0 {
      ret := EncodeRest(ret, three, i, bytes[done..]);
    }
  }

  lemma FullGroup(b: seq<Octet>, k: nat, ret: string)
    requires k + 3 <= |b|
    ensures ret + Encoded(b[k..])
         == (ret + Chars(Split(b[k], b[k + 1], b[k + 2]))[..4]) + Encoded(b[k + 3..])
  {
    assert b[k..][3..] == b[k + 3..];
    PutBefore(ret, Chars(Split(b[k], b[k + 1], b[k + 2])), Encoded(b[k + 3..]));
  }

  method JoinGroup(four: array<char>, three: array<Octet>, ghost g: string)
    requires three.Length == 3 && four.Length == 4 && g == four[..]
    modifies three
    ensures three[..] == Octets(Join(FindAll(g)))
  {
    var q := Quad(Find(four[0]), Find(four[1]), Find(four[2]), Find(four[3]));
    three[0] := (q.a << 2) + ((q.b & 0x30) >> 4);
    three[1] := ((q.b & 0xf) << 4) + ((q.c & 0x3c) >> 2);
    three[2] := ((q.c & 0x3) << 6) + q.d;
  }

  /** The first `n` octets of a group of characters. */
  method DecodeGroup(ret: seq<Octet>, four: array<char>, n: nat, ghost g: string) returns (r: seq<Octet>)
    requires four.Length == 4 && n <= 3 && g == four[..]
    ensures r == ret + Octets(Join(FindAll(g)))[..n]
  {
    var three := new Octet[3];
    JoinGroup(four, three, g);
    ghost var octets := three[..];
    r := ret;
    for j := 0 to n
      invariant r == ret + octets[..j] && three[..] == octets
    {
      assert octets[..j + 1] == octets[..j] + [three[j]];
      r := r + [three[j]];
    }
  }

  /** The last characters, one to three of them. */
  method DecodeRest(ret: seq<Octet>, four: array<char>, count: nat, ghost rest: string) returns (r: seq<Octet>)
    requires four.Length == 4 && 1 <= count == |rest| <= 3 && forall j :: 0 <= j < count ==> four[j] == rest[j]
    modifies four
    ensures r == ret + DecodedBody(rest)
  {
    for j := count to 4
      invariant forall n :: 0 <= n < count ==> four[n] == rest[n]
      invariant forall n :: count <= n < j ==> four[n] == NUL
    {
      four[j] := NUL;
    }
    ghost var filled := rest + if count == 1 then [NUL, NUL, NUL] else if count == 2 then [NUL, NUL] else [NUL];
    assert four[..] == filled;
    r := DecodeGroup(ret, four, count - 1, filled);
  }

  /** One more character, and the octets of a group that it completes. */
  method TakeChar(ret: seq<Octet>, four: array<char>, count: nat, c: char, ghost body: string, ghost done: nat)
    returns (r: seq<Octet>, i: nat)
    requires four.Length == 4 && count < 4 && done + count < |body| && c == body[done + count]
    requires forall j :: 0 <= j < count ==> four[j] == body[done + j]
    modifies four
    ensures if count < 3 then r == ret && i == count + 1 else r == ret + Octets(Join(FindAll(body[done..done + 4])))[..3] && i == 0
    ensures forall j :: 0 <= j < i ==> four[j] == body[done + j]
  {
    four[count] := c;
    r, i := ret, count + 1;
    if i == 4 {
      assert four[..] == body[done..done + 4];
      r := DecodeGroup(ret, four, 3, body[done..done + 4]);
      i := 0;
    }
  }

  /** Stops at the padding, or at anything else that is not base64. */
  method Decode(s: string) returns (ret: seq<Octet>)
    ensures ret == Decoded(s)
  {
    ret := [];
    var i: nat, k: nat := 0, 0;
    var four := new char[4];
    ghost var done: nat, body := 0, s[..BodyLength(s)];
    BodyAt(s, 0);
    while k < |s| && s[k] != '=' && IsBase64(s[k])
      invariant i < 4 && k == done + i <= |body| && forall j :: 0 <= j < i ==> four[j] == body[done + j]
      invariant DecodedBody(body) == ret + DecodedBody(body[done..])
      invariant k < |body| <==> k < |s| && s[k] != '=' && IsBase64(s[k])
    {
      if i == 3 { FullQuad(body, done, ret); }
      ghost var before := i;
      ret, i := TakeChar(ret, four, i, s[k], body, done);
      k := k + 1;
      done := if before == 3 then k else done;
      BodyAt(s, k);
    }
    if i > 0 {
      ret := DecodeRest(ret, four, i, body[done..]);
    }
  }

  /** The body ends at the first character that is not base64. */
  lemma {:induction false} BodyEnds(s: string)
    ensures forall k :: 0 <= k < BodyLength(s) ==> s[k] != '=' && IsBase64(s[k])
    ensures BodyLength(s) < |s| ==> s[BodyLength(s)] == '=' || !IsBase64(s[BodyLength(s)])
  {
    if s != "" && s[0] != '=' && IsBase64(s[0]) {
      BodyEnds(s[1..]);
      assert forall k :: 0 < k < |s| ==> s[k] == s[1..][k - 1];
    }
  }

  lemma BodyAt(s: string, k: nat)
    requires k <= BodyLength(s)
    ensures k < BodyLength(s) <==> k < |s| && s[k] != '=' && IsBase64(s[k])
  {
    BodyEnds(s);
  }

  lemma FullQuad(b: string, k: nat, ret: seq<Octet>)
    requires k + 4 <= |b|
    ensures ret + DecodedBody(b[k..]) == (ret + Octets(Join(FindAll(b[k..k + 4])))[..3]) + DecodedBody(b[k + 4..])
  {
    assert b[k..][..4] == b[k..k + 4] && b[k..][4..] == b[k + 4..];
  }
}
