/**
 The streaming SHA-1 of WebSocket/WebSocket_2/src/sha1.cpp against the one-shot definition of FIPS PUB 180-1: padding
 (section 4), the functions and constants (sections 5 and 6) and the digest of the padded message (section 7).
 */
module Sha1 {
  type Word = bv32
  type Octet = bv8

  // ---------- the definition ----------

  datatype State = State(a: Word, b: Word, c: Word, d: Word, e: Word)

  const INITIAL := State(0x67452301, 0xEFCDAB89, 0x98BADCFE, 0x10325476, 0xC3D2E1F0)

  /** The operation S^n of section 3. */
  function Rotate(n: nat, x: Word): Word
    requires 0 < n < 32
  {
    x.RotateLeft(n)
  }

  function Choose(b: Word, c: Word, d: Word): Word {
    (b & c) | ((!b) & d)
  }

  function Parity(b: Word, c: Word, d: Word): Word {
    b ^ c ^ d
  }

  function Majority(b: Word, c: Word, d: Word): Word {
    (b & c) | (b & d) | (c & d)
  }

  /** The functions f(t;B,C,D) of section 5. */
  function F(t: nat, b: Word, c: Word, d: Word): Word {
    if t < 20 then Choose(b, c, d) else if t < 40 then Parity(b, c, d) else if t < 60 then Majority(b, c, d) else Parity(b, c, d)
  }

  function K(t: nat): Word {
    if t < 20 then 0x5A827999 else if t < 40 then 0x6ED9EBA1 else if t < 60 then 0x8F1BBCDC else 0xCA62C1D6
  }

  /** Four octets, the first the most significant. */
  function Pack(a: Octet, b: Octet, c: Octet, d: Octet): Word {
    ((a as Word) << 24) | ((b as Word) << 16) | ((c as Word) << 8) | (d as Word)
  }

  function Mix(a: Word, b: Word, c: Word, d: Word): Word {
    a ^ b ^ c ^ d
  }

  /** The words W(t) of a block. */
  function W(block: seq<Octet>, t: nat): Word
    requires |block| == 64 && t < 80
  {
    if t < 16 then Pack(block[4 * t], block[4 * t + 1], block[4 * t + 2], block[4 * t + 3])
    else Rotate(1, Mix(W(block, t - 3), W(block, t - 8), W(block, t - 14), W(block, t - 16)))
  }

  /** Addition modulo 2^32. */
  function Plus(x: Word, y: Word): Word {
    x + y
  }

  /** TEMP = S^5(A) + f(t;B,C,D) + E + W(t) + K(t) */
  function Temp(a: Word, f: Word, e: Word, w: Word, k: Word): Word {
    Plus(Plus(Plus(Plus(a, f), e), w), k)
  }

  function Step(t: nat, w: Word, s: State): State {
    State(Temp(Rotate(5, s.a), F(t, s.b, s.c, s.d), s.e, w, K(t)), s.a, Rotate(30, s.b), s.c, s.d)
  }

  const STEPS: nat := 80

  /** After steps 0 to `n` - 1. */
  function Steps(block: seq<Octet>, h: State, n: nat): State
    requires |block| == 64 && n <= 80
  {
    if n == 0 then h else Step(n - 1, W(block, n - 1), Steps(block, h, n - 1))
  }

  function Sum(h: State, s: State): State {
    State(Plus(h.a, s.a), Plus(h.b, s.b), Plus(h.c, s.c), Plus(h.d, s.d), Plus(h.e, s.e))
  }

  function Compress(block: seq<Octet>, h: State): State
    requires |block| == 64
  {
    Sum(h, Steps(block, h, STEPS))
  }

  /** After the first `n` blocks. */
  function Blocks(m: seq<Octet>, n: nat): State
    requires 64 * n <= |m|
  {
    if n == 0 then INITIAL else Compress(m[64 * (n - 1)..64 * n], Blocks(m, n - 1))
  }

  function Zeros(n: nat): (z: seq<Octet>)
    ensures |z| == n && forall i :: 0 <= i < n ==> z[i] == 0
  {
    if n == 0 then [] else Zeros(n - 1) + [0]
  }

  function LowOctet(n: nat): Octet {
    (n % 256) as Octet
  }

  /** A length in bits as two words, the high one first. */
  function LengthOctets(high: nat, low: nat): (o: seq<Octet>)
    ensures |o| == 8
  {
    [LowOctet(high / 0x100_0000), LowOctet(high / 0x1_0000), LowOctet(high / 0x100), LowOctet(high),
     LowOctet(low / 0x100_0000), LowOctet(low / 0x1_0000), LowOctet(low / 0x100), LowOctet(low)]
  }

  /** How many zeros go between the one bit and the length when the last block has `rest` octets. */
  function Gap(rest: nat): nat
    requires rest < 64
  {
    if rest <= 55 then 55 - rest else 119 - rest
  }

  function Padding(n: nat): seq<Octet> {
    [0x80] + Zeros(Gap(n % 64)) + LengthOctets(8 * n / TWO_32, 8 * n % TWO_32)
  }

  const TWO_32: nat := 0x1_0000_0000
  const TWO_64: nat := 0x1_0000_0000_0000_0000

  /** The padded message is the shortest sequence of whole blocks that has room for the one bit and the length. */
  lemma PaddedWhole(m: seq<Octet>)
    ensures |m| + |Padding(|m|)| == 64 * (|m| / 64 + if |m| % 64 <= 55 then 1 else 2)
  { }

  function Digest(m: seq<Octet>): State {
    PaddedWhole(m);
    Blocks(m + Padding(|m|), |m| / 64 + if |m| % 64 <= 55 then 1 else 2)
  }

  lemma SameSlice(m: seq<Octet>, q: seq<Octet>, i: nat, j: nat)
    requires i <= j <= |m| && j <= |q| && forall k :: 0 <= k < j ==> m[k] == q[k]
    ensures m[i..j] == q[i..j]
  { }

  /** Only the octets of the first `n` blocks matter. */
  lemma {:induction false} SameBlocks(m: seq<Octet>, q: seq<Octet>, n: nat)
    requires 64 * n <= |m| && 64 * n <= |q| && forall i :: 0 <= i < 64 * n ==> m[i] == q[i]
    ensures Blocks(m, n) == Blocks(q, n)
  {
    if n > 0 {
      SameSlice(m, q, 64 * (n - 1), 64 * n);
      SameBlocks(m, q, n - 1);
    }
  }

  // ---------- the compression loop ----------

  function CircularShift(bits: nat, word: Word): (r: Word)
    requires 0 < bits < 32
    ensures r == Rotate(bits, word)
  {
    (word << bits) | (word >> (32 - bits))
  }

  /** The words of a block. */
  method Expand(block: array<Octet>, ghost m: seq<Octet>) returns (w: array<Word>)
    requires block.Length == 64 && m == block[..]
    ensures fresh(w) && w.Length == 80 && forall i :: 0 <= i < 80 ==> w[i] == W(m, i)
  {
    w := new Word[80];
    for t := 0 to 16
      invariant forall i :: 0 <= i < t ==> w[i] == W(m, i)
    {
      w[t] := Pack(block[t * 4], block[t * 4 + 1], block[t * 4 + 2], block[t * 4 + 3]);
    }
    for t := 16 to 80
      invariant forall i :: 0 <= i < t ==> w[i] == W(m, i)
    {
      w[t] := CircularShift(1, Mix(w[t - 3], w[t - 8], w[t - 14], w[t - 16]));
    }
  }

  /** What the body of each of the four loops does, with its function value, word and constant. */
  function Turned(s: State, f: Word, w: Word, k: Word): State {
    State(Temp(CircularShift(5, s.a), f, s.e, w, k), s.a, CircularShift(30, s.b), s.c, s.d)
  }

  lemma NextStep(m: seq<Octet>, h: State, t: nat, s: State, f: Word, k: Word)
    requires |m| == 64 && t < 80 && s == Steps(m, h, t) && f == F(t, s.b, s.c, s.d) && k == K(t)
    ensures Steps(m, h, t + 1) == Turned(s, f, W(m, t), k)
  { }

  method ProcessMessageBlock(block: array<Octet>, h: State) returns (r: State)
    requires block.Length == 64
    ensures r == Compress(block[..], h)
  {
    ghost var m := block[..];
    var w := Expand(block, m);
    ghost var words := w[..];
    assert forall i :: 0 <= i < 80 ==> words[i] == W(m, i);
    var s := h;
    for t := 0 to 20
      invariant s == Steps(m, h, t) && w[..] == words
    {
      var f := Choose(s.b, s.c, s.d);
      NextStep(m, h, t, s, f, 0x5A827999);
      assert w[t] == words[t] == W(m, t);
      s := Turned(s, f, w[t], 0x5A827999);
    }
    for t := 20 to 40
      invariant s == Steps(m, h, t) && w[..] == words
    {
      var f := Parity(s.b, s.c, s.d);
      NextStep(m, h, t, s, f, 0x6ED9EBA1);
      assert w[t] == words[t] == W(m, t);
      s := Turned(s, f, w[t], 0x6ED9EBA1);
    }
    for t := 40 to 60
      invariant s == Steps(m, h, t) && w[..] == words
    {
      var f := Majority(s.b, s.c, s.d);
      NextStep(m, h, t, s, f, 0x8F1BBCDC);
      assert w[t] == words[t] == W(m, t);
      s := Turned(s, f, w[t], 0x8F1BBCDC);
    }
    for t := 60 to 80
      invariant s == Steps(m, h, t) && w[..] == words
    {
      var f := Parity(s.b, s.c, s.d);
      NextStep(m, h, t, s, f, 0xCA62C1D6);
      assert w[t] == words[t] == W(m, t);
      s := Turned(s, f, w[t], 0xCA62C1D6);
    }
    r := State(Plus(h.a, s.a), Plus(h.b, s.b), Plus(h.c, s.c), Plus(h.d, s.d), Plus(h.e, s.e));
  }

  // ---------- the stream ----------

  class Sha1 {
    var H: State
    var lengthLow: nat
    var lengthHigh: nat
    const block: array<Octet>
    var index: nat
    var computed: bool
    var corrupted: bool
    /** The octets taken in so far, and how many blocks of them have been compressed. */
    ghost var message: seq<Octet>
    ghost var done: nat

    ghost predicate Valid()
      reads this, block
    {
      && block.Length == 64 && index < 64 && lengthLow < TWO_32 && lengthHigh < TWO_32 && lengthLow % 8 == 0
      && (!corrupted ==>
            && 8 * |message| == lengthHigh * TWO_32 + lengthLow
            && if computed then H == Digest(message) else Absorbed(index))
    }

    /** The whole blocks of the message are in the digest, the first `n` octets of the block are the rest. */
    ghost predicate Absorbed(n: nat)
      requires block.Length == 64 && n <= 64
      reads this, block
    {
      |message| == 64 * done + n && H == Blocks(message, done) && forall i :: 0 <= i < n ==> block[i] == message[64 * done + i]
    }

    constructor ()
      ensures fresh(block) && Valid() && !computed && !corrupted && message == []
    {
      block := new Octet[64];
      H, lengthLow, lengthHigh, index, computed, corrupted := INITIAL, 0, 0, 0, false, false;
      message, done := [], 0;
    }

    method Reset()
      requires Valid()
      modifies this
      ensures Valid() && !computed && !corrupted && message == []
    {
      lengthLow, lengthHigh, index := 0, 0, 0;
      H := INITIAL;
      computed, corrupted := false, false;
      message, done := [], 0;
    }

    /** Counts eight more bits, modulo 2^64. */
    method Count()
      requires lengthLow < TWO_32 && lengthHigh < TWO_32 && lengthLow % 8 == 0
      modifies `lengthLow, `lengthHigh, `corrupted
      ensures lengthLow < TWO_32 && lengthHigh < TWO_32
      ensures lengthLow % 8 == 0
      ensures var total := old(lengthHigh) * TWO_32 + old(lengthLow) + 8;
        if total < TWO_64 then corrupted == old(corrupted) && lengthHigh * TWO_32 + lengthLow == total else corrupted
    {
      lengthLow := (lengthLow + 8) % TWO_32;
      if lengthLow == 0 {
        lengthHigh := (lengthHigh + 1) % TWO_32;
        if lengthHigh == 0 {
          corrupted := true;
        }
      }
    }

    /** Puts one octet into the block. */
    method Store(x: Octet)
      requires block.Length == 64 && index < 64 && Absorbed(index)
      modifies `index, `message, block
      ensures index == old(index) + 1 && message == old(message) + [x] && Absorbed(index)
    {
      block[index] := x;
      index := index + 1;
      message := message + [x];
      SameBlocks(message, old(message), done);
    }

    /** Compresses a full block. */
    method Flush()
      requires block.Length == 64 && index == 64 && Absorbed(64)
      modifies `H, `done, `index
      ensures index == 0 && Absorbed(0)
    {
      assert block[..] == message[64 * done..64 * (done + 1)];
      H := ProcessMessageBlock(block, H);
      done := done + 1;
      index := 0;
    }

    /** Takes in one octet of the message; from 2^64 bits on it is too long. */
    method Take(x: Octet)
      requires Valid() && !computed && !corrupted
      modifies this, block
      ensures Valid() && !computed
      ensures if 8 * (|old(message)| + 1) < TWO_64 then !corrupted && message == old(message) + [x] else corrupted
    {
      Store(x);
      Count();
      if index == 64 {
        Flush();
      }
    }

    /**
     Takes in the next part of the message. Input after the digest was asked for, or of too much, corrupts the object,
     which then gives no digest until it is reset.
     */
    method Input(part: seq<Octet>)
      requires Valid()
      modifies this, block
      ensures Valid()
      ensures part == [] ==> computed == old(computed) && corrupted == old(corrupted) && message == old(message)
      ensures part != [] && (old(computed) || old(corrupted)) ==> corrupted && computed == old(computed)
      ensures part != [] && !old(computed) && !old(corrupted) ==>
        !computed
        && if 8 * (|old(message)| + |part|) < TWO_64 then !corrupted && message == old(message) + part else corrupted
    {
      if |part| == 0 {
        return;
      }
      if computed || corrupted {
        corrupted := true;
        return;
      }
      var i := 0;
      while i < |part| && !corrupted
        invariant i <= |part| && Valid() && !computed
        invariant if corrupted then 8 * (|old(message)| + i) >= TWO_64 else message == old(message) + part[..i]
      {
        Take(part[i]);
        i := i + 1;
      }
      assert part[..|part|] == part;
    }

    /** Fills the block up with zeros in front of place `to`. */
    method FillZeros(to: nat)
      requires block.Length == 64 && index <= to <= 64
      modifies `index, block
      ensures index == to
      ensures forall i :: 0 <= i < 64 ==> block[i] == if old(index) <= i < to then 0 else old(block[i])
    {
      while index < to
        invariant old(index) <= index <= to
        invariant forall i :: 0 <= i < 64 ==> block[i] == if old(index) <= i < index then 0 else old(block[i])
      {
        block[index] := 0;
        index := index + 1;
      }
    }

    /** Stores the length in the last eight octets of the block. */
    method StoreLength()
      requires block.Length == 64
      modifies block
      ensures forall i :: 0 <= i < 64 ==>
        block[i] == if i < 56 then old(block[i]) else LengthOctets(lengthHigh, lengthLow)[i - 56]
    {
      var o := LengthOctets(lengthHigh, lengthLow);
      for i := 56 to 64
        invariant forall j :: 0 <= j < 64 ==> block[j] == if 56 <= j < i then o[j - 56] else old(block[j])
      {
        block[i] := o[i - 56];
      }
    }

    /** The block that has no room left for the length goes first. */
    method PadFirst(ghost rest: seq<Octet>)
      requires block.Length == 64 && 56 <= |rest| == index < 64 && forall i :: 0 <= i < index ==> block[i] == rest[i]
      modifies `H, `index, block
      ensures index == 0
      ensures H == Compress(Tail(rest, lengthHigh, lengthLow)[..64], old(H))
    {
      ghost var tail := Tail(rest, lengthHigh, lengthLow);
      TailOctets(rest, lengthHigh, lengthLow);
      block[index] := 0x80;
      index := index + 1;
      FillZeros(64);
      assert block[..] == tail[..64];
      H := ProcessMessageBlock(block, H);
      index := 0;
    }

    /** What is left is filled up with zeros and the length. */
    method PadLast(ghost tail: seq<Octet>)
      requires block.Length == 64 && |tail| == 64 && index <= 56 && forall i :: 0 <= i < index ==> block[i] == tail[i]
      requires forall i :: index <= i < 64 ==> tail[i] == if i < 56 then 0 else LengthOctets(lengthHigh, lengthLow)[i - 56]
      modifies `H, `index, block
      ensures index == 0 && H == Compress(tail, old(H))
    {
      FillZeros(56);
      StoreLength();
      assert block[..] == tail;
      H := ProcessMessageBlock(block, H);
      index := 0;
    }

    /** Padding that needs one more block. */
    method PadShort(ghost rest: seq<Octet>)
      requires block.Length == 64 && |rest| == index <= 55 && forall i :: 0 <= i < index ==> block[i] == rest[i]
      modifies `H, `index, block
      ensures index == 0 && |Tail(rest, lengthHigh, lengthLow)| == 64 && H == Compress(Tail(rest, lengthHigh, lengthLow), old(H))
    {
      TailOctets(rest, lengthHigh, lengthLow);
      block[index] := 0x80;
      index := index + 1;
      PadLast(Tail(rest, lengthHigh, lengthLow));
    }

    /** Padding that needs two. */
    method PadLong(ghost rest: seq<Octet>)
      requires block.Length == 64 && 56 <= |rest| == index < 64 && forall i :: 0 <= i < index ==> block[i] == rest[i]
      modifies `H, `index, block
      ensures index == 0
      ensures var tail := Tail(rest, lengthHigh, lengthLow);
        |tail| == 128 && H == Compress(tail[64..], Compress(tail[..64], old(H)))
    {
      TailOctets(rest, lengthHigh, lengthLow);
      PadFirst(rest);
      SecondTail(rest, lengthHigh, lengthLow, Tail(rest, lengthHigh, lengthLow)[64..]);
      PadLast(Tail(rest, lengthHigh, lengthLow)[64..]);
    }

    /** Writes the one bit, the zeros and the length behind the message and compresses what is there. */
    method PadMessage()
      requires Valid() && !computed && !corrupted
      modifies `H, `index, block
      ensures index == 0 && H == Digest(message)
    {
      ghost var rest := message[64 * done..];
      DigestTail(message, done, rest, lengthHigh, lengthLow);
      if index > 55 {
        PadLong(rest);
      } else {
        PadShort(rest);
      }
    }

    /** The digest of all the octets taken in, however they were split; it may be asked for again. */
    method Result() returns (ok: bool, digest: State)
      requires Valid()
      modifies this, block
      ensures Valid() && message == old(message) && corrupted == old(corrupted)
      ensures ok == !corrupted && (ok ==> computed && digest == Digest(message))
    {
      if corrupted {
        return false, H;
      }
      if !computed {
        PadMessage();
        computed := true;
      }
      return true, H;
    }
  }

  /** What is compressed behind the whole blocks of a message: one block or two. */
  function Tail(rest: seq<Octet>, high: nat, low: nat): seq<Octet>
    requires |rest| < 64
  {
    rest + ([0x80] + Zeros(Gap(|rest|)) + LengthOctets(high, low))
  }

  lemma {:induction false} TailOctets(rest: seq<Octet>, high: nat, low: nat)
    requires |rest| < 64
    ensures var tail, r := Tail(rest, high, low), |rest|;
      var total := if r <= 55 then 64 else 128;
      && |tail| == total
      && forall j :: 0 <= j < total ==>
        tail[j] == if j < r then rest[j] else if j == r then 0x80 else if j < total - 8 then 0 else LengthOctets(high, low)[j - (total - 8)]
  { }

  lemma {:induction false} SecondTail(rest: seq<Octet>, high: nat, low: nat, second: seq<Octet>)
    requires 56 <= |rest| < 64 && |Tail(rest, high, low)| == 128 && second == Tail(rest, high, low)[64..]
    ensures |second| == 64 && forall i :: 0 <= i < 64 ==> second[i] == if i < 56 then 0 else LengthOctets(high, low)[i - 56]
  {
    TailOctets(rest, high, low);
  }

  lemma TailBlocks(padded: seq<Octet>, tail: seq<Octet>, n: nat)
    requires 64 * n <= |padded| && padded[64 * n..] == tail
    ensures |tail| >= 64 ==> padded[64 * n..64 * (n + 1)] == tail[..64]
    ensures |tail| == 128 ==> padded[64 * (n + 1)..64 * (n + 2)] == tail[64..]
  { }

  lemma PaddedTail(m: seq<Octet>, n: nat, rest: seq<Octet>, high: nat, low: nat)
    requires |rest| < 64 && 64 * n <= |m| && rest == m[64 * n..] && low < TWO_32 && 8 * |m| == high * TWO_32 + low
    ensures (m + Padding(|m|))[64 * n..] == Tail(rest, high, low)
  {
    Divided(|m|, n, |rest|, high, low);
    assert Padding(|m|) == [0x80] + Zeros(Gap(|rest|)) + LengthOctets(high, low);
  }

  /** The digest is that of the whole blocks, with the tail compressed into it. */
  lemma {:induction false} DigestTail(m: seq<Octet>, n: nat, rest: seq<Octet>, high: nat, low: nat)
    requires |rest| < 64 && 64 * n <= |m| && rest == m[64 * n..] && low < TWO_32 && 8 * |m| == high * TWO_32 + low
    ensures var tail := Tail(rest, high, low);
      if |rest| <= 55 then |tail| == 64 && Digest(m) == Compress(tail, Blocks(m, n))
      else |tail| == 128 && Digest(m) == Compress(tail[64..], Compress(tail[..64], Blocks(m, n)))
  {
    var tail, padded := Tail(rest, high, low), m + Padding(|m|);
    Divided(|m|, n, |rest|, high, low);
    PaddedWhole(m);
    PaddedTail(m, n, rest, high, low);
    SameBlocks(padded, m, n);
    var blocks := if |rest| <= 55 then 1 else 2;
    assert Digest(m) == Blocks(padded, n + blocks);
    TailCompressed(padded, tail, n, Blocks(m, n));
  }

  lemma {:induction false} TailCompressed(padded: seq<Octet>, tail: seq<Octet>, n: nat, h: State)
    requires 64 * n <= |padded| && padded[64 * n..] == tail && h == Blocks(padded, n)
    ensures |tail| == 64 ==> Blocks(padded, n + 1) == Compress(tail, h)
    ensures |tail| == 128 ==> Blocks(padded, n + 2) == Compress(tail[64..], Compress(tail[..64], h))
  {
    TailBlocks(padded, tail, n);
    if |tail| == 64 {
      assert tail[..64] == tail;
      NextBlock(padded, n);
    }
    if |tail| == 128 {
      NextBlock(padded, n);
      NextBlock(padded, n + 1);
    }
  }

  lemma NextBlock(m: seq<Octet>, n: nat)
    requires 64 * (n + 1) <= |m|
    ensures Blocks(m, n + 1) == Compress(m[64 * n..64 * (n + 1)], Blocks(m, n))
  { }

  lemma Divided(size: nat, n: nat, rest: nat, high: nat, low: nat)
    requires rest < 64 && size == 64 * n + rest && low < TWO_32 && 8 * size == high * TWO_32 + low
    ensures size / 64 == n && size % 64 == rest && 8 * size / TWO_32 == high && 8 * size % TWO_32 == low
  { }

  function Joined(parts: seq<seq<Octet>>): seq<Octet> {
    if parts == [] then [] else Joined(parts[..|parts| - 1]) + parts[|parts| - 1]
  }

  /** However a message is split into parts, the digest is that of the whole; there is none from 2^64 bits on. */
  method DigestOfParts(parts: seq<seq<Octet>>) returns (ok: bool, digest: State)
    ensures ok == (8 * |Joined(parts)| < TWO_64) && (ok ==> digest == Digest(Joined(parts)))
  {
    var sha := new Sha1();
    for i := 0 to |parts|
      invariant sha.Valid() && !sha.computed && fresh(sha) && fresh(sha.block)
      invariant if 8 * |Joined(parts[..i])| < TWO_64 then !sha.corrupted && sha.message == Joined(parts[..i]) else sha.corrupted
    {
      assert parts[..i + 1][..i] == parts[..i];
      sha.Input(parts[i]);
    }
    assert parts[..|parts|] == parts;
    ok, digest := sha.Result();
  }
}
