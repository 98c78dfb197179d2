/**
 * UTF-8, as Python's `str.encode('utf-8')` and `bytes.decode('utf-8')` use
 * it. Characters are Unicode scalar values. Decoding is strict: overlong
 * forms, surrogates, values above U+10FFFF and truncated or stray
 * continuation bytes are refused.
 */
module Utf8 {
  import opened Wrappers
  import opened Bytes

  /** A continuation byte, 10xxxxxx. */
  predicate IsContinuation(b: byte) {
    0x80 <= b < 0xC0
  }

  /** True for the integers that are Unicode scalar values. */
  predicate IsScalar(v: int) {
    0 <= v < 0xD800 || 0xE000 <= v < 0x110000
  }

  /** The six low bits of `v / 64^k`, as a continuation byte. */
  function Cont(v: nat, k: nat): (b: byte)
    ensures IsContinuation(b)
  {
    0x80 + v / Pow64(k) % 64
  }

  function Pow64(k: nat): (p: nat)
    ensures p >= 1
  {
    if k == 0 then 1 else 64 * Pow64(k - 1)
  }

  /** The payload of a continuation byte. */
  function Payload(b: byte): (p: int) {
    b - 0x80
  }

  /** The one to four bytes that encode a character. */
  function EncodeChar(c: char): (r: seq<byte>)
    ensures 1 <= |r| <= 4
    ensures |r| == 1 <==> c as int < 0x80
  {
    var v := c as int;
    if v < 0x80 then [v]
    else if v < 0x800 then [0xC0 + v / 64, Cont(v, 0)]
    else if v < 0x10000 then [0xE0 + v / 4096, Cont(v, 1), Cont(v, 0)]
    else [0xF0 + v / 262144, Cont(v, 2), Cont(v, 1), Cont(v, 0)]
  }

  /** The UTF-8 of a string: one to four bytes per character. */
  function Encode(s: string): (b: seq<byte>)
    ensures |s| <= |b| <= 4 * |s|
    decreases |s|
  {
    if |s| == 0 then [] else EncodeChar(s[0]) + Encode(s[1..])
  }

  /** The value of a two-, three- or four-byte sequence with lead byte `b0`. */
  function Join2(b0: byte, b1: byte): (v: int) {
    (b0 - 0xC0 as int) * 64 + Payload(b1)
  }

  function Join3(b0: byte, b1: byte, b2: byte): (v: int) {
    (b0 - 0xE0 as int) * 4096 + Payload(b1) * 64 + Payload(b2)
  }

  function Join4(b0: byte, b1: byte, b2: byte, b3: byte): (v: int) {
    (b0 - 0xF0 as int) * 262144 + Payload(b1) * 4096 + Payload(b2) * 64 + Payload(b3)
  }

  /**
   * The character at the head of `b` and the number of bytes it takes,
   * or `None` when the head is not a well-formed UTF-8 sequence.
   */
  function DecodeChar(b: seq<byte>): (r: Option<(char, nat)>)
    requires |b| > 0
    ensures r.Some? ==> 1 <= r.value.1 <= |b|
  {
    var b0 := b[0];
    if b0 < 0x80 then Some((b0 as char, 1))
    else if 0xC2 <= b0 < 0xE0 && |b| >= 2 && IsContinuation(b[1]) then
      var v := Join2(b0, b[1]);
      if 0x80 <= v < 0x800 then Some((v as char, 2)) else None
    else if 0xE0 <= b0 < 0xF0 && |b| >= 3 && IsContinuation(b[1]) && IsContinuation(b[2]) then
      var v := Join3(b0, b[1], b[2]);
      if 0x800 <= v && IsScalar(v) then Some((v as char, 3)) else None
    else if 0xF0 <= b0 < 0xF5 && |b| >= 4 && IsContinuation(b[1]) && IsContinuation(b[2]) && IsContinuation(b[3]) then
      var v := Join4(b0, b[1], b[2], b[3]);
      if 0x10000 <= v && IsScalar(v) then Some((v as char, 4)) else None
    else None
  }

  /** The string whose UTF-8 `b` is, or `None`: each character takes one to four bytes. */
  function Decode(b: seq<byte>): (r: Option<string>)
    ensures r.Some? ==> |r.value| <= |b| <= 4 * |r.value|
    decreases |b|
  {
    if |b| == 0 then Some([])
    else
      match DecodeChar(b)
      case None => None
      case Some((c, n)) =>
        match Decode(b[n..])
        case None => None
        case Some(rest) => Some([c] + rest)
  }

  lemma Join2Split(v: nat)
    requires 0x80 <= v < 0x800
    ensures Join2(0xC0 + v / 64, Cont(v, 0)) == v
  {
  }

  /** `x` split into its quotient and remainder by 64. */
  lemma Digit64(x: nat, q: nat, r: nat)
    requires q == x / 64 && r == x % 64
    ensures x == 64 * q + r && r < 64
  {
  }

  lemma Join3Split(v: nat)
    requires 0x800 <= v < 0x10000
    ensures Join3(0xE0 + v / 4096, Cont(v, 1), Cont(v, 0)) == v
  {
    var a, d0 := v / 64, v % 64;
    Digit64(v, a, d0);
    var b, d1 := a / 64, a % 64;
    Digit64(a, b, d1);
    assert v == 4096 * b + (64 * d1 + d0);
    assert v / 4096 == b;
    assert Pow64(1) == 64;
    assert Cont(v, 1) == 0x80 + d1 && Cont(v, 0) == 0x80 + d0;
  }

  lemma Join4Split(v: nat)
    requires 0x10000 <= v < 0x110000
    ensures Join4(0xF0 + v / 262144, Cont(v, 2), Cont(v, 1), Cont(v, 0)) == v
  {
    var a, d0 := v / 64, v % 64;
    Digit64(v, a, d0);
    var b, d1 := a / 64, a % 64;
    Digit64(a, b, d1);
    var c, d2 := b / 64, b % 64;
    Digit64(b, c, d2);
    assert v == 4096 * b + (64 * d1 + d0);
    assert v / 4096 == b;
    assert v == 262144 * c + (4096 * d2 + 64 * d1 + d0);
    assert v / 262144 == c;
    assert Pow64(2) == 4096 && Pow64(1) == 64;
    assert Cont(v, 2) == 0x80 + d2 && Cont(v, 1) == 0x80 + d1 && Cont(v, 0) == 0x80 + d0;
  }

  /** Decoding the encoding of `c` yields `c` and consumes exactly its bytes. */
  lemma DecodeEncodeChar(c: char, rest: seq<byte>)
    ensures var e := EncodeChar(c); DecodeChar(e + rest) == Some((c, |e|))
  {
    var v := c as int;
    var e := EncodeChar(c);
    var b := e + rest;
    assert b[..|e|] == e;
    if v < 0x80 {
    } else if v < 0x800 {
      Join2Split(v);
    } else if v < 0x10000 {
      Join3Split(v);
    } else {
      Join4Split(v);
    }
  }

  /** Every string survives UTF-8 encoding and decoding. */
  lemma {:induction false} DecodeEncode(s: string)
    ensures Decode(Encode(s)) == Some(s)
    decreases |s|
  {
    if |s| > 0 {
      var e := EncodeChar(s[0]);
      var rest := Encode(s[1..]);
      DecodeEncodeChar(s[0], rest);
      DecodeEncode(s[1..]);
      assert (e + rest)[|e|..] == rest;
      DecodeCons(e + rest, s[0], |e|, s[1..]);
      assert [s[0]] + s[1..] == s;
    }
  }

  /** An ASCII string encodes one byte per character. */
  lemma {:induction false} EncodeAscii(s: string)
    requires IsAscii(s)
    ensures Encode(s) == AsciiBytes(s)
    decreases |s|
  {
    if |s| > 0 {
      EncodeAscii(s[1..]);
      assert AsciiBytes(s) == [s[0] as int] + AsciiBytes(s[1..]);
    }
  }

  lemma Split2Join(b0: byte, b1: byte)
    requires 0xC2 <= b0 < 0xE0 && IsContinuation(b1)
    ensures var v := Join2(b0, b1); v >= 0 && 0xC0 + v / 64 == b0 && Cont(v, 0) == b1
  {
  }

  lemma Split3Join(b0: byte, b1: byte, b2: byte)
    requires 0xE0 <= b0 < 0xF0 && IsContinuation(b1) && IsContinuation(b2)
    ensures var v := Join3(b0, b1, b2);
      v >= 0 && 0xE0 + v / 4096 == b0 && Cont(v, 1) == b1 && Cont(v, 0) == b2
  {
    var v := Join3(b0, b1, b2);
    var hi, lo := b0 - 0xE0, Payload(b1) * 64 + Payload(b2);
    assert v == hi * 4096 + lo && 0 <= lo < 4096;
    assert v / 4096 == hi && v % 4096 == lo;
    assert Pow64(1) == 64;
    assert v / 64 == hi * 64 + Payload(b1);
  }

  lemma Split4Join(b0: byte, b1: byte, b2: byte, b3: byte)
    requires 0xF0 <= b0 < 0xF5 && IsContinuation(b1) && IsContinuation(b2) && IsContinuation(b3)
    ensures var v := Join4(b0, b1, b2, b3);
      v >= 0 && 0xF0 + v / 262144 == b0 && Cont(v, 2) == b1 && Cont(v, 1) == b2 && Cont(v, 0) == b3
  {
    var v := Join4(b0, b1, b2, b3);
    var hi, lo := b0 - 0xF0, Payload(b1) * 4096 + Payload(b2) * 64 + Payload(b3);
    assert v == hi * 262144 + lo && 0 <= lo < 262144;
    assert v / 262144 == hi;
    assert Pow64(2) == 4096 && Pow64(1) == 64;
    assert v / 4096 == hi * 64 + Payload(b1);
    assert v / 64 == hi * 4096 + Payload(b1) * 64 + Payload(b2);
  }

  lemma EncodeJoin2(b0: byte, b1: byte)
    requires 0xC2 <= b0 < 0xE0 && IsContinuation(b1) && 0x80 <= Join2(b0, b1) < 0x800
    ensures EncodeChar(Join2(b0, b1) as char) == [b0, b1]
  {
    Split2Join(b0, b1);
  }

  lemma EncodeJoin3(b0: byte, b1: byte, b2: byte)
    requires 0xE0 <= b0 < 0xF0 && IsContinuation(b1) && IsContinuation(b2)
    requires 0x800 <= Join3(b0, b1, b2) && IsScalar(Join3(b0, b1, b2))
    ensures EncodeChar(Join3(b0, b1, b2) as char) == [b0, b1, b2]
  {
    Split3Join(b0, b1, b2);
  }

  lemma EncodeJoin4(b0: byte, b1: byte, b2: byte, b3: byte)
    requires 0xF0 <= b0 < 0xF5 && IsContinuation(b1) && IsContinuation(b2) && IsContinuation(b3)
    requires 0x10000 <= Join4(b0, b1, b2, b3) && IsScalar(Join4(b0, b1, b2, b3))
    ensures EncodeChar(Join4(b0, b1, b2, b3) as char) == [b0, b1, b2, b3]
  {
    Split4Join(b0, b1, b2, b3);
  }

  /** The character decoded at the head of `b` encodes to exactly the bytes it took. */
  lemma EncodeDecodeChar(b: seq<byte>)
    requires |b| > 0 && DecodeChar(b).Some?
    ensures var (c, n) := DecodeChar(b).value; EncodeChar(c) == b[..n]
  {
    var b0 := b[0];
    if b0 < 0x80 {
    } else if 0xC2 <= b0 < 0xE0 && |b| >= 2 && IsContinuation(b[1]) {
      EncodeJoin2(b0, b[1]);
      assert b[..2] == [b0, b[1]];
    } else if 0xE0 <= b0 < 0xF0 && |b| >= 3 && IsContinuation(b[1]) && IsContinuation(b[2]) {
      EncodeJoin3(b0, b[1], b[2]);
      assert b[..3] == [b0, b[1], b[2]];
    } else {
      EncodeJoin4(b0, b[1], b[2], b[3]);
      assert b[..4] == [b0, b[1], b[2], b[3]];
    }
  }

  /** Bytes that decode are the UTF-8 of what they decode to: decoding is strict. */
  lemma {:induction false} EncodeDecode(b: seq<byte>)
    requires Decode(b).Some?
    ensures Encode(Decode(b).value) == b
    decreases |b|
  {
    if |b| > 0 {
      var (c, n) := DecodeChar(b).value;
      var rest := Decode(b[n..]).value;
      DecodeCons(b, c, n, rest);
      EncodeDecodeChar(b);
      EncodeDecode(b[n..]);
      EncodeStep(b, n, c, rest);
    }
  }

  lemma EncodeStep(b: seq<byte>, n: nat, c: char, rest: string)
    requires n <= |b| && EncodeChar(c) == b[..n] && Encode(rest) == b[n..]
    ensures Encode([c] + rest) == b
  {
    EncodeCons(c, rest);
    assert b[..n] + b[n..] == b;
  }

  lemma DecodeCons(b: seq<byte>, c: char, n: nat, rest: string)
    requires |b| > 0 && DecodeChar(b) == Some((c, n)) && Decode(b[n..]) == Some(rest)
    ensures Decode(b) == Some([c] + rest)
  {
  }

  lemma EncodeCons(c: char, rest: string)
    ensures Encode([c] + rest) == EncodeChar(c) + Encode(rest)
  {
    assert ([c] + rest)[1..] == rest;
  }


}
