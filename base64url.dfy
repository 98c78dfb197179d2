/**
 * The base64url encoding (the "URL and filename safe" alphabet of section 5
 * of RFC 4648) with `=` padding, as produced by Python's
 * `base64.urlsafe_b64encode`. Decoding is strict: it accepts exactly the
 * canonical encodings, so `Encode` and `Decode` are mutually inverse.
 *
 * The text is handled in two layers: characters map one to one onto
 * digits (0..63 for the alphabet, `Pad` for `=`, `Invalid` for anything
 * else), and digits map block by block onto bytes.
 */
module Base64Url {
  import opened Wrappers
  import opened Bytes

  /** The digit that stands for the padding character `=`. */
  const Pad := 64
  /** The digit that stands for a character outside the encoding. */
  const Invalid := -1

  /** True for the 64 characters of the alphabet: A-Z a-z 0-9 - _ */
  predicate IsAlphabetChar(c: char) {
    'A' <= c <= 'Z' || 'a' <= c <= 'z' || '0' <= c <= '9' || c == '-' || c == '_'
  }

  // ---------------------------------------------------------------------
  // Characters and digits

  /** The character for a digit: RFC 4648, table 2, and `=` for `Pad`. */
  function CharOf(d: int): (c: char)
    requires 0 <= d <= Pad
    ensures d < Pad <==> IsAlphabetChar(c)
    ensures d == Pad <==> c == '='
  {
    if d < 26 then (65 + d) as char
    else if d < 52 then (97 + d - 26) as char
    else if d < 62 then (48 + d - 52) as char
    else if d == 62 then '-'
    else if d == 63 then '_'
    else '='
  }

  /** The digit of a character; `Invalid` outside the alphabet and `=`. */
  function DigitOf(c: char): (d: int)
    ensures Invalid <= d <= Pad
    ensures d < Pad && d != Invalid <==> IsAlphabetChar(c)
    ensures d == Pad <==> c == '='
  {
    if 'A' <= c <= 'Z' then c as int - 65
    else if 'a' <= c <= 'z' then c as int - 97 + 26
    else if '0' <= c <= '9' then c as int - 48 + 52
    else if c == '-' then 62
    else if c == '_' then 63
    else if c == '=' then Pad
    else Invalid
  }

  lemma DigitOfCharOf(d: int)
    requires 0 <= d <= Pad
    ensures DigitOf(CharOf(d)) == d
  {
  }

  lemma CharOfDigitOf(c: char)
    requires DigitOf(c) != Invalid
    ensures CharOf(DigitOf(c)) == c
  {
  }

  predicate IsDigits(ds: seq<int>) {
    forall i :: 0 <= i < |ds| ==> 0 <= ds[i] <= Pad
  }

  function Chars(ds: seq<int>): (t: string)
    requires IsDigits(ds)
    ensures |t| == |ds|
  {
    seq(|ds|, i requires 0 <= i < |ds| => CharOf(ds[i]))
  }

  function Digits(t: string): (ds: seq<int>)
    ensures |ds| == |t|
  {
    seq(|t|, i requires 0 <= i < |t| => DigitOf(t[i]))
  }

  lemma DigitsOfChars(ds: seq<int>)
    requires IsDigits(ds)
    ensures Digits(Chars(ds)) == ds
  {
    forall i | 0 <= i < |ds|
      ensures Digits(Chars(ds))[i] == ds[i]
    {
      DigitOfCharOf(ds[i]);
    }
  }

  lemma CharsOfDigits(t: string)
    requires IsDigits(Digits(t))
    ensures Chars(Digits(t)) == t
  {
    forall i | 0 <= i < |t|
      ensures Chars(Digits(t))[i] == t[i]
    {
      assert Digits(t)[i] == DigitOf(t[i]);
      CharOfDigitOf(t[i]);
    }
  }

  // ---------------------------------------------------------------------
  // Digits and bytes

  /**
   * The four 6-bit digits of three bytes, most significant bits first
   * (RFC 4648, section 4).
   */
  function Sextets(b0: int, b1: int, b2: int): (v: seq<int>)
    requires 0 <= b0 < 256 && 0 <= b1 < 256 && 0 <= b2 < 256
    ensures |v| == 4 && 0 <= v[0] < 64 && 0 <= v[1] < 64 && 0 <= v[2] < 64 && 0 <= v[3] < 64
  {
    [b0 / 4, b0 % 4 * 16 + b1 / 16, b1 % 16 * 4 + b2 / 64, b2 % 64]
  }

  /** The three bytes whose bits are the four given 6-bit digits. */
  function Octets(v0: int, v1: int, v2: int, v3: int): (b: seq<byte>)
    requires 0 <= v0 < 64 && 0 <= v1 < 64 && 0 <= v2 < 64 && 0 <= v3 < 64
    ensures |b| == 3
  {
    [v0 * 4 + v1 / 16, v1 % 16 * 16 + v2 / 4, v2 % 4 * 64 + v3]
  }

  /**
   * One block of output for `count` input bytes (the missing ones given as
   * zero): `count + 1` digits, then `Pad` up to four.
   */
  function EncodeGroup(b0: byte, b1: byte, b2: byte, count: int): (d: seq<int>)
    requires 1 <= count <= 3
    ensures |d| == 4 && IsDigits(d)
  {
    var v := Sextets(b0, b1, b2);
    if count == 3 then v
    else if count == 2 then [v[0], v[1], v[2], Pad]
    else [v[0], v[1], Pad, Pad]
  }

  function EncodeDigits(s: seq<byte>): (d: seq<int>)
    ensures IsDigits(d)
    ensures |d| == 4 * ((|s| + 2) / 3)
    decreases |s|
  {
    if |s| == 0 then []
    else if |s| == 1 then EncodeGroup(s[0], 0, 0, 1)
    else if |s| == 2 then EncodeGroup(s[0], s[1], 0, 2)
    else EncodeGroup(s[0], s[1], s[2], 3) + EncodeDigits(s[3..])
  }

  /**
   * Decodes one block of four digits: no padding (three bytes), one `Pad`
   * (two bytes) or two `Pad` (one byte). A padded block whose unused low
   * bits are not zero is not a canonical encoding and is refused, as is an
   * `Invalid` digit or `Pad` anywhere else.
   */
  function DecodeGroup(d: seq<int>): (r: Option<seq<byte>>)
    requires |d| == 4
    ensures r.Some? ==> IsDigits(d) && 1 <= |r.value| <= 3
  {
    if !(0 <= d[0] < 64 && 0 <= d[1] < 64) then None
    else if 0 <= d[2] < 64 && 0 <= d[3] < 64 then Some(Octets(d[0], d[1], d[2], d[3]))
    else if 0 <= d[2] < 64 && d[3] == Pad then
      if d[2] % 4 == 0 then Some(Octets(d[0], d[1], d[2], 0)[..2]) else None
    else if d[2] == Pad && d[3] == Pad then
      if d[1] % 16 == 0 then Some(Octets(d[0], d[1], 0, 0)[..1]) else None
    else None
  }

  function DecodeDigits(ds: seq<int>): (r: Option<seq<byte>>)
    ensures r.Some? ==> IsDigits(ds) && |ds| % 4 == 0
    ensures r.Some? ==> 3 * (|ds| / 4) - 2 <= |r.value| <= 3 * (|ds| / 4)
    decreases |ds|
  {
    if |ds| == 0 then Some([])
    else if |ds| < 4 then None
    else
      match DecodeGroup(ds[..4])
      case None => None
      case Some(b) =>
        if |ds| == 4 then Some(b)
        else if |b| < 3 then None
        else
          match DecodeDigits(ds[4..])
          case None => None
          case Some(rest) => Some(b + rest)
  }

  // ---------------------------------------------------------------------
  // The encoding

  /** The base64url text of `s`: four characters per started group of three bytes, all from the alphabet or `=`. */
  function Encode(s: seq<byte>): (t: string)
    ensures |t| == 4 * ((|s| + 2) / 3)
    ensures forall i :: 0 <= i < |t| ==> IsAlphabetChar(t[i]) || t[i] == '='
  {
    Chars(EncodeDigits(s))
  }

  /**
   * Decodes a canonical encoding; `None` for a length that is not a
   * multiple of four, a character outside the alphabet, padding anywhere
   * but at the very end, or non-zero padding bits.
   */
  function Decode(t: string): (r: Option<seq<byte>>)
    ensures r.Some? ==> |t| % 4 == 0 && 3 * (|t| / 4) - 2 <= |r.value| <= 3 * (|t| / 4)
    ensures r.Some? ==> forall i :: 0 <= i < |t| ==> IsAlphabetChar(t[i]) || t[i] == '='
  {
    var r := DecodeDigits(Digits(t));
    assert r.Some? ==> forall i :: 0 <= i < |t| ==> Digits(t)[i] == DigitOf(t[i]) && DigitOf(t[i]) != Invalid;
    r
  }

  // ---------------------------------------------------------------------
  // Arithmetic of one block

  lemma SextetsRoundTrip(b0: int, b1: int, b2: int)
    requires 0 <= b0 < 256 && 0 <= b1 < 256 && 0 <= b2 < 256
    ensures var v0, v1, v2, v3 := b0 / 4, b0 % 4 * 16 + b1 / 16, b1 % 16 * 4 + b2 / 64, b2 % 64;
      v0 * 4 + v1 / 16 == b0 && v1 % 16 * 16 + v2 / 4 == b1 && v2 % 4 * 64 + v3 == b2
  {
  }

  lemma OctetsRoundTrip(v0: int, v1: int, v2: int, v3: int)
    requires 0 <= v0 < 64 && 0 <= v1 < 64 && 0 <= v2 < 64 && 0 <= v3 < 64
    ensures var b0, b1, b2 := v0 * 4 + v1 / 16, v1 % 16 * 16 + v2 / 4, v2 % 4 * 64 + v3;
      b0 / 4 == v0 && b0 % 4 * 16 + b1 / 16 == v1 && b1 % 16 * 4 + b2 / 64 == v2 && b2 % 64 == v3
  {
  }

  lemma OctetsOfSextets(b0: int, b1: int, b2: int)
    requires 0 <= b0 < 256 && 0 <= b1 < 256 && 0 <= b2 < 256
    ensures var v := Sextets(b0, b1, b2); Octets(v[0], v[1], v[2], v[3]) == [b0, b1, b2]
  {
    SextetsRoundTrip(b0, b1, b2);
  }

  lemma SextetsOfOctets(v0: int, v1: int, v2: int, v3: int)
    requires 0 <= v0 < 64 && 0 <= v1 < 64 && 0 <= v2 < 64 && 0 <= v3 < 64
    ensures var b := Octets(v0, v1, v2, v3); Sextets(b[0], b[1], b[2]) == [v0, v1, v2, v3]
  {
    OctetsRoundTrip(v0, v1, v2, v3);
  }

  /** Decoding a block inverts encoding it. */
  lemma DecodeEncodeGroup(b0: byte, b1: byte, b2: byte, count: int)
    requires 1 <= count <= 3
    requires count < 3 ==> b2 == 0
    requires count < 2 ==> b1 == 0
    ensures DecodeGroup(EncodeGroup(b0, b1, b2, count)) == Some([b0, b1, b2][..count])
  {
    OctetsOfSextets(b0, b1, b2);
    var v := Sextets(b0, b1, b2);
    var d := EncodeGroup(b0, b1, b2, count);
    if count == 3 {
      assert d == v;
      assert DecodeGroup(d) == Some(Octets(v[0], v[1], v[2], v[3]));
      assert [b0, b1, b2][..3] == [b0, b1, b2];
    } else if count == 2 {
      assert d == [v[0], v[1], v[2], Pad] && v[3] == 0;
      assert DecodeGroup(d) == Some(Octets(v[0], v[1], v[2], 0)[..2]);
      assert [b0, b1, b2][..2] == [b0, b1];
    } else {
      assert d == [v[0], v[1], Pad, Pad] && v[2] == 0 && v[3] == 0;
      assert DecodeGroup(d) == Some(Octets(v[0], v[1], 0, 0)[..1]);
      assert [b0, b1, b2][..1] == [b0];
    }
  }

  /** A block that decodes re-encodes to itself. */
  lemma EncodeDecodeGroup(d: seq<int>)
    requires |d| == 4 && DecodeGroup(d).Some?
    ensures var b := DecodeGroup(d).value;
      1 <= |b| <= 3 &&
      (|b| < 3 <==> d[3] == Pad) &&
      d == EncodeGroup(b[0], if |b| > 1 then b[1] else 0, if |b| > 2 then b[2] else 0, |b|)
  {
    if 0 <= d[2] < 64 && 0 <= d[3] < 64 {
      SextetsOfOctets(d[0], d[1], d[2], d[3]);
    } else if 0 <= d[2] < 64 {
      SextetsOfOctets(d[0], d[1], d[2], 0);
    } else {
      SextetsOfOctets(d[0], d[1], 0, 0);
    }
  }

  // ---------------------------------------------------------------------
  // Round trips

  /** A four-digit text decodes as one block. */
  lemma DecodeOneGroup(ds: seq<int>)
    requires |ds| == 4
    ensures DecodeDigits(ds) == DecodeGroup(ds)
  {
    assert ds[..4] == ds;
  }

  /** A full block followed by more digits decodes as the block's bytes followed by the rest's. */
  lemma DecodeConcat(head: seq<int>, tail: seq<int>, b: seq<byte>, rest: seq<byte>)
    requires |head| == 4 && DecodeGroup(head) == Some(b) && |b| == 3
    requires DecodeDigits(tail) == Some(rest)
    ensures DecodeDigits(head + tail) == Some(b + rest)
  {
    var ds := head + tail;
    assert ds[..4] == head;
    if |tail| > 0 {
      assert ds[4..] == tail;
    } else {
      assert ds == head && rest == [] && b + rest == b;
    }
  }

  lemma SplitThree(s: seq<byte>)
    requires |s| >= 3
    ensures [s[0], s[1], s[2]][..3] + s[3..] == s
  {
    assert [s[0], s[1], s[2]][..3] == s[..3];
    assert s[..3] + s[3..] == s;
  }

  /** Every byte sequence survives encoding to digits and decoding. */
  lemma {:induction false} DecodeEncodeDigits(s: seq<byte>)
    ensures DecodeDigits(EncodeDigits(s)) == Some(s)
    decreases |s|
  {
    if |s| == 0 {
    } else if |s| == 1 {
      DecodeEncodeGroup(s[0], 0, 0, 1);
      DecodeOneGroup(EncodeDigits(s));
      assert [s[0], 0, 0][..1] == s;
    } else if |s| == 2 {
      DecodeEncodeGroup(s[0], s[1], 0, 2);
      DecodeOneGroup(EncodeDigits(s));
      assert [s[0], s[1], 0][..2] == s;
    } else {
      DecodeEncodeDigits(s[3..]);
      DecodeEncodeGroup(s[0], s[1], s[2], 3);
      DecodeConcat(EncodeGroup(s[0], s[1], s[2], 3), EncodeDigits(s[3..]), [s[0], s[1], s[2]][..3], s[3..]);
      SplitThree(s);
    }
  }

  /** Digits that decode are the encoding of what they decode to. */
  lemma {:induction false} EncodeDecodeDigits(ds: seq<int>)
    requires DecodeDigits(ds).Some?
    ensures EncodeDigits(DecodeDigits(ds).value) == ds
    decreases |ds|
  {
    if |ds| > 0 {
      var b := DecodeGroup(ds[..4]).value;
      EncodeDecodeGroup(ds[..4]);
      if |ds| == 4 {
        assert ds == ds[..4];
      } else {
        var rest := DecodeDigits(ds[4..]).value;
        EncodeDecodeDigits(ds[4..]);
        var s := b + rest;
        assert s[..3] == b && s[3..] == rest;
        assert EncodeDigits(s) == EncodeGroup(b[0], b[1], b[2], 3) + EncodeDigits(rest);
        assert ds == ds[..4] + ds[4..];
      }
    }
  }

  /** Every byte sequence survives encoding and decoding. */
  lemma DecodeEncode(s: seq<byte>)
    ensures Decode(Encode(s)) == Some(s)
  {
    DigitsOfChars(EncodeDigits(s));
    DecodeEncodeDigits(s);
  }

  /** Decoding accepts only canonical encodings: an accepted text is the encoding of its result. */
  lemma EncodeDecode(t: string)
    requires Decode(t).Some?
    ensures Encode(Decode(t).value) == t
  {
    EncodeDecodeDigits(Digits(t));
    CharsOfDigits(t);
  }
}
