/** Bytes, the exclusive or of two bytes, and the byte/character views the source moves between. */
module Bytes {
  /** A Python `bytes` element. */
  type byte = x: int | 0 <= x < 256

  function Pow2(n: nat): (p: nat)
    ensures p >= 1
  {
    if n == 0 then 1 else 2 * Pow2(n - 1)
  }

  /** Bitwise exclusive or of two naturals, lowest bit first. */
  function XorBits(a: nat, b: nat): (r: nat)
    decreases a + b
  {
    if a == 0 && b == 0 then 0 else 2 * XorBits(a / 2, b / 2) + (a + b) % 2
  }

  lemma {:induction false} XorBitsZero(a: nat)
    ensures XorBits(a, 0) == a
    decreases a
  {
    if a != 0 {
      XorBitsZero(a / 2);
    }
  }

  /** Exclusive or of two n-bit numbers is an n-bit number. */
  lemma {:induction false} XorBitsBound(a: nat, b: nat, n: nat)
    requires a < Pow2(n) && b < Pow2(n)
    ensures XorBits(a, b) < Pow2(n)
    decreases a + b
  {
    if a != 0 || b != 0 {
      assert n > 0;
      XorBitsBound(a / 2, b / 2, n - 1);
    }
  }

  /** The lowest bit of an exclusive or, and the rest. */
  lemma XorBitsStep(a: nat, k: nat)
    ensures XorBits(a, k) / 2 == XorBits(a / 2, k / 2)
    ensures XorBits(a, k) % 2 == (a + k) % 2
  {
    if a == 0 && k == 0 {
      assert XorBits(a / 2, k / 2) == 0;
    }
  }

  lemma Halves(n: int, q: int, r: int)
    requires 0 <= r < 2 && n / 2 == q && n % 2 == r
    ensures n == 2 * q + r
  {
  }

  /** Applying the same mask twice gives back the original number. */
  lemma {:induction false} XorBitsInvolution(a: nat, k: nat)
    ensures XorBits(XorBits(a, k), k) == a
    decreases k
  {
    if k == 0 {
      XorBitsZero(a);
      XorBitsZero(a);
    } else {
      var x := XorBits(a, k);
      XorBitsStep(a, k);
      XorBitsInvolution(a / 2, k / 2);
      var z := XorBits(x, k);
      XorBitsStep(x, k);
      assert z / 2 == a / 2;
      Parity(x, k, a);
      Halves(z, a / 2, a % 2);
    }
  }

  lemma Parity(x: int, k: int, a: int)
    requires x % 2 == (a + k) % 2
    ensures (x + k) % 2 == a % 2
  {
  }

  /** Python's `^` on two byte values: zero exactly for equal bytes, and masking with 0 changes nothing. */
  function Xor(a: byte, b: byte): (r: byte)
    ensures r == 0 <==> a == b
    ensures b == 0 ==> r == a
  {
    assert Pow2(8) == 256;
    XorBitsBound(a, b, 8);
    XorBitsZero(a);
    XorBitsSelf(a, b);
    XorBits(a, b)
  }

  /** The exclusive or of two naturals is zero exactly when they are equal. */
  lemma {:induction false} XorBitsSelf(a: nat, b: nat)
    ensures XorBits(a, b) == 0 <==> a == b
    decreases a + b
  {
    if a != 0 || b != 0 {
      XorBitsSelf(a / 2, b / 2);
      if XorBits(a, b) == 0 {
        Halves(a, a / 2, a % 2);
        Halves(b, b / 2, b % 2);
      }
    }
  }

  /** Masking twice with the same byte restores the original byte. */
  lemma XorInvolution(a: byte, k: byte)
    ensures Xor(Xor(a, k), k) == a
  {
    XorBitsInvolution(a, k);
  }

  predicate IsAscii(s: string) {
    forall i :: 0 <= i < |s| ==> s[i] as int < 128
  }

  /** The bytes of an ASCII string, one byte per character. */
  function AsciiBytes(s: string): (r: seq<byte>)
    requires IsAscii(s)
    ensures |r| == |s|
    ensures forall i :: 0 <= i < |s| ==> r[i] == s[i] as int
  {
    seq(|s|, i requires 0 <= i < |s| => s[i] as int)
  }

  /** Each byte read as the character with the same code (Latin-1). */
  function Latin1Chars(b: seq<byte>): (r: string)
    ensures |r| == |b|
    ensures forall i :: 0 <= i < |b| ==> r[i] as int == b[i]
  {
    seq(|b|, i requires 0 <= i < |b| => b[i] as char)
  }

  /** Reading ASCII bytes back as characters gives the original string. */
  lemma Latin1OfAscii(s: string)
    requires IsAscii(s)
    ensures Latin1Chars(AsciiBytes(s)) == s
  {
    var r := Latin1Chars(AsciiBytes(s));
    assert forall i :: 0 <= i < |s| ==> r[i] as int == s[i] as int;
  }
}
