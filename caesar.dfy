/**
 * The Caesar cipher of `EncryptionManager.caesar_encrypt`: ASCII letters
 * rotate within their own case by `shift` places (any integer, reduced
 * modulo 26 with a non-negative remainder, as Python's `%` gives for a
 * positive modulus); every other character passes through unchanged.
 */
module CaesarCipher {

  predicate IsLower(c: char) {
    'a' <= c <= 'z'
  }

  predicate IsUpper(c: char) {
    'A' <= c <= 'Z'
  }

  /** The position of a letter in its alphabet, 0 for 'a' and 'A'. */
  function Index(c: char): (n: int)
    requires IsLower(c) || IsUpper(c)
    ensures 0 <= n < 26
  {
    if IsLower(c) then c as int - 'a' as int else c as int - 'A' as int
  }

  /** One character of the cipher. */
  function ShiftChar(c: char, shift: int): (r: char)
    ensures IsLower(r) <==> IsLower(c)
    ensures IsUpper(r) <==> IsUpper(c)
    ensures !IsLower(c) && !IsUpper(c) ==> r == c
    ensures IsLower(c) || IsUpper(c) ==> Index(r) == (Index(c) + shift) % 26
  {
    if IsLower(c) then ((c as int - 'a' as int + shift) % 26 + 'a' as int) as char
    else if IsUpper(c) then ((c as int - 'A' as int + shift) % 26 + 'A' as int) as char
    else c
  }

  /**
   * The cipher of a whole string, built as the source's loop builds it:
   * the cipher of all but the last character, then the last one shifted.
   */
  function Caesar(s: string, shift: int): (r: string)
    ensures |r| == |s|
    ensures forall i :: 0 <= i < |s| ==> r[i] == ShiftChar(s[i], shift)
    decreases |s|
  {
    if |s| == 0 then [] else Caesar(s[..|s| - 1], shift) + [ShiftChar(s[|s| - 1], shift)]
  }

  /** A letter's case and index determine it. */
  lemma IndexInjective(a: char, b: char)
    requires (IsLower(a) && IsLower(b)) || (IsUpper(a) && IsUpper(b))
    requires Index(a) == Index(b)
    ensures a == b
  {
  }

  /** Shifting by `j` and then by `k` is shifting by `j + k`. */
  lemma ShiftCharCompose(c: char, j: int, k: int)
    ensures ShiftChar(ShiftChar(c, j), k) == ShiftChar(c, j + k)
  {
    if IsLower(c) || IsUpper(c) {
      var m := ShiftChar(c, j);
      assert Index(ShiftChar(m, k)) == ((Index(c) + j) % 26 + k) % 26;
      ModAddLeft(Index(c) + j, k);
      IndexInjective(ShiftChar(m, k), ShiftChar(c, j + k));
    }
  }

  lemma ModAddLeft(a: int, b: int)
    ensures (a % 26 + b) % 26 == (a + b) % 26
  {
    var q := a / 26;
    assert a == 26 * q + a % 26;
    ModShift(a % 26 + b, q);
  }

  lemma ModShift(x: int, q: int)
    ensures (x + 26 * q) % 26 == x % 26
  {
  }

  /** A shift of zero changes nothing. */
  lemma ShiftCharZero(c: char)
    ensures ShiftChar(c, 0) == c
  {
    if IsLower(c) || IsUpper(c) {
      IndexInjective(ShiftChar(c, 0), c);
    }
  }

  /** Shifts that agree modulo 26 give the same character. */
  lemma ShiftCharMod(c: char, k: int)
    ensures ShiftChar(c, k) == ShiftChar(c, k % 26)
  {
    if IsLower(c) || IsUpper(c) {
      ModAddLeft(k, Index(c));
      ModAddLeft(k % 26, Index(c));
      IndexInjective(ShiftChar(c, k), ShiftChar(c, k % 26));
    }
  }

  /** Encrypting twice composes the shifts. */
  lemma CaesarCompose(s: string, j: int, k: int)
    ensures Caesar(Caesar(s, j), k) == Caesar(s, j + k)
  {
    forall i | 0 <= i < |s|
      ensures Caesar(Caesar(s, j), k)[i] == Caesar(s, j + k)[i]
    {
      ShiftCharCompose(s[i], j, k);
    }
  }

  lemma CaesarZero(s: string)
    ensures Caesar(s, 0) == s
  {
    forall i | 0 <= i < |s|
      ensures Caesar(s, 0)[i] == s[i]
    {
      ShiftCharZero(s[i]);
    }
  }

  /** Decryption, a shift by `-shift`, undoes encryption for every integer shift. */
  lemma CaesarRoundTrip(s: string, shift: int)
    ensures Caesar(Caesar(s, shift), -shift) == s
  {
    var t := Caesar(s, shift);
    forall i | 0 <= i < |s|
      ensures Caesar(t, -shift)[i] == s[i]
    {
      ShiftCharCompose(s[i], shift, -shift);
      ShiftCharZero(s[i]);
    }
  }

  /** Only the shift modulo 26 matters: `k` and `k + 26` agree, and so do -4 and 22. */
  lemma CaesarPeriodic(s: string, k: int)
    ensures Caesar(s, k) == Caesar(s, k % 26)
    ensures Caesar(s, k + 26) == Caesar(s, k)
  {
    forall i | 0 <= i < |s|
      ensures Caesar(s, k)[i] == Caesar(s, k % 26)[i]
      ensures Caesar(s, k + 26)[i] == Caesar(s, k)[i]
    {
      ShiftCharMod(s[i], k);
      ShiftCharMod(s[i], k + 26);
      ModShift(k, 1);
    }
  }

  /** A string whose characters are each the shift of those of `s` is its cipher. */
  lemma CaesarPointwise(s: string, shift: int, t: string)
    requires |t| == |s|
    requires forall i :: 0 <= i < |s| ==> ShiftChar(s[i], shift) == t[i]
    ensures Caesar(s, shift) == t
  {
  }

  /** The Caesar case of the smoke test: "abc XYZ" with shift 4 gives "efg BCD" and back. */
  lemma CaesarExample(s: string, t: string)
    requires s == "abc XYZ" && t == "efg BCD"
    ensures Caesar(s, 4) == t
    ensures Caesar(t, -4) == s
  {
    assert ShiftChar('a', 4) == 'e' && ShiftChar('b', 4) == 'f' && ShiftChar('c', 4) == 'g';
    assert ShiftChar(' ', 4) == ' ';
    assert ShiftChar('X', 4) == 'B' && ShiftChar('Y', 4) == 'C' && ShiftChar('Z', 4) == 'D';
    CaesarPointwise(s, 4, t);
    CaesarRoundTrip(s, 4);
  }
}
