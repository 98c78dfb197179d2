/**
 * The "Fernet-like" fallback cipher of `EncryptionManager`, used when the
 * `cryptography` package is absent: the stored key bytes are read as
 * base64url text and decoded; the UTF-8 of the plaintext is XORed with those bytes, repeated
 * cyclically; the token is the base64url text of the result.
 */
module FallbackCipher {
  import opened Wrappers
  import opened Bytes
  import Base64Url
  import Utf8

  /** The exceptions the modelled operations raise, by kind. */
  datatype Error =
    | NoKeyLoaded       // ValueError('No key loaded')
    | KeyTypeError      // TypeError('Key must be str or bytes')
    | MalformedBase64   // ValueError: binascii.Error, or a non-ASCII token
    | InvalidUtf8       // UnicodeDecodeError
    | FileError         // an OSError other than FileNotFoundError

  /** The number of random bytes in a generated key. */
  const KeySize := 32

  /** `data[i]` XOR `key[i mod |key|]` for every position of `data`. */
  function XorCycle(data: seq<byte>, key: seq<byte>): (r: seq<byte>)
    requires |key| > 0 || |data| == 0
    ensures |r| == |data|
  {
    seq(|data|, i requires 0 <= i < |data| => Xor(data[i], key[i % |key|]))
  }

  /** XORing with the same key stream twice gives the data back. */
  lemma XorCycleInvolution(data: seq<byte>, key: seq<byte>)
    requires |key| > 0
    ensures XorCycle(XorCycle(data, key), key) == data
  {
    var c := XorCycle(data, key);
    forall i | 0 <= i < |data|
      ensures XorCycle(c, key)[i] == data[i]
    {
      XorInvolution(data[i], key[i % |key|]);
    }
  }

  /** A key slot holds a key when it is present and not empty. */
  predicate HasKey(key: Option<seq<byte>>) {
    key.Some? && |key.value| > 0
  }

  /**
   * The bytes the stored key stands for: the key read as base64url text
   * (one character per byte) and decoded. Any stored bytes can be tried;
   * only base64url text decodes.
   */
  function KeyBytes(key: seq<byte>): (r: Option<seq<byte>>)
    requires |key| > 0
    ensures r.Some? ==> |r.value| > 0
  {
    Base64Url.Decode(Latin1Chars(key))
  }

  /**
   * The token for `plaintext` under the stored key, or the error raised:
   * "No key loaded" exactly when there is no non-empty key, a base64 error
   * exactly when the key does not decode, and otherwise a token of four
   * characters per started group of three bytes of the plaintext's UTF-8.
   */
  function Encrypt(key: Option<seq<byte>>, plaintext: string): (r: Result<string, Error>)
    ensures r == Err(NoKeyLoaded) <==> !HasKey(key)
    ensures r == Err(MalformedBase64) <==> HasKey(key) && KeyBytes(key.value).None?
    ensures r.Ok? <==> HasKey(key) && KeyBytes(key.value).Some?
    ensures r.Ok? ==> |r.value| == 4 * ((|Utf8.Encode(plaintext)| + 2) / 3)
  {
    if !HasKey(key) then Err(NoKeyLoaded)
    else
      match KeyBytes(key.value)
      case None => Err(MalformedBase64)
      case Some(k) => Ok(Base64Url.Encode(XorCycle(Utf8.Encode(plaintext), k)))
  }

  /**
   * The plaintext a token stands for under the stored key, or the error
   * raised: "No key loaded" exactly when there is no non-empty key, a
   * base64 error exactly when the token or the key does not decode, and a
   * UTF-8 error when the XORed bytes are not UTF-8. A plaintext comes from
   * a token of whole groups and has at most three characters per group.
   */
  function Decrypt(key: Option<seq<byte>>, token: string): (r: Result<string, Error>)
    ensures r == Err(NoKeyLoaded) <==> !HasKey(key)
    ensures r == Err(MalformedBase64) <==>
      HasKey(key) && (Base64Url.Decode(token).None? || KeyBytes(key.value).None?)
    ensures r.Ok? ==> |token| % 4 == 0 && |r.value| <= 3 * (|token| / 4)
  {
    if !HasKey(key) then Err(NoKeyLoaded)
    else
      match Base64Url.Decode(token)
      case None => Err(MalformedBase64)
      case Some(cipher) =>
        match KeyBytes(key.value)
        case None => Err(MalformedBase64)
        case Some(k) =>
          match Utf8.Decode(XorCycle(cipher, k))
          case None => Err(InvalidUtf8)
          case Some(text) => Ok(text)
  }

  /**
   * The stored form of a generated key: the ASCII bytes of the base64url
   * text of `raw`, four per started group of three random bytes, each the
   * code of an alphabet character or of `=`.
   */
  function GeneratedKey(raw: seq<byte>): (key: seq<byte>)
    ensures |key| == 4 * ((|raw| + 2) / 3)
    ensures forall i :: 0 <= i < |key| ==> Base64Url.IsAlphabetChar(key[i] as char) || key[i] == '=' as int
  {
    EncodeIsAscii(raw);
    AsciiBytes(Base64Url.Encode(raw))
  }

  /** Base64url text is ASCII, so its UTF-8 is its characters' codes. */
  lemma EncodeIsAscii(raw: seq<byte>)
    ensures IsAscii(Base64Url.Encode(raw))
  {
    var t := Base64Url.Encode(raw);
    forall i | 0 <= i < |t|
      ensures t[i] as int < 128
    {
      assert Base64Url.IsAlphabetChar(t[i]) || t[i] == '=';
    }
  }

  /**
   * A generated key is 44 bytes of base64url text, and it stands for the
   * 32 random bytes it was made from.
   */
  lemma GeneratedKeyBytes(raw: seq<byte>)
    requires |raw| == KeySize
    ensures |GeneratedKey(raw)| == 44
    ensures KeyBytes(GeneratedKey(raw)) == Some(raw)
  {
    assert (|raw| + 2) / 3 == 11;
    KeyOfText(raw);
  }

  /** The stored form of a generated key decodes to the bytes it was made from. */
  lemma KeyOfText(raw: seq<byte>)
    requires |Base64Url.Encode(raw)| > 0
    ensures KeyBytes(GeneratedKey(raw)) == Some(raw)
  {
    var text := Base64Url.Encode(raw);
    EncodeIsAscii(raw);
    Latin1OfAscii(text);
    Base64Url.DecodeEncode(raw);
  }

  /** The token stands for exactly as many bytes as the plaintext's UTF-8: the cipher keeps the length. */
  lemma EncryptLength(key: Option<seq<byte>>, plaintext: string)
    requires Encrypt(key, plaintext).Ok?
    ensures var token := Encrypt(key, plaintext).value;
      Base64Url.Decode(token).Some? &&
      |Base64Url.Decode(token).value| == |Utf8.Encode(plaintext)|
  {
    var k := KeyBytes(key.value).value;
    var cipher := XorCycle(Utf8.Encode(plaintext), k);
    Base64Url.DecodeEncode(cipher);
  }

  /** Decrypting a token under the key that made it gives the plaintext back. */
  lemma RoundTrip(key: Option<seq<byte>>, plaintext: string)
    requires Encrypt(key, plaintext).Ok?
    ensures Decrypt(key, Encrypt(key, plaintext).value) == Ok(plaintext)
  {
    var k := KeyBytes(key.value).value;
    var data := Utf8.Encode(plaintext);
    var cipher := XorCycle(data, k);
    Base64Url.DecodeEncode(cipher);
    XorCycleInvolution(data, k);
    Utf8.DecodeEncode(plaintext);
  }

  /**
   * Decryption authenticates nothing: under any usable key, every
   * well-formed token whose XORed bytes are UTF-8 decrypts to some text,
   * and that text encrypts back to the same token.
   */
  lemma EncryptDecrypt(key: Option<seq<byte>>, token: string)
    requires Decrypt(key, token).Ok?
    ensures Encrypt(key, Decrypt(key, token).value) == Ok(token)
  {
    var k := KeyBytes(key.value).value;
    var cipher := Base64Url.Decode(token).value;
    var text := Decrypt(key, token).value;
    Utf8.EncodeDecode(XorCycle(cipher, k));
    XorCycleInvolution(cipher, k);
    Base64Url.EncodeDecode(token);
  }

  /**
   * Decryption authenticates nothing: a token made under any key, decrypted
   * under any other key that decodes, fails at worst as invalid UTF-8 and
   * never as a malformed token or a missing key.
   */
  lemma AnyKeyDecrypts(k1: Option<seq<byte>>, k2: Option<seq<byte>>, plaintext: string)
    requires Encrypt(k1, plaintext).Ok? && HasKey(k2) && KeyBytes(k2.value).Some?
    ensures var r := Decrypt(k2, Encrypt(k1, plaintext).value); r.Ok? || r == Err(InvalidUtf8)
  {
    Base64Url.DecodeEncode(XorCycle(Utf8.Encode(plaintext), KeyBytes(k1.value).value));
  }
}
