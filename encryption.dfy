/**
 * `EncryptionManager`: a key slot and the operations on it, in the
 * configuration without the `cryptography` package. The random bytes of a
 * new key and the outcome of reading a key file are inputs.
 */
module Encryption {
  import opened Wrappers
  import opened Bytes
  import Utf8
  import Base64Url
  import opened FallbackCipher
  import opened CaesarCipher

  /** The argument of `load_key`: a `str`, a `bytes`, or a value of any other type. */
  datatype KeyInput = Text(s: string) | Raw(b: seq<byte>) | Other

  /** What opening and reading a key file gave. */
  datatype FileRead =
    | Found(data: seq<byte>)  // the file's whole contents
    | NotFound                // FileNotFoundError
    | Unreadable              // any other OSError

  /** The shift `caesar_encrypt` and `caesar_decrypt` use when none is given. */
  const DefaultShift := 3

  /** What `get_key_string` gives for a key slot. */
  function KeyString(key: Option<seq<byte>>): (r: Result<Option<string>, Error>)
    ensures r == Ok(None) <==> !HasKey(key)
    ensures r.Ok? && r.value.Some? ==> Utf8.Encode(r.value.value) == key.value
    ensures r.Err? ==> r.error == InvalidUtf8
  {
    if !HasKey(key) then Ok(None)
    else
      match Utf8.Decode(key.value)
      case None => Err(InvalidUtf8)
      case Some(s) =>
        Utf8.EncodeDecode(key.value);
        assert |s| > 0;
        Ok(Some(s))
  }

  /** A non-empty text key reads back as the same text. */
  lemma KeyStringOfText(s: string)
    requires |s| > 0
    ensures KeyString(Some(Utf8.Encode(s))) == Ok(Some(s))
  {
    Utf8.DecodeEncode(s);
    assert Utf8.Encode(s) == Utf8.EncodeChar(s[0]) + Utf8.Encode(s[1..]);
  }

  /** A generated key reads back as the base64url text of its random bytes. */
  lemma KeyStringOfGenerated(raw: seq<byte>)
    requires |raw| == KeySize
    ensures KeyString(Some(GeneratedKey(raw))) == Ok(Some(Base64Url.Encode(raw)))
  {
    var text := Base64Url.Encode(raw);
    GeneratedKeyBytes(raw);
    EncodeIsAscii(raw);
    Utf8.EncodeAscii(text);
    KeyStringOfText(text);
  }

  class EncryptionManager {
    /**
     * The key as stored, `None` before any key. A generated key is the
     * bytes of a base64url text; a loaded key is whatever bytes were given.
     */
    var currentKey: Option<seq<byte>>

    constructor()
      ensures currentKey == None
    {
      currentKey := None;
    }

    /** Stores and returns a new key made from the 32 random bytes `raw`. */
    method GenerateKey(raw: seq<byte>) returns (key: seq<byte>)
      requires |raw| == KeySize
      modifies this
      ensures currentKey == Some(key)
      ensures key == GeneratedKey(raw)
      ensures |key| == 44 && KeyBytes(key) == Some(raw)
    {
      key := GeneratedKey(raw);
      currentKey := Some(key);
      GeneratedKeyBytes(raw);
    }

    /** The stored key as text, `None` when there is none. */
    method GetKeyString() returns (r: Result<Option<string>, Error>)
      ensures r == KeyString(currentKey)
    {
      if !HasKey(currentKey) {
        return Ok(None);
      }
      var text := Utf8.Decode(currentKey.value);
      if text.None? {
        return Err(InvalidUtf8);
      }
      r := Ok(Some(text.value));
    }

    /** The bytes `save_key_to_file` writes: the stored key, or nothing. */
    method SaveKeyToFile() returns (written: seq<byte>)
      ensures currentKey.Some? ==> written == currentKey.value
      ensures currentKey.None? ==> written == []
    {
      written := if currentKey.Some? then currentKey.value else [];
    }

    /**
     * Stores the contents of a key file and answers true; answers false
     * when the file does not exist and fails on any other read error,
     * leaving the key as it was in both cases.
     */
    method LoadKeyFromFile(read: FileRead) returns (r: Result<bool, Error>)
      modifies this
      ensures read.Found? ==> r == Ok(true) && currentKey == Some(read.data)
      ensures read.NotFound? ==> r == Ok(false) && currentKey == old(currentKey)
      ensures read.Unreadable? ==> r == Err(FileError) && currentKey == old(currentKey)
    {
      match read
      case Found(data) =>
        currentKey := Some(data);
        r := Ok(true);
      case NotFound =>
        r := Ok(false);
      case Unreadable =>
        r := Err(FileError);
    }

    /**
     * Stores the UTF-8 of a text key or a byte key as given; any other
     * argument fails with a type error and leaves the key as it was.
     */
    method LoadKey(input: KeyInput) returns (r: Result<(), Error>)
      modifies this
      ensures input.Text? ==> r == Ok(()) && currentKey == Some(Utf8.Encode(input.s))
      ensures input.Raw? ==> r == Ok(()) && currentKey == Some(input.b)
      ensures input.Other? ==> r == Err(KeyTypeError) && currentKey == old(currentKey)
    {
      match input
      case Text(s) =>
        currentKey := Some(Utf8.Encode(s));
        r := Ok(());
      case Raw(b) =>
        currentKey := Some(b);
        r := Ok(());
      case Other =>
        r := Err(KeyTypeError);
    }

    /** The token for `plaintext` under the stored key. */
    method FernetEncrypt(plaintext: string) returns (r: Result<string, Error>)
      ensures r == Encrypt(currentKey, plaintext)
      ensures !HasKey(currentKey) ==> r == Err(NoKeyLoaded)
      ensures r.Ok? ==> Decrypt(currentKey, r.value) == Ok(plaintext)
    {
      if !HasKey(currentKey) {
        return Err(NoKeyLoaded);
      }
      var key := KeyBytes(currentKey.value);
      if key.None? {
        return Err(MalformedBase64);
      }
      var data := Utf8.Encode(plaintext);
      var cipher := XorCycle(data, key.value);
      r := Ok(Base64Url.Encode(cipher));
      RoundTrip(currentKey, plaintext);
    }

    /** The plaintext a token stands for under the stored key. */
    method FernetDecrypt(token: string) returns (r: Result<string, Error>)
      ensures r == Decrypt(currentKey, token)
      ensures !HasKey(currentKey) ==> r == Err(NoKeyLoaded)
      ensures r.Ok? ==> Encrypt(currentKey, r.value) == Ok(token)
    {
      if !HasKey(currentKey) {
        return Err(NoKeyLoaded);
      }
      var cipher := Base64Url.Decode(token);
      var key := KeyBytes(currentKey.value);
      if cipher.None? || key.None? {
        return Err(MalformedBase64);
      }
      var text := Utf8.Decode(XorCycle(cipher.value, key.value));
      if text.None? {
        return Err(InvalidUtf8);
      }
      r := Ok(text.value);
      EncryptDecrypt(currentKey, token);
    }

    /** Each letter of `plaintext` rotated `shift` places within its case. */
    method CaesarEncrypt(plaintext: string, shift: int := DefaultShift) returns (r: string)
      ensures r == Caesar(plaintext, shift)
      ensures |r| == |plaintext|
    {
      var resultChars: seq<char> := [];
      var i := 0;
      while i < |plaintext|
        invariant 0 <= i <= |plaintext|
        invariant resultChars == Caesar(plaintext[..i], shift)
      {
        var ch := plaintext[i];
        if 'a' <= ch <= 'z' {
          resultChars := resultChars + [((ch as int - 'a' as int + shift) % 26 + 'a' as int) as char];
        } else if 'A' <= ch <= 'Z' {
          resultChars := resultChars + [((ch as int - 'A' as int + shift) % 26 + 'A' as int) as char];
        } else {
          resultChars := resultChars + [ch];
        }
        assert plaintext[..i + 1][..i] == plaintext[..i];
        i := i + 1;
      }
      assert plaintext[..i] == plaintext;
      r := resultChars;
    }

    /** Undoes `CaesarEncrypt` with the same shift. */
    method CaesarDecrypt(ciphertext: string, shift: int := DefaultShift) returns (r: string)
      ensures r == Caesar(ciphertext, -shift)
      ensures forall p :: Caesar(p, shift) == ciphertext ==> r == p
    {
      r := CaesarEncrypt(ciphertext, -shift);
      forall p | Caesar(p, shift) == ciphertext
        ensures r == p
      {
        CaesarRoundTrip(p, shift);
      }
    }
  }

  /**
   * The smoke test: a generated key, a token for the sentence `plain` that
   * decrypts back to it, and the Caesar round trip of `sample`, "abc XYZ",
   * with shift 4. The token is handed on as it was saved and read back.
   */
  method SmokeTest(raw: seq<byte>, plain: string, sample: string)
      returns (out: Result<string, Error>, c: string, d: string)
    requires |raw| == KeySize
    requires plain == "The quick brown fox jumps over 13 lazy dogs."
    requires sample == "abc XYZ"
    ensures out == Ok(plain)
    ensures c == "efg BCD" && d == sample
  {
    var mgr := new EncryptionManager();
    var key := mgr.GenerateKey(raw);
    var token := mgr.FernetEncrypt(plain);
    assert token.Ok?;
    out := mgr.FernetDecrypt(token.value);
    c := mgr.CaesarEncrypt(sample, 4);
    CaesarExample(sample, "efg BCD");
    d := mgr.CaesarDecrypt(c, 4);
  }
}
