# EncryptionManager, verified model

This project models `EncryptionManager` from `encryption.py` of the Enc-Dec-Tool repository. The model covers the configuration where the `cryptography` package is not installed, so every "Fernet" call uses the fallback cipher.

The manager holds one key slot, `current_key`. This is `None` until a key is generated or loaded. A generated key is the bytes of a base64url text. A loaded key is whatever bytes were given, and the cipher reads it as base64url text only when it is used. The operations are:

- generate a key from 32 random bytes;
- read the key back as text;
- save the key, load it from a file, or load it from a `str` or `bytes` value;
- encrypt and decrypt with the fallback cipher: the UTF-8 bytes of the text are XORed with the key's decoded bytes, repeated cyclically, and the result is base64url-encoded;
- a Caesar cipher that rotates ASCII letters within their own case and leaves every other character as it is.

Modules:

- `Wrappers`: `Option` and `Result`.
- `Bytes`: bytes as integers 0..255, bitwise XOR defined arithmetically, and the ASCII and Latin-1 views of bytes.
- `Base64Url`: the URL-safe base64 alphabet of section 5 of RFC 4648, with `=` padding, and a strict decoder. The decoder rejects:
  - a length that is not a multiple of 4;
  - characters outside the alphabet;
  - misplaced `=`;
  - non-zero padding bits.

  With this decoder, encoding and decoding are inverse bijections.
- `Utf8`: UTF-8 encoding and strict decoding. The decoder refuses overlong forms, surrogates, values above U+10FFFF, and truncated or stray continuation bytes.
- `CaesarCipher`: the per-character and whole-string Caesar specification.
- `FallbackCipher`: the fallback key handling, `Encrypt` and `Decrypt` as functions of the key slot, and the exceptions as an `Error` datatype.
- `Encryption`: the class `EncryptionManager` with the key slot as a field and one method per operation of the Python class. It also has `SmokeTest`, the scenario of `test_run.py`.

The random bytes, the outcome of reading a key file and the argument of `load_key` are inputs to the methods. Python exceptions are `Err` results.

The fallback cipher does not authenticate tokens. `FallbackCipher.AnyKeyDecrypts` shows that a token made under one key and decrypted under any other key that decodes never fails as malformed or as missing a key. The worst outcome is invalid UTF-8; otherwise some text comes back, so nothing in the code detects a wrong key. `FallbackCipher.EncryptDecrypt` adds that every text that comes back encrypts to the same token again.

## Model

| member | source | states |
|---|---|---|
| Bytes.XorInvolution | encryption.py:81 | XORing a byte twice with the same key byte gives it back, which is why decryption reuses encryption's XOR |
| Bytes.XorBitsInvolution | encryption.py:68 | the bitwise XOR of naturals is an involution in its first argument |
| Bytes.XorBitsBound | encryption.py:68 | the XOR of two values below 2^n is below 2^n, so the XOR of two bytes is a byte |
| Bytes.XorBitsSelf | encryption.py:68 | the XOR of two naturals is zero exactly when they are equal |
| Bytes.Xor | encryption.py:68 | Python's `^` on two bytes: zero exactly for equal bytes, and masking with 0 leaves the byte unchanged |
| Base64Url.CharOf | encryption.py:27 | digits 0..63 map to exactly the alphabet A-Z a-z 0-9 - _ and the padding digit maps to '=' |
| Base64Url.DigitOf | encryption.py:79 | a character has a digit exactly when it is in the alphabet or is '='; everything else is invalid |
| Base64Url.DigitOfCharOf | encryption.py:27 | reading back a written digit gives that digit |
| Base64Url.CharOfDigitOf | encryption.py:79 | writing a read digit gives that character back |
| Base64Url.DecodeEncodeGroup | encryption.py:69 | one group of 1 to 3 bytes, written as 4 digits with padding, decodes to those bytes |
| Base64Url.EncodeDecodeGroup | encryption.py:79 | a 4-digit group that decodes re-encodes to the same 4 digits |
| Base64Url.DecodeGroup | encryption.py:79 | an accepted 4-digit group holds only alphabet digits and padding, and gives 1 to 3 bytes |
| Base64Url.EncodeDigits | encryption.py:69 | the digits of n bytes are 4 per started group of 3 bytes, all alphabet digits or padding |
| Base64Url.DecodeDigits | encryption.py:79 | accepted digits are alphabet digits or padding in whole groups of 4, giving 3 bytes per group, less up to 2 for padding |
| Base64Url.Encode | encryption.py:69 | the base64url text of n bytes has 4 characters per started group of 3 bytes, each from the alphabet or '=' |
| Base64Url.Decode | encryption.py:79 | an accepted text has whole groups of 4 characters, each from the alphabet or '=', and decodes to 3 bytes per group, less up to 2 for padding |
| Base64Url.DecodeEncode | encryption.py:69 | decoding the base64url text of any bytes gives those bytes |
| Base64Url.EncodeDecode | encryption.py:79 | every text the strict decoder accepts is the base64url text of what it decodes to |
| Utf8.EncodeChar | encryption.py:67 | a character takes 1 to 4 bytes, and 1 exactly when it is ASCII |
| Utf8.DecodeChar | encryption.py:82 | a successfully decoded character consumes between 1 and all of the remaining bytes |
| Utf8.Encode | encryption.py:67 | the UTF-8 of a string has between 1 and 4 bytes per character |
| Utf8.Decode | encryption.py:82 | a string decoded from bytes has between a quarter of their number and their number of characters |
| Utf8.DecodeEncodeChar | encryption.py:67 | the bytes of a character decode to that character and consume exactly those bytes |
| Utf8.EncodeDecodeChar | encryption.py:82 | a decoded character re-encodes to exactly the bytes it consumed |
| Utf8.DecodeEncode | encryption.py:82 | decoding the UTF-8 of any string gives that string |
| Utf8.EncodeDecode | encryption.py:82 | bytes that decode are the UTF-8 of the decoded string |
| Utf8.EncodeAscii | encryption.py:34 | the UTF-8 of an ASCII string has one byte per character, equal to its code |
| CaesarCipher.ShiftChar | encryption.py:88-93 | lowercase stays lowercase and uppercase stays uppercase; a letter's index becomes (index + shift) mod 26; any other character is unchanged |
| CaesarCipher.Caesar | encryption.py:85-94 | the cipher has the plaintext's length, and each character is its plaintext character shifted |
| CaesarCipher.ShiftCharCompose | encryption.py:89-91 | shifting by j and then by k is shifting by j + k |
| CaesarCipher.ShiftCharZero | encryption.py:89-91 | a shift of 0 changes no character |
| CaesarCipher.ShiftCharMod | encryption.py:89-91 | a shift of k and a shift of k mod 26 give the same character |
| CaesarCipher.CaesarCompose | encryption.py:85-94 | encrypting with j and then with k is encrypting with j + k |
| CaesarCipher.CaesarZero | encryption.py:85-94 | a shift of 0 is the identity on strings |
| CaesarCipher.CaesarRoundTrip | encryption.py:96-97 | decrypting with the same shift undoes encryption, for every integer shift |
| CaesarCipher.CaesarPeriodic | encryption.py:89-91 | only the shift mod 26 matters: k and k + 26 agree, and so do -4 and 22 |
| CaesarCipher.CaesarPointwise | encryption.py:86-94 | a string whose characters are each the shifted plaintext character is the cipher |
| CaesarCipher.CaesarExample | test_run.py:22-24 | "abc XYZ" with shift 4 gives "efg BCD", and decrypting with 4 gives "abc XYZ" back |
| FallbackCipher.XorCycle | encryption.py:68 | the XORed data has the data's length |
| FallbackCipher.XorCycleInvolution | encryption.py:81 | XORing twice with the same cyclic key stream gives the data back |
| FallbackCipher.KeyBytes | encryption.py:66 | the bytes a stored non-empty key decodes to are never empty, so `i % len(key)` is defined |
| FallbackCipher.GeneratedKey | encryption.py:26-27 | the stored generated key has 4 bytes per started group of 3 random bytes, each the code of an alphabet character or '=' |
| FallbackCipher.Encrypt | encryption.py:58-69 | "No key loaded" exactly when the key is absent or empty; a base64 error exactly when the key does not decode; otherwise a token of 4 characters per started group of 3 bytes of the plaintext's UTF-8 |
| FallbackCipher.Decrypt | encryption.py:71-82 | "No key loaded" exactly when the key is absent or empty; a base64 error exactly when the token or the key does not decode; a returned text comes from whole 4-character groups and has at most 3 characters per group |
| FallbackCipher.GeneratedKeyBytes | encryption.py:26-29 | a generated key is 44 bytes and decodes to the 32 random bytes it was made from |
| FallbackCipher.KeyOfText | encryption.py:27 | the stored ASCII bytes of base64url text decode back to the encoded bytes |
| FallbackCipher.EncodeIsAscii | encryption.py:69 | base64url text is ASCII, so its UTF-8 is its characters' codes |
| FallbackCipher.EncryptLength | encryption.py:66-69 | the token decodes to exactly as many bytes as the plaintext's UTF-8 |
| FallbackCipher.RoundTrip | encryption.py:58-82 | decrypting a token under the key that produced it gives the plaintext back |
| FallbackCipher.EncryptDecrypt | encryption.py:71-82 | every token that decrypts is the encryption of what it decrypts to, so tokens carry no integrity check |
| FallbackCipher.AnyKeyDecrypts | encryption.py:71-82 | a token made under one key, decrypted under any other key that decodes, fails at worst as invalid UTF-8 and never as malformed or missing a key |
| Encryption.KeyString | encryption.py:31-34 | no key text exactly when the key is absent or empty; a key text is the text whose UTF-8 is the stored key; the only failure is invalid UTF-8 |
| Encryption.KeyStringOfText | encryption.py:49-51 | a non-empty text loaded as a key reads back as the same text |
| Encryption.KeyStringOfGenerated | encryption.py:26-34 | a generated key reads back as the base64url text of its random bytes |
| Encryption.EncryptionManager.constructor | encryption.py:16-17 | a new manager holds no key |
| Encryption.EncryptionManager.GenerateKey | encryption.py:19-29 | stores and returns the base64url text of the random bytes, replacing any previous key; it is 44 bytes and decodes to those bytes |
| Encryption.EncryptionManager.GetKeyString | encryption.py:31-34 | answers the key's text as `KeyString` specifies and changes nothing |
| Encryption.EncryptionManager.SaveKeyToFile | encryption.py:36-38 | writes the stored key, or no bytes when there is none |
| Encryption.EncryptionManager.LoadKeyFromFile | encryption.py:40-47 | a found file's contents become the key and the answer is true; a missing file answers false and a failed read raises, both leaving the key unchanged |
| Encryption.EncryptionManager.LoadKey | encryption.py:49-55 | a str is stored as its UTF-8 and bytes are stored as given; any other argument is a type error that leaves the key unchanged |
| Encryption.EncryptionManager.FernetEncrypt | encryption.py:58-69 | the token `Encrypt` specifies; "No key loaded" without a key; every token it returns decrypts back to the plaintext |
| Encryption.EncryptionManager.FernetDecrypt | encryption.py:71-82 | the text `Decrypt` specifies; "No key loaded" without a key; every text it returns encrypts back to the token |
| Encryption.EncryptionManager.CaesarEncrypt | encryption.py:85-94 | the loop's output is the Caesar cipher of the plaintext, with its length |
| Encryption.EncryptionManager.CaesarDecrypt | encryption.py:96-97 | the output is the cipher with the negated shift, and it is the plaintext of any string that encrypts to the input |
| Encryption.SmokeTest | test_run.py:5-24 | with a generated key the sentence survives encryption and decryption, and "abc XYZ" with shift 4 goes to "efg BCD" and back |

## Left out

- The branches that use the `cryptography` package's real Fernet (encryption.py:21-24, 61-64, 74-77) are not modelled; the model fixes `_HAS_CRYPTO` to false.
- `os.urandom(32)` is the parameter `raw` of `GenerateKey`, which must be 32 bytes long.
- File I/O is not modelled. `LoadKeyFromFile` takes what the read produced (the contents, file not found, or another OS error). `SaveKeyToFile` returns the bytes it would write. File names play no part.
- Base64Url.Decode: Python's `urlsafe_b64decode` is lenient. It discards characters outside the alphabet, accepts `+` and `/`, and ignores non-zero padding bits. The model rejects all of these. The two agree on every canonical text, and every key and token the program produces is canonical.
- Encryption.EncryptionManager.FernetEncrypt, Encryption.EncryptionManager.FernetDecrypt: a key that Python's lenient decoder would turn into zero bytes makes `i % len(key)` raise ZeroDivisionError (encryption.py:68, 81) when the plaintext or token is non-empty; with empty data Python returns "" and the model fails as MalformedBase64. The strict model decodes no non-empty key to zero bytes, so the ZeroDivisionError does not arise.
- Encryption.EncryptionManager.LoadKey, Encryption.EncryptionManager.FernetEncrypt: a Python `str` may hold lone surrogates, and encoding one raises UnicodeEncodeError (encryption.py:51, 67). Dafny characters are Unicode scalar values, so this case is not modelled.
- Encryption.EncryptionManager.SaveKeyToFile: the OSError that opening the file for writing can raise (encryption.py:37) is not modelled. The method always succeeds and returns the bytes it would write.
- Exceptions are `Error` values identifying the exception's kind. Their messages are not modelled.
- `FileHandler` (file_handler.py) is not part of this model. `SmokeTest` passes the token to decryption directly rather than saving it and reading it back, and the time-stamped file name is not modelled.
- main.py, the interactive command-line menu, is not part of this model.
- Confidentiality and resistance to attack are not claimed. The model only states what the code computes.
