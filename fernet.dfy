/**
  A stand-in for the Fernet recipe of the `cryptography` package. The store
  relies on one property of Fernet only: a token made with the server key
  decrypts, with the same key, to the bytes it was made from. Fernet tokens
  start with the version byte 0x80 and carry a fresh random 16-byte IV; both
  are kept here, and the cipher itself is replaced by a keyed, invertible
  byte-wise transform so that the round trip can be proved rather than taken on trust.
  It is not meant to be secure.
*/
module Fernet {
  import opened Wrappers
  import opened Octets

  /** The version byte that opens every token. */
  const Version: byte := 0x80

  /** A Fernet key is 32 bytes (16 for signing, 16 for encryption). */
  const KeySize: nat := 32

  /** Each token carries a fresh 16-byte IV. */
  const IvSize: nat := 16

  predicate ValidKey(key: Bytes) {
    |key| == KeySize
  }

  /** The keystream value for position `i` of a message. */
  function Pad(key: Bytes, iv: Bytes, i: nat): int
    requires ValidKey(key) && |iv| == IvSize
  {
    key[i % KeySize] as int + iv[i % IvSize] as int
  }

  function Mask(key: Bytes, iv: Bytes, plaintext: Bytes): (r: Bytes)
    requires ValidKey(key) && |iv| == IvSize
  {
    seq(|plaintext|, i requires 0 <= i < |plaintext| => ((plaintext[i] as int + Pad(key, iv, i)) % 256) as byte)
  }

  function Unmask(key: Bytes, iv: Bytes, ciphertext: Bytes): (r: Bytes)
    requires ValidKey(key) && |iv| == IvSize
  {
    seq(|ciphertext|, i requires 0 <= i < |ciphertext| => ((ciphertext[i] as int - Pad(key, iv, i)) % 256) as byte)
  }

  /** `Fernet(key).encrypt(plaintext)`, with the random IV as a parameter. */
  function Encrypt(key: Bytes, iv: Bytes, plaintext: Bytes): (token: Bytes)
    requires ValidKey(key) && |iv| == IvSize
    ensures |token| == 1 + IvSize + |plaintext|
    ensures token[0] == Version && token[1..1 + IvSize] == iv
  {
    [Version] + iv + Mask(key, iv, plaintext)
  }

  /** `Fernet(key).decrypt(token)`; None where Fernet raises InvalidToken. */
  function Decrypt(key: Bytes, token: Bytes): (r: Option<Bytes>)
    requires ValidKey(key)
    ensures r.Some? ==> |r.value| == |token| - 1 - IvSize
  {
    if |token| < 1 + IvSize || token[0] != Version then None
    else Some(Unmask(key, token[1..1 + IvSize], token[1 + IvSize..]))
  }

  /** Round trip: a token decrypts, under the key that made it, to its plaintext. */
  lemma DecryptEncrypt(key: Bytes, iv: Bytes, plaintext: Bytes)
    requires ValidKey(key) && |iv| == IvSize
    ensures Decrypt(key, Encrypt(key, iv, plaintext)) == Some(plaintext)
  {
    var token := Encrypt(key, iv, plaintext);
    var ct := Mask(key, iv, plaintext);
    assert token[1..1 + IvSize] == iv;
    assert token[1 + IvSize..] == ct;
    var back := Unmask(key, iv, ct);
    forall i | 0 <= i < |plaintext|
      ensures back[i] == plaintext[i]
    {
      var p, k := plaintext[i] as int, Pad(key, iv, i);
      var c := (p + k) % 256;
      assert ct[i] as int == c;
      assert (c - k) % 256 == p by {
        assert c == p + k - 256 * ((p + k) / 256);
      }
    }
    assert back == plaintext;
    assert Decrypt(key, token) == Some(back);
  }
}
