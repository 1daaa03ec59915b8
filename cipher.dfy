/** The symmetric cipher behind envcrypto/crypto.py's Encrypter.

    The store only relies on two laws of the cipher: a ciphertext decrypts
    under the key that produced it to the original plaintext, and it does not
    decrypt under any other well-formed key. The definitions below are a
    stand-in that satisfies exactly these laws (proved below); the
    confidentiality of real authenticated encryption is not modelled. */
module Cipher {
  import opened Wrappers

  /** Length of a Fernet key: 32 bytes in url-safe base64 with padding. */
  const KEY_LENGTH: nat := 44

  predicate IsKeyChar(c: char)
  {
    ('A' <= c <= 'Z') || ('a' <= c <= 'z') || ('0' <= c <= '9') || c == '-' || c == '_' || c == '='
  }

  /** A key that the cipher accepts when an Encrypter is built from it. */
  predicate ValidKey(k: string)
  {
    |k| == KEY_LENGTH && forall i | 0 <= i < |k| :: IsKeyChar(k[i])
  }

  function Encrypt(k: string, m: string): (c: string)
    ensures |c| >= |m|
  {
    k + m
  }

  /** Decrypts `c` under `k`; None stands for the cipher's single, opaque
      failure signal. */
  function Decrypt(k: string, c: string): (r: Option<string>)
    ensures r.Some? ==> c == Encrypt(k, r.value)
  {
    if |k| <= |c| && c[..|k|] == k then Some(c[|k|..]) else None
  }

  /** Decryption succeeds on exactly the ciphertexts produced under the same key. */
  lemma RoundTrip(k: string, m: string, c: string)
    ensures Decrypt(k, c) == Some(m) <==> c == Encrypt(k, m)
  {
    if c == Encrypt(k, m) {
      assert c[..|k|] == k && c[|k|..] == m;
    }
  }

  /** A ciphertext made under one well-formed key does not decrypt under another. */
  lemma WrongKey(k1: string, k2: string, m: string)
    requires ValidKey(k1) && ValidKey(k2) && k1 != k2
    ensures Decrypt(k2, Encrypt(k1, m)) == None
  {
    var c := Encrypt(k1, m);
    assert c[..|k2|] == k1;
  }
}
