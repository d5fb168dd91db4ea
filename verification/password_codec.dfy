/** Salted password hashes as the auth handlers store them: the lower-case
    hex encoding of a 32-byte salt followed by the 32-byte scrypt key derived
    from the password and that salt. scrypt itself is abstract: a `Kdf` is
    any function that always yields 32 bytes. */
module PasswordCodec {
  import opened Wrappers
  import opened Hex
  import PasswordPolicy

  const SaltLen: nat := 32
  const KeyLen: nat := 32
  /** Length of a stored hash: two hex digits per byte of salt and key. */
  const EncodedLen: nat := 2 * (SaltLen + KeyLen)

  function ZeroKey(password: string, salt: Bytes): Bytes {
    seq(KeyLen, _ => 0)
  }

  /** scrypt.Key(password, salt, 32768, 8, 1, 32), left uninterpreted. */
  type Kdf = f: (string, Bytes) -> Bytes | forall p, salt :: |f(p, salt)| == KeyLen
    witness ZeroKey

  /** Hashes `password` with the salt drawn from the random source; None
      when the random source failed. */
  function HashPassword(password: string, salt: Option<Bytes>, kdf: Kdf): (r: Option<string>)
    requires salt.Some? ==> |salt.value| == SaltLen
    ensures r.Some? <==> salt.Some?
    ensures r.Some? ==> |r.value| == EncodedLen && IsLowerHex(r.value)
    ensures r.Some? ==> r.value[..2 * SaltLen] == Encode(salt.value)
    ensures r.Some? ==> r.value[2 * SaltLen..] == Encode(kdf(password, salt.value))
  {
    match salt
    case None => None
    case Some(s) =>
      var key := kdf(password, s);
      EncodeAppend(s, key);
      Some(Encode(s + key))
  }

  /** Re-derives the key from the salt in `stored` and compares. Fails
      closed: anything that is not hex, or does not decode to exactly
      salt-plus-key bytes, is rejected without consulting the KDF. */
  function VerifyPassword(stored: string, password: string, kdf: Kdf): (ok: bool)
    ensures ok ==> |stored| == EncodedLen && IsHex(stored)
  {
    match Decode(stored)
    case None => false
    case Some(decoded) =>
      |decoded| == SaltLen + KeyLen && decoded[SaltLen..] == kdf(password, decoded[..SaltLen])
  }

  /** The KDF is never consulted for a stored value of the wrong shape: the
      verdict is false whichever function stands for scrypt. */
  lemma MalformedNeverVerifies(stored: string, password: string, k1: Kdf, k2: Kdf)
    requires |stored| != EncodedLen || !IsHex(stored)
    ensures !VerifyPassword(stored, password, k1) && !VerifyPassword(stored, password, k2)
  {
  }

  /** A hash made from `password` verifies another candidate exactly when
      the KDF gives the candidate the same key under that salt. */
  lemma VerifyHashIff(password: string, candidate: string, salt: Bytes, kdf: Kdf)
    requires |salt| == SaltLen
    ensures VerifyPassword(HashPassword(password, Some(salt), kdf).value, candidate, kdf)
            <==> kdf(candidate, salt) == kdf(password, salt)
  {
    var key := kdf(password, salt);
    DecodeEncode(salt + key);
    assert (salt + key)[..SaltLen] == salt;
    assert (salt + key)[SaltLen..] == key;
  }

  /** Round trip: a freshly made hash verifies its own password. */
  lemma VerifyOwnHash(password: string, salt: Bytes, kdf: Kdf)
    requires |salt| == SaltLen
    ensures VerifyPassword(HashPassword(password, Some(salt), kdf).value, password, kdf)
  {
    VerifyHashIff(password, password, salt, kdf);
  }

  /** Hashing is salted: the same password under two different salts gives
      two different stored values. */
  lemma DistinctSaltsDistinctHashes(password: string, s1: Bytes, s2: Bytes, kdf: Kdf)
    requires |s1| == SaltLen && |s2| == SaltLen
    requires s1 != s2
    ensures HashPassword(password, Some(s1), kdf).value != HashPassword(password, Some(s2), kdf).value
  {
    var h1 := HashPassword(password, Some(s1), kdf).value;
    var h2 := HashPassword(password, Some(s2), kdf).value;
    DecodeEncode(s1);
    DecodeEncode(s2);
    assert Encode(s1) != Encode(s2);
    assert h1[..2 * SaltLen] != h2[..2 * SaltLen];
  }

  /** A valid password has an upper-case letter and a stored hash has only
      lower-case hex digits, so the stored value is never the plaintext. */
  lemma HashIsNotPlaintext(password: string, salt: Bytes, kdf: Kdf)
    requires |salt| == SaltLen
    requires PasswordPolicy.ValidPassword(password)
    ensures HashPassword(password, Some(salt), kdf).value != password
  {
    var h := HashPassword(password, Some(salt), kdf).value;
    var i :| 0 <= i < |password| && PasswordPolicy.IsUpper(password[i]);
    if |h| == |password| {
      assert IsLowerHexDigit(h[i]) && h[i] != password[i];
    }
  }
}
