/** Session tokens: the hex encoding of the SHA-256 digest of 32 random
    bytes. SHA-256 is abstract: a `Sha256` is any function yielding 32 bytes;
    the random bytes are an input, None when the random source failed. */
module Tokens {
  import opened Wrappers
  import opened Hex

  const EntropyLen: nat := 32
  const DigestLen: nat := 32

  function ZeroDigest(b: Bytes): Bytes {
    seq(DigestLen, _ => 0)
  }

  type Sha256 = f: Bytes -> Bytes | forall b :: |f(b)| == DigestLen witness ZeroDigest

  function SessionToken(entropy: Option<Bytes>, sha256: Sha256): (t: Option<string>)
    requires entropy.Some? ==> |entropy.value| == EntropyLen
    ensures t.Some? <==> entropy.Some?
    ensures t.Some? ==> |t.value| == 2 * DigestLen && IsLowerHex(t.value)
    ensures t.Some? ==> Decode(t.value) == Some(sha256(entropy.value))
  {
    match entropy
    case None => None
    case Some(e) =>
      DecodeEncode(sha256(e));
      Some(Encode(sha256(e)))
  }
}
