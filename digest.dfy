/** A deterministic stand-in for the cryptographic digests the libraries compute (the
    Blowfish-based bcrypt checksum, the HMAC-SHA256 token signature). Only determinism is
    relied on; collision and preimage resistance are not modelled. */
module Digest {

  /** Digests are 256-bit values. */
  const Modulus: nat := 0x1_0000_0000_0000_0000_0000_0000_0000_0000_0000_0000_0000_0000_0000_0000_0000_0000

  function Fingerprint(s: string): (d: nat)
    ensures d < Modulus
    decreases |s|
  {
    if s == [] then 0 else (Fingerprint(s[..|s| - 1]) * 257 + s[|s| - 1] as nat) % Modulus
  }
}
