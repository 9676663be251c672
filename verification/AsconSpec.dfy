// Ascon-AEAD128 as section 4.1 of NIST SP 800-232 states it, block by block, for a sponge of any
// rate and state size.
module AsconSpec {
  import opened Bytes
  import opened Sponge

  // pad(X, r) without the zeros XOR does not see: the bit 1 after X.
  function Padded1(X: Bytes): Bytes {
    X + [PAD_DATA]
  }

  // Algorithm 3, lines 7 to 11: absorbing parse(A, r), the last block padded.
  function Absorb(h: Hash, r: nat, S: Bytes, A: Bytes): (T: Bytes)
    requires 0 < h.rate <= |S|
    ensures |T| == |S|
    decreases |A|
  {
    if |A| < h.rate then h.perm(r, XorAt(S, 0, Padded1(A)))
    else Absorb(h, r, h.perm(r, XorAt(S, 0, A[..h.rate])), A[h.rate..])
  }

  // The domain separation bit at the end of the state.
  function Separate(S: Bytes): (T: Bytes)
    requires S != []
    ensures |T| == |S|
  {
    XorAt(S, |S| - 1, [PAD_TRAIL])
  }

  // Associated data: absorbed if there is any, then the separation bit in every case.
  function Associate(h: Hash, r: nat, S: Bytes, A: Bytes): (T: Bytes)
    requires 0 < h.rate <= |S|
    ensures |T| == |S|
  {
    Separate(if A == [] then S else Absorb(h, r, S, A))
  }

  // Plaintext: the state afterwards and the ciphertext.
  function Encrypt(h: Hash, r: nat, S: Bytes, P: Bytes): (e: (Bytes, Bytes))
    requires 0 < h.rate <= |S|
    ensures |e.0| == |S| && |e.1| == |P|
    decreases |P|
  {
    if |P| < h.rate then
      (XorAt(S, 0, Padded1(P)), XorAt(S, 0, P)[..|P|])
    else
      var T := XorAt(S, 0, P[..h.rate]);
      var (U, C) := Encrypt(h, r, h.perm(r, T), P[h.rate..]);
      (U, T[..h.rate] + C)
  }

  // Finalization: the key after the rate, twelve rounds, and the end of the state XORed with the key.
  function Tag(h: Hash, S: Bytes, K: Bytes, t: nat): (T: Bytes)
    requires h.rate + |K| <= |S| && t <= |S| && t <= |K|
    ensures |T| == t
  {
    Xor(h.perm(12, XorAt(S, h.rate, K))[|S| - t..], K[..t])
  }
}
