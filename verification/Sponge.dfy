// A sponge as the AEAD code uses it: a rate, a permutation left uninterpreted, and plain byte
// semantics for adding to, overwriting and extracting from the state.
module Sponge {
  import opened Bytes

  // struct lc_hash: sponge_rate and sponge_permutation, by the number of rounds.
  datatype HashFunctions = HashFunctions(rate: nat, perm: (nat, Bytes) -> Bytes)

  // A permutation keeps the length of the state; otherwise it is arbitrary.
  ghost predicate KeepsLength(h: HashFunctions) {
    forall rounds: nat, s: Bytes :: |h.perm(rounds, s)| == |s|
  }

  function IdentityHash(): (h: HashFunctions)
    ensures KeepsLength(h)
  {
    HashFunctions(1, (rounds: nat, s: Bytes) => s)
  }

  type Hash = h: HashFunctions | KeepsLength(h) witness IdentityHash()

  // Rationale of the pad bytes: bit-reversed 1 || 0* and the last bit of the state.
  const PAD_DATA: byte := 0x01
  const PAD_TRAIL: byte := 0x80

  lemma XorAtTwice(s: Bytes, off: nat, a: Bytes, b: Bytes)
    requires off + |a| + |b| <= |s|
    ensures XorAt(XorAt(s, off, a), off + |a|, b) == XorAt(s, off, a + b)
  {
  }
}
