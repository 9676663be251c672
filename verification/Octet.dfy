// A byte as a number from 0 to 255 and back.
module Octet {
  lemma NatOfByte(b: bv8)
    ensures b as nat < 256 && (b as nat) as bv8 == b
  {
  }

  lemma NatOfNext(b: bv8)
    requires b != 255
    ensures (b + 1) as nat == b as nat + 1
  {
  }

  lemma {:induction false} ByteOfNat(v: nat)
    requires v < 256
    ensures (v as bv8) as nat == v
  {
    if v == 0 {
      NatOfByte(0);
    } else {
      ByteOfNat(v - 1);
      NatOfNext((v - 1) as bv8);
      NatOfByte((v - 1) as bv8 + 1);
    }
  }

  lemma NonzeroByte(v: nat)
    requires 0 < v < 256
    ensures v as bv8 != 0
  {
    ByteOfNat(v);
  }
}
