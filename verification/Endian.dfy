// Byte strings as numbers, in both byte orders.
module Endian {
  import opened Bytes
  import opened Octet

  function Pow256(n: nat): (r: nat)
    ensures r > 0
  {
    if n == 0 then 1 else 256 * Pow256(n - 1)
  }

  // The n-byte big-endian representation of v modulo 256^n.
  function Be(v: nat, n: nat): (b: Bytes)
    ensures |b| == n
    decreases n
  {
    if n == 0 then [] else Be(v / 256, n - 1) + [(v % 256) as byte]
  }

  // The number a big-endian byte string stands for.
  function Num(b: Bytes): nat {
    if b == [] then 0 else 256 * Num(b[..|b| - 1]) + b[|b| - 1] as nat
  }

  // The same, little-endian.
  function Le(v: nat, n: nat): (b: Bytes)
    ensures |b| == n
    decreases n
  {
    if n == 0 then [] else [(v % 256) as byte] + Le(v / 256, n - 1)
  }

  function LeNum(b: Bytes): nat {
    if b == [] then 0 else b[0] as nat + 256 * LeNum(b[1..])
  }

  lemma {:induction false} NumBound(b: Bytes)
    ensures Num(b) < Pow256(|b|)
  {
    if b != [] {
      NumBound(b[..|b| - 1]);
      NatOfByte(b[|b| - 1]);
    }
  }

  lemma {:induction false} NumOfBe(v: nat, n: nat)
    requires v < Pow256(n)
    ensures Num(Be(v, n)) == v
    decreases n
  {
    if n > 0 {
      NumOfBe(v / 256, n - 1);
      ByteOfNat(v % 256);
      assert Be(v, n)[..n - 1] == Be(v / 256, n - 1);
    }
  }

  lemma {:induction false} BeOfNum(b: Bytes)
    ensures Be(Num(b), |b|) == b
  {
    if b != [] {
      var p, l := b[..|b| - 1], b[|b| - 1];
      BeOfNum(p);
      NatOfByte(l);
      assert Num(b) / 256 == Num(p) && Num(b) % 256 == l as nat;
    }
  }

  lemma {:induction false} LeNumBound(b: Bytes)
    ensures LeNum(b) < Pow256(|b|)
  {
    if b != [] {
      LeNumBound(b[1..]);
      NatOfByte(b[0]);
    }
  }

  lemma {:induction false} LeNumOfLe(v: nat, n: nat)
    requires v < Pow256(n)
    ensures LeNum(Le(v, n)) == v
    decreases n
  {
    if n > 0 {
      LeNumOfLe(v / 256, n - 1);
      ByteOfNat(v % 256);
      assert Le(v, n)[1..] == Le(v / 256, n - 1);
    }
  }

  lemma {:induction false} LeOfNum(b: Bytes)
    ensures Le(LeNum(b), |b|) == b
  {
    if b != [] {
      LeOfNum(b[1..]);
      NatOfByte(b[0]);
      assert LeNum(b) / 256 == LeNum(b[1..]) && LeNum(b) % 256 == b[0] as nat;
    }
  }

  lemma LeNumFour(b: Bytes)
    requires |b| >= 4
    ensures LeNum(b) == b[0] as nat + 256 * (b[1] as nat + 256 * (b[2] as nat + 256 * (b[3] as nat + 256 * LeNum(b[4..]))))
  {
    assert b[1..][1..] == b[2..] && b[2..][1..] == b[3..] && b[3..][1..] == b[4..];
  }
}
