// Byte strings, blocks and the byte-wise XOR helpers of internal/api/xor.h.
module Bytes {
  type byte = bv8
  type Bytes = seq<byte>

  const BLOCK := 16

  // The ranges of uint32_t and uint64_t.
  const TWO32: nat := 0x1_0000_0000
  const TWO64: nat := 0x1_0000_0000_0000_0000

  // A cipher block: AES_BLOCKSIZE bytes.
  type Block = s: seq<byte> | |s| == 16 witness seq(16, _ => 0)

  function Zeros(n: nat): (z: Bytes)
    ensures |z| == n && forall i :: 0 <= i < n ==> z[i] == 0
  {
    seq(n, _ => 0)
  }

  function Xor(a: Bytes, b: Bytes): (r: Bytes)
    requires |a| == |b|
    ensures |r| == |a| && forall i :: 0 <= i < |a| ==> r[i] == a[i] ^ b[i]
  {
    seq(|a|, i requires 0 <= i < |a| => a[i] ^ b[i])
  }

  // s with the bytes d XORed into it from offset off on.
  function XorAt(s: Bytes, off: nat, d: Bytes): (r: Bytes)
    requires off + |d| <= |s|
    ensures |r| == |s|
    ensures forall i :: 0 <= i < |s| ==> r[i] == if off <= i < off + |d| then s[i] ^ d[i - off] else s[i]
  {
    s[..off] + Xor(s[off..off + |d|], d) + s[off + |d|..]
  }

  // s with the bytes d stored over it from offset off on.
  function Overwrite(s: Bytes, off: nat, d: Bytes): (r: Bytes)
    requires off + |d| <= |s|
    ensures |r| == |s|
    ensures forall i :: 0 <= i < |s| ==> r[i] == if off <= i < off + |d| then d[i - off] else s[i]
  {
    s[..off] + d + s[off + |d|..]
  }

  function Flatten(ss: seq<Bytes>): Bytes {
    if ss == [] then [] else Flatten(ss[..|ss| - 1]) + ss[|ss| - 1]
  }

  lemma XorFacts(a: byte, b: byte)
    ensures a ^ 0 == a && a ^ a == 0 && (a ^ b) ^ b == a && a ^ b == b ^ a
    ensures a ^ (a ^ b) == b
  {
  }

  lemma XorZeros(s: Bytes, off: nat, n: nat)
    requires off + n <= |s|
    ensures XorAt(s, off, Zeros(n)) == s
  {
    forall i | 0 <= i < |s| ensures XorAt(s, off, Zeros(n))[i] == s[i] {
      XorFacts(s[i], 0);
    }
  }

  lemma OverwriteNext(s: Bytes, off: nat, a: Bytes, b: Bytes)
    requires off + |a| + |b| <= |s|
    ensures Overwrite(Overwrite(s, off, a), off + |a|, b) == Overwrite(s, off, a + b)
  {
  }

  lemma OverwriteSlice(s: Bytes, off: nat, d: Bytes)
    requires off + |d| <= |s|
    ensures Overwrite(s, off, d)[off..off + |d|] == d
  {
  }

  lemma OverwriteNone(s: Bytes, off: nat)
    requires off <= |s|
    ensures Overwrite(s, off, []) == s
  {
  }

  lemma OverwriteSelf(s: Bytes, off: nat, n: nat)
    requires off + n <= |s|
    ensures Overwrite(s, off, s[off..off + n]) == s
  {
  }

  lemma OverwriteAll(s: Bytes, d: Bytes)
    requires |s| == |d|
    ensures Overwrite(s, 0, d) == d
  {
  }

  lemma XorOverwritten(s: Bytes, off: nat, a: Bytes, b: Bytes)
    requires |a| == |b| && off + |a| <= |s|
    ensures XorAt(Overwrite(s, off, a), off, b) == Overwrite(s, off, Xor(a, b))
  {
  }

  lemma XorAddsBack(s: Bytes, off: nat, d: Bytes)
    requires off + |d| <= |s|
    ensures XorAt(s, off, Xor(s[off..off + |d|], d)) == Overwrite(s, off, d)
  {
    forall i | 0 <= i < |s| ensures XorAt(s, off, Xor(s[off..off + |d|], d))[i] == Overwrite(s, off, d)[i] {
      if off <= i < off + |d| {
        XorFacts(s[i], d[i - off]);
      }
    }
  }

  lemma OverwriteApart(s: Bytes, off: nat, d: Bytes, o: nat, n: nat)
    requires off + |d| <= |s| && o + n <= |s| && (off + |d| <= o || o + n <= off)
    ensures Overwrite(s, off, d)[o..o + n] == s[o..o + n]
  {
  }
}
