// AES-GCM as NIST SP 800-38D states it, over an arbitrary block cipher E and an arbitrary
// multiplication by the hash subkey M.
module GcmSpec {
  import opened Bytes
  import opened Endian

  type BlockFn = Block -> Block

  const ZBLOCK: Block := Zeros(16)

  // Section 6.2: add one to the last 32 bits, leave the other 96 alone.
  function Inc32(b: Block): Block {
    b[..12] + Be((Num(b[12..]) + 1) % TWO32, 4)
  }

  function Inc32N(b: Block, n: nat): Block {
    if n == 0 then b else Inc32(Inc32N(b, n - 1))
  }

  // Section 6.4, continued from Y, over the whole blocks of X.
  function Ghash(M: BlockFn, Y: Block, X: Bytes): Block
    decreases |X|
  {
    if |X| < 16 then Y else Ghash(M, M(Xor(Y, X[..16])), X[16..])
  }

  // Section 6.5.
  function Gctr(E: BlockFn, icb: Block, X: Bytes): (r: Bytes)
    ensures |r| == |X|
    decreases |X|
  {
    if X == [] then []
    else if |X| <= 16 then Xor(X, E(icb)[..|X|])
    else Xor(X[..16], E(icb)) + Gctr(E, Inc32(icb), X[16..])
  }

  // X and the shortest string of zeros that fills it to whole blocks.
  function Padded(X: Bytes): (p: Bytes)
    ensures |p| % 16 == 0
  {
    X + Zeros((16 - |X| % 16) % 16)
  }

  // Section 7.1, steps 2 to 6: from the pre-counter block J0.
  function Ciphertext(E: BlockFn, j0: Block, P: Bytes): (C: Bytes)
    ensures |C| == |P|
  {
    Gctr(E, Inc32(j0), P)
  }

  // A length in bits as a 64-bit field.
  function LengthField(n: nat): (b: Bytes)
    ensures |b| == 8
  {
    Be(8 * n, 8)
  }

  function LengthBlock(alen: nat, clen: nat): Block {
    LengthField(alen) + LengthField(clen)
  }

  function S(M: BlockFn, A: Bytes, C: Bytes): Block {
    Ghash(M, ZBLOCK, Padded(A) + Padded(C) + LengthBlock(|A|, |C|))
  }

  function Tag(E: BlockFn, M: BlockFn, j0: Block, A: Bytes, C: Bytes, t: nat): Bytes
    requires t <= 16
  {
    Gctr(E, j0, S(M, A, C))[..t]
  }

  function IvLengthBlock(n: nat): Block {
    Zeros(8) + LengthField(n)
  }

  // Section 7.1, step 2: the pre-counter block of an initialization vector.
  function J0(M: BlockFn, iv: Bytes): Block {
    if |iv| == 12 then iv + [0, 0, 0, 1] else Ghash(M, ZBLOCK, Padded(iv) + IvLengthBlock(|iv|))
  }

  // ---- the counter ----

  lemma Pow256Four()
    ensures Pow256(4) == TWO32
  {
  }

  lemma Inc32Num(b: Block)
    ensures Num(Inc32(b)[12..]) == (Num(b[12..]) + 1) % TWO32 && Inc32(b)[..12] == b[..12]
  {
    Pow256Four();
    NumOfBe((Num(b[12..]) + 1) % TWO32, 4);
    assert Inc32(b)[12..] == Be((Num(b[12..]) + 1) % TWO32, 4);
  }

  lemma ModStep(c: nat, n: nat)
    ensures ((c + n) % TWO32 + 1) % TWO32 == (c + n + 1) % TWO32
  {
  }

  lemma ModDistinct(c: nat, i: nat, j: nat)
    requires i < j < i + TWO32
    ensures (c + i) % TWO32 != (c + j) % TWO32
  {
  }

  lemma {:induction false} Inc32NNum(b: Block, n: nat)
    ensures Num(Inc32N(b, n)[12..]) == (Num(b[12..]) + n) % TWO32 && Inc32N(b, n)[..12] == b[..12]
  {
    hide Inc32, Num;
    if n == 0 {
      Pow256Four();
      NumBound(b[12..]);
    } else {
      Inc32NNum(b, n - 1);
      Inc32Num(Inc32N(b, n - 1));
      ModStep(Num(b[12..]), n - 1);
    }
  }

  // Within 2^32 - 1 increments the counter never repeats.
  lemma CountersDistinct(b: Block, i: nat, j: nat)
    requires i < j < TWO32
    ensures Inc32N(b, i) != Inc32N(b, j)
  {
    hide Inc32N, Num;
    Inc32NNum(b, i);
    Inc32NNum(b, j);
    ModDistinct(Num(b[12..]), i, j);
  }

  // The byte-carry loop on a big-endian counter: add one to the last byte, go on to the previous
  // one only when it wrapped to zero.
  function CarryInc(c: Bytes): (r: Bytes)
    ensures |r| == |c|
  {
    if c == [] then []
    else
      var l := c[|c| - 1] + 1;
      if l != 0 then c[..|c| - 1] + [l] else CarryInc(c[..|c| - 1]) + [l]
  }

  lemma IncByte(b: byte)
    ensures b + 1 == 0 ==> b as nat == 255
    ensures b + 1 != 0 ==> (b + 1) as nat == b as nat + 1
  {
  }

  lemma {:induction false} CarryIncNum(c: Bytes)
    ensures Num(CarryInc(c)) == if Num(c) + 1 == Pow256(|c|) then 0 else Num(c) + 1
  {
    if c != [] {
      var p, l := c[..|c| - 1], c[|c| - 1];
      IncByte(l);
      NumBound(p);
      if l + 1 != 0 {
        assert CarryInc(c)[..|c| - 1] == p;
      } else {
        CarryIncNum(p);
        assert CarryInc(c)[..|c| - 1] == CarryInc(p);
      }
    }
  }

  // The loop of the code is the increment of section 6.2.
  lemma CarryIncIsInc32(b: Block)
    ensures b[..12] + CarryInc(b[12..]) == Inc32(b)
  {
    hide Num, Be, CarryInc, Pow256;
    var c := b[12..];
    CarryIncNum(c);
    NumBound(c);
    Pow256Four();
    BeOfNum(CarryInc(c));
  }
}
