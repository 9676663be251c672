// gcm_setiv: which initialization vectors get the pre-counter block of section 7.1 of NIST SP
// 800-38D.
module GcmIv {
  import opened Bytes
  import opened Endian
  import opened Octet
  import opened Gf128
  import opened Gf128Unit
  import opened GcmSpec
  import opened GcmStream

  // The multiplication by a hash subkey.
  function HMul(h: Block): BlockFn {
    (x: Block) => Product(x, h)
  }

  // The loop over the IV: up to 16 bytes at a time, multiplied even if fewer.
  function IvLoop(M: BlockFn, y: Block, iv: Bytes): Block
    decreases |iv|
  {
    if iv == [] then y
    else if |iv| < 16 then M(XorAt(y, 0, iv))
    else IvLoop(M, M(XorAt(y, 0, iv[..16])), iv[16..])
  }

  // use_len after that loop.
  function UseLen(n: nat): (u: nat)
    ensures u <= 16
  {
    if n == 0 then 0 else (n - 1) % 16 + 1
  }

  // work_buf: a 32-bit length field at the end.
  function IvWork(n: nat): Block {
    Zeros(12) + Be(8 * n % TWO32, 4)
  }

  function CodeJ0(M: BlockFn, iv: Bytes): Block {
    if |iv| == 12 then iv + [0, 0, 0, 1]
    else M(XorAt(IvLoop(M, ZBLOCK, iv), 0, IvWork(|iv|)[..UseLen(|iv|)]))
  }

  // Everything but the previous ectr is reset.
  function SetIv(E: BlockFn, M: BlockFn, st: Gst, iv: Bytes): Gst {
    var y := CodeJ0(M, iv);
    Gst(ZBLOCK, y, st.ectr, E(y), 0, 0, false, [])
  }

  // A reused context behaves like a fresh one.
  lemma SetIvOpens(E: BlockFn, M: BlockFn, st: Gst, iv: Bytes)
    ensures Open(E, M, CodeJ0(M, iv), [], SetIv(E, M, st, iv))
  {
  }

  // ---- the loop is GHASH of the zero-padded IV ----

  lemma XorAtPadded(y: Block, c: Bytes)
    requires |c| <= 16
    ensures XorAt(y, 0, c) == Xor(y, c + Zeros(16 - |c|))
  {
    forall i | 0 <= i < 16 ensures XorAt(y, 0, c)[i] == Xor(y, c + Zeros(16 - |c|))[i] {
      XorFacts(y[i], 0);
    }
  }

  lemma {:induction false} IvLoopIsGhash(M: BlockFn, y: Block, iv: Bytes)
    ensures IvLoop(M, y, iv) == Ghash(M, y, Padded(iv))
    decreases |iv|
  {
    hide Xor, XorAt, Padded;
    if |iv| >= 16 {
      XorWhole(y, iv[..16]);
      PaddedNext(iv);
      IvLoopIsGhash(M, M(Xor(y, iv[..16])), iv[16..]);
    } else if iv != [] {
      PaddedLast(iv);
      XorAtPadded(y, iv);
      GhashOne(M, y, Padded(iv));
    } else {
      GhashNone(M, y);
    }
  }

  lemma PaddedNext(iv: Bytes)
    requires |iv| >= 16
    ensures |Padded(iv)| >= 16 && Padded(iv)[..16] == iv[..16] && Padded(iv)[16..] == Padded(iv[16..])
  {
    hide Zeros;
    assert |iv| % 16 == |iv[16..]| % 16;
    var z := Zeros((16 - |iv| % 16) % 16);
    assert (iv + z)[16..] == iv[16..] + z;
  }

  lemma PaddedLast(iv: Bytes)
    requires 0 < |iv| < 16
    ensures Padded(iv) == iv + Zeros(16 - |iv|)
  {
  }

  // ---- the length fields ----

  lemma BeExtend(v: nat, n: nat)
    requires v < Pow256(n)
    ensures Be(v, n + 1) == [0] + Be(v, n)
  {
    if n == 0 {
      assert Be(v, 1) == Be(0, 0) + [0];
    } else {
      BeExtend(v / 256, n - 1);
    }
  }

  lemma BeExtendFour(v: nat)
    requires v < TWO32
    ensures Be(v, 8) == Zeros(4) + Be(v, 4)
  {
    hide Be;
    Pow256Four();
    BeExtend(v, 4);
    BeExtend(v, 5);
    BeExtend(v, 6);
    BeExtend(v, 7);
  }

  // The length block the code XORs in: only its first use_len bytes.
  function CodeLength(n: nat): Block {
    IvWork(n)[..UseLen(n)] + Zeros(16 - UseLen(n))
  }

  // Exactly the lengths for which it is the standard's.
  predicate Conforms(n: nat) {
    n == 12 || (n % 16 == 0 && 8 * n < TWO32)
  }

  lemma LengthsAgree(n: nat)
    requires n % 16 == 0 && 8 * n < TWO32
    ensures CodeLength(n) == IvLengthBlock(n)
  {
    hide Be;
    BeExtendFour(8 * n);
    if n == 0 {
      ZeroField();
    }
  }

  lemma ZeroField()
    ensures Be(0, 8) == Zeros(8)
  {
    BeExtendFour(0);
    assert Be(0, 4) == [0, 0, 0, 0];
  }

  lemma LowByte(n: nat)
    requires n % 16 != 0
    ensures IvLengthBlock(n)[15] != 0
  {
    hide Be;
    BitsNotByte(n);
    BeLast(8 * n, 8);
    NonzeroByte(8 * n % 256);
  }

  lemma BitsNotByte(n: nat)
    requires n % 16 != 0
    ensures 8 * n % 256 != 0
  {
  }

  lemma BeLast(v: nat, n: nat)
    requires n > 0
    ensures Be(v, n)[n - 1] == (v % 256) as byte
  {
  }

  lemma ZerosTail(x: Bytes)
    ensures (Zeros(12) + x)[8..] == Zeros(4) + x
  {
  }

  lemma LengthsDiffer(n: nat)
    requires !Conforms(n) && n != 12 && 8 * n < TWO64
    ensures CodeLength(n) != IvLengthBlock(n)
  {
    hide Be, Num;
    if n % 16 != 0 {
      LowByte(n);
      assert CodeLength(n)[15] == 0;
    } else {
      var v := 8 * n % TWO32;
      BeExtendFour(v);
      ZerosTail(Be(v, 4));
      assert CodeLength(n)[8..] == Be(v, 8);
      assert IvLengthBlock(n)[8..] == Be(8 * n, 8);
      Pow256Eight();
      NumOfBe(v, 8);
      NumOfBe(8 * n, 8);
    }
  }

  lemma Pow256Eight()
    ensures Pow256(8) == TWO64
  {
    Pow256Four();
    assert Pow256(8) == 256 * (256 * (256 * (256 * Pow256(4))));
  }

  // ---- J0 ----

  lemma CodeJ0IsHash(M: BlockFn, iv: Bytes)
    requires |iv| != 12
    ensures CodeJ0(M, iv) == M(Xor(Ghash(M, ZBLOCK, Padded(iv)), CodeLength(|iv|)))
  {
    hide Xor, XorAt, IvWork;
    IvLoopIsGhash(M, ZBLOCK, iv);
    XorAtPadded(Ghash(M, ZBLOCK, Padded(iv)), IvWork(|iv|)[..UseLen(|iv|)]);
  }

  lemma J0IsHash(M: BlockFn, iv: Bytes)
    requires |iv| != 12
    ensures J0(M, iv) == M(Xor(Ghash(M, ZBLOCK, Padded(iv)), IvLengthBlock(|iv|)))
  {
    hide Ghash, Padded, IvLengthBlock, Xor;
    GhashAppend(M, ZBLOCK, Padded(iv), IvLengthBlock(|iv|));
    GhashOne(M, Ghash(M, ZBLOCK, Padded(iv)), IvLengthBlock(|iv|));
  }

  lemma J0Conforms(M: BlockFn, iv: Bytes)
    requires Conforms(|iv|)
    ensures CodeJ0(M, iv) == J0(M, iv)
  {
    if |iv| != 12 {
      CodeJ0IsHash(M, iv);
      J0IsHash(M, iv);
      LengthsAgree(|iv|);
    }
  }

  lemma XorInjective(y: Block, a: Block, b: Block)
    requires Xor(y, a) == Xor(y, b)
    ensures a == b
  {
    forall i | 0 <= i < 16 ensures a[i] == b[i] {
      assert Xor(y, a)[i] == Xor(y, b)[i];
      XorFacts(y[i], a[i]);
      XorFacts(y[i], b[i]);
    }
  }

  // For every other length the unit hash subkey is a counterexample.
  lemma J0Deviates(iv: Bytes)
    requires !Conforms(|iv|) && 8 * |iv| < TWO64
    ensures CodeJ0(HMul(ONE), iv) != J0(HMul(ONE), iv)
  {
    hide Xor, Product, CodeLength, IvLengthBlock, Ghash, CodeJ0, J0;
    var M := HMul(ONE);
    var y := Ghash(M, ZBLOCK, Padded(iv));
    CodeJ0IsHash(M, iv);
    J0IsHash(M, iv);
    ProductOne(Xor(y, CodeLength(|iv|)));
    ProductOne(Xor(y, IvLengthBlock(|iv|)));
    LengthsDiffer(|iv|);
    if Xor(y, CodeLength(|iv|)) == Xor(y, IvLengthBlock(|iv|)) {
      XorInjective(y, CodeLength(|iv|), IvLengthBlock(|iv|));
    }
  }

  // gcm_setiv computes the standard's J0 under every hash subkey exactly for the IVs of 12 bytes
  // and of whole blocks with a bit length below 2^32.
  lemma J0Exactly(iv: Bytes)
    requires 8 * |iv| < TWO64
    ensures (forall h: Block :: CodeJ0(HMul(h), iv) == J0(HMul(h), iv)) <==> Conforms(|iv|)
  {
    if Conforms(|iv|) {
      forall h: Block ensures CodeJ0(HMul(h), iv) == J0(HMul(h), iv) {
        J0Conforms(HMul(h), iv);
      }
    } else {
      J0Deviates(iv);
    }
  }

  // 0 times H is 0, which is what lets gcm_enc_final skip the length block of the empty message.
  lemma HMulZero(h: Block)
    ensures HMul(h)(ZBLOCK) == ZBLOCK
  {
    ProductZero(h);
  }
}
