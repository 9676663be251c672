// A final without any update call before it: what lc_kernel_aead_update makes of a request without
// data, since it returns before its first call. The partial block of associated data stays open.
module GcmNoData {
  import opened Bytes
  import opened Gf128
  import opened Gf128Unit
  import opened GcmSpec
  import opened GcmStream
  import opened GcmRuns
  import opened GcmIv

  // After gcm_setiv, whatever the hash subkey.
  predicate Started(E: BlockFn, j0: Block, st: Gst) {
    && st.buf == ZBLOCK && st.aadLen == 0 && !st.rem
    && st.y == j0 && st.base == E(j0) && st.len == 0 && st.used == []
  }

  lemma SetIvStarts(E: BlockFn, M: BlockFn, st: Gst, iv: Bytes)
    ensures Started(E, CodeJ0(M, iv), SetIv(E, M, st, iv))
  {
  }

  // The tag is that of section 7.1 whenever the associated data end on a block boundary.
  lemma AlignedTag(E: BlockFn, M: BlockFn, j0: Block, aads: seq<Bytes>, st: Gst, t: nat)
    requires M(ZBLOCK) == ZBLOCK && Started(E, j0, st) && 8 <= t <= 16
    requires |Flatten(aads)| < MAX_AAD && |Flatten(aads)| % 16 == 0
    ensures Final(M, AadRun(M, st, aads), t).1 == Tag(E, M, j0, Flatten(aads), [], t)
  {
    hide Final, Tag, Absorb, Ghash;
    var A, st1 := Flatten(aads), AadRun(M, st, aads);
    AbsorbNone(M, ZBLOCK);
    AadRunOpens(E, M, j0, st, aads);
    CloseSeals(E, M, j0, A, st1);
    FinalIsTag(E, M, j0, A, CloseAad(M, st1), [], t);
  }

  // The polynomial x as a hash subkey, and associated data whose last partial block, left open, is
  // the polynomial 1.
  const HX: Block := NibbleBlock(0x40)

  function Witness(n: nat): (w: Bytes)
    requires n % 16 != 0
    ensures |w| == n
  {
    Zeros(n / 16 * 16) + ([0x80] + Zeros(n % 16 - 1))
  }

  lemma ProductX(b: Block)
    ensures Product(b, HX) == TimesX(b)
  {
    hide Product, Sum, TimesX;
    OneTimesPowers();
    ProductIsSum(b, HX);
    SumTimesX(b, 0, ONE);
    ProductIsSum(b, ONE);
    ProductOne(b);
  }

  lemma MulX(b: Block)
    ensures HMul(HX)(b) == TimesX(b)
  {
    ProductX(b);
  }

  lemma {:induction false} AbsorbZeros(M: BlockFn, k: nat)
    requires M(ZBLOCK) == ZBLOCK
    ensures Absorb(M, ZBLOCK, 0, Zeros(16 * k)) == ZBLOCK
  {
    hide Absorb;
    if k == 0 {
      AbsorbNone(M, ZBLOCK);
      assert Zeros(0) == [];
    } else {
      AbsorbZeros(M, k - 1);
      assert Zeros(16 * k) == Zeros(16 * (k - 1)) + Zeros(16);
      AbsorbAppend(M, ZBLOCK, 0, Zeros(16 * (k - 1)), Zeros(16));
      AbsorbChunk(M, ZBLOCK, 0, Zeros(16));
      XorZeros(ZBLOCK, 0, 16);
    }
  }

  lemma OneOnZeros(p: nat)
    requires 0 < p < 16
    ensures XorAt(ZBLOCK, 0, [0x80] + Zeros(p - 1)) == ONE
  {
    XorFacts(0x80, 0);
    XorFacts(0, 0);
  }

  // The two hash values before the length block: left open, and closed as the standard wants it.
  lemma WitnessHashes(n: nat)
    requires n % 16 != 0
    ensures Absorb(HMul(HX), ZBLOCK, 0, Witness(n)) == ONE
    ensures Ghash(HMul(HX), ZBLOCK, Padded(Witness(n))) == HX
  {
    hide Absorb, Ghash, Padded, XorAt, HMul, TimesX, Zeros;
    var M, k, p := HMul(HX), n / 16, n % 16;
    HMulZero(HX);
    AbsorbZeros(M, k);
    AbsorbAppend(M, ZBLOCK, 0, Zeros(16 * k), [0x80] + Zeros(p - 1));
    AbsorbChunk(M, ZBLOCK, 0, [0x80] + Zeros(p - 1));
    OneOnZeros(p);
    ClosedIsPadded(M, ZBLOCK, Witness(n));
    MulX(ONE);
    OneTimesPowers();
  }

  lemma FirstByte(v: Block)
    requires v[15] == 0
    ensures TimesX(v)[0] == v[0] >> 1
  {
  }

  lemma FirstBits(l: byte, e: byte)
    ensures e ^ ((0x80 ^ l) >> 1) != e ^ ((0x40 ^ l) >> 1)
  {
  }

  lemma LengthEnds(n: nat)
    ensures LengthBlock(n, 0)[15] == 0
  {
    BeZero(8);
  }

  // The first bytes of the two hashes with the length block.
  lemma HashesDiffer(n: nat)
    ensures var L := LengthBlock(n, 0);
            && HMul(HX)(Xor(ONE, L))[0] == (0x80 ^ L[0]) >> 1
            && HMul(HX)(Xor(HX, L))[0] == (0x40 ^ L[0]) >> 1
  {
    hide LengthBlock, HMul, TimesX;
    LengthEnds(n);
    var u, v := Xor(ONE, LengthBlock(n, 0)), Xor(HX, LengthBlock(n, 0));
    MulX(u);
    MulX(v);
    FirstByte(u);
    FirstByte(v);
  }

  lemma XorFirst(a: Block, b: Block, t: nat)
    requires 0 < t <= 16
    ensures Xor(a[..t], b[..t])[0] == a[0] ^ b[0]
  {
  }

  // For every length that is no multiple of the block size it is not, for any cipher and tag length.
  lemma OpenTagDeviates(E: BlockFn, j0: Block, st: Gst, n: nat, t: nat)
    requires Started(E, j0, st) && 8 <= t <= 16 && n < MAX_AAD && n % 16 != 0
    ensures Final(HMul(HX), AadRun(HMul(HX), st, [Witness(n)]), t).1 != Tag(E, HMul(HX), j0, Witness(n), [], t)
  {
    hide Product, Absorb, Ghash, LengthBlock, Tag, HMul, TimesX, S, Xor, WorkBlock, Witness;
    var M, L := HMul(HX), LengthBlock(n, 0);
    var W := Witness(n);
    FlattenOne(W);
    AbsorbNone(M, ZBLOCK);
    AadRunOpens(E, M, j0, st, [W]);
    var st1 := AadRun(M, st, [W]);
    WorkIsLengthBlock(st1);
    WitnessHashes(n);
    TagIsXor(E, M, j0, W, [], t);
    HashOfLengths(M, W, []);
    GhashNone(M, HX);
    HashesDiffer(n);
    XorFirst(E(j0), M(Xor(ONE, L)), t);
    XorFirst(E(j0), M(Xor(HX, L)), t);
    FirstBits(L[0], E(j0)[0]);
  }

  // Without an update call the tag is the standard's for all hash subkeys and all associated data of
  // a length, however they are cut, exactly if the length is a multiple of the block size.
  lemma NoUpdateExactly(E: BlockFn, j0: Block, st: Gst, n: nat, t: nat)
    requires Started(E, j0, st) && 8 <= t <= 16 && n < MAX_AAD
    ensures (forall h: Block, aads: seq<Bytes> | |Flatten(aads)| == n ::
               Final(HMul(h), AadRun(HMul(h), st, aads), t).1 == Tag(E, HMul(h), j0, Flatten(aads), [], t))
       <==> n % 16 == 0
  {
    hide Final, Tag, AadRun, HMul, Flatten;
    if n % 16 == 0 {
      forall h: Block, aads: seq<Bytes> | |Flatten(aads)| == n
        ensures Final(HMul(h), AadRun(HMul(h), st, aads), t).1 == Tag(E, HMul(h), j0, Flatten(aads), [], t)
      {
        HMulZero(h);
        AlignedTag(E, HMul(h), j0, aads, st, t);
      }
    } else {
      OpenTagDeviates(E, j0, st, n, t);
      FlattenOne(Witness(n));
    }
  }
}
