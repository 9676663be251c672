// The 64-bit word arithmetic of aead/src/gcm.c, tied to GF(2^128) on blocks: a pair of words
// (high, low) stands for the block of their big-endian bytes.
module GcmWords {
  import opened Bytes
  import opened Gf128

  type word = bv64

  // The reduction table: LAST4[r] << 48 is what shifting the four low bits r out adds back.
  const LAST4: seq<word> := [
    0x0000, 0x1c20, 0x3840, 0x2460, 0x7080, 0x6ca0, 0x48c0, 0x54e0,
    0xe100, 0xfd20, 0xd940, 0xc560, 0x9180, 0x8da0, 0xa9c0, 0xb5e0
  ]

  // Byte k of a word, the most significant one first.
  function Octet(w: word, k: nat): byte
    requires k < 8
  {
    if k == 0 then ((w >> 56) & 0xff) as byte else if k == 1 then ((w >> 48) & 0xff) as byte
    else if k == 2 then ((w >> 40) & 0xff) as byte else if k == 3 then ((w >> 32) & 0xff) as byte
    else if k == 4 then ((w >> 24) & 0xff) as byte else if k == 5 then ((w >> 16) & 0xff) as byte
    else if k == 6 then ((w >> 8) & 0xff) as byte else (w & 0xff) as byte
  }

  // be64_to_ptr
  function BeBytes(w: word): (b: Bytes)
    ensures |b| == 8 && forall k :: 0 <= k < 8 ==> b[k] == Octet(w, k)
  {
    seq(8, k requires 0 <= k < 8 => Octet(w, k))
  }

  // ptr_to_be64
  function PtrToBe64(p: Bytes): word
    requires |p| == 8
  {
    (p[0] as word << 56) | (p[1] as word << 48) | (p[2] as word << 40) | (p[3] as word << 32) |
    (p[4] as word << 24) | (p[5] as word << 16) | (p[6] as word << 8) | (p[7] as word)
  }

  function XorWords(a: word, b: word): word {
    a ^ b
  }

  function Words(hi: word, lo: word): Block {
    BeBytes(hi) + BeBytes(lo)
  }

  lemma OctetOfPtr(p: Bytes, k: nat)
    requires |p| == 8 && k < 8
    ensures Octet(PtrToBe64(p), k) == p[k]
  {
  }

  lemma WordsOfBlock(b: Block)
    ensures Words(PtrToBe64(b[..8]), PtrToBe64(b[8..])) == b
  {
    hide Octet, PtrToBe64;
    forall k | 0 <= k < 8
      ensures Octet(PtrToBe64(b[..8]), k) == b[k] && Octet(PtrToBe64(b[8..]), k) == b[k + 8]
    {
      OctetOfPtr(b[..8], k);
      OctetOfPtr(b[8..], k);
    }
  }

  // The lemmas below spell out all eight octets: the solver wants these word equations without a
  // symbolic index.
  lemma OctetXor(a: word, b: word)
    ensures Octet(a ^ b, 0) == Octet(a, 0) ^ Octet(b, 0)
    ensures Octet(a ^ b, 1) == Octet(a, 1) ^ Octet(b, 1)
    ensures Octet(a ^ b, 2) == Octet(a, 2) ^ Octet(b, 2)
    ensures Octet(a ^ b, 3) == Octet(a, 3) ^ Octet(b, 3)
    ensures Octet(a ^ b, 4) == Octet(a, 4) ^ Octet(b, 4)
    ensures Octet(a ^ b, 5) == Octet(a, 5) ^ Octet(b, 5)
    ensures Octet(a ^ b, 6) == Octet(a, 6) ^ Octet(b, 6)
    ensures Octet(a ^ b, 7) == Octet(a, 7) ^ Octet(b, 7)
  {
  }

  lemma OctetXorAt(a: word, b: word, k: nat)
    requires k < 8
    ensures Octet(a ^ b, k) == Octet(a, k) ^ Octet(b, k)
  {
    hide Octet;
    OctetXor(a, b);
    assert k == 0 || k == 1 || k == 2 || k == 3 || k == 4 || k == 5 || k == 6 || k == 7;
  }

  lemma XorWordsAt(a: word, b: word, k: nat)
    requires k < 8
    ensures Octet(XorWords(a, b), k) == Octet(a, k) ^ Octet(b, k)
  {
    hide Octet;
    OctetXorAt(a, b, k);
  }

  lemma WordsXor(a: word, b: word, c: word, d: word)
    ensures Words(XorWords(a, c), XorWords(b, d)) == Add(Words(a, b), Words(c, d))
  {
    hide Octet, XorWords;
    forall k | 0 <= k < 8
      ensures Octet(XorWords(a, c), k) == Octet(a, k) ^ Octet(c, k)
      ensures Octet(XorWords(b, d), k) == Octet(b, k) ^ Octet(d, k)
    {
      XorWordsAt(a, c, k);
      XorWordsAt(b, d, k);
    }
  }

  // ---- one step of the halving loop of gcm_setkey ----

  function HalveHigh(h0: word, h1: word): word {
    var T: bv32 := ((h1 & 1) as bv32) * 0xe1000000;
    (h0 >> 1) ^ ((T as word) << 32)
  }

  function HalveLow(h0: word, h1: word): word {
    (h0 << 63) | (h1 >> 1)
  }

  lemma HalveLowOctets(h0: word, h1: word)
    ensures Octet(HalveLow(h0, h1), 0) == (Octet(h1, 0) >> 1) ^ (Octet(h0, 7) << 7)
    ensures Octet(HalveLow(h0, h1), 1) == (Octet(h1, 1) >> 1) ^ (Octet(h1, 0) << 7)
    ensures Octet(HalveLow(h0, h1), 2) == (Octet(h1, 2) >> 1) ^ (Octet(h1, 1) << 7)
    ensures Octet(HalveLow(h0, h1), 3) == (Octet(h1, 3) >> 1) ^ (Octet(h1, 2) << 7)
    ensures Octet(HalveLow(h0, h1), 4) == (Octet(h1, 4) >> 1) ^ (Octet(h1, 3) << 7)
    ensures Octet(HalveLow(h0, h1), 5) == (Octet(h1, 5) >> 1) ^ (Octet(h1, 4) << 7)
    ensures Octet(HalveLow(h0, h1), 6) == (Octet(h1, 6) >> 1) ^ (Octet(h1, 5) << 7)
    ensures Octet(HalveLow(h0, h1), 7) == (Octet(h1, 7) >> 1) ^ (Octet(h1, 6) << 7)
  {
  }

  lemma HalveHighIs(h0: word, h1: word)
    ensures h1 & 1 == 0 ==> HalveHigh(h0, h1) == h0 >> 1
    ensures h1 & 1 == 1 ==> HalveHigh(h0, h1) == (h0 >> 1) ^ 0xe100000000000000
  {
  }

  lemma ShiftOctets(w: word)
    ensures Octet(w >> 1, 0) == Octet(w, 0) >> 1
    ensures Octet(w >> 1, 1) == (Octet(w, 1) >> 1) ^ (Octet(w, 0) << 7)
    ensures Octet(w >> 1, 2) == (Octet(w, 2) >> 1) ^ (Octet(w, 1) << 7)
    ensures Octet(w >> 1, 3) == (Octet(w, 3) >> 1) ^ (Octet(w, 2) << 7)
    ensures Octet(w >> 1, 4) == (Octet(w, 4) >> 1) ^ (Octet(w, 3) << 7)
    ensures Octet(w >> 1, 5) == (Octet(w, 5) >> 1) ^ (Octet(w, 4) << 7)
    ensures Octet(w >> 1, 6) == (Octet(w, 6) >> 1) ^ (Octet(w, 5) << 7)
    ensures Octet(w >> 1, 7) == (Octet(w, 7) >> 1) ^ (Octet(w, 6) << 7)
  {
  }

  lemma ReducedShiftOctets(w: word)
    ensures Octet((w >> 1) ^ 0xe100000000000000, 0) == (Octet(w, 0) >> 1) ^ 0xE1
    ensures Octet((w >> 1) ^ 0xe100000000000000, 1) == (Octet(w, 1) >> 1) ^ (Octet(w, 0) << 7)
    ensures Octet((w >> 1) ^ 0xe100000000000000, 2) == (Octet(w, 2) >> 1) ^ (Octet(w, 1) << 7)
    ensures Octet((w >> 1) ^ 0xe100000000000000, 3) == (Octet(w, 3) >> 1) ^ (Octet(w, 2) << 7)
    ensures Octet((w >> 1) ^ 0xe100000000000000, 4) == (Octet(w, 4) >> 1) ^ (Octet(w, 3) << 7)
    ensures Octet((w >> 1) ^ 0xe100000000000000, 5) == (Octet(w, 5) >> 1) ^ (Octet(w, 4) << 7)
    ensures Octet((w >> 1) ^ 0xe100000000000000, 6) == (Octet(w, 6) >> 1) ^ (Octet(w, 5) << 7)
    ensures Octet((w >> 1) ^ 0xe100000000000000, 7) == (Octet(w, 7) >> 1) ^ (Octet(w, 6) << 7)
  {
  }

  lemma LowBit(w: word)
    ensures (w & 1 == 0 && Octet(w, 7) & 1 == 0) || (w & 1 == 1 && Octet(w, 7) & 1 == 1)
  {
  }

  lemma HalveLowAt(h0: word, h1: word, k: nat)
    requires k < 8
    ensures Octet(HalveLow(h0, h1), k) == (Octet(h1, k) >> 1) ^ ((if k == 0 then Octet(h0, 7) else Octet(h1, k - 1)) << 7)
  {
    hide Octet, HalveLow;
    HalveLowOctets(h0, h1);
    assert k == 0 || k == 1 || k == 2 || k == 3 || k == 4 || k == 5 || k == 6 || k == 7;
  }

  lemma HalveHighAt(h0: word, h1: word, k: nat)
    requires k < 8
    ensures Octet(HalveHigh(h0, h1), k) ==
            (Octet(h0, k) >> 1) ^ (if k > 0 then Octet(h0, k - 1) << 7 else if Octet(h1, 7) & 1 == 0 then 0 else 0xE1)
  {
    hide Octet, HalveHigh;
    HalveHighIs(h0, h1);
    LowBit(h1);
    XorFacts(Octet(h0, 0) >> 1, 0);
    if h1 & 1 == 0 {
      ShiftOctets(h0);
    } else {
      ReducedShiftOctets(h0);
    }
    assert k == 0 || k == 1 || k == 2 || k == 3 || k == 4 || k == 5 || k == 6 || k == 7;
  }

  lemma HalveByte(h0: word, h1: word, i: nat)
    requires i < 16
    ensures Words(HalveHigh(h0, h1), HalveLow(h0, h1))[i] == ShiftedByte(Words(h0, h1), i)
  {
    hide Octet, HalveHigh, HalveLow;
    if i < 8 {
      HalveHighAt(h0, h1, i);
    } else {
      HalveLowAt(h0, h1, i - 8);
    }
  }

  lemma HalveIsTimesX(h0: word, h1: word)
    ensures Words(HalveHigh(h0, h1), HalveLow(h0, h1)) == TimesX(Words(h0, h1))
  {
    hide Words, HalveHigh, HalveLow, ShiftedByte;
    forall i | 0 <= i < 16
      ensures Words(HalveHigh(h0, h1), HalveLow(h0, h1))[i] == TimesX(Words(h0, h1))[i]
    {
      HalveByte(h0, h1, i);
    }
  }

  // ---- one step of gcm_mult ----

  function Last4(rem: byte): word
    requires rem < 16
  {
    LAST4[rem as int] << 48
  }

  function Rem(zl: word): (r: byte)
    ensures r < 16
  {
    (zl & 0x0f) as byte
  }

  function ShiftFour(w: word): word {
    w >> 4
  }

  function NibbleHigh(zh: word, zl: word): word {
    XorWords(ShiftFour(zh), Last4(Rem(zl)))
  }

  function NibbleLow(zh: word, zl: word): word {
    (zh << 60) | (zl >> 4)
  }

  lemma NibbleLowOctets(zh: word, zl: word)
    ensures Octet(NibbleLow(zh, zl), 0) == (Octet(zl, 0) >> 4) ^ (Octet(zh, 7) << 4)
    ensures Octet(NibbleLow(zh, zl), 1) == (Octet(zl, 1) >> 4) ^ (Octet(zl, 0) << 4)
    ensures Octet(NibbleLow(zh, zl), 2) == (Octet(zl, 2) >> 4) ^ (Octet(zl, 1) << 4)
    ensures Octet(NibbleLow(zh, zl), 3) == (Octet(zl, 3) >> 4) ^ (Octet(zl, 2) << 4)
    ensures Octet(NibbleLow(zh, zl), 4) == (Octet(zl, 4) >> 4) ^ (Octet(zl, 3) << 4)
    ensures Octet(NibbleLow(zh, zl), 5) == (Octet(zl, 5) >> 4) ^ (Octet(zl, 4) << 4)
    ensures Octet(NibbleLow(zh, zl), 6) == (Octet(zl, 6) >> 4) ^ (Octet(zl, 5) << 4)
    ensures Octet(NibbleLow(zh, zl), 7) == (Octet(zl, 7) >> 4) ^ (Octet(zl, 6) << 4)
  {
  }

  lemma ShiftFourOctets(w: word)
    ensures Octet(ShiftFour(w), 0) == Octet(w, 0) >> 4
    ensures Octet(ShiftFour(w), 1) == (Octet(w, 1) >> 4) ^ (Octet(w, 0) << 4)
    ensures Octet(ShiftFour(w), 2) == (Octet(w, 2) >> 4) ^ (Octet(w, 1) << 4)
    ensures Octet(ShiftFour(w), 3) == (Octet(w, 3) >> 4) ^ (Octet(w, 2) << 4)
    ensures Octet(ShiftFour(w), 4) == (Octet(w, 4) >> 4) ^ (Octet(w, 3) << 4)
    ensures Octet(ShiftFour(w), 5) == (Octet(w, 5) >> 4) ^ (Octet(w, 4) << 4)
    ensures Octet(ShiftFour(w), 6) == (Octet(w, 6) >> 4) ^ (Octet(w, 5) << 4)
    ensures Octet(ShiftFour(w), 7) == (Octet(w, 7) >> 4) ^ (Octet(w, 6) << 4)
  {
  }

  // What the low nibble r adds back to the top two bytes.
  function Fold0(r: byte): byte {
    (if r & 8 == 0 then 0 else 0xE1) ^ (if r & 4 == 0 then 0 else 0x70) ^ (if r & 2 == 0 then 0 else 0x38) ^
    (if r & 1 == 0 then 0 else 0x1C)
  }

  function Fold1(r: byte): byte {
    (if r & 4 == 0 then 0 else 0x80) ^ (if r & 2 == 0 then 0 else 0x40) ^ (if r & 1 == 0 then 0 else 0x20)
  }

  lemma Last4Octets(r: byte)
    requires r < 16
    ensures Octet(Last4(r), 0) == Fold0(r) && Octet(Last4(r), 1) == Fold1(r)
    ensures Octet(Last4(r), 2) == 0
    ensures Octet(Last4(r), 3) == 0
    ensures Octet(Last4(r), 4) == 0
    ensures Octet(Last4(r), 5) == 0
    ensures Octet(Last4(r), 6) == 0
    ensures Octet(Last4(r), 7) == 0
  {
  }

  // What byte i of x^4 times v is.
  function FourByte(v: Block, i: nat): byte
    requires i < 16
  {
    if i == 0 then (v[0] >> 4) ^ Fold0(v[15] & 15)
    else if i == 1 then (v[1] >> 4) ^ (v[0] << 4) ^ Fold1(v[15] & 15)
    else (v[i] >> 4) ^ (v[i - 1] << 4)
  }

  lemma FourShifts(a: byte, b: byte, c0: byte, c1: byte, c2: byte)
    ensures
      var a1, b1 := (a >> 1) ^ (b << 7), (b >> 1) ^ (c0 << 7);
      var a2, b2 := (a1 >> 1) ^ (b1 << 7), (b1 >> 1) ^ (c1 << 7);
      var a3, b3 := (a2 >> 1) ^ (b2 << 7), (b2 >> 1) ^ (c2 << 7);
      (a3 >> 1) ^ (b3 << 7) == (a >> 4) ^ (b << 4)
  {
  }

  // The same at the top, where the four low bits of the last byte l decide the reductions; m0, m1
  // and m2 are what moves into that byte.
  function Red(l: byte): byte {
    if l & 1 == 0 then 0 else 0xE1
  }

  lemma FourShiftsTop(a: byte, b: byte, l: byte, m0: byte, m1: byte, m2: byte)
    ensures
      var l1 := (l >> 1) ^ (m0 << 7);
      var l2 := (l1 >> 1) ^ (m1 << 7);
      var l3 := (l2 >> 1) ^ (m2 << 7);
      var b1 := (b >> 1) ^ Red(l);
      var b2 := (b1 >> 1) ^ Red(l1);
      var b3 := (b2 >> 1) ^ Red(l2);
      (b3 >> 1) ^ Red(l3) == (b >> 4) ^ Fold0(l & 15)
  {
  }

  lemma FourShiftsSecond(a: byte, b: byte, l: byte, m0: byte, m1: byte)
    ensures
      var l1 := (l >> 1) ^ (m0 << 7);
      var l2 := (l1 >> 1) ^ (m1 << 7);
      var a1, b1 := (a >> 1) ^ (b << 7), (b >> 1) ^ Red(l);
      var a2, b2 := (a1 >> 1) ^ (b1 << 7), (b1 >> 1) ^ Red(l1);
      var a3, b3 := (a2 >> 1) ^ (b2 << 7), (b2 >> 1) ^ Red(l2);
      (a3 >> 1) ^ (b3 << 7) == (a >> 4) ^ (b << 4) ^ Fold1(l & 15)
  {
  }

  lemma TimesX4Top(v: Block)
    ensures TimesX4(v)[0] == FourByte(v, 0)
  {
    hide Fold0, Fold1;
    var v1 := TimesX(v);
    var v2 := TimesX(v1);
    FourShiftsTop(v[0], v[0], v[15], v[14], v1[14], v2[14]);
  }

  lemma TimesX4Second(v: Block)
    ensures TimesX4(v)[1] == FourByte(v, 1)
  {
    hide Fold0, Fold1;
    FourShiftsSecond(v[1], v[0], v[15], v[14], TimesX(v)[14]);
  }

  lemma TimesX4Byte(v: Block, i: nat)
    requires i < 16
    ensures TimesX4(v)[i] == FourByte(v, i)
  {
    hide Fold0, Fold1;
    if i == 0 {
      TimesX4Top(v);
    } else if i == 1 {
      TimesX4Second(v);
    } else {
      var v1 := TimesX(v);
      FourShifts(v[i], v[i - 1], v[i - 2], v1[i - 2], TimesX(v1)[i - 2]);
    }
  }

  lemma RemIsLowNibble(w: word)
    ensures Rem(w) == Octet(w, 7) & 15
  {
  }

  function FoldByte(r: byte, k: nat): byte {
    if k == 0 then Fold0(r) else if k == 1 then Fold1(r) else 0
  }

  lemma Last4At(r: byte, k: nat)
    requires r < 16 && k < 8
    ensures Octet(Last4(r), k) == FoldByte(r, k)
  {
    hide Octet, Fold0, Fold1;
    Last4Octets(r);
    assert k == 0 || k == 1 || k == 2 || k == 3 || k == 4 || k == 5 || k == 6 || k == 7;
  }

  lemma ShiftFourAt(w: word, k: nat)
    requires k < 8
    ensures Octet(ShiftFour(w), k) == if k == 0 then Octet(w, 0) >> 4 else (Octet(w, k) >> 4) ^ (Octet(w, k - 1) << 4)
  {
    hide Octet;
    ShiftFourOctets(w);
    assert k == 0 || k == 1 || k == 2 || k == 3 || k == 4 || k == 5 || k == 6 || k == 7;
  }

  lemma NibbleLowAt(zh: word, zl: word, k: nat)
    requires k < 8
    ensures Octet(NibbleLow(zh, zl), k) ==
            (Octet(zl, k) >> 4) ^ ((if k == 0 then Octet(zh, 7) else Octet(zl, k - 1)) << 4)
  {
    hide Octet, NibbleLow;
    NibbleLowOctets(zh, zl);
    assert k == 0 || k == 1 || k == 2 || k == 3 || k == 4 || k == 5 || k == 6 || k == 7;
  }

  lemma NibbleHighAt(zh: word, zl: word, k: nat)
    requires k < 8
    ensures Octet(NibbleHigh(zh, zl), k) == Octet(ShiftFour(zh), k) ^ FoldByte(Octet(zl, 7) & 15, k)
  {
    hide Octet, FoldByte, Last4, Rem, ShiftFour, XorWords;
    XorWordsAt(ShiftFour(zh), Last4(Rem(zl)), k);
    Last4At(Rem(zl), k);
    RemIsLowNibble(zl);
  }

  lemma FourByteTop(zh: word, zl: word)
    ensures FourByte(Words(zh, zl), 0) == (Octet(zh, 0) >> 4) ^ Fold0(Octet(zl, 7) & 15)
  {
    hide Octet, Fold0, Fold1;
  }

  lemma FourByteSecond(zh: word, zl: word)
    ensures FourByte(Words(zh, zl), 1) == (Octet(zh, 1) >> 4) ^ (Octet(zh, 0) << 4) ^ Fold1(Octet(zl, 7) & 15)
  {
    hide Octet, Fold0, Fold1;
  }

  lemma FourByteHigh(zh: word, zl: word, k: nat)
    requires 2 <= k < 8
    ensures FourByte(Words(zh, zl), k) == (Octet(zh, k) >> 4) ^ (Octet(zh, k - 1) << 4) ^ 0
  {
    hide Octet, Fold0, Fold1;
    XorFacts((Octet(zh, k) >> 4) ^ (Octet(zh, k - 1) << 4), 0);
  }

  lemma FourByteOfWords(zh: word, zl: word, k: nat)
    requires k < 8
    ensures FourByte(Words(zh, zl), k) == Octet(ShiftFour(zh), k) ^ FoldByte(Octet(zl, 7) & 15, k)
  {
    hide Octet, Fold0, Fold1, ShiftFour, Words, FourByte;
    ShiftFourAt(zh, k);
    if k == 0 {
      FourByteTop(zh, zl);
    } else if k == 1 {
      FourByteSecond(zh, zl);
    } else {
      FourByteHigh(zh, zl, k);
    }
  }

  lemma NibbleHighByte(zh: word, zl: word, k: nat)
    requires k < 8
    ensures Octet(NibbleHigh(zh, zl), k) == FourByte(Words(zh, zl), k)
  {
    hide Octet, FoldByte, NibbleHigh, FourByte, ShiftFour, Words;
    NibbleHighAt(zh, zl, k);
    FourByteOfWords(zh, zl, k);
  }

  lemma NibbleLowByte(zh: word, zl: word, i: nat)
    requires 8 <= i < 16
    ensures Octet(NibbleLow(zh, zl), i - 8) == FourByte(Words(zh, zl), i)
  {
    hide Octet, NibbleLow, Fold0, Fold1;
    NibbleLowAt(zh, zl, i - 8);
  }

  lemma NibbleIsTimesX4(zh: word, zl: word)
    ensures Words(NibbleHigh(zh, zl), NibbleLow(zh, zl)) == TimesX4(Words(zh, zl))
  {
    hide Octet, NibbleHigh, NibbleLow, FourByte, TimesX4;
    forall i | 0 <= i < 16
      ensures Words(NibbleHigh(zh, zl), NibbleLow(zh, zl))[i] == TimesX4(Words(zh, zl))[i]
    {
      TimesX4Byte(Words(zh, zl), i);
      if i < 8 {
        NibbleHighByte(zh, zl, i);
      } else {
        NibbleLowByte(zh, zl, i);
      }
    }
  }
}
