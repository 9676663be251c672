// Which initialization vectors gcm_setiv does not tell apart from themselves with a zero byte behind
// them: the length block that should do so is XORed in truncated.
module GcmIvPairs {
  import opened Bytes
  import opened Endian
  import opened Octet
  import opened Gf128
  import opened Gf128Unit
  import opened GcmSpec
  import opened GcmStream
  import opened GcmIv
  import opened GcmNoData

  // The lengths for which both get one pre-counter block: none, or an open last piece whose longer
  // version XORs in a zero byte of the length, if one at all. 12 bytes are the native length.
  predicate Collides(n: nat) {
    var u := n % 16;
    n == 0 || (n != 11 && n != 12 && 0 < u < 15 && (u < 12 || 8 * (n + 1) / Pow256(15 - u) % 256 == 0))
  }

  // ---- the length bytes ----

  lemma FourBytes(w: nat)
    requires w < TWO32
    ensures Be(w, 4) == [(w / 0x100_0000 % 256) as byte, (w / 0x1_0000 % 256) as byte,
                         (w / 0x100 % 256) as byte, (w % 256) as byte]
  {
    Quotients(w);
    assert Be(w / 256 / 256 / 256 / 256, 0) == [];
    assert Be(w / 256 / 256 / 256, 1) == [(w / 256 / 256 / 256 % 256) as byte];
    assert Be(w / 256 / 256, 2) == [(w / 256 / 256 / 256 % 256) as byte, (w / 256 / 256 % 256) as byte];
  }

  lemma Quotients(w: nat)
    requires w < TWO32
    ensures w / 256 / 256 == w / 0x1_0000 && w / 256 / 256 / 256 == w / 0x100_0000 == w / 0x100_0000 % 256
  {
  }

  lemma BytesEqual(a: nat, b: nat)
    requires a < 256 && b < 256
    ensures a as byte == b as byte <==> a == b
  {
    ByteOfNat(a);
    ByteOfNat(b);
  }

  // What of the code's length block is seen at byte i.
  lemma LengthAt(n: nat, i: nat)
    requires i < 16
    ensures CodeLength(n)[i] == if i < UseLen(n) then IvWork(n)[i] else 0
  {
  }

  lemma PowersOf256()
    ensures Pow256(0) == 1 && Pow256(1) == 256 && Pow256(2) == 0x1_0000 && Pow256(3) == 0x100_0000
  {
  }

  lemma HighBits(q: nat, v: nat)
    requires v < TWO32
    ensures (q * TWO32 + v) % TWO32 == v
    ensures (q * TWO32 + v) / 0x100_0000 % 256 == v / 0x100_0000 && (q * TWO32 + v) / 0x1_0000 % 256 == v / 0x1_0000 % 256
    ensures (q * TWO32 + v) / 0x100 % 256 == v / 0x100 % 256
  {
    assert (q * TWO32 + v) / 0x100_0000 == q * 256 + v / 0x100_0000;
    assert (q * TWO32 + v) / 0x1_0000 == q * 0x1_0000 + v / 0x1_0000;
    assert (q * TWO32 + v) / 0x100 == q * 0x100_0000 + v / 0x100;
  }

  // The 32-bit length of n bytes, and of one more.
  lemma NextLength(n: nat)
    ensures var w, v := 8 * n % TWO32, 8 * (n + 1) % TWO32;
            && w % 128 == 8 * (n % 16)
            && v == (if w + 8 == TWO32 then 0 else w + 8) && w + 8 <= TWO32
  {
    var q, w := 8 * n / TWO32, 8 * n % TWO32;
    assert 8 * n == q * TWO32 + w;
    Mod128(q, w, n);
    if w + 8 == TWO32 {
      assert 8 * (n + 1) == (q + 1) * TWO32;
    } else {
      assert 8 * (n + 1) == q * TWO32 + (w + 8);
      HighBits(q, w + 8);
    }
  }

  lemma Mod128(q: nat, w: nat, n: nat)
    requires 8 * n == q * TWO32 + w && w < TWO32
    ensures w % 128 == 8 * (n % 16) && w + 8 <= TWO32
  {
    assert 8 * n == 128 * (n / 16) + 8 * (n % 16);
    assert w == 128 * (n / 16 - q * 0x200_0000) + 8 * (n % 16);
  }

  // Eight more bits do not carry into the bytes above a zero byte, unless the piece becomes full.
  lemma NoCarry(w: nat, m: nat)
    requires 12 <= w % 128 / 8 < 15 && (m == 0x1_0000 || m == 0x100) && (w + 8) / m % 256 == 0
    ensures w / (256 * m) == (w + 8) / (256 * m)
  {
    if m == 0x1_0000 {
      NoCarryHigh(w, (w + 8) / 0x100_0000, (w + 8) % 0x100_0000);
    } else {
      NoCarryLow(w, (w + 8) / 0x1_0000, (w + 8) % 0x1_0000);
    }
  }

  lemma NoCarryHigh(w: nat, a: nat, r: nat)
    requires w % 128 < 120 && w + 8 == 0x100_0000 * a + r && r < 0x100_0000 && (w + 8) / 0x1_0000 % 256 == 0
    ensures w / 0x100_0000 == a && (w + 8) / 0x100_0000 == a
  {
    assert w + 8 == 128 * (0x2_0000 * a) + r;
    assert r >= 8;
  }

  lemma NoCarryLow(w: nat, a: nat, r: nat)
    requires w % 128 < 120 && w + 8 == 0x1_0000 * a + r && r < 0x1_0000 && (w + 8) / 0x100 % 256 == 0
    ensures w / 0x1_0000 == a && (w + 8) / 0x1_0000 == a
  {
    assert w + 8 == 128 * (0x200 * a) + r;
    assert r >= 8;
  }

  // With the piece becoming full they do.
  lemma Carry(w: nat)
    requires (w + 8) % 256 == 0 && w + 8 <= TWO32
    ensures w / 0x100 % 256 == ((w + 8) / 0x100 + 255) % 256
  {
    assert w == 0x100 * ((w + 8) / 0x100 - 1) + 248;
  }

  lemma UpperBytes(w: nat, v: nat)
    requires w / 0x1_0000 == v / 0x1_0000
    ensures w / 0x100_0000 == v / 0x100_0000
  {
    assert w / 0x1_0000 / 256 == w / 0x100_0000 && v / 0x1_0000 / 256 == v / 0x100_0000;
  }

  lemma OpenPiece(n: nat)
    requires 0 < n % 16
    ensures UseLen(n) == n % 16 && UseLen(n + 1) == n % 16 + 1
  {
  }

  lemma SameHighBits(n: nat)
    ensures var v := 8 * (n + 1) % TWO32;
            && 8 * (n + 1) / 0x100_0000 % 256 == v / 0x100_0000 && 8 * (n + 1) / 0x1_0000 % 256 == v / 0x1_0000 % 256
            && 8 * (n + 1) / 0x100 % 256 == v / 0x100 % 256
  {
    HighBits(8 * (n + 1) / TWO32, 8 * (n + 1) % TWO32);
  }

  // Byte k of the 32-bit length.
  function LengthByte(n: nat, k: nat): (b: nat)
    requires k < 4
    ensures b < 256
  {
    var w := 8 * n % TWO32;
    if k == 0 then w / 0x100_0000 % 256
    else if k == 1 then w / 0x1_0000 % 256
    else if k == 2 then w / 0x100 % 256
    else w % 256
  }

  function FieldByte(n: nat, k: nat): byte
    requires k < 4
  {
    LengthByte(n, k) as byte
  }

  lemma WorkBytes(n: nat)
    ensures IvWork(n) == Zeros(12) + [FieldByte(n, 0), FieldByte(n, 1), FieldByte(n, 2), FieldByte(n, 3)]
  {
    hide Be;
    FourBytes(8 * n % TWO32);
  }

  lemma WorkByte(n: nat, i: nat)
    requires i < 16
    ensures IvWork(n)[i] == if i < 12 then 0 else FieldByte(n, i - 12)
  {
    hide IvWork, FieldByte;
    WorkBytes(n);
    if 12 <= i {
      assert i == 12 || i == 13 || i == 14 || i == 15;
    }
  }

  // Of two lengths that differ by one, the bytes XORed in: equal ones, and then a zero byte.
  predicate SameBytes(n: nat) {
    && (forall k :: 0 <= k < 4 && 12 + k < n % 16 ==> LengthByte(n, k) == LengthByte(n + 1, k))
    && (12 <= n % 16 ==> LengthByte(n + 1, n % 16 - 12) == 0)
  }

  lemma CodeByte(n: nat, i: nat)
    requires 0 < n % 16 && i < 16
    ensures CodeLength(n)[i] == if 12 <= i < n % 16 then FieldByte(n, i - 12) else 0
    ensures CodeLength(n + 1)[i] == if 12 <= i <= n % 16 then FieldByte(n + 1, i - 12) else 0
  {
    hide IvWork, CodeLength, UseLen, FieldByte;
    OpenPiece(n);
    LengthAt(n, i);
    LengthAt(n + 1, i);
    WorkByte(n, i);
    WorkByte(n + 1, i);
  }

  // At byte i the two agree exactly if the length bytes do.
  lemma CodeByteAgrees(n: nat, i: nat)
    requires 0 < n % 16 && i < 16
    ensures CodeLength(n)[i] == CodeLength(n + 1)[i] <==>
            if i < 12 || n % 16 < i then true
            else if i == n % 16 then LengthByte(n + 1, i - 12) == 0
            else LengthByte(n, i - 12) == LengthByte(n + 1, i - 12)
  {
    hide CodeLength, LengthByte;
    CodeByte(n, i);
    if 12 <= i {
      BytesEqual(LengthByte(n, i - 12), LengthByte(n + 1, i - 12));
      BytesEqual(LengthByte(n + 1, i - 12), 0);
    }
  }

  lemma LengthsByBytes(n: nat)
    requires 0 < n % 16
    ensures CodeLength(n) == CodeLength(n + 1) <==> SameBytes(n)
  {
    hide CodeLength, LengthByte;
    if CodeLength(n) == CodeLength(n + 1) {
      forall k | 0 <= k < 4 && 12 + k < n % 16 ensures LengthByte(n, k) == LengthByte(n + 1, k) {
        CodeByteAgrees(n, 12 + k);
      }
      CodeByteAgrees(n, n % 16);
    }
    if SameBytes(n) {
      forall i | 0 <= i < 16 ensures CodeLength(n)[i] == CodeLength(n + 1)[i] {
        CodeByteAgrees(n, i);
      }
    }
  }

  lemma SameBytesFirst(n: nat)
    requires n % 16 == 12
    ensures SameBytes(n) <==> 8 * (n + 1) / 0x100_0000 % 256 == 0
  {
    SameHighBits(n);
  }

  lemma SameBytesSecond(n: nat)
    requires n % 16 == 13
    ensures SameBytes(n) <==> 8 * (n + 1) / 0x1_0000 % 256 == 0
  {
    var w, v := 8 * n % TWO32, 8 * (n + 1) % TWO32;
    NextLength(n);
    SameHighBits(n);
    if v / 0x1_0000 % 256 == 0 {
      NoCarry(w, 0x1_0000);
    }
  }

  lemma SameBytesThird(n: nat)
    requires n % 16 == 14
    ensures SameBytes(n) <==> 8 * (n + 1) / 0x100 % 256 == 0
  {
    hide LengthByte;
    ThirdBytes(n);
    if LengthByte(n + 1, 2) == 0 {
      ThirdStays(n);
    }
  }

  lemma ThirdBytes(n: nat)
    ensures LengthByte(n + 1, 2) == 8 * (n + 1) / 0x100 % 256
  {
    SameHighBits(n);
  }

  lemma ThirdStays(n: nat)
    requires n % 16 == 14 && LengthByte(n + 1, 2) == 0
    ensures LengthByte(n, 0) == LengthByte(n + 1, 0) && LengthByte(n, 1) == LengthByte(n + 1, 1)
  {
    var w, v := 8 * n % TWO32, 8 * (n + 1) % TWO32;
    NextLength(n);
    NoCarry(w, 0x100);
    UpperBytes(w, v);
  }

  lemma SameBytesLast(n: nat)
    requires n % 16 == 15
    ensures !SameBytes(n)
  {
    if LengthByte(n + 1, 3) == 0 {
      LastDiffers(n);
    }
  }

  lemma LastDiffers(n: nat)
    requires n % 16 == 15 && 8 * (n + 1) % TWO32 % 256 == 0
    ensures LengthByte(n, 2) != LengthByte(n + 1, 2)
  {
    NextLength(n);
    var w := 8 * n % TWO32;
    if w + 8 < TWO32 {
      Carry(w);
    }
  }

  lemma SameBytesExactly(n: nat)
    requires 12 <= n % 16
    ensures SameBytes(n) <==> n % 16 < 15 && 8 * (n + 1) / Pow256(15 - n % 16) % 256 == 0
  {
    hide Pow256, LengthByte, SameBytes;
    PowersOf256();
    match n % 16
    case 12 => SameBytesFirst(n);
    case 13 => SameBytesSecond(n);
    case 14 => SameBytesThird(n);
    case _ => SameBytesLast(n);
  }

  lemma LengthsCollide(n: nat)
    requires 0 < n % 16
    ensures var u := n % 16;
            CodeLength(n) == CodeLength(n + 1) <==> u < 15 && (u < 12 || 8 * (n + 1) / Pow256(15 - u) % 256 == 0)
  {
    hide CodeLength, Pow256;
    LengthsByBytes(n);
    if n % 16 >= 12 {
      SameBytesExactly(n);
    }
  }

  // ---- one vector ----

  lemma PaddedZero(iv: Bytes)
    requires |iv| % 16 != 0
    ensures Padded(iv + [0]) == Padded(iv)
  {
    var u := |iv| % 16;
    assert Zeros(16 - u) == [0] + Zeros(15 - u);
    assert (iv + [0]) + Zeros(15 - u) == iv + ([0] + Zeros(15 - u));
    assert u == 15 || (|iv| + 1) % 16 == u + 1;
  }

  lemma SameHash(M: BlockFn, iv: Bytes)
    requires |iv| % 16 != 0 && |iv| != 11 && |iv| != 12
    ensures var y := Ghash(M, ZBLOCK, Padded(iv));
            CodeJ0(M, iv) == M(Xor(y, CodeLength(|iv|))) && CodeJ0(M, iv + [0]) == M(Xor(y, CodeLength(|iv| + 1)))
  {
    hide CodeJ0, Ghash, Padded, Xor, CodeLength;
    PaddedZero(iv);
    CodeJ0IsHash(M, iv);
    CodeJ0IsHash(M, iv + [0]);
  }

  // Next to the native 12 bytes the zero subkey tells the two apart.
  lemma NativeApart(iv: Bytes)
    requires |iv| == 11 || |iv| == 12
    ensures CodeJ0(HMul(ZERO), iv) != CodeJ0(HMul(ZERO), iv + [0])
  {
    hide Product, IvLoop, IvWork;
    var other := if |iv| == 11 then iv else iv + [0];
    var y := XorAt(IvLoop(HMul(ZERO), ZBLOCK, other), 0, IvWork(|other|)[..UseLen(|other|)]);
    TimesZero(y);
    assert CodeJ0(HMul(ZERO), other) == ZERO;
    assert CodeJ0(HMul(ZERO), if |iv| == 11 then iv + [0] else iv)[15] == 1;
  }

  lemma TimesZero(x: Block)
    ensures HMul(ZERO)(x) == ZERO
  {
    hide Product, Sum;
    ProductIsSum(x, ZERO);
    SumOfZero(x, 0);
  }

  lemma {:induction false} SumOfZero(x: Block, i: nat)
    requires i <= 128
    ensures Sum(x, i, ZERO) == ZERO
    decreases 128 - i
  {
    hide Add, TimesX, Bit;
    if i < 128 {
      TimesXZero();
      SumOfZero(x, i + 1);
      AddZero(ZERO);
    }
  }

  // An IV with an open last piece and the IV with a zero byte behind it have one pre-counter block
  // under every subkey exactly if the length says so.
  lemma ZeroByteCollides(iv: Bytes)
    requires |iv| % 16 != 0
    ensures (forall h: Block :: CodeJ0(HMul(h), iv) == CodeJ0(HMul(h), iv + [0])) <==> Collides(|iv|)
  {
    hide CodeJ0, Ghash, Padded, Xor, CodeLength, HMul, Pow256;
    var n := |iv|;
    if n == 11 || n == 12 {
      NativeApart(iv);
    } else {
      LengthsCollide(n);
      forall h: Block ensures CodeLength(n) == CodeLength(n + 1) ==> CodeJ0(HMul(h), iv) == CodeJ0(HMul(h), iv + [0]) {
        SameHash(HMul(h), iv);
      }
      if CodeLength(n) != CodeLength(n + 1) {
        UnitApart(iv);
      }
    }
  }

  lemma UnitApart(iv: Bytes)
    requires |iv| % 16 != 0 && |iv| != 11 && |iv| != 12 && CodeLength(|iv|) != CodeLength(|iv| + 1)
    ensures CodeJ0(HMul(ONE), iv) != CodeJ0(HMul(ONE), iv + [0])
  {
    hide CodeJ0, Ghash, Padded, Xor, CodeLength, Product;
    SameHash(HMul(ONE), iv);
    var y := Ghash(HMul(ONE), ZBLOCK, Padded(iv));
    ProductOne(Xor(y, CodeLength(|iv|)));
    ProductOne(Xor(y, CodeLength(|iv| + 1)));
    if Xor(y, CodeLength(|iv|)) == Xor(y, CodeLength(|iv| + 1)) {
      XorInjective(y, CodeLength(|iv|), CodeLength(|iv| + 1));
    }
  }

  // ---- whole blocks ----

  lemma NoneCollides(h: Block)
    ensures CodeJ0(HMul(h), []) == CodeJ0(HMul(h), [] + [0])
  {
    hide Product;
    HMulZero(h);
    assert XorAt(ZBLOCK, 0, []) == ZBLOCK;
    XorFacts(0, 0);
    assert [] + [0] == [0 as byte];
    assert XorAt(ZBLOCK, 0, [0]) == ZBLOCK;
    assert IvWork(1)[..1] == [0] && IvWork(0)[..0] == [];
  }

  // The hash of whole blocks of which only the last is not zero, and of that with a zero byte.
  lemma LastBlock(M: BlockFn, k: nat)
    requires M(ZBLOCK) == ZBLOCK
    ensures var iv := Zeros(16 * k) + ONE;
            && Ghash(M, ZBLOCK, Padded(iv)) == M(ONE)
            && Ghash(M, ZBLOCK, Padded(iv + [0])) == M(M(ONE))
  {
    hide Ghash, Xor, Absorb;
    var iv := Zeros(16 * k) + ONE;
    AbsorbZeros(M, k);
    AbsorbIsGhash(M, ZBLOCK, Zeros(16 * k));
    GhashAppend(M, ZBLOCK, Zeros(16 * k), ONE);
    GhashOne(M, ZBLOCK, ONE);
    XorZero(ONE);
    assert Padded(iv) == iv;
    assert Padded(iv + [0]) == iv + ZBLOCK;
    GhashAppend(M, ZBLOCK, iv, ZBLOCK);
    GhashOne(M, M(ONE), ZBLOCK);
    XorZero(M(ONE));
  }

  lemma XorZero(b: Block)
    ensures Xor(ZBLOCK, b) == b && Xor(b, ZBLOCK) == b
  {
    forall i | 0 <= i < 16 ensures Xor(ZBLOCK, b)[i] == b[i] && Xor(b, ZBLOCK)[i] == b[i] {
      XorFacts(b[i], 0);
      XorFacts(0, b[i]);
    }
  }

  lemma OneByteLength(n: nat)
    requires n % 16 == 0
    ensures CodeLength(n + 1) == ZBLOCK
  {
    assert UseLen(n + 1) == 1;
  }

  // The subkeys 1 and x tell them apart: one if the length block is not zero, the other if it is.
  lemma BlocksApart(k: nat)
    ensures var iv := Zeros(16 * k) + ONE;
            exists h: Block :: CodeJ0(HMul(h), iv) != CodeJ0(HMul(h), iv + [0])
  {
    hide CodeJ0, Ghash, Padded, Xor, CodeLength, Product, TimesX;
    var iv := Zeros(16 * k) + ONE;
    var L := CodeLength(|iv|);
    OneByteLength(|iv|);
    if L == ZBLOCK {
      BlockUnder(HX, k);
      MulX(ONE);
      MulX(TimesX(ONE));
      MulX(TimesX(TimesX(ONE)));
      OneTimesPowers();
      XorZero(TimesX(ONE));
      XorZero(TimesX(TimesX(ONE)));
      assert NibbleBlock(0x20)[0] != NibbleBlock(0x10)[0];
      assert CodeJ0(HMul(HX), iv) != CodeJ0(HMul(HX), iv + [0]);
    } else {
      BlockUnder(ONE, k);
      ProductOne(ONE);
      ProductOne(Xor(ONE, L));
      XorZero(ONE);
      if Xor(ONE, L) == Xor(ONE, ZBLOCK) {
        XorInjective(ONE, L, ZBLOCK);
      }
      assert CodeJ0(HMul(ONE), iv) != CodeJ0(HMul(ONE), iv + [0]);
    }
  }

  lemma BlockUnder(h: Block, k: nat)
    ensures var iv, M := Zeros(16 * k) + ONE, HMul(h);
            && CodeJ0(M, iv) == M(Xor(M(ONE), CodeLength(|iv|)))
            && CodeJ0(M, iv + [0]) == M(Xor(M(M(ONE)), CodeLength(|iv| + 1)))
  {
    hide CodeJ0, Ghash, Padded, Xor, CodeLength, Product;
    HMulZero(h);
    LastBlock(HMul(h), k);
    CodeJ0IsHash(HMul(h), Zeros(16 * k) + ONE);
    CodeJ0IsHash(HMul(h), (Zeros(16 * k) + ONE) + [0]);
  }

  // ---- all lengths ----

  // All IVs of a length share their pre-counter block with the IV with a zero byte behind it, under
  // every subkey, exactly for the lengths that collide.
  lemma ZeroByteExactly(n: nat)
    ensures (forall h: Block, iv: Bytes | |iv| == n :: CodeJ0(HMul(h), iv) == CodeJ0(HMul(h), iv + [0])) <==> Collides(n)
  {
    hide CodeJ0, HMul, Pow256;
    if n == 0 {
      forall h: Block, iv: Bytes | |iv| == n ensures CodeJ0(HMul(h), iv) == CodeJ0(HMul(h), iv + [0]) {
        NoneCollides(h);
        assert iv == [];
      }
    } else if n % 16 == 0 {
      var iv := Zeros(16 * (n / 16 - 1)) + ONE;
      BlocksApart(n / 16 - 1);
      assert |iv| == n;
    } else {
      forall iv: Bytes | |iv| == n
        ensures (forall h: Block :: CodeJ0(HMul(h), iv) == CodeJ0(HMul(h), iv + [0])) <==> Collides(n)
      {
        ZeroByteCollides(iv);
      }
      if !Collides(n) {
        ZeroByteCollides(Zeros(n));
      }
    }
  }

  // 13, 14 and 30 bytes are among the lengths that collide; 11, 12, 15 and 16 are not.
  lemma SomeLengths()
    ensures Collides(1) && Collides(13) && Collides(14) && Collides(30)
    ensures !Collides(11) && !Collides(12) && !Collides(15) && !Collides(16)
  {
    PowersOf256();
  }
}
