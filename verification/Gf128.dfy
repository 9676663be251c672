// The field GF(2^128) of GHASH on 16-byte blocks, as section 6.3 of NIST SP 800-38D defines it:
// bit 0 of a block is the most significant bit of its first byte.
module Gf128 {
  import opened Bytes

  function Add(a: Block, b: Block): Block {
    Xor(a, b)
  }

  const ZERO: Block := Zeros(16)
  // The polynomial 1: only bit 0 is set.
  const ONE: Block := [0x80] + Zeros(15)

  // ---- the bit-by-bit product of section 6.3 ----

  function Mask(k: nat): byte
    requires k < 8
  {
    if k == 0 then 0x80 else if k == 1 then 0x40 else if k == 2 then 0x20 else if k == 3 then 0x10
    else if k == 4 then 0x08 else if k == 5 then 0x04 else if k == 6 then 0x02 else 0x01
  }

  // Bit k of a byte, counted from the most significant one.
  predicate ByteBit(b: byte, k: nat)
    requires k < 8
  {
    b & Mask(k) != 0
  }

  predicate Bit(x: Block, i: nat)
    requires i < 128
  {
    ByteBit(x[i / 8], i % 8)
  }

  // What a right shift by one bit moves into byte i: for byte 0 the reduction R = 11100001 || 0^120.
  function CarryIn(v: Block, i: nat): byte
    requires i < 16
  {
    if i > 0 then v[i - 1] << 7 else if v[15] & 1 == 0 then 0 else 0xE1
  }

  function ShiftedByte(v: Block, i: nat): byte
    requires i < 16
  {
    (v[i] >> 1) ^ CarryIn(v, i)
  }

  // The step on V: V >> 1, and XORed with R when the bit shifted out is set.
  function TimesX(v: Block): (r: Block)
    ensures forall i :: 0 <= i < 16 ==> r[i] == ShiftedByte(v, i)
  {
    seq(16, i requires 0 <= i < 16 => ShiftedByte(v, i))
  }

  // The loop of section 6.3 from bit i on, with accumulators Z and V.
  function ProductLoop(x: Block, i: nat, z: Block, v: Block): Block
    requires i <= 128
    decreases 128 - i
  {
    if i == 128 then z
    else ProductLoop(x, i + 1, if Bit(x, i) then Add(z, v) else z, TimesX(v))
  }

  function Product(x: Block, y: Block): Block {
    ProductLoop(x, 0, ZERO, y)
  }

  // ---- addition ----

  lemma AddAssoc(a: Block, b: Block, c: Block)
    ensures Add(Add(a, b), c) == Add(a, Add(b, c))
  {
    forall i | 0 <= i < 16 ensures Add(Add(a, b), c)[i] == Add(a, Add(b, c))[i] {
    }
  }

  lemma AddComm(a: Block, b: Block)
    ensures Add(a, b) == Add(b, a)
  {
    forall i | 0 <= i < 16 ensures Add(a, b)[i] == Add(b, a)[i] {
      XorFacts(a[i], b[i]);
    }
  }

  lemma AddZero(a: Block)
    ensures Add(a, ZERO) == a && Add(ZERO, a) == a && Add(a, a) == ZERO
  {
    forall i | 0 <= i < 16 ensures Add(a, ZERO)[i] == a[i] && Add(a, a)[i] == 0 {
      XorFacts(a[i], 0);
    }
    AddComm(a, ZERO);
  }

  lemma AddExchange(a: Block, b: Block, c: Block, d: Block)
    ensures Add(Add(a, b), Add(c, d)) == Add(Add(a, c), Add(b, d))
  {
    hide Add;
    AddAssoc(a, b, Add(c, d));
    AddAssoc(b, c, d);
    AddComm(b, c);
    AddAssoc(c, b, d);
    AddAssoc(a, c, Add(b, d));
  }

  // ---- multiplication by x is linear ----

  lemma ShiftXor(a: byte, b: byte)
    ensures (a ^ b) >> 1 == (a >> 1) ^ (b >> 1) && (a ^ b) << 7 == (a << 7) ^ (b << 7)
    ensures (a ^ b) & 1 == (a & 1) ^ (b & 1)
    ensures (a & 1 == 0 || a & 1 == 1) && (b & 1 == 0 || b & 1 == 1)
  {
  }

  lemma XorExchange(a: byte, b: byte, c: byte, d: byte)
    ensures (a ^ b) ^ (c ^ d) == (a ^ c) ^ (b ^ d)
  {
  }

  lemma CarryLinear(a: Block, b: Block, i: nat)
    requires i < 16
    ensures CarryIn(Add(a, b), i) == CarryIn(a, i) ^ CarryIn(b, i)
  {
    ShiftXor(a[15], b[15]);
    if i > 0 {
      ShiftXor(a[i - 1], b[i - 1]);
    }
  }

  lemma TimesXLinear(a: Block, b: Block)
    ensures TimesX(Add(a, b)) == Add(TimesX(a), TimesX(b))
  {
    forall i | 0 <= i < 16 ensures TimesX(Add(a, b))[i] == Add(TimesX(a), TimesX(b))[i] {
      CarryLinear(a, b, i);
      ShiftXor(a[i], b[i]);
      XorExchange(a[i] >> 1, b[i] >> 1, CarryIn(a, i), CarryIn(b, i));
    }
  }

  lemma TimesXZero()
    ensures TimesX(ZERO) == ZERO
  {
    forall i | 0 <= i < 16 ensures TimesX(ZERO)[i] == 0 {
    }
  }

  function TimesX4(v: Block): Block {
    TimesX(TimesX(TimesX(TimesX(v))))
  }

  // ---- the product as a sum over the bits of x ----

  function Sel(b: bool, v: Block): Block {
    if b then v else ZERO
  }

  // The contribution of the bits of x from i on, v being y times x^i.
  function Sum(x: Block, i: nat, v: Block): Block
    requires i <= 128
    decreases 128 - i
  {
    if i == 128 then ZERO else Add(Sel(Bit(x, i), v), Sum(x, i + 1, TimesX(v)))
  }

  lemma {:induction false} LoopIsSum(x: Block, i: nat, z: Block, v: Block)
    requires i <= 128
    ensures ProductLoop(x, i, z, v) == Add(z, Sum(x, i, v))
    decreases 128 - i
  {
    hide Add, TimesX, Bit;
    AddZero(z);
    if i < 128 {
      var z1 := if Bit(x, i) then Add(z, v) else z;
      LoopIsSum(x, i + 1, z1, TimesX(v));
      AddAssoc(z, Sel(Bit(x, i), v), Sum(x, i + 1, TimesX(v)));
    }
  }

  lemma ProductIsSum(x: Block, y: Block)
    ensures Product(x, y) == Sum(x, 0, y)
  {
    LoopIsSum(x, 0, ZERO, y);
    AddZero(Sum(x, 0, y));
  }

  lemma {:induction false} SumTimesX(x: Block, i: nat, v: Block)
    requires i <= 128
    ensures Sum(x, i, TimesX(v)) == TimesX(Sum(x, i, v))
    decreases 128 - i
  {
    hide Add, TimesX, Bit;
    TimesXZero();
    if i < 128 {
      SumTimesX(x, i + 1, TimesX(v));
      TimesXLinear(Sel(Bit(x, i), v), Sum(x, i + 1, TimesX(v)));
    }
  }

  lemma SumTimesX4(x: Block, i: nat, v: Block)
    requires i <= 128
    ensures Sum(x, i, TimesX4(v)) == TimesX4(Sum(x, i, v))
  {
    hide Sum, TimesX;
    SumTimesX(x, i, v);
    SumTimesX(x, i, TimesX(v));
    SumTimesX(x, i, TimesX(TimesX(v)));
    SumTimesX(x, i, TimesX(TimesX(TimesX(v))));
  }

  // The product is linear in its first argument.
  lemma {:induction false} SumLinear(a: Block, b: Block, i: nat, v: Block)
    requires i <= 128
    ensures Sum(Add(a, b), i, v) == Add(Sum(a, i, v), Sum(b, i, v))
    decreases 128 - i
  {
    AddZero(ZERO);
    if i < 128 {
      hide Add, TimesX;
      BitLinear(a, b, i);
      SumLinear(a, b, i + 1, TimesX(v));
      AddExchange(Sel(Bit(a, i), v), Sel(Bit(b, i), v), Sum(a, i + 1, TimesX(v)), Sum(b, i + 1, TimesX(v)));
      AddZero(v);
      AddZero(ZERO);
      assert Sel(Bit(Add(a, b), i), v) == Add(Sel(Bit(a, i), v), Sel(Bit(b, i), v));
    }
  }

  lemma MaskXor(a: byte, b: byte, m: byte)
    ensures (a ^ b) & m == (a & m) ^ (b & m)
  {
  }

  lemma XorOfEither(p: byte, q: byte, m: byte)
    requires (p == 0 || p == m) && (q == 0 || q == m)
    ensures p ^ q == if p == q then 0 else m
  {
  }

  lemma MaskIsOneBit(a: byte, k: nat)
    requires k < 8
    ensures Mask(k) != 0 && (a & Mask(k) == 0 || a & Mask(k) == Mask(k))
  {
  }

  lemma ByteBitLinear(a: byte, b: byte, k: nat)
    requires k < 8
    ensures ByteBit(a ^ b, k) <==> ByteBit(a, k) != ByteBit(b, k)
  {
    hide Mask;
    MaskXor(a, b, Mask(k));
    MaskIsOneBit(a, k);
    MaskIsOneBit(b, k);
    XorOfEither(a & Mask(k), b & Mask(k), Mask(k));
  }

  lemma BitLinear(a: Block, b: Block, i: nat)
    requires i < 128
    ensures Bit(Add(a, b), i) <==> Bit(a, i) != Bit(b, i)
  {
    hide ByteBit;
    ByteBitLinear(a[i / 8], b[i / 8], i % 8);
  }

  lemma ProductLinear(a: Block, b: Block, y: Block)
    ensures Product(Add(a, b), y) == Add(Product(a, y), Product(b, y))
  {
    ProductIsSum(Add(a, b), y);
    ProductIsSum(a, y);
    ProductIsSum(b, y);
    SumLinear(a, b, 0, y);
  }

  lemma ProductZero(y: Block)
    ensures Product(ZERO, y) == ZERO
  {
    hide Add, Product;
    AddZero(ZERO);
    ProductLinear(ZERO, ZERO, y);
    AddZero(Product(ZERO, y));
  }

  // ---- four bits at a time ----

  // h times the polynomial of degree below four whose coefficients are the bits of n: 8 is 1,
  // 4 is x, 2 is x^2 and 1 is x^3.
  function Entry(h: Block, n: nat): Block {
    Add(Sel(n / 8 % 2 == 1, h),
        Add(Sel(n / 4 % 2 == 1, TimesX(h)),
            Add(Sel(n / 2 % 2 == 1, TimesX(TimesX(h))), Sel(n % 2 == 1, TimesX(TimesX(TimesX(h)))))))
  }

  function HighNibble(b: byte): (n: nat)
    ensures n < 16
  {
    (b >> 4) as int
  }

  function LowNibble(b: byte): (n: nat)
    ensures n < 16
  {
    (b & 15) as int
  }

  function Nibble(x: Block, j: nat): (n: nat)
    requires j < 32
    ensures n < 16
  {
    if j % 2 == 0 then HighNibble(x[j / 2]) else LowNibble(x[j / 2])
  }

  lemma HighNibbleBits(b: byte)
    ensures HighNibble(b) / 8 % 2 == 1 <==> ByteBit(b, 0)
    ensures HighNibble(b) / 4 % 2 == 1 <==> ByteBit(b, 1)
    ensures HighNibble(b) / 2 % 2 == 1 <==> ByteBit(b, 2)
    ensures HighNibble(b) % 2 == 1 <==> ByteBit(b, 3)
  {
  }

  lemma LowNibbleBits(b: byte)
    ensures LowNibble(b) / 8 % 2 == 1 <==> ByteBit(b, 4)
    ensures LowNibble(b) / 4 % 2 == 1 <==> ByteBit(b, 5)
    ensures LowNibble(b) / 2 % 2 == 1 <==> ByteBit(b, 6)
    ensures LowNibble(b) % 2 == 1 <==> ByteBit(b, 7)
  {
  }

  lemma NibbleBits(x: Block, j: nat)
    requires j < 32
    ensures Nibble(x, j) / 8 % 2 == 1 <==> Bit(x, 4 * j)
    ensures Nibble(x, j) / 4 % 2 == 1 <==> Bit(x, 4 * j + 1)
    ensures Nibble(x, j) / 2 % 2 == 1 <==> Bit(x, 4 * j + 2)
    ensures Nibble(x, j) % 2 == 1 <==> Bit(x, 4 * j + 3)
  {
    hide ByteBit, HighNibble, LowNibble;
    HighNibbleBits(x[j / 2]);
    LowNibbleBits(x[j / 2]);
  }

  lemma SumUnroll(x: Block, i: nat, v: Block)
    requires i < 128
    ensures Sum(x, i, v) == Add(Sel(Bit(x, i), v), Sum(x, i + 1, TimesX(v)))
  {
  }

  // One step of the Horner evaluation: the bits from 4j on are nibble j plus x^4 times the rest.
  lemma SumNibble(x: Block, j: nat, h: Block)
    requires j < 32
    ensures Sum(x, 4 * j, h) == Add(Entry(h, Nibble(x, j)), TimesX4(Sum(x, 4 * j + 4, h)))
  {
    hide Add, TimesX, Sum, Bit, Nibble;
    NibbleBits(x, j);
    var h1, h2, h3 := TimesX(h), TimesX(TimesX(h)), TimesX(TimesX(TimesX(h)));
    var i := 4 * j;
    var s0, s1, s2, s3 := Sel(Bit(x, i), h), Sel(Bit(x, i + 1), h1), Sel(Bit(x, i + 2), h2), Sel(Bit(x, i + 3), h3);
    var rest := Sum(x, i + 4, TimesX(h3));
    SumUnroll(x, i, h);
    SumUnroll(x, i + 1, h1);
    SumUnroll(x, i + 2, h2);
    SumUnroll(x, i + 3, h3);
    AddAssoc(s2, s3, rest);
    AddAssoc(s1, Add(s2, s3), rest);
    AddAssoc(s0, Add(s1, Add(s2, s3)), rest);
    SumTimesX4(x, i + 4, h);
  }
}
