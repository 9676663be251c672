// ONE is the unit of the multiplication of section 6.3.
module Gf128Unit {
  import opened Bytes
  import opened Gf128
  import opened GcmWords

  // x without its first i bytes, filled with zeros.
  function Tail(x: Block, i: nat): Block
    requires i <= 16
  {
    x[i..] + Zeros(i)
  }

  function NibbleBlock(b: byte): Block {
    [b] + Zeros(15)
  }

  lemma OneTimesPowers()
    ensures TimesX(ONE) == NibbleBlock(0x40) && TimesX(NibbleBlock(0x40)) == NibbleBlock(0x20)
    ensures TimesX(NibbleBlock(0x20)) == NibbleBlock(0x10)
  {
  }

  lemma AddNibbles(a: byte, b: byte)
    ensures Add(NibbleBlock(a), NibbleBlock(b)) == NibbleBlock(a ^ b)
  {
  }

  // A nibble as the polynomial it is in the tables of ONE.
  function NibbleByte(n: nat): byte {
    (if n / 8 % 2 == 1 then 0x80 else 0) ^ ((if n / 4 % 2 == 1 then 0x40 else 0) ^
    ((if n / 2 % 2 == 1 then 0x20 else 0) ^ (if n % 2 == 1 then 0x10 else 0)))
  }

  lemma EntryOfOne(n: nat)
    ensures Entry(ONE, n) == NibbleBlock(NibbleByte(n))
  {
    hide Add, TimesX;
    OneTimesPowers();
    assert ZERO == NibbleBlock(0) && ONE == NibbleBlock(0x80);
    var a: byte := if n / 8 % 2 == 1 then 0x80 else 0;
    var b: byte := if n / 4 % 2 == 1 then 0x40 else 0;
    var c: byte := if n / 2 % 2 == 1 then 0x20 else 0;
    var d: byte := if n % 2 == 1 then 0x10 else 0;
    AddNibbles(c, d);
    AddNibbles(b, c ^ d);
    AddNibbles(a, b ^ (c ^ d));
  }

  lemma NibbleBytes(b: byte)
    ensures NibbleByte(HighNibble(b)) == b & 0xF0 && NibbleByte(LowNibble(b)) == b << 4
  {
    HighNibbleBits(b);
    LowNibbleBits(b);
    hide HighNibble, LowNibble;
  }

  // Nothing is reduced when the low nibble is clear.
  lemma TimesX4Plain(v: Block, k: nat)
    requires v[15] & 15 == 0 && k < 16
    ensures TimesX4(v)[k] == (v[k] >> 4) ^ ((if k == 0 then 0 else v[k - 1]) << 4)
  {
    hide TimesX4;
    TimesX4Byte(v, k);
    XorFacts(v[k] >> 4, 0);
    if k == 1 {
      XorFacts((v[1] >> 4) ^ (v[0] << 4), 0);
    }
  }

  lemma TwoNibbles(a: byte, b: byte, c: byte)
    ensures (((a >> 4) ^ (b << 4)) >> 4) ^ (((b >> 4) ^ (c << 4)) << 4) == b
    ensures ((a >> 4) ^ (b << 4)) & 15 == a >> 4
    ensures (b & 0xF0) ^ (((a >> 4) ^ (b << 4)) >> 4) == b
  {
  }

  function Before(s: Block, b: byte, k: nat): byte
    requires k < 16
  {
    if k == 0 then b else s[k - 1]
  }

  lemma HalfStep(s: Block, b: byte, t: Block, k: nat)
    requires s[15] == 0 && k < 16
    requires t == Add(NibbleBlock(b << 4), TimesX4(s))
    ensures t[k] == (s[k] >> 4) ^ (Before(s, b, k) << 4)
  {
    hide TimesX4;
    TimesX4Plain(s, k);
    XorFacts(b << 4, s[k] >> 4);
    XorFacts(TimesX4(s)[k], 0);
    XorFacts(s[k] >> 4, 0);
  }

  lemma FullStep(s: Block, b: byte, t: Block, u: Block, k: nat)
    requires s[15] == 0 && k < 16
    requires t == Add(NibbleBlock(b << 4), TimesX4(s))
    requires u == Add(NibbleBlock(b & 0xF0), TimesX4(t))
    ensures u[k] == Before(s, b, k)
  {
    hide TimesX4;
    HalfStep(s, b, t, 15);
    TwoNibbles(s[15], s[14], 0);
    TimesX4Plain(t, k);
    HalfStep(s, b, t, k);
    if k == 0 {
      TwoNibbles(s[0], b, 0);
      XorFacts(t[0] >> 4, 0);
    } else {
      HalfStep(s, b, t, k - 1);
      TwoNibbles(s[k], s[k - 1], Before(s, b, k - 1));
      XorFacts(s[k - 1], 0);
    }
  }

  // One byte of the Horner evaluation on ONE moves one byte of x in.
  lemma ByteStep(s: Block, b: byte, t: Block, u: Block)
    requires s[15] == 0
    requires t == Add(NibbleBlock(b << 4), TimesX4(s))
    requires u == Add(NibbleBlock(b & 0xF0), TimesX4(t))
    ensures u == [b] + s[..15]
  {
    hide TimesX4, Add;
    forall k | 0 <= k < 16 ensures u[k] == Before(s, b, k) {
      FullStep(s, b, t, u, k);
    }
  }

  lemma {:induction false} SumOfOne(x: Block, i: nat)
    requires i <= 16
    ensures Sum(x, 8 * i, ONE) == Tail(x, i)
    decreases 16 - i
  {
    hide Sum, Entry, Add, TimesX4, ByteBit, HighNibble, LowNibble, NibbleByte;
    if i == 16 {
      SumEnd(x);
    } else {
      SumOfOne(x, i + 1);
      var s := Tail(x, i + 1);
      SumNibble(x, 2 * i + 1, ONE);
      SumNibble(x, 2 * i, ONE);
      NibbleBytes(x[i]);
      EntryOfOne(HighNibble(x[i]));
      EntryOfOne(LowNibble(x[i]));
      ByteStep(s, x[i], Sum(x, 8 * i + 4, ONE), Sum(x, 8 * i, ONE));
    }
  }

  lemma SumEnd(x: Block)
    ensures Sum(x, 128, ONE) == ZERO
  {
  }

  lemma ProductOne(x: Block)
    ensures Product(x, ONE) == x
  {
    hide Product, Sum;
    ProductIsSum(x, ONE);
    SumOfOne(x, 0);
  }
}
