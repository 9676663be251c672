// Shoup's 4-bit tables (gcm_setkey) and the table-driven GHASH multiplication (gcm_mult).
module GcmTables {
  import opened Bytes
  import opened Gf128
  import opened GcmWords

  // Entry i of the tables is H times the polynomial whose coefficients are the bits of i.
  ghost predicate TablesFor(HH: seq<word>, HL: seq<word>, h: Block) {
    && |HH| == 16 && |HL| == 16
    && forall i :: 0 <= i < 16 ==> EntryIs(HH, HL, h, i)
  }

  ghost predicate EntryIs(HH: seq<word>, HL: seq<word>, h: Block, i: nat)
    requires |HH| == 16 && |HL| == 16 && i < 16
  {
    Words(HH[i], HL[i]) == Entry(h, i)
  }

  lemma EntryOfPower(h: Block)
    ensures Entry(h, 0) == ZERO && Entry(h, 8) == h && Entry(h, 4) == TimesX(h)
    ensures Entry(h, 2) == TimesX(TimesX(h)) && Entry(h, 1) == TimesX(TimesX(TimesX(h)))
  {
    hide Add, TimesX;
    AddZero(ZERO);
    AddZero(h);
    AddZero(TimesX(h));
    AddZero(TimesX(TimesX(h)));
    AddZero(TimesX(TimesX(TimesX(h))));
  }

  function FromBits(a: bool, b: bool, c: bool, d: bool): (n: nat)
    ensures n < 16
  {
    (if a then 8 else 0) + (if b then 4 else 0) + (if c then 2 else 0) + (if d then 1 else 0)
  }

  // The exclusive or of two table indices.
  function XorIndex(i: nat, j: nat): nat
    requires i < 16 && j < 16
  {
    FromBits((i / 8 % 2 == 1) != (j / 8 % 2 == 1), (i / 4 % 2 == 1) != (j / 4 % 2 == 1),
             (i / 2 % 2 == 1) != (j / 2 % 2 == 1), (i % 2 == 1) != (j % 2 == 1))
  }

  lemma BitsOfFromBits(a: bool, b: bool, c: bool, d: bool)
    ensures var n := FromBits(a, b, c, d);
            (n / 8 % 2 == 1 <==> a) && (n / 4 % 2 == 1 <==> b) && (n / 2 % 2 == 1 <==> c) && (n % 2 == 1 <==> d)
  {
  }

  lemma SelXor(p: bool, q: bool, v: Block)
    ensures Add(Sel(p, v), Sel(q, v)) == Sel(p != q, v)
  {
    hide Add;
    AddZero(v);
    AddZero(ZERO);
  }

  // The table is linear in its index.
  lemma EntryXor(h: Block, i: nat, j: nat)
    requires i < 16 && j < 16
    ensures XorIndex(i, j) < 16 && Entry(h, XorIndex(i, j)) == Add(Entry(h, i), Entry(h, j))
  {
    hide Add, TimesX, Sel, FromBits;
    var h1 := TimesX(h);
    var h2 := TimesX(h1);
    var h3 := TimesX(h2);
    var i8, i4, i2, i1 := i / 8 % 2 == 1, i / 4 % 2 == 1, i / 2 % 2 == 1, i % 2 == 1;
    var j8, j4, j2, j1 := j / 8 % 2 == 1, j / 4 % 2 == 1, j / 2 % 2 == 1, j % 2 == 1;
    BitsOfFromBits(i8 != j8, i4 != j4, i2 != j2, i1 != j1);
    SelXor(i8, j8, h);
    SelXor(i4, j4, h1);
    SelXor(i2, j2, h2);
    SelXor(i1, j1, h3);
    AddExchange(Sel(i2, h2), Sel(i1, h3), Sel(j2, h2), Sel(j1, h3));
    AddExchange(Sel(i4, h1), Add(Sel(i2, h2), Sel(i1, h3)), Sel(j4, h1), Add(Sel(j2, h2), Sel(j1, h3)));
    AddExchange(Sel(i8, h), Add(Sel(i4, h1), Add(Sel(i2, h2), Sel(i1, h3))),
                Sel(j8, h), Add(Sel(j4, h1), Add(Sel(j2, h2), Sel(j1, h3))));
  }

  lemma WordsZero()
    ensures Words(0, 0) == ZERO
  {
  }

  lemma XorWithPower(i: nat, j: nat)
    requires i == 2 || i == 4 || i == 8
    requires j < i
    ensures XorIndex(i, j) == i + j
  {
  }

  lemma EntryAbove(h: Block, i: nat, j: nat, a: word, b: word, c: word, d: word)
    requires i in {2, 4, 8} && j < i
    requires Words(a, b) == Entry(h, i) && Words(c, d) == Entry(h, j)
    ensures Words(XorWords(a, c), XorWords(b, d)) == Entry(h, i + j)
  {
    hide Words, Entry, Add, XorWords;
    EntryXor(h, i, j);
    XorWithPower(i, j);
    WordsXor(a, b, c, d);
  }

  // The tables as gcm_setkey leaves them are linear in their index.
  lemma TableXor(HH: seq<word>, HL: seq<word>, h: Block, i: nat, j: nat)
    requires TablesFor(HH, HL, h) && i < 16 && j < 16
    ensures var k := XorIndex(i, j);
            Words(HH[k], HL[k]) == Add(Words(HH[i], HL[i]), Words(HH[j], HL[j]))
  {
    hide Words, Entry, Add;
    EntryXor(h, i, j);
    assert EntryIs(HH, HL, h, i) && EntryIs(HH, HL, h, j) && EntryIs(HH, HL, h, XorIndex(i, j));
  }

  lemma FirstEntries(h: Block)
    ensures Entry(h, 8) == h && Entry(h, 0) == Words(0, 0)
  {
    EntryOfPower(h);
    WordsZero();
  }

  lemma EntryHalved(h: Block, i: nat, a: word, b: word)
    requires i in {8, 4, 2} && Words(a, b) == Entry(h, i)
    ensures Words(HalveHigh(a, b), HalveLow(a, b)) == Entry(h, i / 2)
  {
    hide Words, Entry, HalveHigh, HalveLow, TimesX;
    EntryOfPower(h);
    HalveIsTimesX(a, b);
  }

  // The halving loop of gcm_setkey: entries 8, 0, 4, 2 and 1.
  method FillPowers(HH: array<word>, HL: array<word>, H0: word, H1: word)
    requires HH.Length == 16 && HL.Length == 16 && HH != HL
    modifies HH, HL
    ensures forall i :: i in {0, 1, 2, 4, 8} ==> Words(HH[i], HL[i]) == Entry(Words(H0, H1), i)
  {
    hide Words, Entry, HalveHigh, HalveLow;
    ghost var h := Words(H0, H1);
    FirstEntries(h);
    var h0, h1 := H0, H1;
    HL[8] := h1;
    HH[8] := h0;
    HH[0] := 0;
    HL[0] := 0;
    var i := 4;
    while i > 0
      invariant i in {4, 2, 1, 0}
      invariant Words(h0, h1) == Entry(h, if i == 0 then 1 else 2 * i)
      invariant Words(HH[8], HL[8]) == Entry(h, 8) && Words(HH[0], HL[0]) == Entry(h, 0)
      invariant i < 4 ==> Words(HH[4], HL[4]) == Entry(h, 4)
      invariant i < 2 ==> Words(HH[2], HL[2]) == Entry(h, 2)
      invariant i < 1 ==> Words(HH[1], HL[1]) == Entry(h, 1)
      decreases i
    {
      EntryHalved(h, 2 * i, h0, h1);
      h0, h1 := HalveHigh(h0, h1), HalveLow(h0, h1);
      HL[i] := h1;
      HH[i] := h0;
      i := i / 2;
    }
  }

  // One pass of the doubling loop: the entries between i and 2i.
  method FillAbove(HH: array<word>, HL: array<word>, i: nat, ghost h: Block)
    requires HH.Length == 16 && HL.Length == 16 && HH != HL
    requires i in {2, 4, 8}
    requires forall k :: 0 <= k <= i ==> Words(HH[k], HL[k]) == Entry(h, k)
    modifies HH, HL
    ensures forall k :: 0 <= k < 2 * i ==> Words(HH[k], HL[k]) == Entry(h, k)
    ensures forall k :: 2 * i <= k < 16 ==> HH[k] == old(HH[k]) && HL[k] == old(HL[k])
  {
    hide Words, Entry, XorWords;
    var h0 := HH[i];
    var h1 := HL[i];
    var j := 1;
    while j < i
      invariant 1 <= j <= i
      invariant forall k :: 0 <= k < i + j ==> Words(HH[k], HL[k]) == Entry(h, k)
      invariant HH[i] == h0 && HL[i] == h1
      invariant forall k :: 2 * i <= k < 16 ==> HH[k] == old(HH[k]) && HL[k] == old(HL[k])
    {
      EntryAbove(h, i, j, h0, h1, HH[j], HL[j]);
      HH[i + j] := XorWords(h0, HH[j]);
      HL[i + j] := XorWords(h1, HL[j]);
      j := j + 1;
    }
  }

  // The whole table build of gcm_setkey from the two words of H.
  method BuildTables(HH: array<word>, HL: array<word>, H0: word, H1: word)
    requires HH.Length == 16 && HL.Length == 16 && HH != HL
    modifies HH, HL
    ensures TablesFor(HH[..], HL[..], Words(H0, H1))
  {
    FillPowers(HH, HL, H0, H1);
    hide Words, Entry;
    ghost var h := Words(H0, H1);
    var i := 2;
    while i < BLOCK
      invariant i in {2, 4, 8, 16}
      invariant forall k :: 0 <= k < i ==> Words(HH[k], HL[k]) == Entry(h, k)
      invariant forall k :: k in {2, 4, 8} && i <= k ==> Words(HH[k], HL[k]) == Entry(h, k)
      decreases BLOCK - i
    {
      FillAbove(HH, HL, i, h);
      i := i * 2;
    }
  }

  // One step of gcm_mult: shift the accumulator by a nibble, reduce, add the table entry.
  lemma HornerStep(x: Block, j: nat, h: Block, zh: word, zl: word, eh: word, el: word)
    requires j < 32
    requires Words(zh, zl) == Sum(x, 4 * j + 4, h)
    requires Words(eh, el) == Entry(h, Nibble(x, j))
    ensures Words(XorWords(NibbleHigh(zh, zl), eh), XorWords(NibbleLow(zh, zl), el)) == Sum(x, 4 * j, h)
  {
    hide Words, Entry, Sum, Add, NibbleHigh, NibbleLow, TimesX4, Nibble, XorWords;
    NibbleIsTimesX4(zh, zl);
    WordsXor(NibbleHigh(zh, zl), NibbleLow(zh, zl), eh, el);
    SumNibble(x, j, h);
    AddComm(Entry(h, Nibble(x, j)), TimesX4(Sum(x, 4 * j + 4, h)));
  }

  // The last nibble starts the evaluation.
  lemma HornerStart(x: Block, h: Block)
    ensures Sum(x, 124, h) == Entry(h, Nibble(x, 31))
  {
    hide Entry, Add, TimesX, Nibble;
    SumNibble(x, 31, h);
    TimesXZero();
    AddZero(Entry(h, Nibble(x, 31)));
  }

  // be64_to_ptr(dst + off, w)
  method PutBe64(dst: array<byte>, off: nat, w: word)
    requires off + 8 <= dst.Length
    modifies dst
    ensures dst[..] == Overwrite(old(dst[..]), off, BeBytes(w))
  {
    hide Octet;
    var b := BeBytes(w);
    forall k | 0 <= k < 8 {
      dst[off + k] := b[k];
    }
  }

  lemma PutBoth(o: Block, zh: word, zl: word)
    ensures Overwrite(Overwrite(o, 0, BeBytes(zh)), 8, BeBytes(zl)) == Words(zh, zl)
  {
    hide Octet;
  }

  // gcm_mult without an accelerator: output becomes x times H; x and output may be the same buffer.
  method GcmMult(HH: array<word>, HL: array<word>, x: array<byte>, output: array<byte>, ghost h: Block)
    requires x.Length == 16 && output.Length == 16 && HH.Length == 16 && HL.Length == 16
    requires TablesFor(HH[..], HL[..], h)
    modifies output
    ensures output[..] == Product(old(x[..]), h)
  {
    hide Words, Entry, Sum, NibbleHigh, NibbleLow, XorWords, LowNibble, HighNibble, Overwrite, BeBytes, Product;
    ghost var b: Block := x[..];
    var lo, hi := LowNibble(x[15]), 0;
    var zh, zl := HH[lo], HL[lo];
    HornerStart(b, h);
    assert Words(zh, zl) == Sum(b, 124, h) by { assert EntryIs(HH[..], HL[..], h, lo); }
    var i := 15;
    while i >= 0
      invariant -1 <= i <= 15
      invariant x[..] == b && TablesFor(HH[..], HL[..], h)
      invariant Words(zh, zl) == Sum(b, if i == 15 then 124 else 8 * i + 8, h)
      decreases i
    {
      lo := LowNibble(x[i]);
      hi := HighNibble(x[i]);
      if i != 15 {
        assert EntryIs(HH[..], HL[..], h, lo);
        HornerStep(b, 2 * i + 1, h, zh, zl, HH[lo], HL[lo]);
        zh, zl := XorWords(NibbleHigh(zh, zl), HH[lo]), XorWords(NibbleLow(zh, zl), HL[lo]);
      }
      assert EntryIs(HH[..], HL[..], h, hi);
      HornerStep(b, 2 * i, h, zh, zl, HH[hi], HL[hi]);
      zh, zl := XorWords(NibbleHigh(zh, zl), HH[hi]), XorWords(NibbleLow(zh, zl), HL[hi]);
      i := i - 1;
    }
    ProductIsSum(b, h);
    PutBe64(output, 0, zh);
    PutBe64(output, 8, zl);
    PutBoth(old(output[..]), zh, zl);
  }
}
