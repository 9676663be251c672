// The byte-at-a-time machine of GcmStream taken in pieces that stay within a block, which is how
// the loops of gcm_enc_update and gcm_dec_update take the data.
module GcmChunks {
  import opened Bytes
  import opened GcmSpec
  import opened GcmStream

  // A non-empty piece that does not cross a block boundary.
  function Piece(E: BlockFn, M: BlockFn, dec: bool, st: Gst, d: Bytes): (r: (Gst, Bytes))
    requires d != [] && st.len % 16 + |d| <= 16
    ensures |r.1| == |d|
  {
    var pos := st.len % 16;
    var st1 := Positioned(E, st);
    var o := Xor(st1.ectr[pos..pos + |d|], d);
    (st1.(buf := Absorb(M, st1.buf, pos, CtOf(dec, d, o)), len := (st.len + |d|) % TWO64), o)
  }

  lemma {:induction false} CryptAppend(E: BlockFn, M: BlockFn, dec: bool, st: Gst, a: Bytes, b: Bytes)
    ensures Crypt(E, M, dec, st, a + b) ==
            var (s1, o1) := Crypt(E, M, dec, st, a); var (s2, o2) := Crypt(E, M, dec, s1, b); (s2, o1 + o2)
  {
    hide CryptByte;
    if b == [] {
      assert a + b == a;
      var o := Crypt(E, M, dec, st, a).1;
      assert o + [] == o;
    } else {
      var i := b[..|b| - 1];
      CryptAppend(E, M, dec, st, a, i);
      assert (a + b)[..|a + b| - 1] == a + i;
      var (s1, o1) := Crypt(E, M, dec, st, a);
      var (s2, o2) := Crypt(E, M, dec, s1, i);
      var c := CryptByte(E, M, dec, s2, b[|b| - 1]).1;
      assert (o1 + o2) + [c] == o1 + (o2 + [c]);
    }
  }

  lemma LenStep(len: nat, n: nat)
    requires len % 16 + n < 16
    ensures ((len + n) % TWO64) % 16 == len % 16 + n
    ensures ((len + n) % TWO64 + 1) % TWO64 == (len + n + 1) % TWO64
  {
    WrapStep(len + n);
    SixteenMore(len / 16, len % 16 + n);
  }

  // An update that does not pass the limit continues the one before it.
  lemma UpdateAppend(E: BlockFn, M: BlockFn, dec: bool, st: Gst, a: Bytes, b: Bytes)
    requires dec || st.len + |a| + |b| <= MAX_LEN
    ensures Update(E, M, dec, st, a + b) ==
            var (s1, o1) := Update(E, M, dec, st, a); var (s2, o2) := Update(E, M, dec, s1, b); (s2, o1 + o2)
  {
    hide Crypt;
    var st1 := CloseAad(M, st);
    CryptAppend(E, M, dec, st1, a, b);
    CryptKeepsAad(E, M, dec, st1, a);
    if !dec {
      CryptLen(E, M, dec, st1, a);
    }
  }

  lemma {:induction false} CryptKeepsAad(E: BlockFn, M: BlockFn, dec: bool, st: Gst, d: Bytes)
    ensures var s := Crypt(E, M, dec, st, d).0; s.aadLen == st.aadLen && s.rem == st.rem
  {
    if d != [] {
      hide AbsorbByte, Inc32, CtOf;
      CryptKeepsAad(E, M, dec, st, d[..|d| - 1]);
    }
  }

  lemma SixteenMore(k: nat, r: nat)
    ensures (16 * k + r) % 16 == r % 16
  {
  }

  lemma WrapNext(n: nat)
    ensures (n % TWO64 + 1) % TWO64 == (n + 1) % TWO64
  {
  }

  lemma WrapStep(n: nat)
    ensures (n % TWO64 + 1) % TWO64 == (n + 1) % TWO64 && n % TWO64 % 16 == n % 16
  {
    WrapNext(n);
    SixteenMore(n / TWO64 * 0x1000_0000_0000_0000, n % TWO64);
  }

  lemma AbsorbLast(M: BlockFn, buf: Block, pos: nat, d: Bytes, c: byte)
    requires pos + |d| < 16
    ensures Absorb(M, buf, pos, d + [c]) == AbsorbByte(M, Absorb(M, buf, pos, d), pos + |d|, c)
  {
    hide AbsorbByte;
    assert (d + [c])[..|d|] == d;
  }

  lemma XorLast(k: Bytes, d: Bytes, b: byte, c: byte)
    requires |k| == |d|
    ensures Xor(k + [c], d + [b]) == Xor(k, d) + [c ^ b]
  {
  }

  lemma CtOfLast(dec: bool, d: Bytes, o: Bytes, b: byte, c: byte)
    ensures CtOf(dec, d, o) + [CtOf(dec, b, c)] == CtOf(dec, d + [b], o + [c])
  {
  }

  lemma CryptOne(E: BlockFn, M: BlockFn, dec: bool, st: Gst, b: byte)
    ensures Crypt(E, M, dec, st, [b]) == var (s, o) := CryptByte(E, M, dec, st, b); (s, [o])
  {
    hide CryptByte;
    assert [b][..0] == [];
    assert Crypt(E, M, dec, st, []) == (st, []);
    var c := CryptByte(E, M, dec, st, b).1;
    assert [] + [c] == [c];
  }

  lemma AbsorbOne(M: BlockFn, buf: Block, pos: nat, c: byte)
    requires pos < 16
    ensures Absorb(M, buf, pos, [c]) == AbsorbByte(M, buf, pos, c)
  {
    hide AbsorbByte;
    assert [c][..0] == [];
    assert Absorb(M, buf, pos, []) == buf;
    assert (pos + 1 - 1) % 16 == pos;
  }

  lemma PositionedLen(E: BlockFn, st: Gst)
    ensures Positioned(E, st).len == st.len
  {
    hide Inc32;
  }

  lemma PieceOne(E: BlockFn, M: BlockFn, dec: bool, st: Gst, b: byte)
    ensures Piece(E, M, dec, st, [b]) == var (s, o) := CryptByte(E, M, dec, st, b); (s, [o])
  {
    hide Xor, Absorb, AbsorbByte, Positioned, CtOf;
    PositionedLen(E, st);
    OneParts(M, dec, Positioned(E, st), st.len % 16, b);
  }

  lemma OneParts(M: BlockFn, dec: bool, st1: Gst, pos: nat, b: byte)
    requires pos < 16
    ensures var o := st1.ectr[pos] ^ b;
            && Xor(st1.ectr[pos..pos + 1], [b]) == [o]
            && Absorb(M, st1.buf, pos, CtOf(dec, [b], [o])) == AbsorbByte(M, st1.buf, pos, CtOf(dec, b, o))
  {
    hide Xor, Absorb, AbsorbByte, CtOf;
    var o := st1.ectr[pos] ^ b;
    assert st1.ectr[pos..pos + 1] == [st1.ectr[pos]];
    XorOne(st1.ectr[pos], b);
    CtOfOne(dec, b, o);
    AbsorbOne(M, st1.buf, pos, CtOf(dec, b, o));
  }

  lemma XorOne(a: byte, b: byte)
    ensures Xor([a], [b]) == [a ^ b]
  {
  }

  lemma CtOfOne(dec: bool, b: byte, o: byte)
    ensures CtOf(dec, [b], [o]) == [CtOf(dec, b, o)]
  {
  }

  // One more byte.
  lemma PieceLast(E: BlockFn, M: BlockFn, dec: bool, st: Gst, d: Bytes, b: byte)
    requires d != [] && st.len % 16 + |d| < 16
    ensures Piece(E, M, dec, st, d + [b]) ==
            var (s1, o1) := Piece(E, M, dec, st, d); var (s2, c) := CryptByte(E, M, dec, s1, b); (s2, o1 + [c])
  {
    hide Xor, Absorb, AbsorbByte, NextCounter, CtOf;
    var pos := st.len % 16;
    var st1 := Positioned(E, st);
    NextCounterFrame(E, st);
    LenStep(st.len, |d|);
    var c := st1.ectr[pos + |d|];
    var o := Xor(st1.ectr[pos..pos + |d|], d);
    assert st1.ectr[pos..pos + |d|] + [c] == st1.ectr[pos..pos + |d| + 1];
    XorLast(st1.ectr[pos..pos + |d|], d, b, c);
    CtOfLast(dec, d, o, b, c ^ b);
    CtOfLength(dec, d, o);
    AbsorbLast(M, st1.buf, pos, CtOf(dec, d, o), CtOf(dec, b, c ^ b));
  }

  lemma {:induction false} CryptIsPiece(E: BlockFn, M: BlockFn, dec: bool, st: Gst, d: Bytes)
    requires d != [] && st.len % 16 + |d| <= 16
    ensures Crypt(E, M, dec, st, d) == Piece(E, M, dec, st, d)
  {
    hide Piece, CryptByte;
    var i, b := d[..|d| - 1], d[|d| - 1];
    assert d == i + [b];
    if i == [] {
      CryptOne(E, M, dec, st, b);
      PieceOne(E, M, dec, st, b);
    } else {
      CryptIsPiece(E, M, dec, st, i);
      PieceLast(E, M, dec, st, i, b);
    }
  }

  lemma {:induction false} CryptLen(E: BlockFn, M: BlockFn, dec: bool, st: Gst, d: Bytes)
    requires st.len < TWO64
    ensures Crypt(E, M, dec, st, d).0.len == (st.len + |d|) % TWO64
  {
    if d != [] {
      hide AbsorbByte, Inc32, CtOf;
      var i := d[..|d| - 1];
      CryptLen(E, M, dec, st, i);
      WrapStep(st.len + |i|);
    }
  }

  // A loop that has taken done bytes takes the next piece.
  lemma CryptNext(E: BlockFn, M: BlockFn, dec: bool, st: Gst, d: Bytes, done: nat, u: nat)
    requires st.len < TWO64 && 0 < u && done + u <= |d| && (st.len + done) % 16 + u <= 16
    ensures var (s1, o1) := Crypt(E, M, dec, st, d[..done]);
            && s1.len == (st.len + done) % TWO64 && s1.len % 16 == (st.len + done) % 16
            && Crypt(E, M, dec, st, d[..done + u]) ==
               var (s2, o2) := Piece(E, M, dec, s1, d[done..done + u]); (s2, o1 + o2)
  {
    hide Crypt, Piece;
    CryptLen(E, M, dec, st, d[..done]);
    WrapStep(st.len + done);
    assert d[..done + u] == d[..done] + d[done..done + u];
    CryptAppend(E, M, dec, st, d[..done], d[done..done + u]);
    CryptIsPiece(E, M, dec, Crypt(E, M, dec, st, d[..done]).0, d[done..done + u]);
  }

  lemma CryptNone(E: BlockFn, M: BlockFn, dec: bool, st: Gst)
    ensures Crypt(E, M, dec, st, []) == (st, [])
  {
  }
}
