// The Ascon context as a value and its calls as functions, a byte at a time with the permutation
// applied lazily, and the proof that any chunking gives what AsconSpec says.
module AsconStream {
  import opened Bytes
  import opened Sponge
  import Spec = AsconSpec

  // The sponge state and rate_offset.
  datatype Ast = Ast(state: Bytes, off: nat)

  predicate Ok(h: Hash, st: Ast) {
    0 < h.rate <= |st.state| && st.off <= h.rate
  }

  // A full rate is permuted only when more is to come.
  function Ready(h: Hash, r: nat, st: Ast): (t: Ast)
    requires Ok(h, st)
    ensures Ok(h, t) && t.off < h.rate && |t.state| == |st.state|
  {
    if st.off == h.rate then Ast(h.perm(r, st.state), 0) else st
  }

  // One byte: the ciphertext byte is what ends up in the state, on either side.
  function CryptByte(h: Hash, r: nat, dec: bool, st: Ast, b: byte): (t: (Ast, byte))
    requires Ok(h, st)
    ensures Ok(h, t.0) && |t.0.state| == |st.state|
  {
    var st1 := Ready(h, r, st);
    var o := st1.state[st1.off] ^ b;
    (Ast(st1.state[st1.off := if dec then b else o], st1.off + 1), o)
  }

  function Crypt(h: Hash, r: nat, dec: bool, st: Ast, d: Bytes): (t: (Ast, Bytes))
    requires Ok(h, st)
    ensures Ok(h, t.0) && |t.0.state| == |st.state| && |t.1| == |d|
  {
    if d == [] then (st, [])
    else
      var (st1, o) := Crypt(h, r, dec, st, d[..|d| - 1]);
      var (st2, b) := CryptByte(h, r, dec, st1, d[|d| - 1]);
      (st2, o + [b])
  }

  // lc_ascon_add_padbyte after the possible last permutation of the final calls.
  function Pad(h: Hash, r: nat, st: Ast): (s: Bytes)
    requires Ok(h, st)
    ensures |s| == |st.state|
  {
    var st1 := Ready(h, r, st);
    XorAt(st1.state, st1.off, [PAD_DATA])
  }

  // lc_ascon_aad: nothing at all for empty data.
  function Aad(h: Hash, r: nat, s: Bytes, aad: Bytes): (t: Bytes)
    requires 0 < h.rate <= |s|
    ensures |t| == |s|
  {
    if aad == [] then s
    else Spec.Separate(h.perm(r, Pad(h, r, Crypt(h, r, false, Ast(s, 0), aad).0)))
  }

  // ---- pieces ----

  lemma {:induction false} CryptAppend(h: Hash, r: nat, dec: bool, st: Ast, a: Bytes, b: Bytes)
    requires Ok(h, st)
    ensures Crypt(h, r, dec, st, a + b) ==
            var (s1, o1) := Crypt(h, r, dec, st, a); var (s2, o2) := Crypt(h, r, dec, s1, b); (s2, o1 + o2)
  {
    hide CryptByte;
    var (s1, o1) := Crypt(h, r, dec, st, a);
    if b == [] {
      assert a + b == a;
      assert o1 + [] == o1;
    } else {
      var i := b[..|b| - 1];
      CryptAppend(h, r, dec, st, a, i);
      assert (a + b)[..|a + b| - 1] == a + i;
      var (s2, o2) := Crypt(h, r, dec, s1, i);
      var c := CryptByte(h, r, dec, s2, b[|b| - 1]).1;
      assert (o1 + o2) + [c] == o1 + (o2 + [c]);
    }
  }

  // Permuting a full rate early makes no difference to what comes after.
  lemma {:induction false} CryptReady(h: Hash, r: nat, dec: bool, st: Ast, d: Bytes)
    requires Ok(h, st)
    ensures Crypt(h, r, dec, Ready(h, r, st), d).1 == Crypt(h, r, dec, st, d).1
    ensures d != [] ==> Crypt(h, r, dec, Ready(h, r, st), d).0 == Crypt(h, r, dec, st, d).0
    ensures Ready(h, r, Crypt(h, r, dec, Ready(h, r, st), d).0) == Ready(h, r, Crypt(h, r, dec, st, d).0)
  {
    if d != [] {
      CryptReady(h, r, dec, st, d[..|d| - 1]);
    }
  }

  // A piece that stays within the rate is XORed in, or stored, at once.
  function Piece(dec: bool, st: Ast, d: Bytes): (t: (Ast, Bytes))
    requires st.off + |d| <= |st.state|
    ensures |t.1| == |d|
  {
    var x := XorAt(st.state, st.off, d);
    (Ast(if dec then Overwrite(st.state, st.off, d) else x, st.off + |d|), x[st.off..st.off + |d|])
  }

  lemma PieceLastState(dec: bool, st: Ast, d: Bytes, b: byte)
    requires st.off + |d| < |st.state|
    ensures var s := Piece(dec, st, d).0;
            && s.off < |s.state| && s.state[s.off] == st.state[s.off]
            && Piece(dec, st, d + [b]).0 ==
               Ast(s.state[s.off := if dec then b else s.state[s.off] ^ b], s.off + 1)
  {
    hide XorAt, Overwrite;
    if dec {
      OverwriteLast(st.state, st.off, d, b);
    } else {
      XorAtLast(st.state, st.off, d, b);
    }
  }

  lemma PieceLastOut(dec: bool, st: Ast, d: Bytes, b: byte)
    requires st.off + |d| < |st.state|
    ensures Piece(dec, st, d + [b]).1 == Piece(dec, st, d).1 + [st.state[st.off + |d|] ^ b]
  {
    hide XorAt, Overwrite;
    XorAtLast(st.state, st.off, d, b);
  }

  lemma PieceLast(dec: bool, st: Ast, d: Bytes, b: byte)
    requires st.off + |d| < |st.state|
    ensures var (s, o) := Piece(dec, st, d);
            && s.off < |s.state| && s.off == st.off + |d|
            && Piece(dec, st, d + [b]) ==
               (Ast(s.state[s.off := if dec then b else s.state[s.off] ^ b], s.off + 1), o + [s.state[s.off] ^ b])
  {
    hide Piece;
    PieceLastState(dec, st, d, b);
    PieceLastOut(dec, st, d, b);
    PieceOff(dec, st, d);
  }

  lemma XorAtOne(s: Bytes, p: nat, b: byte)
    requires p < |s|
    ensures XorAt(s, p, [b]) == s[p := s[p] ^ b]
  {
  }

  lemma UpdateSlice(x: Bytes, off: nat, p: nat, c: byte)
    requires off <= p < |x|
    ensures x[p := c][off..p + 1] == x[off..p] + [c]
  {
  }

  lemma XorAtBeyond(s: Bytes, off: nat, d: Bytes)
    requires off + |d| < |s|
    ensures XorAt(s, off, d)[off + |d|] == s[off + |d|]
  {
  }

  lemma XorAtUpdate(s: Bytes, off: nat, d: Bytes, b: byte)
    requires off + |d| < |s|
    ensures var x, p := XorAt(s, off, d), off + |d|;
            x[p] == s[p] && XorAt(s, off, d + [b]) == x[p := s[p] ^ b]
  {
    hide XorAt;
    XorAtTwice(s, off, d, [b]);
    XorAtOne(XorAt(s, off, d), off + |d|, b);
    XorAtBeyond(s, off, d);
  }

  lemma XorAtLast(s: Bytes, off: nat, d: Bytes, b: byte)
    requires off + |d| < |s|
    ensures var x, p := XorAt(s, off, d), off + |d|;
            && x[p] == s[p] && XorAt(s, off, d + [b]) == x[p := s[p] ^ b]
            && XorAt(s, off, d + [b])[off..p + 1] == x[off..p] + [s[p] ^ b]
  {
    hide XorAt;
    XorAtUpdate(s, off, d, b);
    UpdateSlice(XorAt(s, off, d), off, off + |d|, s[off + |d|] ^ b);
  }

  lemma OverwriteLast(s: Bytes, off: nat, d: Bytes, b: byte)
    requires off + |d| < |s|
    ensures var x, p := Overwrite(s, off, d), off + |d|;
            x[p] == s[p] && Overwrite(s, off, d + [b]) == x[p := b]
  {
  }

  lemma {:induction false} CryptIsPiece(h: Hash, r: nat, dec: bool, st: Ast, d: Bytes)
    requires Ok(h, st) && st.off + |d| <= h.rate
    ensures Crypt(h, r, dec, st, d) == Piece(dec, st, d)
  {
    hide Piece;
    if d == [] {
      PieceNone(dec, st);
    } else {
      var i, b := d[..|d| - 1], d[|d| - 1];
      CryptIsPiece(h, r, dec, st, i);
      assert i + [b] == d;
      PieceLast(dec, st, i, b);
    }
  }

  lemma PieceOff(dec: bool, st: Ast, d: Bytes)
    requires st.off + |d| <= |st.state|
    ensures Piece(dec, st, d).0.off == st.off + |d|
  {
  }

  lemma PieceNone(dec: bool, st: Ast)
    requires st.off <= |st.state|
    ensures Piece(dec, st, []) == (st, [])
  {
    assert XorAt(st.state, st.off, []) == st.state;
    assert Overwrite(st.state, st.off, []) == st.state;
    assert XorAt(st.state, st.off, [])[st.off..st.off] == [];
  }

  // ---- the two sides in lockstep ----

  lemma LockstepByte(h: Hash, r: nat, dec: bool, st: Ast, b: byte)
    requires Ok(h, st)
    ensures var (s, c) := CryptByte(h, r, dec, st, b); CryptByte(h, r, !dec, st, c) == (s, b)
  {
    var st1 := Ready(h, r, st);
    XorFacts(b, st1.state[st1.off]);
    XorFacts(st1.state[st1.off], b);
  }

  // The other side, fed the output from an equal state, ends in an equal state with the input.
  lemma {:induction false} Lockstep(h: Hash, r: nat, dec: bool, st: Ast, d: Bytes)
    requires Ok(h, st)
    ensures var (s, c) := Crypt(h, r, dec, st, d); Crypt(h, r, !dec, st, c) == (s, d)
  {
    if d == [] {
      CryptEmpty(h, r, dec, st);
      CryptEmpty(h, r, !dec, st);
    } else {
      hide CryptByte, Crypt;
      var i, b := d[..|d| - 1], d[|d| - 1];
      Lockstep(h, r, dec, st, i);
      assert i + [b] == d;
      CryptLast(h, r, dec, st, i, b);
      var (s, c) := Crypt(h, r, dec, st, i);
      LockstepByte(h, r, dec, s, b);
      CryptLast(h, r, !dec, st, c, CryptByte(h, r, dec, s, b).1);
    }
  }

  lemma CryptEmpty(h: Hash, r: nat, dec: bool, st: Ast)
    requires Ok(h, st)
    ensures Crypt(h, r, dec, st, []) == (st, [])
  {
  }

  lemma CryptLast(h: Hash, r: nat, dec: bool, st: Ast, d: Bytes, b: byte)
    requires Ok(h, st)
    ensures var (s, o) := Crypt(h, r, dec, st, d);
            var (t, c) := CryptByte(h, r, dec, s, b);
            Crypt(h, r, dec, st, d + [b]) == (t, o + [c])
  {
    hide CryptByte;
    assert (d + [b])[..|d|] == d;
  }

  // ---- the loops ----

  // Where a loop is that has taken done bytes: in the state s reached so far, except that a full
  // rate has been permuted once anything has been taken.
  ghost predicate Sync(h: Hash, r: nat, s: Ast, cs: Ast, done: nat) {
    Ok(h, s) && Ok(h, cs) && (cs == Ready(h, r, s) || (done == 0 && cs == s))
  }

  // The next piece, read from the data d at position done.
  lemma CryptNext(h: Hash, r: nat, dec: bool, st: Ast, d: Bytes, done: nat, u: nat, cs: Ast)
    requires Ok(h, st) && done + u <= |d| && Sync(h, r, Crypt(h, r, dec, st, d[..done]).0, cs, done) && cs.off + u <= h.rate
    ensures var (s, o) := Crypt(h, r, dec, st, d[..done]);
            var (p, q) := Piece(dec, cs, d[done..done + u]);
            var (s2, o2) := Crypt(h, r, dec, st, d[..done + u]);
            && o2 == o + q && Ok(h, p) && p.off == cs.off + u
            && (u > 0 ==> s2 == p) && Ready(h, r, p) == Ready(h, r, s2)
  {
    hide Piece, Crypt;
    var e := d[done..done + u];
    var (s, o) := Crypt(h, r, dec, st, d[..done]);
    assert d[..done + u] == d[..done] + e;
    CryptAppend(h, r, dec, st, d[..done], e);
    CryptReady(h, r, dec, s, e);
    CryptIsPiece(h, r, dec, cs, e);
    PieceOff(dec, cs, e);
  }

  lemma CryptStart(h: Hash, r: nat, dec: bool, st: Ast, d: Bytes)
    requires Ok(h, st)
    ensures Crypt(h, r, dec, st, d[..0]) == (st, []) && Sync(h, r, st, st, 0)
  {
  }
}
