// struct lc_aes_gcm_cryptor and the calls of aead/src/gcm.c that update it in place.
module Gcm {
  import opened Bytes
  import opened Errno
  import opened Endian
  import opened XorOps
  import W = GcmWords
  import T = GcmTables
  import opened GcmSpec
  import opened GcmStream
  import opened GcmChunks
  import opened GcmIv
  import opened GcmRuns
  import opened GcmAead

  class Cryptor {
    // The AES key schedule and block call; the AES sources are not part of this model.
    const aes: Bytes -> BlockFn
    // ctx->sym_ctx: the block call under the current key.
    var cipher: BlockFn
    const HL: array<W.word>
    const HH: array<W.word>
    const y: array<byte>
    const buf: array<byte>
    const base_ectr: array<byte>
    const ectr: array<byte>
    var len: nat
    var aad_len: nat
    var rem_aad_inserted: bool
    // History of the counter blocks enciphered for data.
    ghost var used: seq<Block>

    ghost const Repr: set<object> := {this, HL, HH, y, buf, base_ectr, ectr}

    ghost predicate Shaped()
      reads this
    {
      && HL.Length == 16 && HH.Length == 16 && HL != HH
      && y.Length == 16 && buf.Length == 16 && base_ectr.Length == 16 && ectr.Length == 16
      && y != buf && y != base_ectr && y != ectr && buf != base_ectr && buf != ectr && base_ectr != ectr
      && len < TWO64 && aad_len < TWO64
    }

    // A key has been set: the tables belong to the hash subkey of the cipher.
    ghost predicate Valid()
      reads this, HL, HH
    {
      Shaped() && T.TablesFor(HH[..], HL[..], H())
    }

    ghost function H(): Block
      reads this
    {
      cipher(ZBLOCK)
    }

    ghost function M(): BlockFn
      reads this
    {
      HMul(H())
    }

    ghost function Abs(): Gst
      requires Shaped()
      reads this, y, buf, base_ectr, ectr
    {
      Gst(buf[..], y[..], ectr[..], base_ectr[..], len, aad_len, rem_aad_inserted, used)
    }

    constructor (aes: Bytes -> BlockFn)
      ensures Shaped() && fresh(Repr) && this.aes == aes
      ensures len == 0 && aad_len == 0 && !rem_aad_inserted
    {
      this.aes := aes;
      cipher := aes([]);
      HL := new W.word[16];
      HH := new W.word[16];
      y := new byte[16](_ => 0);
      buf := new byte[16](_ => 0);
      base_ectr := new byte[16](_ => 0);
      ectr := new byte[16](_ => 0);
      len, aad_len, rem_aad_inserted, used := 0, 0, false, [];
    }

    // gcm_mult(ctx, buf, buf)
    method MultBuf()
      requires Valid()
      modifies buf
      ensures Valid() && buf[..] == M()(old(buf[..]))
    {
      T.GcmMult(HH, HL, buf, buf, H());
    }

    // gcm_setkey: no key is no work, an unsupported length an error.
    method SetKey(key: array?<byte>, keylen: nat) returns (ret: int)
      requires Shaped() && (key != null ==> keylen <= key.Length)
      modifies this`cipher, HL, HH
      ensures Shaped()
      ensures key == null || keylen !in {16, 24, 32} ==>
                cipher == old(cipher) && HL[..] == old(HL[..]) && HH[..] == old(HH[..])
      ensures ret == if key != null && keylen !in {16, 24, 32} then -22 else 0
      ensures key != null && keylen in {16, 24, 32} ==>
                && cipher == aes(key[..keylen]) && Valid()
                && T.TablesFor(HH[..], HL[..], Subkey(aes(key[..keylen])))
    {
      if key == null {
        return 0;
      }
      if keylen !in {16, 24, 32} {
        return -EINVAL;
      }
      hide T.TablesFor, W.Words, Subkey;
      cipher := aes(key[..keylen]);
      SubkeyIs(cipher);
      var h := cipher(ZBLOCK);
      W.WordsOfBlock(h);
      T.BuildTables(HH, HL, W.PtrToBe64(h[..8]), W.PtrToBe64(h[8..]));
      ret := 0;
    }

    // XOR use_len bytes into buf from position pos on and multiply if that fills the block: what a
    // round of gcm_aad and of the two update loops does with the bytes to be hashed.
    method HashPiece(src: array<byte>, off: nat, use_len: nat, pos: nat)
      requires Valid() && off + use_len <= src.Length && src !in Repr
      requires pos < 16 && 0 < use_len && pos + use_len <= 16
      modifies buf
      ensures Valid()
      ensures buf[..] == Absorb(M(), old(buf[..]), pos, src[off..off + use_len])
    {
      hide T.TablesFor, Absorb, HMul, XorAt;
      AbsorbChunk(M(), buf[..], pos, src[off..off + use_len]);
      XorInto(buf, pos, src, off, use_len);
      if pos + use_len == 16 {
        MultBuf();
      }
    }

    // gcm_aad
    method AddAad(aad: array<byte>, off: nat, n: nat)
      requires Valid() && off + n <= aad.Length && aad !in Repr
      modifies buf, this`aad_len
      ensures Valid()
      ensures Abs() == Aad(M(), old(Abs()), aad[off..off + n])
    {
      hide T.TablesFor, Absorb, HMul;
      var rem_aad := aad_len % 16;
      ghost var pos, b0, d := rem_aad, buf[..], aad[off..off + n];
      aad_len := (aad_len + n) % TWO64;
      var done := 0;
      AbsorbEmpty(M(), b0, pos);
      while done < n
        invariant done <= n && Valid() && aad_len == (old(aad_len) + n) % TWO64
        invariant rem_aad < 16 && (done < n ==> rem_aad == (pos + done) % 16)
        invariant buf[..] == Absorb(M(), b0, pos, d[..done])
      {
        var use_len := if n - done < 16 - rem_aad then n - done else 16 - rem_aad;
        AlignStep(pos + done, use_len);
        HashPiece(aad, off + done, use_len, rem_aad);
        AbsorbNextPiece(M(), b0, pos, aad[..], off, n, done, use_len);
        done := done + use_len;
        rem_aad := 0;
      }
      assert d[..n] == d;
    }

    // The byte-carry loop on the last four bytes of y.
    method IncCounter()
      requires Shaped()
      modifies y
      ensures y[..] == Inc32(old(y[..]))
    {
      hide Inc32, CarryInc;
      ghost var y0: Block := y[..];
      ghost var c := CarryInc(y0[12..]);
      CarryIncIsInc32(y0);
      CarryNone(y0);
      var i := 16;
      while i > 12
        invariant 12 <= i <= 16
        invariant y[..] == y0[..i] + c[i - 12..]
        invariant c == CarryInc(y0[12..i]) + c[i - 12..]
        decreases i
      {
        CarryRound(y0, c, i);
        y[i - 1] := y[i - 1] + 1;
        assert y[..] == (y0[..i] + c[i - 12..])[i - 1 := y0[i - 1] + 1];
        if y[i - 1] != 0 {
          break;
        }
        i := i - 1;
      }
    }

    // y is incremented, enciphered into ectr and recorded.
    method NextKeystream()
      requires Valid()
      modifies y, ectr, this`used
      ensures Valid() && Abs() == NextCounter(cipher, old(Abs()))
    {
      hide T.TablesFor, Inc32, HMul;
      IncCounter();
      Store(ectr, 0, cipher(y[..]));
      used := used + [y[..]];
      assert ectr[..] == cipher(y[..]);
    }

    // What a piece of data does to the arrays of the context, st being the context with the length
    // counted byte by byte.
    ghost predicate Tracks(st: Gst)
      requires Shaped()
      reads this, y, buf, base_ectr, ectr
    {
      Abs().(len := st.len) == st
    }

    // At the start of a block the counter is incremented and enciphered.
    method Position(ghost st: Gst, non_align: nat)
      requires Valid() && st.len % 16 == non_align && Tracks(st)
      modifies y, ectr, this`used
      ensures Valid() && Tracks(Positioned(cipher, st))
    {
      hide T.TablesFor, HMul, NextCounter;
      if non_align == 0 {
        NextKeystream();
        NextCounterFrame(cipher, st);
        NextCounterLen(cipher, st, old(Abs()));
      }
    }

    // One round of gcm_enc_update: encrypt first, then hash the output.
    method EncPiece(ghost st: Gst, pt: array<byte>, po: nat, ct: array<byte>, co: nat, use_len: nat, non_align: nat)
      requires Valid() && pt !in Repr && ct !in Repr && po + use_len <= pt.Length && co + use_len <= ct.Length
      requires SameOrApart(ct, co, pt, po, use_len)
      requires 0 < use_len && non_align + use_len <= 16 && st.len % 16 == non_align && Tracks(st)
      modifies buf, y, ectr, ct, this`used
      ensures Valid()
      ensures var (s, o) := Piece(cipher, M(), false, st, old(pt[po..po + use_len]));
              Tracks(s) && ct[..] == Overwrite(old(ct[..]), co, o)
    {
      hide T.TablesFor, Absorb, HMul, Xor, Positioned, Overwrite;
      Position(st, non_align);
      PositionedLen(cipher, st);
      Xor3(ct, co, ectr, non_align, pt, po, use_len);
      assert ct[co..co + use_len] == Xor(ectr[non_align..non_align + use_len], old(pt[po..po + use_len]));
      HashPiece(ct, co, use_len, non_align);
    }

    // One round of gcm_dec_update: hash the input before it may be overwritten.
    method DecPiece(ghost st: Gst, ct: array<byte>, co: nat, pt: array<byte>, po: nat, use_len: nat, non_align: nat)
      requires Valid() && pt !in Repr && ct !in Repr && po + use_len <= pt.Length && co + use_len <= ct.Length
      requires SameOrApart(pt, po, ct, co, use_len)
      requires 0 < use_len && non_align + use_len <= 16 && st.len % 16 == non_align && Tracks(st)
      modifies buf, y, ectr, pt, this`used
      ensures Valid()
      ensures var (s, o) := Piece(cipher, M(), true, st, old(ct[co..co + use_len]));
              Tracks(s) && pt[..] == Overwrite(old(pt[..]), po, o)
    {
      hide T.TablesFor, Absorb, HMul, Xor, Positioned, Overwrite;
      ghost var d := ct[co..co + use_len];
      Position(st, non_align);
      PositionedLen(cipher, st);
      assert ct[co..co + use_len] == d;
      HashPiece(ct, co, use_len, non_align);
      assert ct[co..co + use_len] == d;
      Xor3(pt, po, ectr, non_align, ct, co, use_len);
    }

    // The first update closes a partial AAD block.
    method FinishAad()
      requires Valid()
      modifies buf, this`rem_aad_inserted
      ensures Valid() && Abs() == CloseAad(M(), old(Abs()))
    {
      if aad_len % 16 != 0 && !rem_aad_inserted {
        hide T.TablesFor, HMul;
        MultBuf();
        rem_aad_inserted := true;
      }
    }

    // An update loop on the data d, read at io in inp and written at oo over o0, has taken done bytes.
    ghost predicate LoopAt(dec: bool, st: Gst, d: Bytes, inp: array<byte>, io: nat, out: array<byte>, oo: nat,
                           o0: Bytes, done: nat)
      requires Valid()
      reads this, Repr, inp, out
    {
      && done <= |d| && Unread(inp[..], io, d, done) && oo + |d| <= |o0|
      && var (s, o) := Crypt(cipher, M(), dec, st, d[..done]);
         Tracks(s) && out[..] == Overwrite(o0, oo, o)
    }

    lemma LoopStart(dec: bool, st: Gst, d: Bytes, inp: array<byte>, io: nat, out: array<byte>, oo: nat)
      requires Valid() && Tracks(st) && io + |d| <= inp.Length && oo + |d| <= out.Length && d == inp[io..io + |d|]
      ensures LoopAt(dec, st, d, inp, io, out, oo, out[..], 0)
    {
      hide T.TablesFor, HMul, Crypt, Overwrite, Unread, Tracks;
      UnreadAll(inp[..], io, |d|);
      CryptNone(cipher, M(), dec, st);
      OverwriteNone(out[..], oo);
      assert d[..0] == [];
    }

    // One round of gcm_enc_update.
    method EncRound(ghost st: Gst, ghost d: Bytes, pt: array<byte>, po: nat, ct: array<byte>, co: nat, ghost o0: Bytes,
                    n: nat, done: nat, non_align: nat)
      returns (use_len: nat)
      requires Valid() && pt !in Repr && ct !in Repr && po + n <= pt.Length && co + n <= ct.Length
      requires SameOrApart(ct, co, pt, po, n) && n == |d| && done < n
      requires st.len < TWO64 && non_align == (st.len + done) % 16
      requires LoopAt(false, st, d, pt, po, ct, co, o0, done)
      modifies buf, y, ectr, ct, this`used
      ensures Valid() && 0 < use_len <= n - done && LoopAt(false, st, d, pt, po, ct, co, o0, done + use_len)
      ensures done + use_len < n ==> (st.len + done + use_len) % 16 == 0
    {
      hide T.TablesFor, HMul, Piece, Crypt, Overwrite, Unread, Tracks;
      use_len := if n - done < 16 then n - done else 16;
      if use_len + non_align > 16 {
        use_len := 16 - non_align;
      }
      AlignStep(st.len + done, use_len);
      ghost var (s, o) := Crypt(cipher, M(), false, st, d[..done]);
      CryptNext(cipher, M(), false, st, d, done, use_len);
      UnreadPiece(pt[..], po, d, done, use_len);
      ghost var i1 := pt[..];
      EncPiece(s, pt, po + done, ct, co + done, use_len, non_align);
      ghost var q := Piece(cipher, M(), false, s, d[done..done + use_len]).1;
      OverwriteNext(o0, co, o, q);
      UnreadKept(i1, pt[..], po, d, done, co, q, pt == ct);
    }

    // The loop of gcm_enc_update, entered with the length already counted up.
    method EncLoop(ghost st: Gst, pt: array<byte>, po: nat, ct: array<byte>, co: nat, n: nat, non_align0: nat)
      requires Valid() && pt !in Repr && ct !in Repr && po + n <= pt.Length && co + n <= ct.Length
      requires SameOrApart(ct, co, pt, po, n)
      requires Tracks(st) && st.len < TWO64 && non_align0 == st.len % 16
      modifies buf, y, ectr, ct, this`used
      ensures Valid()
      ensures var (s, o) := Crypt(cipher, M(), false, st, old(pt[po..po + n]));
              Tracks(s) && ct[..] == Overwrite(old(ct[..]), co, o)
    {
      hide T.TablesFor, HMul, Crypt, Overwrite, Unread, Tracks;
      ghost var d, o0 := pt[po..po + n], ct[..];
      LoopStart(false, st, d, pt, po, ct, co);
      var non_align := non_align0;
      var done := 0;
      while done < n
        invariant done <= n && Valid() && LoopAt(false, st, d, pt, po, ct, co, o0, done)
        invariant done < n ==> non_align == (st.len + done) % 16
      {
        var use_len := EncRound(st, d, pt, po, ct, co, o0, n, done, non_align);
        done := done + use_len;
        non_align := 0;
      }
      assert d[..n] == d;
    }

    // One round of gcm_dec_update.
    method DecRound(ghost st: Gst, ghost d: Bytes, ct: array<byte>, co: nat, pt: array<byte>, po: nat, ghost o0: Bytes,
                    n: nat, done: nat, non_align: nat)
      returns (use_len: nat)
      requires Valid() && ct !in Repr && pt !in Repr && co + n <= ct.Length && po + n <= pt.Length
      requires SameOrApart(pt, po, ct, co, n) && n == |d| && done < n
      requires st.len < TWO64 && non_align == (st.len + done) % 16
      requires LoopAt(true, st, d, ct, co, pt, po, o0, done)
      modifies buf, y, ectr, pt, this`used
      ensures Valid() && 0 < use_len <= n - done && LoopAt(true, st, d, ct, co, pt, po, o0, done + use_len)
      ensures done + use_len < n ==> (st.len + done + use_len) % 16 == 0
    {
      hide T.TablesFor, HMul, Piece, Crypt, Overwrite, Unread, Tracks;
      use_len := if n - done < 16 then n - done else 16;
      if use_len + non_align > 16 {
        use_len := 16 - non_align;
      }
      AlignStep(st.len + done, use_len);
      ghost var (s, o) := Crypt(cipher, M(), true, st, d[..done]);
      CryptNext(cipher, M(), true, st, d, done, use_len);
      UnreadPiece(ct[..], co, d, done, use_len);
      ghost var i1 := ct[..];
      DecPiece(s, ct, co + done, pt, po + done, use_len, non_align);
      ghost var q := Piece(cipher, M(), true, s, d[done..done + use_len]).1;
      OverwriteNext(o0, po, o, q);
      UnreadKept(i1, ct[..], co, d, done, po, q, ct == pt);
    }

    // The loop of gcm_dec_update, entered with the length already counted up.
    method DecLoop(ghost st: Gst, ct: array<byte>, co: nat, pt: array<byte>, po: nat, n: nat, non_align0: nat)
      requires Valid() && ct !in Repr && pt !in Repr && co + n <= ct.Length && po + n <= pt.Length
      requires SameOrApart(pt, po, ct, co, n)
      requires Tracks(st) && st.len < TWO64 && non_align0 == st.len % 16
      modifies buf, y, ectr, pt, this`used
      ensures Valid()
      ensures var (s, o) := Crypt(cipher, M(), true, st, old(ct[co..co + n]));
              Tracks(s) && pt[..] == Overwrite(old(pt[..]), po, o)
    {
      hide T.TablesFor, HMul, Crypt, Overwrite, Unread, Tracks;
      ghost var d, o0 := ct[co..co + n], pt[..];
      LoopStart(true, st, d, ct, co, pt, po);
      var non_align := non_align0;
      var done := 0;
      while done < n
        invariant done <= n && Valid() && LoopAt(true, st, d, ct, co, pt, po, o0, done)
        invariant done < n ==> non_align == (st.len + done) % 16
      {
        var use_len := DecRound(st, d, ct, co, pt, po, o0, n, done, non_align);
        done := done + use_len;
        non_align := 0;
      }
      assert d[..n] == d;
    }

    // gcm_enc_update; ct may be pt.
    method EncUpdate(pt: array<byte>, po: nat, ct: array<byte>, co: nat, n: nat)
      requires Valid() && pt !in Repr && ct !in Repr && po + n <= pt.Length && co + n <= ct.Length
      requires SameOrApart(ct, co, pt, po, n)
      modifies buf, y, ectr, ct, this`len, this`rem_aad_inserted, this`used
      ensures Valid()
      ensures var (s, o) := GcmStream.EncUpdate(cipher, M(), old(Abs()), old(pt[po..po + n]));
              Abs() == s && ct[..] == Overwrite(old(ct[..]), co, o)
    {
      hide T.TablesFor, HMul, Crypt, Overwrite;
      FinishAad();
      ghost var st := Abs();
      var non_align := len % 16;
      len := (len + n) % TWO64;
      if len > MAX_LEN {
        Store(ct, co, Zeros(n));
        return;
      }
      CryptLen(cipher, M(), false, st, pt[po..po + n]);
      EncLoop(st, pt, po, ct, co, n, non_align);
    }

    // gcm_dec_update; pt may be ct.
    method DecUpdate(ct: array<byte>, co: nat, pt: array<byte>, po: nat, n: nat)
      requires Valid() && pt !in Repr && ct !in Repr && po + n <= pt.Length && co + n <= ct.Length
      requires SameOrApart(pt, po, ct, co, n)
      modifies buf, y, ectr, pt, this`len, this`rem_aad_inserted, this`used
      ensures Valid()
      ensures var (s, o) := GcmStream.DecUpdate(cipher, M(), old(Abs()), old(ct[co..co + n]));
              Abs() == s && pt[..] == Overwrite(old(pt[..]), po, o)
    {
      hide T.TablesFor, HMul, Crypt, Overwrite;
      FinishAad();
      ghost var st := Abs();
      var non_align := len % 16;
      len := (len + n) % TWO64;
      CryptLen(cipher, M(), true, st, ct[co..co + n]);
      DecLoop(st, ct, co, pt, po, n, non_align);
    }

    // The block with the two bit lengths, hashed.
    method HashLengths(orig_aad_len: nat, orig_len: nat)
      requires Valid()
      modifies buf
      ensures Valid() && buf[..] == M()(Xor(old(buf[..]), Be(orig_aad_len, 8) + Be(orig_len, 8)))
    {
      hide T.TablesFor, HMul, Xor, XorAt, Overwrite, Be;
      ghost var b1: Block := buf[..];
      var work_buf := new byte[16](_ => 0);
      var lengths: Block := Be(orig_aad_len, 8) + Be(orig_len, 8);
      Store(work_buf, 0, lengths);
      OverwriteAll(Zeros(16), lengths);
      assert work_buf[0..16] == lengths;
      XorInto(buf, 0, work_buf, 0, 16);
      XorWhole(b1, lengths);
      MultBuf();
    }

    // gcm_enc_final: nothing happens for an unsupported tag length.
    method EncFinal(tag: array<byte>, off: nat, tag_len: nat)
      requires Valid() && tag !in Repr && off + tag_len <= tag.Length
      modifies buf, tag
      ensures Valid()
      ensures tag_len < 8 || tag_len > 16 ==> Abs() == old(Abs()) && tag[..] == old(tag[..])
      ensures 8 <= tag_len <= 16 ==>
                var (s, t) := Final(M(), old(Abs()), tag_len);
                Abs() == s && tag[..] == Overwrite(old(tag[..]), off, t)
    {
      hide T.TablesFor, HMul, Xor, XorAt, Overwrite, Be;
      var orig_len, orig_aad_len := len * 8 % TWO64, aad_len * 8 % TWO64;
      if tag_len < 8 || tag_len > 16 {
        return;
      }
      if len % 16 != 0 {
        MultBuf();
      }
      Store(tag, off, base_ectr[..tag_len]);
      if orig_len != 0 || orig_aad_len != 0 {
        HashLengths(orig_aad_len, orig_len);
        XorInto(tag, off, buf, 0, tag_len);
        XorOverwritten(old(tag[..]), off, base_ectr[..tag_len], buf[0..tag_len]);
      }
    }

    // gcm_dec_final: for tags below 8 bytes nothing is computed and the verdict is that of whatever
    // check_tag holds.
    method DecFinal(tag: array<byte>, off: nat, taglen: nat) returns (ret: int)
      requires Valid() && tag !in Repr && off + taglen <= tag.Length && taglen <= 16
      modifies buf
      ensures Valid() && (ret == 0 || ret == -74)
      ensures taglen >= 8 ==>
                var (s, r) := GcmStream.DecFinal(M(), old(Abs()), tag[off..off + taglen]);
                Abs() == s && ret == r
      ensures taglen < 8 ==> Abs() == old(Abs()) && (taglen == 0 ==> ret == 0)
    {
      hide T.TablesFor, HMul, Final;
      var check_tag := new byte[16];
      EncFinal(check_tag, 0, taglen);
      ret := if tag[off..off + taglen] != check_tag[..taglen] then -EBADMSG else 0;
    }

    // gcm_mult(ctx, y, y)
    method MultY()
      requires Valid()
      modifies y
      ensures Valid() && y[..] == M()(old(y[..]))
    {
      T.GcmMult(HH, HL, y, y, H());
    }

    // The loop of gcm_setiv over an IV that is not 12 bytes long; use_len is the last piece.
    method HashIv(iv: array<byte>, iv_len: nat) returns (use_len: nat)
      requires Valid() && iv_len <= iv.Length && iv !in Repr
      modifies y
      ensures Valid()
      ensures y[..] == IvLoop(M(), old(y[..]), iv[..iv_len]) && use_len == UseLen(iv_len)
    {
      hide T.TablesFor, HMul, XorAt, IvLoop;
      ghost var y0: Block := y[..];
      var p := 0;
      use_len := 0;
      while p < iv_len
        invariant p <= iv_len && Valid()
        invariant IvLoop(M(), y0, iv[..iv_len]) == IvLoop(M(), y[..], iv[p..iv_len])
        invariant p % 16 == 0 || p == iv_len
        invariant use_len == UseLen(p)
      {
        use_len := if iv_len - p < 16 then iv_len - p else 16;
        IvLoopNext(M(), y[..], iv[..], p, iv_len);
        assert iv[..][p..p + use_len] == iv[p..p + use_len];
        XorInto(y, 0, iv, p, use_len);
        MultY();
        p := p + use_len;
      }
      IvLoopDone(M(), y[..], iv[p..iv_len]);
    }

    // The pre-counter block from an IV, y being zero.
    method CounterFromIv(iv: array<byte>, iv_len: nat)
      requires Valid() && iv_len <= iv.Length && iv !in Repr && y[..] == ZBLOCK
      modifies y
      ensures Valid() && y[..] == CodeJ0(M(), iv[..iv_len])
    {
      hide T.TablesFor, HMul, Overwrite, IvLoop, XorAt, Be;
      if iv_len == 12 {
        Store(y, 0, iv[..12]);
        NativeIv(iv[..12]);
        y[15] := 1;
      } else {
        var work_buf := new byte[16](_ => 0);
        var work := IvWork(iv_len);
        Store(work_buf, 0, work);
        OverwriteAll(Zeros(16), work);
        var use_len := HashIv(iv, iv_len);
        assert work_buf[0..use_len] == work[..use_len];
        XorInto(y, 0, work_buf, 0, use_len);
        MultY();
      }
    }

    // gcm_setiv: no IV is no work; otherwise the fields of the previous message are reset.
    method SetIv(iv: array?<byte>, iv_len: nat) returns (ret: int)
      requires Valid() && (iv != null ==> iv_len <= iv.Length) && iv !in Repr
      modifies this`aad_len, this`len, this`rem_aad_inserted, this`used, buf, y, base_ectr
      ensures Valid() && ret == 0
      ensures iv == null ==> Abs() == old(Abs())
      ensures iv != null ==> Abs() == GcmIv.SetIv(cipher, M(), old(Abs()), iv[..iv_len])
    {
      ret := 0;
      if iv == null {
        return;
      }
      hide T.TablesFor, HMul, Overwrite, CodeJ0;
      aad_len := 0;
      rem_aad_inserted := false;
      Store(buf, 0, ZBLOCK);
      OverwriteAll(old(buf[..]), ZBLOCK);
      Store(y, 0, ZBLOCK);
      OverwriteAll(old(y[..]), ZBLOCK);
      len := 0;
      used := [];
      CounterFromIv(iv, iv_len);
      Store(base_ectr, 0, cipher(y[..]));
      OverwriteAll(old(base_ectr[..]), cipher(y[..]));
    }

    // An IV has been set and nothing has been processed under it.
    ghost predicate Fresh()
      requires Shaped()
      reads this, y, buf, base_ectr, ectr
    {
      Open(cipher, M(), y[..], [], Abs())
    }

    // gcm_set_key_iv_nocheck
    method SetKeyIv(key: array?<byte>, keylen: nat, iv: array?<byte>, iv_len: nat) returns (ret: int)
      requires Shaped() && iv !in Repr && key !in Repr && (key == null && iv != null ==> Valid())
      requires (key != null ==> keylen <= key.Length) && (iv != null ==> iv_len <= iv.Length)
      modifies this, HL, HH, buf, y, base_ectr
      ensures Shaped() && ret == if key != null && keylen !in {16, 24, 32} then -22 else 0
      ensures key == null ==> cipher == old(cipher) && HL[..] == old(HL[..]) && HH[..] == old(HH[..])
      ensures key != null && ret == 0 ==> Valid() && cipher == aes(old(key[..keylen]))
      ensures iv == null || ret != 0 ==> Abs() == old(Abs())
      ensures iv != null && ret == 0 ==>
                && Valid() && Fresh()
                && (Conforms(iv_len) ==>
                      y[..] == PreCounter(if key == null then old(cipher) else aes(old(key[..keylen])), iv[..iv_len]))
    {
      hide T.TablesFor, HMul, CodeJ0, J0, Open, PreCounter, Subkey;
      ret := SetKey(key, keylen);
      if ret != 0 || iv == null {
        return;
      }
      SetIvOpens(cipher, M(), Abs(), iv[..iv_len]);
      ret := SetIv(iv, iv_len);
      if Conforms(iv_len) {
        SubkeyIs(cipher);
        J0Conforms(M(), iv[..iv_len]);
        PreCounterIs(cipher, iv[..iv_len]);
      }
    }

    // gcm_encrypt on a fresh context: section 7.1 of NIST SP 800-38D.
    method Encrypt(pt: array<byte>, po: nat, ct: array<byte>, co: nat, n: nat, aad: array<byte>, ao: nat, aadlen: nat,
                   tag: array<byte>, to: nat, taglen: nat, ghost key: Bytes)
      requires Valid() && pt !in Repr && ct !in Repr && aad !in Repr && tag !in Repr
      requires po + n <= pt.Length && co + n <= ct.Length && ao + aadlen <= aad.Length && to + taglen <= tag.Length
      requires SameOrApart(ct, co, pt, po, n)
      requires tag != ct || to + taglen <= co || co + n <= to
      requires Fresh() && cipher == aes(key)
      requires 8 <= taglen <= 16 && n <= 0xF_FFFF_FFF0 && aadlen < 0x2000_0000_0000_0000
      modifies this, buf, y, ectr, ct, tag
      ensures Valid()
      ensures var P, A, C := old(pt[po..po + n]), old(aad[ao..ao + aadlen]), ct[co..co + n];
              && (forall k :: 0 <= k < n ==> C[k] == CipherByte(aes(key), old(y[..]), P, k))
              && (forall k :: 0 <= k < taglen ==> tag[to..to + taglen][k] == TagByte(aes(key), old(y[..]), A, C, k))
    {
      hide T.TablesFor, HMul, Open, Final, Tag, Ciphertext, GcmStream.EncUpdate, Aad, Subkey, CipherByte, TagByte;
      SubkeyIs(cipher);
      ghost var C := GcmStream.EncUpdate(cipher, M(), Aad(M(), Abs(), aad[ao..ao + aadlen]), pt[po..po + n]).1;
      HMulZero(H());
      OneShotEncryption(cipher, M(), y[..], Abs(), aad[ao..ao + aadlen], pt[po..po + n], taglen);
      AddAad(aad, ao, aadlen);
      EncUpdate(pt, po, ct, co, n);
      assert ct[co..co + n] == C;
      EncFinal(tag, to, taglen);
      assert ct[co..co + n] == C;
      EncryptionIs(cipher, old(y[..]), old(pt[po..po + n]), old(aad[ao..ao + aadlen]), C, taglen);
    }

    // gcm_decrypt on a fresh context: section 7.2 of NIST SP 800-38D, except that the plaintext is
    // put out even when the tag is refused.
    method Decrypt(ct: array<byte>, co: nat, pt: array<byte>, po: nat, n: nat, aad: array<byte>, ao: nat, aadlen: nat,
                   tag: array<byte>, to: nat, taglen: nat, ghost key: Bytes)
      returns (ret: int)
      requires Valid() && pt !in Repr && ct !in Repr && aad !in Repr && tag !in Repr
      requires po + n <= pt.Length && co + n <= ct.Length && ao + aadlen <= aad.Length && to + taglen <= tag.Length
      requires SameOrApart(pt, po, ct, co, n)
      requires tag != pt || to + taglen <= po || po + n <= to
      requires Fresh() && cipher == aes(key)
      requires 8 <= taglen <= 16 && n <= 0xF_FFFF_FFF0 && aadlen < 0x2000_0000_0000_0000
      modifies this, buf, y, ectr, pt
      ensures Valid() && (ret == 0 || ret == -74)
      ensures var P, A, C := pt[po..po + n], old(aad[ao..ao + aadlen]), old(ct[co..co + n]);
              && (forall k :: 0 <= k < n ==> C[k] == CipherByte(aes(key), old(y[..]), P, k))
              && (ret == 0 <==>
                  forall k :: 0 <= k < taglen ==> tag[to..to + taglen][k] == TagByte(aes(key), old(y[..]), A, C, k))
    {
      hide T.TablesFor, HMul, Open, Tag, Ciphertext, GcmStream.DecUpdate, Aad, GcmStream.DecFinal, Gctr, Inc32;
      hide Subkey, CipherByte, TagByte;
      SubkeyIs(cipher);
      ghost var t0 := tag[to..to + taglen];
      HMulZero(H());
      OneShotDecryption(cipher, M(), y[..], Abs(), aad[ao..ao + aadlen], ct[co..co + n], t0);
      ghost var P := GcmStream.DecUpdate(cipher, M(), Aad(M(), Abs(), aad[ao..ao + aadlen]), ct[co..co + n]).1;
      AddAad(aad, ao, aadlen);
      DecUpdate(ct, co, pt, po, n);
      assert pt[po..po + n] == P;
      assert tag[to..to + taglen] == t0;
      ret := DecFinal(tag, to, taglen);
      EncryptionIs(cipher, old(y[..]), P, [], [], 0);
      TagVerdict(cipher, old(y[..]), old(aad[ao..ao + aadlen]), old(ct[co..co + n]), t0);
    }
  }

  lemma NativeIv(iv: Bytes)
    requires |iv| == 12
    ensures Overwrite(ZBLOCK, 0, iv)[15 := 1] == iv + [0, 0, 0, 1]
  {
  }

  lemma IvLoopNext(M: BlockFn, y: Block, s: Bytes, p: nat, n: nat)
    requires p < n <= |s|
    ensures var u := if n - p < 16 then n - p else 16;
            IvLoop(M, y, s[p..n]) == IvLoop(M, M(XorAt(y, 0, s[p..p + u])), s[p + u..n])
  {
    hide XorAt;
    var u := if n - p < 16 then n - p else 16;
    if u == 16 {
      assert s[p..n][..16] == s[p..p + 16] && s[p..n][16..] == s[p + 16..n];
    } else {
      IvLoopDone(M, M(XorAt(y, 0, s[p..n])), s[n..n]);
    }
  }

  lemma IvLoopDone(M: BlockFn, y: Block, e: Bytes)
    requires e == []
    ensures IvLoop(M, y, e) == y
  {
  }

  lemma AlignStep(a: nat, u: nat)
    ensures a % 16 + u == 16 ==> (a + u) % 16 == 0
  {
  }

  lemma NextCounterLen(E: BlockFn, st: Gst, a: Gst)
    requires a.(len := st.len) == st
    ensures NextCounter(E, a).(len := st.len) == NextCounter(E, st)
  {
  }

  lemma CarryNone(b: Block)
    ensures CarryInc(b[12..12]) == [] && b[..16] == b && b[12..16] == b[12..]
  {
  }

  lemma CarryLast(c: Bytes)
    requires c != []
    ensures var l := c[|c| - 1] + 1;
            CarryInc(c) == (if l != 0 then c[..|c| - 1] else CarryInc(c[..|c| - 1])) + [l]
  {
  }

  // One round of the carry loop: c is the incremented counter, known from byte i on.
  lemma CarryRound(y0: Block, c: Bytes, i: nat)
    requires 12 < i <= 16 && |c| == 4 && c == CarryInc(y0[12..i]) + c[i - 12..]
    ensures var l := y0[i - 1] + 1;
            var y1 := (y0[..i] + c[i - 12..])[i - 1 := l];
            if l != 0 then y1 == y0[..12] + c
            else y1 == y0[..i - 1] + c[i - 13..] && c == CarryInc(y0[12..i - 1]) + c[i - 13..]
  {
    hide CarryInc;
    CarryLast(y0[12..i]);
    assert y0[12..i][..i - 13] == y0[12..i - 1];
  }

  lemma AbsorbEmpty(M: BlockFn, b: Block, pos: nat)
    ensures Absorb(M, b, pos, []) == b
  {
  }

  lemma SliceNext(s: Bytes, off: nat, n: nat, done: nat, u: nat)
    requires off + n <= |s| && done + u <= n
    ensures s[off..off + n][..done + u] == s[off..off + n][..done] + s[off + done..off + done + u]
  {
  }

  lemma AbsorbNextPiece(M: BlockFn, b: Block, pos: nat, s: Bytes, off: nat, n: nat, done: nat, u: nat)
    requires off + n <= |s| && done + u <= n
    ensures var d := s[off..off + n];
            Absorb(M, b, pos, d[..done + u]) ==
            Absorb(M, Absorb(M, b, pos, d[..done]), (pos + done) % 16, s[off + done..off + done + u])
  {
    hide Absorb;
    var d := s[off..off + n];
    SliceNext(s, off, n, done, u);
    AbsorbAppend(M, b, pos, d[..done], s[off + done..off + done + u]);
  }
}
