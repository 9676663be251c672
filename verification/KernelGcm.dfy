// The AES-GCM of the kernel: associated data added segment by segment, the update functions, and what
// a request amounts to.
module KernelGcm {
  import opened Bytes
  import opened Errno
  import opened Scatter
  import opened KernelUpdate
  import opened GcmSpec
  import opened GcmStream
  import opened GcmChunks
  import opened GcmRuns
  import opened GcmNoData
  import opened GcmIv
  import T = GcmTables
  import Gcm

  // gcm_enc_update, gcm_dec_update
  function GcmProcess(E: BlockFn, M: BlockFn, dec: bool): Process<Gst> {
    (s: Gst, d: Bytes) => var (t, o) := Update(E, M, dec, s, d); Outcome(t, o, 0)
  }

  // Encryption up to its limit of 2^32 - 1 blocks.
  lemma GcmIsChunked(E: BlockFn, M: BlockFn, dec: bool)
    ensures Chunked(GcmProcess(E, M, dec), (s: Gst, n: nat) => dec || s.len + n <= 0xF_FFFF_FFF0)
  {
    hide Update, Crypt;
    var f := GcmProcess(E, M, dec);
    forall s: Gst, a: Bytes, b: Bytes | a != [] && b != [] && (dec || s.len + |a| + |b| <= 0xF_FFFF_FFF0) && f(s, a).ret == 0
      ensures f(s, a + b) == Then(f, f(s, a), b)
    {
      UpdateAppend(E, M, dec, s, a, b);
    }
  }

  // ---- associated data ----

  lemma AadAppend(M: BlockFn, st: Gst, a: Bytes, b: Bytes)
    ensures GcmStream.Aad(M, GcmStream.Aad(M, st, a), b) == GcmStream.Aad(M, st, a + b)
  {
    hide Absorb;
    AbsorbAppend(M, st.buf, st.aadLen % 16, a, b);
    WrapStep(st.aadLen + |a|);
    SixteenMore(st.aadLen / 16, st.aadLen % 16 + |a|);
    WrapSum(st.aadLen + |a|, |b|);
  }

  lemma WrapSum(a: nat, b: nat)
    ensures (a % TWO64 + b) % TWO64 == (a + b) % TWO64
  {
  }

  // The gcm_aad call on the bytes the cursor offers.
  method AadPiece(c: Gcm.Cryptor, mem: array<byte>, addr: nat, todo: nat, ghost sg: seq<Seg>, ghost A: Bytes, ghost s: Gst,
                  ghost done: nat)
    requires c.Valid() && mem !in c.Repr && Fits(sg, mem.Length) && done + todo <= |A| <= Total(sg)
    requires A == Gather(mem[..], sg, 0, |A|) && Flat(sg, done, done + todo, addr) && addr + todo <= mem.Length
    requires c.Abs() == GcmStream.Aad(c.M(), s, A[..done])
    modifies c`aad_len, c.buf
    ensures c.Valid() && c.Abs() == GcmStream.Aad(c.M(), s, A[..done + todo])
  {
    hide GcmStream.Aad, Gather, Addr, Total, Flat, T.TablesFor, HMul;
    FlatGather(mem[..], sg, |A|, done, todo, addr);
    c.AddAad(mem, addr, todo);
    AadAppend(c.M(), s, A[..done], A[done..done + todo]);
    assert A[..done + todo] == A[..done] + A[done..done + todo];
  }

  // lc_aes_gcm_aad: one gcm_aad call for each piece the cursor offers. An empty segment that stops the
  // cursor ends it with an error after the done bytes before it.
  method GcmAad(c: Gcm.Cryptor, mem: array<byte>, sg: seq<Seg>, nbytes: nat) returns (ret: int, ghost done: nat)
    requires c.Valid() && mem !in c.Repr && Fits(sg, mem.Length) && nbytes <= Total(sg)
    modifies c`aad_len, c.buf
    ensures c.Valid() && done <= nbytes
    ensures c.Abs() == GcmStream.Aad(c.M(), old(c.Abs()), Gather(mem[..], sg, 0, nbytes)[..done])
    ensures ret == (if Stuck(sg, 0, nbytes) then -22 else 0) && (ret == 0 <==> done == nbytes)
    ensures ret != 0 ==> StuckAt(sg, 0, nbytes, done)
  {
    hide GcmStream.Aad, Gather, Addr, Total, Flat, Stuck, StuckAt, Walk.Smooth, Walk.SmoothBefore, Fits,
         T.TablesFor, HMul;
    ghost var A, s := Gather(mem[..], sg, 0, nbytes), c.Abs();
    done := 0;
    AadNone(c.M(), s, A);
    if nbytes == 0 {
      NotStuckNowhere(sg);
      return 0, 0;
    }
    var src_walk := new Walk(sg, 0);
    var left := nbytes;
    while left > 0
      invariant 0 <= left && left + done == nbytes && c.Valid()
      invariant src_walk.Valid() && src_walk.Smooth() && src_walk.origin == 0
      invariant src_walk.sg == sg && src_walk.Pos() == done && fresh(src_walk)
      invariant c.Abs() == GcmStream.Aad(c.M(), s, A[..done])
      decreases left
    {
      var addr, todo := src_walk.Next(left);
      if todo == 0 {
        src_walk.AtEmpty(nbytes);
        return -EINVAL, done;
      }
      AadPiece(c, mem, addr, todo, sg, A, s, done);
      src_walk.Done(todo);
      left := left - todo;
      done := done + todo;
    }
    src_walk.SmoothIsBefore();
    src_walk.NeverStuck();
    ret := 0;
  }

  lemma AadNone(M: BlockFn, st: Gst, A: Bytes)
    requires st.aadLen < TWO64
    ensures GcmStream.Aad(M, st, A[..0]) == st
  {
    AbsorbNone(M, st.buf);
  }

  lemma NotStuckNowhere(sg: seq<Seg>)
    ensures !Stuck(sg, 0, 0)
  {
  }

  // Eight bytes of associated data with an empty segment in the middle: the second half is dropped.
  lemma EmptySegmentCuts()
    ensures var sg := [Seg(0, 4), Seg(4, 0), Seg(4, 4)];
            && Total(sg) == 8 && Fits(sg, 8) && Stuck(sg, 0, 8) && StuckAt(sg, 0, 8, 4)
  {
    var sg := [Seg(0, 4), Seg(4, 0), Seg(4, 4)];
    assert sg[..0] == [] && sg[..1][1..] == [] && sg[..2][1..][1..] == [] && sg[1..][1..][1..] == [];
    assert Total(sg[..0]) == 0;
    assert Total(sg[..1]) == 4;
    assert Total(sg[..2]) == 4 + Total(sg[..2][1..]) == 4;
    assert Total(sg) == 4 + Total(sg[1..]) == 4 + Total(sg[1..][1..]) == 8 + Total(sg[1..][1..][1..]);
    assert Stops(sg, 1, 0, 8);
  }

  // ---- requests ----

  // A request over any segments, from the state after gcm_setiv, of whose associated data B the first
  // done bytes were added, all of them or as many as precede an empty segment, the error being
  // ignored: the ciphertext of section 7.1 of NIST SP 800-38D; its tag over those done bytes only,
  // unless there are no data behind a partial block; and over the ciphertext, from the same bytes, the
  // plaintext and acceptance of that tag.
  lemma GcmRequest(E: BlockFn, M: BlockFn, j0: Block, st: Gst, B: Bytes, done: nat, P: Bytes, t: nat)
    requires M(ZBLOCK) == ZBLOCK && Started(E, j0, st)
    requires 8 <= t <= 16 && done <= |B| && done < MAX_AAD && |P| <= MAX_LEN
    ensures var s := GcmStream.Aad(M, st, B[..done]);
            var e := Effect(GcmProcess(E, M, false), s, P);
            var d := Effect(GcmProcess(E, M, true), s, e.out);
            && e.ret == 0 && e.out == Ciphertext(E, j0, P)
            && (P != [] || done % 16 == 0 ==> Final(M, e.ctx, t).1 == Tag(E, M, j0, B[..done], e.out, t))
            && d.ret == 0 && d.out == P && DecFinal(M, d.ctx, Final(M, e.ctx, t).1).1 == 0
  {
    hide Final, Tag, Ciphertext, EncUpdate, DecUpdate, GcmStream.Aad, Absorb, AadRun, Gctr;
    var A := B[..done];
    AbsorbNone(M, ZBLOCK);
    if P == [] {
      FlattenOne(A);
      OneAad(M, st, A);
      CiphertextNone(E, j0);
      if |A| % 16 == 0 {
        AlignedTag(E, M, j0, [A], st, t);
      }
      VerdictOfOwnTag(M, GcmStream.Aad(M, st, A), t);
    } else {
      OneShotEncryption(E, M, j0, st, A, P, t);
      var C := Ciphertext(E, j0, P);
      OneShotDecryption(E, M, j0, st, A, C, Tag(E, M, j0, A, C, t));
      CiphertextInverts(E, j0, P);
    }
  }

  lemma OneAad(M: BlockFn, st: Gst, A: Bytes)
    ensures AadRun(M, st, [A]) == GcmStream.Aad(M, st, A)
  {
    hide GcmStream.Aad;
    assert [A][..0] == [];
    assert AadRun(M, st, []) == st;
  }

  lemma CiphertextNone(E: BlockFn, j0: Block)
    ensures Ciphertext(E, j0, []) == []
  {
  }

  lemma VerdictOfOwnTag(M: BlockFn, st: Gst, t: nat)
    requires 8 <= t <= 16
    ensures DecFinal(M, st, Final(M, st, t).1).1 == 0
  {
    hide Final;
  }

  // GCTR is its own inverse.
  lemma CiphertextInverts(E: BlockFn, j0: Block, P: Bytes)
    ensures Gctr(E, Inc32(j0), Ciphertext(E, j0, P)) == P
  {
    hide Gctr, StreamXor;
    GctrIsStreamXor(E, j0, P);
    GctrIsStreamXor(E, j0, Ciphertext(E, j0, P));
    StreamXorTwice(E, j0, P);
  }
}
