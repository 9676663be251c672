// Whole GCM messages: any cut of the AAD and the data meets NIST SP 800-38D, decryption inverts
// encryption, counters never repeat, and a rejected update stays rejected.
module GcmRuns {
  import opened Bytes
  import opened Endian
  import opened GcmSpec
  import opened GcmStream

  // Limit of section 5.2.1.1 on the AAD: its bit length fits 64 bits.
  const MAX_AAD: nat := TWO64 / 8

  // A message in progress: either no update has happened yet or C has been produced.
  ghost predicate Running(E: BlockFn, M: BlockFn, j0: Block, A: Bytes, st: Gst, C: Bytes) {
    Sealed(E, M, j0, A, CloseAad(M, st), C) && st.len == |C|
  }

  lemma {:induction false} FlattenLength(ds: seq<Bytes>, os: seq<Bytes>)
    requires |ds| == |os| && forall i :: 0 <= i < |ds| ==> |ds[i]| == |os[i]|
    ensures |Flatten(ds)| == |Flatten(os)|
  {
    if ds != [] {
      FlattenLength(ds[..|ds| - 1], os[..|os| - 1]);
    }
  }

  lemma StreamXorAppend(E: BlockFn, j0: Block, a: Bytes, b: Bytes)
    ensures StreamXor(E, j0, 0, a + b) == StreamXor(E, j0, 0, a) + StreamXor(E, j0, |a|, b)
  {
    hide Keystream;
  }

  lemma SealedStaysClosed(E: BlockFn, M: BlockFn, j0: Block, A: Bytes, st: Gst, C: Bytes)
    requires Sealed(E, M, j0, A, st, C)
    ensures CloseAad(M, st) == st && st.len == |C|
  {
  }

  // Any number of updates: what has been put out is the keystream XOR of what has been put in.
  lemma {:induction false} UpdateRunSeals(E: BlockFn, M: BlockFn, dec: bool, j0: Block, A: Bytes, st: Gst, ds: seq<Bytes>)
    requires Open(E, M, j0, A, st) && |Flatten(ds)| <= MAX_LEN
    ensures var (st2, os) := UpdateRun(E, M, dec, st, ds);
            && Flatten(os) == StreamXor(E, j0, 0, Flatten(ds))
            && Running(E, M, j0, A, st2, CtOf(dec, Flatten(ds), Flatten(os)))
            && (ds != [] ==> Sealed(E, M, j0, A, st2, CtOf(dec, Flatten(ds), Flatten(os))))
  {
    if ds == [] {
      CloseSeals(E, M, j0, A, st);
    } else {
      hide Sealed, StreamXor, Update, CloseAad, CtOf;
      var i, d := ds[..|ds| - 1], ds[|ds| - 1];
      UpdateRunSeals(E, M, dec, j0, A, st, i);
      var (st1, os) := UpdateRun(E, M, dec, st, i);
      var C := CtOf(dec, Flatten(i), Flatten(os));
      FlattenLength(i, os);
      CtOfLength(dec, Flatten(i), Flatten(os));
      UpdateSeals(E, M, dec, j0, A, st1, C, d);
      var (st2, o) := Update(E, M, dec, st1, d);
      StreamXorAppend(E, j0, Flatten(i), d);
      CtOfAppend(dec, Flatten(i), Flatten(os), d, o);
      assert (os + [o])[..|ds| - 1] == os;
      SealedStaysClosed(E, M, j0, A, st2, C + CtOf(dec, d, o));
    }
  }

  lemma CtOfAppend(dec: bool, a: Bytes, b: Bytes, c: Bytes, d: Bytes)
    ensures CtOf(dec, a, b) + CtOf(dec, c, d) == CtOf(dec, a + c, b + d)
  {
  }

  // ---- GCTR of section 6.5 is the keystream XOR ----

  lemma {:induction false} Inc32NSucc(j0: Block, n: nat)
    ensures Inc32N(Inc32(j0), n) == Inc32N(j0, n + 1)
  {
    hide Inc32;
    if n > 0 {
      Inc32NSucc(j0, n - 1);
    }
  }

  lemma KeystreamNext(E: BlockFn, j0: Block, k: nat)
    ensures Keystream(E, j0, 16 + k) == Keystream(E, Inc32(j0), k)
    ensures k < 16 ==> Keystream(E, j0, k) == E(Inc32(j0))[k]
  {
    hide Inc32;
    Inc32NSucc(j0, k / 16 + 1);
    assert (16 + k) / 16 + 1 == k / 16 + 2 && (16 + k) % 16 == k % 16;
    assert k < 16 ==> Inc32N(j0, 1) == Inc32(Inc32N(j0, 0));
  }

  lemma {:induction false} GctrIsStreamXor(E: BlockFn, j0: Block, X: Bytes)
    ensures Gctr(E, Inc32(j0), X) == StreamXor(E, j0, 0, X)
    decreases |X|
  {
    hide Inc32, Keystream;
    if |X| > 16 {
      GctrIsStreamXor(E, Inc32(j0), X[16..]);
    }
    forall k | 0 <= k < |X| ensures Gctr(E, Inc32(j0), X)[k] == StreamXor(E, j0, 0, X)[k] {
      KeystreamNext(E, j0, k);
      if k >= 16 {
        KeystreamNext(E, j0, k - 16);
      }
    }
  }

  // ---- the tag ----

  lemma {:induction false} BeZero(n: nat)
    ensures Be(0, n) == Zeros(n)
  {
    if n > 0 {
      BeZero(n - 1);
    }
  }

  lemma ZeroLengths(Y: Block)
    ensures Xor(Y, LengthBlock(0, 0)) == Y
  {
    BeZero(8);
    XorZeros(Y, 0, 16);
    XorWhole(Y, Zeros(16));
    assert LengthBlock(0, 0) == Zeros(16);
  }

  lemma WorkIsLengthBlock(st: Gst)
    requires st.aadLen < MAX_AAD && st.len <= MAX_LEN
    ensures WorkBlock(st) == LengthBlock(st.aadLen, st.len)
    ensures st.len * 8 % TWO64 == 8 * st.len && st.aadLen * 8 % TWO64 == 8 * st.aadLen
  {
    hide Be;
  }

  lemma HashOfLengths(M: BlockFn, A: Bytes, C: Bytes)
    ensures S(M, A, C) == M(Xor(Ghash(M, Ghash(M, ZBLOCK, Padded(A)), Padded(C)), LengthBlock(|A|, |C|)))
  {
    hide Ghash, Padded, LengthBlock, Xor;
    var a, c, l := Padded(A), Padded(C), LengthBlock(|A|, |C|);
    assert (a + c) + l == a + (c + l);
    GhashAppend(M, ZBLOCK, a, c + l);
    GhashAppend(M, Ghash(M, ZBLOCK, a), c, l);
    GhashOne(M, Ghash(M, Ghash(M, ZBLOCK, a), c), l);
  }

  lemma TagIsXor(E: BlockFn, M: BlockFn, j0: Block, A: Bytes, C: Bytes, t: nat)
    requires t <= 16
    ensures Tag(E, M, j0, A, C, t) == Xor(E(j0)[..t], S(M, A, C)[..t])
  {
    hide S;
    forall i | 0 <= i < t ensures Tag(E, M, j0, A, C, t)[i] == Xor(E(j0)[..t], S(M, A, C)[..t])[i] {
      XorFacts(S(M, A, C)[i], E(j0)[i]);
    }
  }

  // Skipping the length block of the empty message is sound because multiplying zero gives zero.
  lemma EmptyTag(E: BlockFn, M: BlockFn, j0: Block, t: nat)
    requires t <= 16 && M(ZBLOCK) == ZBLOCK
    ensures Tag(E, M, j0, [], [], t) == E(j0)[..t]
  {
    hide Ghash, LengthBlock;
    TagIsXor(E, M, j0, [], [], t);
    HashOfLengths(M, [], []);
    GhashNone(M, ZBLOCK);
    ZeroLengths(ZBLOCK);
    XorZeros(E(j0)[..t], 0, t);
    assert ZBLOCK[..t] == Zeros(t);
    assert Xor(E(j0)[..t], Zeros(t)) == XorAt(E(j0)[..t], 0, Zeros(t));
  }

  lemma FinalIsTag(E: BlockFn, M: BlockFn, j0: Block, A: Bytes, st: Gst, C: Bytes, t: nat)
    requires Sealed(E, M, j0, A, st, C) && M(ZBLOCK) == ZBLOCK
    requires |A| < MAX_AAD && |C| <= MAX_LEN && 8 <= t <= 16
    ensures Final(M, st, t).1 == Tag(E, M, j0, A, C, t)
  {
    hide Ghash, Absorb, Tag, S, WorkBlock, LengthBlock, Xor;
    WorkIsLengthBlock(st);
    var Y := Ghash(M, ZBLOCK, Padded(A));
    ClosedIsPadded(M, Y, C);
    HashOfLengths(M, A, C);
    TagIsXor(E, M, j0, A, C, t);
    if A == [] && C == [] {
      EmptyTag(E, M, j0, t);
    }
  }

  // ---- the main results ----

  // Section 7.1 for every cut: any gcm_aad calls, then at least one gcm_enc_update, then the final.
  lemma EncryptionMeetsStandard(E: BlockFn, M: BlockFn, j0: Block, st: Gst, aads: seq<Bytes>, pts: seq<Bytes>, t: nat)
    requires M(ZBLOCK) == ZBLOCK && Open(E, M, j0, [], st)
    requires pts != [] && 8 <= t <= 16
    requires |Flatten(aads)| < MAX_AAD && |Flatten(pts)| <= MAX_LEN
    ensures var (st2, cts) := UpdateRun(E, M, false, AadRun(M, st, aads), pts);
            && Flatten(cts) == Ciphertext(E, j0, Flatten(pts))
            && Final(M, st2, t).1 == Tag(E, M, j0, Flatten(aads), Ciphertext(E, j0, Flatten(pts)), t)
  {
    hide Open, Sealed, Final, Tag, StreamXor, Running, Update, Aad;
    var A, P := Flatten(aads), Flatten(pts);
    AadRunOpens(E, M, j0, st, aads);
    var st1 := AadRun(M, st, aads);
    UpdateRunSeals(E, M, false, j0, A, st1, pts);
    GctrIsStreamXor(E, j0, P);
    FinalIsTag(E, M, j0, A, UpdateRun(E, M, false, st1, pts).0, Ciphertext(E, j0, P), t);
  }

  // Decrypting with any other cut of AAD and ciphertext gives the plaintext back, ends in the same
  // hash value, counter, current key stream block, lengths and tag, and so accepts the tag.
  lemma {:induction false} DecryptionInvertsEncryption(E: BlockFn, M: BlockFn, j0: Block, est: Gst, dst: Gst,
                                                         aads: seq<Bytes>, aads': seq<Bytes>,
                                                         pts: seq<Bytes>, cts': seq<Bytes>, t: nat)
    requires M(ZBLOCK) == ZBLOCK && Open(E, M, j0, [], est) && Open(E, M, j0, [], dst)
    requires pts != [] && cts' != [] && 8 <= t <= 16
    requires Flatten(aads') == Flatten(aads)
    requires |Flatten(aads)| < MAX_AAD && |Flatten(pts)| <= MAX_LEN
    requires Flatten(cts') == Flatten(UpdateRun(E, M, false, AadRun(M, est, aads), pts).1)
    ensures var (e, cts) := UpdateRun(E, M, false, AadRun(M, est, aads), pts);
            var (d, out) := UpdateRun(E, M, true, AadRun(M, dst, aads'), cts');
            && Flatten(out) == Flatten(pts)
            && d.buf == e.buf && d.y == e.y && d.len == e.len && d.aadLen == e.aadLen && d.base == e.base
            && d.used == e.used && (d.len > 0 ==> d.ectr == e.ectr)
            && DecFinal(M, d, Final(M, e, t).1).1 == 0
  {
    hide Open, Final, Running, Update, Aad, Tag, Ghash, Absorb, Blocks, Inc32N, Counters, StreamXor;
    var A, P := Flatten(aads), Flatten(pts);
    AadRunOpens(E, M, j0, est, aads);
    AadRunOpens(E, M, j0, dst, aads');
    var e1, d1 := AadRun(M, est, aads), AadRun(M, dst, aads');
    UpdateRunSeals(E, M, false, j0, A, e1, pts);
    var (e, cts) := UpdateRun(E, M, false, e1, pts);
    FlattenLength(pts, cts);
    UpdateRunSeals(E, M, true, j0, A, d1, cts');
    var (d, out) := UpdateRun(E, M, true, d1, cts');
    StreamXorTwice(E, j0, P);
    FinalIsTag(E, M, j0, A, e, Flatten(cts), t);
    FinalIsTag(E, M, j0, A, d, Flatten(cts), t);
  }

  lemma StreamXorTwice(E: BlockFn, j0: Block, d: Bytes)
    ensures StreamXor(E, j0, 0, StreamXor(E, j0, 0, d)) == d
  {
    hide Keystream;
    var s := StreamXor(E, j0, 0, d);
    forall i | 0 <= i < |d| ensures StreamXor(E, j0, 0, s)[i] == d[i] {
      XorFacts(d[i], Keystream(E, j0, i));
    }
  }

  lemma CountersAreDistinct(j0: Block, n: nat)
    requires n < TWO32
    ensures forall i :: 0 <= i < n ==> Counters(j0, n)[i] != j0
    ensures forall i, j :: 0 <= i < j < n ==> Counters(j0, n)[i] != Counters(j0, n)[j]
  {
    hide Inc32;
    forall i | 0 <= i < n ensures Counters(j0, n)[i] != j0 {
      CountersDistinct(j0, 0, i + 1);
    }
    forall i, j | 0 <= i < j < n ensures Counters(j0, n)[i] != Counters(j0, n)[j] {
      CountersDistinct(j0, i + 1, j + 1);
    }
  }

  // Over every accepted run one counter block is used per started 16 bytes of data; they are
  // pairwise distinct and none of them is the block that encrypts the tag.
  lemma CountersNeverRepeat(E: BlockFn, M: BlockFn, j0: Block, A: Bytes, st: Gst, pts: seq<Bytes>)
    requires Open(E, M, j0, A, st) && |Flatten(pts)| <= MAX_LEN
    ensures var used := UpdateRun(E, M, false, st, pts).0.used;
            && |used| == (|Flatten(pts)| + 15) / 16
            && (forall i :: 0 <= i < |used| ==> used[i] != j0)
            && (forall i, j :: 0 <= i < j < |used| ==> used[i] != used[j])
  {
    hide Open, Update, Ghash, Absorb, StreamXor, Counters, CloseAad;
    UpdateRunSeals(E, M, false, j0, A, st, pts);
    var (st2, cts) := UpdateRun(E, M, false, st, pts);
    FlattenLength(pts, cts);
    ClosingKeepsUsed(M, st2);
    CountersAreDistinct(j0, Blocks(|Flatten(pts)|));
  }

  lemma ClosingKeepsUsed(M: BlockFn, st: Gst)
    ensures CloseAad(M, st).used == st.used
  {
  }

  // ---- the limit ----

  // Once an update is rejected every later one is, as long as the 64-bit length does not wrap.
  lemma {:induction false} RejectionIsFinal(E: BlockFn, M: BlockFn, st: Gst, ds: seq<Bytes>, k: nat)
    requires k < |ds| && st.len + |Flatten(ds)| < TWO64
    requires Rejected(UpdateRun(E, M, false, st, ds[..k]).0, |ds[k]|)
    ensures forall i :: k <= i < |ds| ==> UpdateRun(E, M, false, st, ds).1[i] == Zeros(|ds[i]|)
    ensures UpdateRun(E, M, false, st, ds).0.len == st.len + |Flatten(ds)| > MAX_LEN
  {
    hide EncUpdate, Zeros, Rejected;
    var i := ds[..|ds| - 1];
    var d := ds[|ds| - 1];
    var st1 := UpdateRun(E, M, false, st, i).0;
    assert i + [d] == ds;
    RunLength(E, M, st, i);
    if k < |i| {
      assert ds[..k] == i[..k];
      RejectionIsFinal(E, M, st, i, k);
      PastLimit(st1, |d|);
    } else {
      assert ds[..k] == i;
    }
    RejectedUpdate(E, M, st1, d);
  }

  // The longest plaintext of section 5.2.1.1, in bits.
  const MAX_BITS: nat := 0x80_0000_0000 - 256

  // All updates of a run are accepted exactly if the data are at most one block above that limit.
  lemma {:induction false} GuardExactly(E: BlockFn, M: BlockFn, st: Gst, ds: seq<Bytes>)
    requires st.len == 0 && |Flatten(ds)| < TWO64
    ensures (forall k :: 0 <= k < |ds| ==> !Rejected(UpdateRun(E, M, false, st, ds[..k]).0, |ds[k]|))
            <==> 8 * |Flatten(ds)| <= MAX_BITS + 128
  {
    hide UpdateRun;
    if ds != [] {
      var i, l := ds[..|ds| - 1], |ds| - 1;
      GuardExactly(E, M, st, i);
      RunLength(E, M, st, i);
      assert forall k :: 0 <= k < l ==> i[..k] == ds[..k] && i[k] == ds[k];
      assert ds[..l] == i;
    }
  }

  lemma PastLimit(st: Gst, n: nat)
    requires MAX_LEN < st.len && st.len + n < TWO64
    ensures Rejected(st, n)
  {
  }

  lemma RejectedUpdate(E: BlockFn, M: BlockFn, st: Gst, d: Bytes)
    requires Rejected(st, |d|) && st.len + |d| < TWO64
    ensures EncUpdate(E, M, st, d).1 == Zeros(|d|) && EncUpdate(E, M, st, d).0.len == st.len + |d| > MAX_LEN
  {
    hide Crypt, Zeros;
  }

  lemma {:induction false} CryptLength(E: BlockFn, M: BlockFn, dec: bool, st: Gst, d: Bytes)
    requires st.len + |d| < TWO64
    ensures Crypt(E, M, dec, st, d).0.len == st.len + |d|
  {
    hide AbsorbByte, Inc32;
    if d != [] {
      CryptLength(E, M, dec, st, d[..|d| - 1]);
    }
  }

  lemma UpdateLength(E: BlockFn, M: BlockFn, st: Gst, d: Bytes)
    requires st.len + |d| < TWO64
    ensures EncUpdate(E, M, st, d).0.len == st.len + |d|
  {
    hide Crypt;
    CryptLength(E, M, false, CloseAad(M, st), d);
  }

  lemma {:induction false} RunLength(E: BlockFn, M: BlockFn, st: Gst, ds: seq<Bytes>)
    requires st.len + |Flatten(ds)| < TWO64
    ensures UpdateRun(E, M, false, st, ds).0.len == st.len + |Flatten(ds)|
  {
    hide EncUpdate;
    if ds != [] {
      RunLength(E, M, st, ds[..|ds| - 1]);
      UpdateLength(E, M, UpdateRun(E, M, false, st, ds[..|ds| - 1]).0, ds[|ds| - 1]);
    }
  }

  // ---- the one-shot calls: one piece of AAD, one of data ----

  lemma FlattenOne(d: Bytes)
    ensures Flatten([d]) == d
  {
    assert [d][..0] == [];
    assert Flatten([]) == [];
    assert [] + d == d;
  }

  lemma OneShotRuns(E: BlockFn, M: BlockFn, dec: bool, st: Gst, A: Bytes, d: Bytes)
    ensures AadRun(M, st, [A]) == Aad(M, st, A)
    ensures UpdateRun(E, M, dec, st, [d]) == var (s, o) := Update(E, M, dec, st, d); (s, [o])
  {
    hide Aad, Update;
    assert [A][..0] == [] && [d][..0] == [];
    assert AadRun(M, st, []) == st;
    assert UpdateRun(E, M, dec, st, []) == (st, []);
    var o := Update(E, M, dec, st, d).1;
    assert [] + [o] == [o];
  }

  lemma OneShotEncryption(E: BlockFn, M: BlockFn, j0: Block, st: Gst, A: Bytes, P: Bytes, t: nat)
    requires M(ZBLOCK) == ZBLOCK && Open(E, M, j0, [], st)
    requires 8 <= t <= 16 && |A| < MAX_AAD && |P| <= MAX_LEN
    ensures var (st2, C) := EncUpdate(E, M, Aad(M, st, A), P);
            C == Ciphertext(E, j0, P) && Final(M, st2, t).1 == Tag(E, M, j0, A, C, t)
  {
    hide Open, Final, Tag, Ciphertext, UpdateRun, AadRun, EncUpdate, Aad;
    FlattenOne(A);
    FlattenOne(P);
    OneShotRuns(E, M, false, st, A, P);
    OneShotRuns(E, M, false, Aad(M, st, A), A, P);
    EncryptionMeetsStandard(E, M, j0, st, [A], [P], t);
    FlattenOne(EncUpdate(E, M, Aad(M, st, A), P).1);
  }

  // Section 7.2: the plaintext comes back and the verdict is that of the standard's tag.
  lemma OneShotDecryption(E: BlockFn, M: BlockFn, j0: Block, st: Gst, A: Bytes, C: Bytes, tag: Bytes)
    requires M(ZBLOCK) == ZBLOCK && Open(E, M, j0, [], st)
    requires 8 <= |tag| <= 16 && |A| < MAX_AAD && |C| <= MAX_LEN
    ensures var (st2, P) := DecUpdate(E, M, Aad(M, st, A), C);
            && P == Gctr(E, Inc32(j0), C) && C == Ciphertext(E, j0, P)
            && (DecFinal(M, st2, tag).1 == 0 <==> tag == Tag(E, M, j0, A, C, |tag|))
  {
    hide Open, Sealed, Final, Tag, UpdateRun, AadRun, DecUpdate, Aad, StreamXor;
    FlattenOne(A);
    FlattenOne(C);
    OneShotRuns(E, M, true, st, A, C);
    OneShotRuns(E, M, true, Aad(M, st, A), A, C);
    AadRunOpens(E, M, j0, st, [A]);
    UpdateRunSeals(E, M, true, j0, A, Aad(M, st, A), [C]);
    var (st2, P) := DecUpdate(E, M, Aad(M, st, A), C);
    FlattenOne(P);
    GctrIsStreamXor(E, j0, C);
    GctrIsStreamXor(E, j0, P);
    StreamXorTwice(E, j0, C);
    FinalIsTag(E, M, j0, A, st2, C, |tag|);
  }
}
