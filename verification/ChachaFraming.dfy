// What the ChaCha20-Poly1305 AEAD feeds to Poly1305: the framing as the code builds it call by call,
// the framing of section 2.8 of RFC 7539, and how the two compare.
module ChachaFraming {
  import opened Bytes
  import opened Endian
  import opened Keystream

  // The ChaCha20 position, the two length counters (size_t), the Poly1305 input so far.
  datatype Pst = Pst(stream: Stream, next: nat, aadlen: nat, datalen: nat, poly: Bytes)

  // lc_chacha20_poly1305_add_aad
  function AddAad(st: Pst, aad: Bytes): Pst {
    st.(poly := st.poly + aad, aadlen := (st.aadlen + |aad|) % TWO64)
  }

  function PadLen(n: nat): (p: nat)
    ensures 1 <= p <= 16 && (n + p) % 16 == 0
  {
    16 - n % 16
  }

  // lc_chacha20_poly1305_aad_pad: done again by every call before which no data were counted.
  function AadPad(st: Pst): Pst {
    if st.datalen != 0 || st.aadlen == 0 then st else st.(poly := st.poly + Zeros(PadLen(st.aadlen)))
  }

  // lc_chacha20_poly1305_encrypt, lc_chacha20_poly1305_decrypt
  function Update(dec: bool, st: Pst, d: Bytes): (t: (Pst, Bytes))
    ensures |t.1| == |d|
  {
    var st1 := AadPad(st);
    var o := StreamXor(st.stream, st.next, d);
    (st1.(next := st.next + |d|, datalen := (st.datalen + |d|) % TWO64, poly := st1.poly + (if dec then d else o)), o)
  }

  // lc_chacha20_poly1305_encrypt_tag up to lc_poly1305_final
  function Finish(st: Pst): Bytes {
    st.poly + Zeros(PadLen(st.datalen)) + Le(st.aadlen, 8) + Le(st.datalen, 8)
  }

  function Aads(st: Pst, aads: seq<Bytes>): Pst {
    if aads == [] then st else AddAad(Aads(st, aads[..|aads| - 1]), aads[|aads| - 1])
  }

  function Updates(dec: bool, st: Pst, ds: seq<Bytes>): (t: (Pst, seq<Bytes>)) {
    if ds == [] then (st, [])
    else
      var (st1, os) := Updates(dec, st, ds[..|ds| - 1]);
      var (st2, o) := Update(dec, st1, ds[|ds| - 1]);
      (st2, os + [o])
  }

  // ---- the framings ----

  // How many of the calls pad the associated data: those with nothing but empty calls before them.
  function PadCalls(ds: seq<Bytes>): nat {
    if ds == [] then 0
    else PadCalls(ds[..|ds| - 1]) + if Flatten(ds[..|ds| - 1]) == [] then 1 else 0
  }

  // The associated data padded n times.
  function Head(A: Bytes, n: nat): Bytes {
    A + Zeros(if A == [] then 0 else n * PadLen(|A|))
  }

  function Tail(A: Bytes, C: Bytes): Bytes {
    Zeros(PadLen(|C|)) + Le(|A|, 8) + Le(|C|, 8)
  }

  function Framed(A: Bytes, n: nat, C: Bytes): Bytes {
    Head(A, n) + C + Tail(A, C)
  }

  // pad16 and mac_data of section 2.8 of RFC 7539.
  function Pad16(x: Bytes): Bytes {
    Zeros(if |x| % 16 == 0 then 0 else 16 - |x| % 16)
  }

  function MacData(A: Bytes, C: Bytes): Bytes {
    A + Pad16(A) + C + Pad16(C) + Le(|A|, 8) + Le(|C|, 8)
  }

  // ---- the calls build the frame ----

  // After lc_chacha20_poly1305_setiv_internal.
  predicate Fresh(st: Pst) {
    st.aadlen == 0 && st.datalen == 0 && st.poly == []
  }

  lemma {:induction false} AadsAppend(st: Pst, aads: seq<Bytes>)
    requires Fresh(st) && |Flatten(aads)| < TWO64
    ensures Aads(st, aads) == st.(poly := Flatten(aads), aadlen := |Flatten(aads)|)
  {
    if aads != [] {
      AadsAppend(st, aads[..|aads| - 1]);
    }
  }

  lemma HeadNext(A: Bytes, n: nat)
    ensures A != [] ==> Head(A, n) + Zeros(PadLen(|A|)) == Head(A, n + 1)
    ensures A == [] ==> Head(A, n) == Head(A, n + 1)
    ensures Head(A, 0) == A
  {
    assert (n + 1) * PadLen(|A|) == n * PadLen(|A|) + PadLen(|A|);
  }

  lemma {:induction false} UpdatesFrame(dec: bool, st: Pst, A: Bytes, ds: seq<Bytes>)
    requires st.poly == A && st.aadlen == |A| < TWO64 && st.datalen == 0 && |Flatten(ds)| < TWO64
    ensures var (t, os) := Updates(dec, st, ds);
            var D := Flatten(ds);
            && Flatten(os) == StreamXor(st.stream, st.next, D)
            && t.poly == Head(A, PadCalls(ds)) + (if dec then D else Flatten(os))
            && t.stream == st.stream && t.next == st.next + |D| && t.aadlen == |A| && t.datalen == |D|
  {
    hide StreamXor, Head, Zeros, Update;
    HeadNext(A, 0);
    if ds == [] {
      assert A + [] == A;
      StreamXorNone(st.stream, st.next);
    } else {
      var i, d := ds[..|ds| - 1], ds[|ds| - 1];
      UpdatesFrame(dec, st, A, i);
      var (t, os) := Updates(dec, st, i);
      StreamXorAppend(st.stream, st.next, Flatten(i), d);
      UpdateFrame(dec, t, A, PadCalls(i), if dec then Flatten(i) else Flatten(os), d);
      assert (os + [Update(dec, t, d).1])[..|os|] == os;
    }
  }

  // One more call after C: the associated data are padded once more if there is no C yet.
  lemma UpdateFrame(dec: bool, t: Pst, A: Bytes, n: nat, C: Bytes, d: Bytes)
    requires t.poly == Head(A, n) + C && t.aadlen == |A| && t.datalen == |C| && |C| + |d| < TWO64
    ensures var (u, o) := Update(dec, t, d);
            && o == StreamXor(t.stream, t.next, d)
            && u == t.(next := t.next + |d|, datalen := |C| + |d|, poly := u.poly)
            && u.poly == Head(A, if C == [] then n + 1 else n) + (C + if dec then d else o)
  {
    hide StreamXor, Head, Zeros;
    HeadNext(A, n);
    var o := StreamXor(t.stream, t.next, d);
    var e := if dec then d else o;
    if C == [] {
      assert Head(A, n) + C == Head(A, n);
      assert C + e == e;
    } else {
      assert (Head(A, n) + C) + e == Head(A, n) + (C + e);
    }
  }

  // The Poly1305 input of a whole message depends on the associated data, the ciphertext and the
  // number of padding calls only; the output is the key stream applied to all data.
  lemma MessageIsFramed(dec: bool, st: Pst, aads: seq<Bytes>, ds: seq<Bytes>)
    requires Fresh(st) && |Flatten(aads)| < TWO64 && |Flatten(ds)| < TWO64
    ensures var (t, os) := Updates(dec, Aads(st, aads), ds);
            var D, O := Flatten(ds), StreamXor(st.stream, st.next, Flatten(ds));
            && Flatten(os) == O && t.next == st.next + |D|
            && Finish(t) == Framed(Flatten(aads), PadCalls(ds), if dec then D else O)
  {
    hide StreamXor, Head, Zeros, PadCalls, Updates, Aads, Le;
    var A, D := Flatten(aads), Flatten(ds);
    AadsAppend(st, aads);
    UpdatesFrame(dec, Aads(st, aads), A, ds);
    var O := StreamXor(st.stream, st.next, D);
    var C := if dec then D else O;
    var h, z, a, c := Head(A, PadCalls(ds)), Zeros(PadLen(|C|)), Le(|A|, 8), Le(|C|, 8);
    assert (h + C) + z + a + c == h + C + (z + a + c);
  }

  // ---- when two chunkings agree ----

  // Without a leading empty call there is one padding call.
  lemma {:induction false} OnePadCall(ds: seq<Bytes>)
    requires ds != [] && (|ds| == 1 || ds[0] != [])
    ensures PadCalls(ds) == 1
  {
    if |ds| > 1 {
      var i := ds[..|ds| - 1];
      OnePadCall(i);
      assert i[0] == ds[0];
      FlattenNonEmpty(i);
    }
  }

  lemma {:induction false} FlattenNonEmpty(ds: seq<Bytes>)
    requires ds != [] && ds[0] != []
    ensures Flatten(ds) != []
  {
    if |ds| > 1 {
      FlattenNonEmpty(ds[..|ds| - 1]);
    }
  }

  lemma FramedLength(A: Bytes, n: nat, C: Bytes)
    ensures |Framed(A, n, C)| == |A| + (if A == [] then 0 else n * PadLen(|A|)) + |C| + PadLen(|C|) + 16
  {
  }

  lemma MultiplesDiffer(n: nat, m: nat, p: nat)
    requires p > 0
    ensures n * p == m * p <==> n == m
  {
    if n < m {
      assert m * p == n * p + (m - n) * p;
    } else if m < n {
      assert n * p == m * p + (n - m) * p;
    }
  }

  // The same message in two chunkings has the same Poly1305 input exactly if there are no associated
  // data or both chunkings pad equally often.
  lemma ChunkingMatters(A: Bytes, n: nat, m: nat, C: Bytes)
    ensures Framed(A, n, C) == Framed(A, m, C) <==> A == [] || n == m
  {
    hide Framed, PadLen;
    FramedLength(A, n, C);
    FramedLength(A, m, C);
    MultiplesDiffer(n, m, PadLen(|A|));
    if A == [] {
      NoHead(n, m, C);
    }
  }

  lemma NoHead(n: nat, m: nat, C: Bytes)
    ensures Framed([], n, C) == Framed([], m, C)
  {
  }

  // ---- the two sides ----

  // Sender and receiver with any chunkings: the plaintext comes back, and the Poly1305 inputs agree
  // exactly if there are no associated data or the two sides pad equally often.
  lemma BothSidesAgree(st: Pst, aads: seq<Bytes>, bads: seq<Bytes>, ps: seq<Bytes>, cs: seq<Bytes>)
    requires Fresh(st) && |Flatten(aads)| < TWO64 && |Flatten(ps)| < TWO64
    requires Flatten(bads) == Flatten(aads) && Flatten(cs) == Flatten(Updates(false, Aads(st, aads), ps).1)
    ensures var (e, c) := Updates(false, Aads(st, aads), ps);
            var (d, p) := Updates(true, Aads(st, bads), cs);
            && Flatten(p) == Flatten(ps) && d.next == e.next
            && (Finish(d) == Finish(e) <==> Flatten(aads) == [] || PadCalls(cs) == PadCalls(ps))
  {
    hide StreamXor, PadCalls, Updates, Aads, Finish, Framed, Flatten;
    MessageIsFramed(false, st, aads, ps);
    MessageIsFramed(true, st, bads, cs);
    StreamXorTwice(st.stream, st.next, Flatten(ps));
    ChunkingMatters(Flatten(aads), PadCalls(cs), PadCalls(ps), Flatten(cs));
  }

  // ---- injectivity ----

  lemma SuffixesEqual(x: Bytes, y: Bytes, a: Bytes, b: Bytes)
    requires |a| == |b| && x + a == y + b
    ensures x == y && a == b
  {
    assert x == (x + a)[..|x|] && y == (y + b)[..|y|];
    assert a == (x + a)[|x|..] && b == (y + b)[|y|..];
  }

  lemma PrefixesEqual(x: Bytes, y: Bytes, a: Bytes, b: Bytes)
    requires |x| == |y| && x + a == y + b
    ensures x == y && a == b
  {
    assert |a| == |b|;
    SuffixesEqual(x, y, a, b);
  }

  lemma LengthsFollow(A: nat, B: nat)
    requires A < TWO64 && B < TWO64 && Le(A, 8) == Le(B, 8)
    ensures A == B
  {
    hide Le, LeNum;
    assert Pow256(8) == TWO64;
    LeNumOfLe(A, 8);
    LeNumOfLe(B, 8);
  }

  // Equal inputs come from equal associated data and ciphertext, whatever the chunkings were.
  lemma FramedInjective(A: Bytes, n: nat, C: Bytes, B: Bytes, m: nat, D: Bytes)
    requires |A| < TWO64 && |B| < TWO64 && |C| < TWO64 && |D| < TWO64
    requires Framed(A, n, C) == Framed(B, m, D)
    ensures A == B && C == D
  {
    hide Le, Zeros, PadLen;
    var x, y := Head(A, n) + C, Head(B, m) + D;
    var z, w := Zeros(PadLen(|C|)), Zeros(PadLen(|D|));
    var a, b, c, d := Le(|A|, 8), Le(|B|, 8), Le(|C|, 8), Le(|D|, 8);
    assert x + (z + a + c) == ((x + z) + a) + c;
    assert y + (w + b + d) == ((y + w) + b) + d;
    SuffixesEqual((x + z) + a, (y + w) + b, c, d);
    SuffixesEqual(x + z, y + w, a, b);
    LengthsFollow(|A|, |B|);
    LengthsFollow(|C|, |D|);
    SuffixesEqual(x, y, z, w);
    SuffixesEqual(Head(A, n), Head(B, m), C, D);
    PrefixesEqual(A, B, Zeros(if A == [] then 0 else n * PadLen(|A|)), Zeros(if B == [] then 0 else m * PadLen(|B|)));
  }

  // ---- section 2.8 of RFC 7539 ----

  lemma MacDataLength(A: Bytes, C: Bytes)
    ensures |MacData(A, C)| == |A| + |Pad16(A)| + |C| + |Pad16(C)| + 16
    ensures |A| % 16 != 0 ==> |Pad16(A)| == PadLen(|A|)
    ensures |A| % 16 == 0 ==> |Pad16(A)| == 0 && PadLen(|A|) == 16
    ensures |C| % 16 != 0 ==> |Pad16(C)| == PadLen(|C|)
    ensures |C| % 16 == 0 ==> |Pad16(C)| == 0 && PadLen(|C|) == 16
  {
  }

  lemma AtLeastOnce(n: nat, p: nat)
    requires n >= 1
    ensures n * p >= p && (n > 1 && p > 0 ==> n * p > p)
  {
    assert n * p == p + (n - 1) * p;
    if n > 1 && p > 0 {
      assert (n - 1) * p > 0;
    }
  }

  // Padded n times, the associated data look as the RFC wants them.
  predicate HeadFits(A: Bytes, n: nat) {
    A == [] || n == if |A| % 16 == 0 then 0 else 1
  }

  // The code's frame is the RFC's exactly if the ciphertext does not end on a block boundary and the
  // associated data, if any, are padded once if they do not either and not at all if they do. A
  // message with data is padded at least once.
  lemma RfcExactly(A: Bytes, n: nat, C: Bytes)
    ensures Framed(A, n, C) == MacData(A, C) <==> |C| % 16 != 0 && HeadFits(A, n)
  {
    hide Framed, MacData, PadLen, Pad16;
    FramedLength(A, n, C);
    MacDataLength(A, C);
    if n >= 1 {
      AtLeastOnce(n, PadLen(|A|));
    }
    if |C| % 16 != 0 && HeadFits(A, n) {
      FramedIsMacData(A, n, C);
    }
  }

  // Messages without any update call have no ciphertext, and never the RFC's frame; those with one
  // have it exactly under this condition.
  lemma RunIsRfcExactly(A: Bytes, ds: seq<Bytes>, C: Bytes)
    requires |C| == |Flatten(ds)|
    ensures Framed(A, PadCalls(ds), C) == MacData(A, C) <==>
            |C| % 16 != 0 && (A == [] || (|A| % 16 != 0 && PadCalls(ds) == 1))
  {
    hide Framed, MacData;
    RfcExactly(A, PadCalls(ds), C);
    if |C| % 16 != 0 {
      DataPads(ds);
    }
  }

  lemma {:induction false} DataPads(ds: seq<Bytes>)
    requires Flatten(ds) != []
    ensures PadCalls(ds) >= 1
  {
    if Flatten(ds[..|ds| - 1]) != [] {
      DataPads(ds[..|ds| - 1]);
    }
  }

  lemma FramedIsMacData(A: Bytes, n: nat, C: Bytes)
    requires |C| % 16 != 0 && HeadFits(A, n)
    ensures Framed(A, n, C) == MacData(A, C)
  {
    hide Le;
    assert Zeros(if A == [] then 0 else n * PadLen(|A|)) == Pad16(A);
    var x, z, a, c := A + Pad16(A) + C, Pad16(C), Le(|A|, 8), Le(|C|, 8);
    assert x + (z + a + c) == x + z + a + c;
  }
}
