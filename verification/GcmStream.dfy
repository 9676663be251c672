// The GCM context of aead/src/gcm.c as a value, one function per call of the streaming interface,
// and the proof that every run of calls computes what GcmSpec says about the concatenated data.
// Data is taken a byte at a time here; that the block loops of the C code do the same is the
// contract of the methods in Gcm.dfy.
module GcmStream {
  import opened Bytes
  import opened Errno
  import opened Endian
  import opened GcmSpec

  // ctx->gcm_ctx without the tables. used is the history of the counter blocks enciphered for data.
  datatype Gst = Gst(buf: Block, y: Block, ectr: Block, base: Block, len: nat, aadLen: nat, rem: bool,
                     used: seq<Block>)

  // The guard of gcm_enc_update: 2^32 - 1 blocks.
  const MAX_LEN: nat := (TWO32 - 1) * 16

  // ---- hashing into buf ----

  function AbsorbByte(M: BlockFn, buf: Block, pos: nat, b: byte): Block
    requires pos < 16
  {
    var x: Block := buf[pos := buf[pos] ^ b];
    if pos == 15 then M(x) else x
  }

  // d XORed into buf from position pos on, multiplying whenever a block is full.
  function Absorb(M: BlockFn, buf: Block, pos: nat, d: Bytes): Block {
    if d == [] then buf
    else AbsorbByte(M, Absorb(M, buf, pos, d[..|d| - 1]), (pos + |d| - 1) % 16, d[|d| - 1])
  }

  // ---- the calls ----

  function Aad(M: BlockFn, st: Gst, aad: Bytes): Gst {
    st.(buf := Absorb(M, st.buf, st.aadLen % 16, aad), aadLen := (st.aadLen + |aad|) % TWO64)
  }

  // The partial AAD block is closed by the first update.
  function CloseAad(M: BlockFn, st: Gst): Gst {
    if st.aadLen % 16 != 0 && !st.rem then st.(buf := M(st.buf), rem := true) else st
  }

  function NextCounter(E: BlockFn, st: Gst): Gst {
    var y := Inc32(st.y);
    st.(y := y, ectr := E(y), used := st.used + [y])
  }

  // The context with the counter block for position st.len in place.
  function Positioned(E: BlockFn, st: Gst): Gst {
    if st.len % 16 == 0 then NextCounter(E, st) else st
  }

  // Of input d and output o, the ciphertext.
  function CtOf<T>(dec: bool, d: T, o: T): T {
    if dec then d else o
  }

  // One byte of data; the ciphertext byte is hashed, whichever side this is.
  function CryptByte(E: BlockFn, M: BlockFn, dec: bool, st: Gst, b: byte): (Gst, byte) {
    var pos := st.len % 16;
    var st1 := Positioned(E, st);
    var o := st1.ectr[pos] ^ b;
    (st1.(buf := AbsorbByte(M, st1.buf, pos, CtOf(dec, b, o)), len := (st.len + 1) % TWO64), o)
  }

  function Crypt(E: BlockFn, M: BlockFn, dec: bool, st: Gst, d: Bytes): (r: (Gst, Bytes))
    ensures |r.1| == |d|
  {
    if d == [] then (st, [])
    else
      var (st1, o) := Crypt(E, M, dec, st, d[..|d| - 1]);
      var (st2, b) := CryptByte(E, M, dec, st1, d[|d| - 1]);
      (st2, o + [b])
  }

  predicate Rejected(st: Gst, n: nat) {
    (st.len + n) % TWO64 > MAX_LEN
  }

  // gcm_enc_update: over the limit the output is zeros and only the length moves.
  function EncUpdate(E: BlockFn, M: BlockFn, st: Gst, pt: Bytes): (r: (Gst, Bytes))
    ensures |r.1| == |pt|
  {
    var st1 := CloseAad(M, st);
    if Rejected(st, |pt|) then (st1.(len := (st.len + |pt|) % TWO64), Zeros(|pt|))
    else Crypt(E, M, false, st1, pt)
  }

  // gcm_dec_update has no limit.
  function DecUpdate(E: BlockFn, M: BlockFn, st: Gst, ct: Bytes): (r: (Gst, Bytes))
    ensures |r.1| == |ct|
  {
    Crypt(E, M, true, CloseAad(M, st), ct)
  }

  function Update(E: BlockFn, M: BlockFn, dec: bool, st: Gst, d: Bytes): (r: (Gst, Bytes))
    ensures |r.1| == |d|
  {
    if dec then DecUpdate(E, M, st, d) else EncUpdate(E, M, st, d)
  }

  function WorkBlock(st: Gst): Block {
    Be(st.aadLen * 8 % TWO64, 8) + Be(st.len * 8 % TWO64, 8)
  }

  // gcm_enc_final for a supported tag length.
  function Final(M: BlockFn, st: Gst, t: nat): (r: (Gst, Bytes))
    requires 8 <= t <= 16
    ensures |r.1| == t
  {
    var b1 := if st.len % 16 != 0 then M(st.buf) else st.buf;
    if st.len * 8 % TWO64 != 0 || st.aadLen * 8 % TWO64 != 0 then
      var b2 := M(Xor(b1, WorkBlock(st)));
      (st.(buf := b2), Xor(st.base[..t], b2[..t]))
    else
      (st.(buf := b1), st.base[..t])
  }

  // gcm_dec_final: 0 exactly if the tag is the recomputed one.
  function DecFinal(M: BlockFn, st: Gst, tag: Bytes): (r: (Gst, int))
    requires 8 <= |tag| <= 16
    ensures r.1 == 0 || r.1 == -74
  {
    var (st2, check) := Final(M, st, |tag|);
    (st2, if tag == check then 0 else -EBADMSG)
  }

  // ---- runs ----

  function AadRun(M: BlockFn, st: Gst, aads: seq<Bytes>): Gst {
    if aads == [] then st else Aad(M, AadRun(M, st, aads[..|aads| - 1]), aads[|aads| - 1])
  }

  function UpdateRun(E: BlockFn, M: BlockFn, dec: bool, st: Gst, ds: seq<Bytes>): (r: (Gst, seq<Bytes>))
    ensures |r.1| == |ds| && forall i :: 0 <= i < |ds| ==> |r.1[i]| == |ds[i]|
  {
    if ds == [] then (st, [])
    else
      var (st1, os) := UpdateRun(E, M, dec, st, ds[..|ds| - 1]);
      var (st2, o) := Update(E, M, dec, st1, ds[|ds| - 1]);
      (st2, os + [o])
  }

  // ---- Absorb: pieces, chunks, padding, and section 6.4 ----

  lemma ModSum(p: nat, a: nat, b: nat)
    ensures (p + a + b) % 16 == ((p + a) % 16 + b) % 16
  {
  }

  lemma {:induction false} AbsorbAppend(M: BlockFn, buf: Block, pos: nat, a: Bytes, b: Bytes)
    ensures Absorb(M, buf, pos, a + b) == Absorb(M, Absorb(M, buf, pos, a), (pos + |a|) % 16, b)
  {
    hide AbsorbByte;
    if b == [] {
      assert a + b == a;
    } else {
      var i := b[..|b| - 1];
      AbsorbAppend(M, buf, pos, a, i);
      assert (a + b)[..|a + b| - 1] == a + i;
      ModSum(pos, |a|, |b| - 1);
    }
  }

  lemma XorAtSnoc(s: Bytes, pos: nat, d: Bytes)
    requires d != [] && pos + |d| <= |s|
    ensures var p := pos + |d| - 1;
            XorAt(s, pos, d) == XorAt(s, pos, d[..|d| - 1])[p := s[p] ^ d[|d| - 1]]
  {
  }

  // Within one block: a single XOR, and a multiplication if that fills the block.
  lemma {:induction false} AbsorbChunk(M: BlockFn, buf: Block, pos: nat, d: Bytes)
    requires pos + |d| <= 16 && pos < 16
    ensures Absorb(M, buf, pos, d) ==
            if pos + |d| == 16 then M(XorAt(buf, pos, d)) else XorAt(buf, pos, d)
  {
    hide XorAt;
    if d == [] {
      XorAtNone(buf, pos, d);
    } else {
      var i := d[..|d| - 1];
      AbsorbChunk(M, buf, pos, i);
      XorAtSnoc(buf, pos, d);
      XorAtBefore(buf, pos, i);
      assert (pos + |d| - 1) % 16 == pos + |d| - 1;
    }
  }

  lemma XorAtNone(s: Bytes, pos: nat, d: Bytes)
    requires d == [] && pos <= |s|
    ensures XorAt(s, pos, d) == s
  {
  }

  lemma XorAtBefore(s: Bytes, pos: nat, d: Bytes)
    requires pos + |d| < |s|
    ensures XorAt(s, pos, d)[pos + |d|] == s[pos + |d|]
  {
  }

  lemma XorWhole(s: Block, d: Block)
    ensures XorAt(s, 0, d) == Xor(s, d)
  {
  }

  lemma {:induction false} AbsorbIsGhash(M: BlockFn, Y: Block, X: Bytes)
    requires |X| % 16 == 0
    ensures Absorb(M, Y, 0, X) == Ghash(M, Y, X)
    decreases |X|
  {
    hide Xor, XorAt;
    if |X| >= 16 {
      var b: Block, r := X[..16], X[16..];
      assert X == b + r;
      AbsorbAppend(M, Y, 0, b, r);
      AbsorbChunk(M, Y, 0, b);
      XorWhole(Y, b);
      AbsorbIsGhash(M, M(Xor(Y, b)), r);
    }
  }

  lemma {:induction false} GhashAppend(M: BlockFn, Y: Block, a: Bytes, b: Bytes)
    requires |a| % 16 == 0
    ensures Ghash(M, Y, a + b) == Ghash(M, Ghash(M, Y, a), b)
    decreases |a|
  {
    if a == [] {
      assert a + b == b;
    } else {
      assert (a + b)[..16] == a[..16] && (a + b)[16..] == a[16..] + b;
      GhashAppend(M, M(Xor(Y, a[..16])), a[16..], b);
    }
  }

  lemma GhashNone(M: BlockFn, Y: Block)
    ensures Padded([]) == [] && Ghash(M, Y, []) == Y
  {
  }

  lemma GhashOne(M: BlockFn, Y: Block, b: Block)
    ensures Ghash(M, Y, b) == M(Xor(Y, b))
  {
    assert b[..16] == b && b[16..] == [];
  }

  // Leaving a partial block open and multiplying later is padding it with zeros.
  function Closed(M: BlockFn, buf: Block, n: nat): Block {
    if n % 16 == 0 then buf else M(buf)
  }

  lemma ClosedIsPadded(M: BlockFn, Y: Block, X: Bytes)
    ensures Closed(M, Absorb(M, Y, 0, X), |X|) == Ghash(M, Y, Padded(X))
  {
    hide Absorb, Ghash;
    var b := Absorb(M, Y, 0, X);
    var p := |X| % 16;
    AbsorbIsGhash(M, Y, Padded(X));
    if p == 0 {
      assert Padded(X) == X;
    } else {
      AbsorbAppend(M, Y, 0, X, Zeros(16 - p));
      AbsorbChunk(M, b, p, Zeros(16 - p));
      XorZeros(b, p, 16 - p);
    }
  }

  // ---- the state after any amount of data ----

  function Blocks(n: nat): nat {
    (n + 15) / 16
  }

  // The counter blocks used for the first n blocks of data.
  function Counters(j0: Block, n: nat): (c: seq<Block>)
    ensures |c| == n && forall i :: 0 <= i < n ==> c[i] == Inc32N(j0, i + 1)
  {
    if n == 0 then [] else Counters(j0, n - 1) + [Inc32N(j0, n)]
  }

  // Byte k of the keystream of section 6.5 that starts after the counter block j0.
  function Keystream(E: BlockFn, j0: Block, k: nat): byte {
    E(Inc32N(j0, k / 16 + 1))[k % 16]
  }

  // d XORed with the keystream from position off on.
  function StreamXor(E: BlockFn, j0: Block, off: nat, d: Bytes): (r: Bytes)
    ensures |r| == |d| && forall i :: 0 <= i < |d| ==> r[i] == d[i] ^ Keystream(E, j0, off + i)
  {
    seq(|d|, i requires 0 <= i < |d| => d[i] ^ Keystream(E, j0, off + i))
  }

  // The context after ct (always the ciphertext) has been processed from the counter j0 and the
  // hash value buf0: nothing in it depends on how ct was cut into pieces.
  ghost predicate After(E: BlockFn, M: BlockFn, j0: Block, buf0: Block, st: Gst, ct: Bytes) {
    && st.len == |ct|
    && st.buf == Absorb(M, buf0, 0, ct)
    && st.y == Inc32N(j0, Blocks(|ct|))
    && (|ct| > 0 ==> st.ectr == E(st.y))
    && st.used == Counters(j0, Blocks(|ct|))
  }

  lemma BlocksNext(n: nat)
    ensures n % 16 == 0 ==> Blocks(n) == n / 16 && Blocks(n + 1) == n / 16 + 1
    ensures n % 16 != 0 ==> Blocks(n) == n / 16 + 1 && Blocks(n + 1) == n / 16 + 1
  {
  }

  lemma AbsorbSnoc(M: BlockFn, buf: Block, ct: Bytes, c: byte)
    ensures Absorb(M, buf, 0, ct + [c]) == AbsorbByte(M, Absorb(M, buf, 0, ct), |ct| % 16, c)
  {
    hide AbsorbByte;
    assert (ct + [c])[..|ct|] == ct;
  }

  lemma KeystreamByte(E: BlockFn, j0: Block, k: nat, b: byte)
    ensures E(Inc32N(j0, k / 16 + 1))[k % 16] ^ b == b ^ Keystream(E, j0, k)
  {
    hide Inc32N;
    XorFacts(E(Inc32N(j0, k / 16 + 1))[k % 16], b);
  }

  lemma AfterPositioned(E: BlockFn, M: BlockFn, j0: Block, buf0: Block, st: Gst, ct: Bytes)
    requires After(E, M, j0, buf0, st, ct)
    ensures var st1 := Positioned(E, st);
            && st1.y == Inc32N(j0, |ct| / 16 + 1) && st1.ectr == E(st1.y)
            && st1.used == Counters(j0, Blocks(|ct| + 1)) && |ct| / 16 + 1 == Blocks(|ct| + 1)
  {
    hide Inc32, Absorb, Blocks;
    BlocksNext(|ct|);
    assert Inc32N(j0, |ct| / 16 + 1) == Inc32(Inc32N(j0, |ct| / 16));
  }

  lemma AfterByte(E: BlockFn, M: BlockFn, dec: bool, j0: Block, buf0: Block, st: Gst, ct: Bytes, b: byte)
    requires After(E, M, j0, buf0, st, ct) && |ct| + 1 < TWO64
    ensures var (st2, o) := CryptByte(E, M, dec, st, b);
            && o == b ^ Keystream(E, j0, |ct|)
            && After(E, M, j0, buf0, st2, ct + [CtOf(dec, b, o)])
            && st2.base == st.base && st2.aadLen == st.aadLen && st2.rem == st.rem
  {
    hide AbsorbByte, NextCounter, Inc32, Inc32N, Absorb, Blocks, Keystream, Counters;
    AfterPositioned(E, M, j0, buf0, st, ct);
    var (st2, o) := CryptByte(E, M, dec, st, b);
    AbsorbSnoc(M, buf0, ct, CtOf(dec, b, o));
    KeystreamByte(E, j0, |ct|, b);
    NextCounterFrame(E, st);
  }

  lemma NextCounterFrame(E: BlockFn, st: Gst)
    ensures var st1 := NextCounter(E, st);
            && st1.buf == st.buf && st1.base == st.base && st1.len == st.len && st1.aadLen == st.aadLen
            && st1.rem == st.rem
  {
  }

  lemma StreamXorSnoc(E: BlockFn, j0: Block, off: nat, d: Bytes)
    requires d != []
    ensures StreamXor(E, j0, off, d) ==
            StreamXor(E, j0, off, d[..|d| - 1]) + [d[|d| - 1] ^ Keystream(E, j0, off + |d| - 1)]
  {
    hide Keystream;
  }

  lemma CtOfSnoc(dec: bool, ct: Bytes, d: Bytes, o: Bytes, c: byte)
    requires d != []
    ensures (ct + CtOf(dec, d[..|d| - 1], o)) + [CtOf(dec, d[|d| - 1], c)] == ct + CtOf(dec, d, o + [c])
  {
    assert d[..|d| - 1] + [d[|d| - 1]] == d;
  }

  lemma {:induction false} AfterCrypt(E: BlockFn, M: BlockFn, dec: bool, j0: Block, buf0: Block, st: Gst, ct: Bytes, d: Bytes)
    requires After(E, M, j0, buf0, st, ct) && |ct| + |d| < TWO64
    ensures var (st2, o) := Crypt(E, M, dec, st, d);
            && o == StreamXor(E, j0, |ct|, d)
            && After(E, M, j0, buf0, st2, ct + CtOf(dec, d, o))
            && st2.base == st.base && st2.aadLen == st.aadLen && st2.rem == st.rem
  {
    hide After, CryptByte, Keystream, StreamXor;
    if d == [] {
      assert ct + CtOf(dec, d, []) == ct;
    } else {
      hide CtOf;
      var i, b := d[..|d| - 1], d[|d| - 1];
      AfterCrypt(E, M, dec, j0, buf0, st, ct, i);
      var (st1, o) := Crypt(E, M, dec, st, i);
      var ct1 := ct + CtOf(dec, i, o);
      assert |ct1| == |ct| + |i| by { CtOfLength(dec, i, o); }
      AfterByte(E, M, dec, j0, buf0, st1, ct1, b);
      var (st2, c) := CryptByte(E, M, dec, st1, b);
      StreamXorSnoc(E, j0, |ct|, d);
      CtOfSnoc(dec, ct, d, o, c);
    }
  }

  lemma CtOfLength(dec: bool, d: Bytes, o: Bytes)
    requires |d| == |o|
    ensures |CtOf(dec, d, o)| == |d|
  {
  }

  // ---- phases of a message ----

  // Between gcm_setiv and the first update: A has been added as AAD.
  ghost predicate Open(E: BlockFn, M: BlockFn, j0: Block, A: Bytes, st: Gst) {
    && st.buf == Absorb(M, ZBLOCK, 0, A) && st.aadLen == |A| && !st.rem
    && st.y == j0 && st.base == E(j0) && st.len == 0 && st.used == []
  }

  // From the first update on: A has been closed and the ciphertext so far is C.
  ghost predicate Sealed(E: BlockFn, M: BlockFn, j0: Block, A: Bytes, st: Gst, C: Bytes) {
    && After(E, M, j0, Ghash(M, ZBLOCK, Padded(A)), st, C)
    && st.aadLen == |A| && (|A| % 16 != 0 ==> st.rem) && st.base == E(j0)
  }

  lemma {:induction false} AadRunOpens(E: BlockFn, M: BlockFn, j0: Block, st: Gst, aads: seq<Bytes>)
    requires Open(E, M, j0, [], st) && |Flatten(aads)| < TWO64
    ensures Open(E, M, j0, Flatten(aads), AadRun(M, st, aads))
  {
    hide Absorb;
    if aads != [] {
      var i, a := aads[..|aads| - 1], aads[|aads| - 1];
      AadRunOpens(E, M, j0, st, i);
      AbsorbAppend(M, ZBLOCK, 0, Flatten(i), a);
    }
  }

  lemma AbsorbNone(M: BlockFn, Y: Block)
    ensures Absorb(M, Y, 0, []) == Y
  {
  }

  lemma CloseSeals(E: BlockFn, M: BlockFn, j0: Block, A: Bytes, st: Gst)
    requires Open(E, M, j0, A, st)
    ensures Sealed(E, M, j0, A, CloseAad(M, st), [])
  {
    hide Ghash, Absorb;
    ClosedIsPadded(M, ZBLOCK, A);
    AbsorbNone(M, Ghash(M, ZBLOCK, Padded(A)));
  }

  lemma UpdateSeals(E: BlockFn, M: BlockFn, dec: bool, j0: Block, A: Bytes, st: Gst, C: Bytes, d: Bytes)
    requires Sealed(E, M, j0, A, CloseAad(M, st), C) && st.len == |C|
    requires |C| + |d| <= MAX_LEN
    ensures var (st2, o) := Update(E, M, dec, st, d);
            && o == StreamXor(E, j0, |C|, d)
            && Sealed(E, M, j0, A, st2, C + CtOf(dec, d, o))
  {
    hide After, Crypt, StreamXor, Ghash, CtOf;
    var st1 := CloseAad(M, st);
    AfterCrypt(E, M, dec, j0, Ghash(M, ZBLOCK, Padded(A)), st1, C, d);
  }
}
