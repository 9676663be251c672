// The cSHAKE AEAD as a value: a key stream position that only moves forward and a MAC message that
// starts anew after every tag; and what whole runs of messages under one key amount to.
module CshakeRuns {
  import opened Bytes
  import opened Keystream

  // The output of the extendable-output function for a key and an IV, byte by byte.
  type Xof = (Bytes, Bytes) -> Stream
  // The keyed cSHAKE digest by authentication key, message and digest length; it is that long.
  type DigestFn = (Bytes, Bytes, nat) -> Bytes

  ghost predicate KeepsDigestLength(f: DigestFn) {
    forall key: Bytes, msg: Bytes, t: nat :: |f(key, msg, t)| == t
  }

  // 1 on one message and 0 on all others.
  function Telling(m: Bytes): (f: DigestFn)
    ensures KeepsDigestLength(f)
  {
    (key: Bytes, msg: Bytes, t: nat) => if msg == m then seq(t, _ => 1) else Zeros(t)
  }

  type Mac = f: DigestFn | KeepsDigestLength(f) witness Telling([])

  const AUTH_KEY_SIZE := 32

  // The key stream, the position of its next unused byte, the MAC key, the MAC message so far.
  datatype Cst = Cst(stream: Stream, next: nat, authKey: Bytes, msg: Bytes)

  // lc_cc_setkey_nocheck
  function SetKey(xof: Xof, key: Bytes, iv: Bytes): Cst {
    Cst(xof(key, iv), AUTH_KEY_SIZE, Squeeze(xof(key, iv), 0, AUTH_KEY_SIZE), [])
  }

  function AddAad(st: Cst, aad: Bytes): Cst {
    st.(msg := st.msg + aad)
  }

  // lc_cc_encrypt, lc_cc_decrypt: the MAC takes the ciphertext on either side.
  function Update(dec: bool, st: Cst, d: Bytes): (t: (Cst, Bytes))
    ensures |t.1| == |d|
  {
    var o := StreamXor(st.stream, st.next, d);
    (st.(next := st.next + |d|, msg := st.msg + (if dec then d else o)), o)
  }

  // lc_cc_encrypt_tag
  function Tag(mac: Mac, st: Cst, t: nat): (Cst, Bytes) {
    (st.(msg := []), mac(st.authKey, st.msg, t))
  }

  // ---- runs ----

  // One message as the calls cut it, and what comes out of it.
  datatype Message = Message(aads: seq<Bytes>, data: seq<Bytes>, taglen: nat)
  datatype Result = Result(out: seq<Bytes>, tag: Bytes)

  function Aads(st: Cst, aads: seq<Bytes>): Cst {
    if aads == [] then st else AddAad(Aads(st, aads[..|aads| - 1]), aads[|aads| - 1])
  }

  function Updates(dec: bool, st: Cst, ds: seq<Bytes>): (Cst, seq<Bytes>) {
    if ds == [] then (st, [])
    else
      var (st1, os) := Updates(dec, st, ds[..|ds| - 1]);
      var (st2, o) := Update(dec, st1, ds[|ds| - 1]);
      (st2, os + [o])
  }

  function Process(mac: Mac, dec: bool, st: Cst, m: Message): (Cst, Result) {
    var (st1, os) := Updates(dec, Aads(st, m.aads), m.data);
    var (st2, tag) := Tag(mac, st1, m.taglen);
    (st2, Result(os, tag))
  }

  function Run(mac: Mac, dec: bool, st: Cst, ms: seq<Message>): (t: (Cst, seq<Result>))
    ensures |t.1| == |ms|
  {
    if ms == [] then (st, [])
    else
      var (st1, rs) := Run(mac, dec, st, ms[..|ms| - 1]);
      var (st2, r) := Process(mac, dec, st1, ms[|ms| - 1]);
      (st2, rs + [r])
  }

  // All data of a run, all output of a run, one message after the other.
  function AllData(ms: seq<Message>): Bytes {
    if ms == [] then [] else AllData(ms[..|ms| - 1]) + Flatten(ms[|ms| - 1].data)
  }

  function AllOut(rs: seq<Result>): Bytes {
    if rs == [] then [] else AllOut(rs[..|rs| - 1]) + Flatten(rs[|rs| - 1].out)
  }

  // ---- one message ----

  lemma {:induction false} AadsAppend(st: Cst, aads: seq<Bytes>)
    ensures Aads(st, aads) == st.(msg := st.msg + Flatten(aads))
  {
    if aads == [] {
      assert st.msg + [] == st.msg;
    } else {
      AadsAppend(st, aads[..|aads| - 1]);
      var i, a := aads[..|aads| - 1], aads[|aads| - 1];
      assert st.msg + (Flatten(i) + a) == (st.msg + Flatten(i)) + a;
    }
  }

  // The cut of the data does not matter.
  lemma {:induction false} UpdatesIsUpdate(dec: bool, st: Cst, ds: seq<Bytes>)
    ensures var (t, os) := Updates(dec, st, ds); (t, Flatten(os)) == Update(dec, st, Flatten(ds))
  {
    hide Update;
    if ds == [] {
      UpdateNone(dec, st);
    } else {
      var i, d := ds[..|ds| - 1], ds[|ds| - 1];
      UpdatesIsUpdate(dec, st, i);
      var (t, os) := Updates(dec, st, i);
      var o := Update(dec, t, d).1;
      assert (os + [o])[..|os|] == os;
      UpdateAppend(dec, st, Flatten(i), d);
    }
  }

  lemma UpdateNone(dec: bool, st: Cst)
    ensures Update(dec, st, []) == (st, [])
  {
    assert st.msg + [] == st.msg;
  }

  lemma UpdateAppend(dec: bool, st: Cst, a: Bytes, b: Bytes)
    ensures var (s1, o1) := Update(dec, st, a);
            var (s2, o2) := Update(dec, s1, b);
            Update(dec, st, a + b) == (s2, o1 + o2)
  {
    hide StreamXor;
    StreamXorAppend(st.stream, st.next, a, b);
    var o1, o2 := StreamXor(st.stream, st.next, a), StreamXor(st.stream, st.next + |a|, b);
    var c1, c2 := if dec then a else o1, if dec then b else o2;
    assert st.msg + (c1 + c2) == (st.msg + c1) + c2;
  }

  // A message started with an empty MAC message: output, tag over this message only, and the state
  // that the next message starts from.
  lemma ProcessIs(mac: Mac, dec: bool, st: Cst, m: Message)
    requires st.msg == []
    ensures var (t, r) := Process(mac, dec, st, m);
            var d := Flatten(m.data);
            var o := StreamXor(st.stream, st.next, d);
            && Flatten(r.out) == o && t == st.(next := st.next + |d|)
            && r.tag == mac(st.authKey, Flatten(m.aads) + (if dec then d else o), m.taglen)
  {
    hide StreamXor, Updates, Aads, Flatten;
    AadsAppend(st, m.aads);
    UpdatesIsUpdate(dec, Aads(st, m.aads), m.data);
    assert [] + Flatten(m.aads) == Flatten(m.aads);
  }

  // ---- the main results ----

  // Byte k of all output is byte k of all data XORed with key stream byte next + k: no byte of the
  // key stream is used twice, and from setkey on none before AUTH_KEY_SIZE is used.
  lemma {:induction false} RunIsOneStream(mac: Mac, dec: bool, st: Cst, ms: seq<Message>)
    requires st.msg == []
    ensures var (t, rs) := Run(mac, dec, st, ms);
            && AllOut(rs) == StreamXor(st.stream, st.next, AllData(ms))
            && t == st.(next := st.next + |AllData(ms)|)
  {
    hide StreamXor, Process, Flatten;
    if ms != [] {
      var i, m := ms[..|ms| - 1], ms[|ms| - 1];
      RunIsOneStream(mac, dec, st, i);
      var (t, rs) := Run(mac, dec, st, i);
      ProcessIs(mac, dec, t, m);
      StreamXorAppend(st.stream, st.next, AllData(i), Flatten(m.data));
      var r := Process(mac, dec, t, m).1;
      assert (rs + [r])[..|rs|] == rs;
    }
  }

  // From setkey on: the first 32 bytes of the stream key the MAC and are not used for data.
  lemma KeystreamUse(mac: Mac, dec: bool, xof: Xof, key: Bytes, iv: Bytes, ms: seq<Message>, k: nat)
    requires k < |AllData(ms)|
    ensures var out := AllOut(Run(mac, dec, SetKey(xof, key, iv), ms).1);
            |out| == |AllData(ms)| && out[k] == AllData(ms)[k] ^ xof(key, iv)(32 + k)
  {
    hide Run, AllData, AllOut;
    RunIsOneStream(mac, dec, SetKey(xof, key, iv), ms);
  }

  // Each tag covers the associated data and the ciphertext of its own message and nothing else.
  lemma {:induction false} TagsCoverOneMessage(mac: Mac, dec: bool, st: Cst, ms: seq<Message>, k: nat)
    requires st.msg == [] && k < |ms|
    ensures var r := Run(mac, dec, st, ms).1[k];
            var d := Flatten(ms[k].data);
            var o := StreamXor(st.stream, st.next + |AllData(ms[..k])|, d);
            && Flatten(r.out) == o
            && r.tag == mac(st.authKey, Flatten(ms[k].aads) + (if dec then d else o), ms[k].taglen)
    decreases |ms|
  {
    hide StreamXor, Process, Flatten, AllData;
    var i := ms[..|ms| - 1];
    if k < |ms| - 1 {
      TagsCoverOneMessage(mac, dec, st, i, k);
      assert i[..k] == ms[..k];
    } else {
      RunIsOneStream(mac, dec, st, i);
      ProcessIs(mac, dec, Run(mac, dec, st, i).0, ms[k]);
    }
  }

  // Both together, for every run from setkey on: with the 32 first bytes of the stream, K, as its key the MAC
  // covers each message alone, and the data are XORed with the bytes from the 33rd on.
  lemma RunFromKey(mac: Mac, dec: bool, xof: Xof, key: Bytes, iv: Bytes, ms: seq<Message>, k: nat, K: Bytes)
    requires k < |ms| && |K| == 32 && forall i :: 0 <= i < 32 ==> K[i] == xof(key, iv)(i)
    ensures var r := Run(mac, dec, SetKey(xof, key, iv), ms).1[k];
            var d, o := Flatten(ms[k].data), Flatten(r.out);
            && |o| == |d| && (forall i :: 0 <= i < |d| ==> o[i] == d[i] ^ xof(key, iv)(32 + |AllData(ms[..k])| + i))
            && r.tag == mac(K, Flatten(ms[k].aads) + (if dec then d else o), ms[k].taglen)
  {
    hide Run, AllData, Flatten;
    assert SetKey(xof, key, iv).authKey == K;
    TagsCoverOneMessage(mac, dec, SetKey(xof, key, iv), ms, k);
  }

  // ms' are the messages ms as the decrypting side gets them: same associated data, the ciphertext
  // for data, each cut in any way.
  ghost predicate Received(mac: Mac, st: Cst, ms: seq<Message>, ms': seq<Message>) {
    && |ms'| == |ms|
    && forall k :: 0 <= k < |ms| ==>
         && Flatten(ms'[k].aads) == Flatten(ms[k].aads) && ms'[k].taglen == ms[k].taglen
         && Flatten(ms'[k].data) == Flatten(Run(mac, false, st, ms).1[k].out)
  }

  lemma {:induction false} SameAmount(mac: Mac, st: Cst, ms: seq<Message>, ms': seq<Message>, k: nat)
    requires st.msg == [] && Received(mac, st, ms, ms') && k <= |ms|
    ensures |AllData(ms'[..k])| == |AllData(ms[..k])|
  {
    hide StreamXor, Run, Flatten;
    if k > 0 {
      SameAmount(mac, st, ms, ms', k - 1);
      TagsCoverOneMessage(mac, false, st, ms, k - 1);
      assert ms[..k][..k - 1] == ms[..k - 1] && ms'[..k][..k - 1] == ms'[..k - 1];
    }
  }

  // Encryptor and decryptor stay synchronized over the whole run: every plaintext comes back, every
  // tag is accepted, and the states are equal at the end.
  lemma {:induction false} DecryptionInvertsEncryption(mac: Mac, st: Cst, ms: seq<Message>, ms': seq<Message>)
    requires st.msg == [] && Received(mac, st, ms, ms')
    ensures Run(mac, true, st, ms').0 == Run(mac, false, st, ms).0
    ensures forall k :: 0 <= k < |ms| ==>
              && Flatten(Run(mac, true, st, ms').1[k].out) == Flatten(ms[k].data)
              && Run(mac, true, st, ms').1[k].tag == Run(mac, false, st, ms).1[k].tag
  {
    hide StreamXor, Run, Flatten, AllData;
    forall k | 0 <= k < |ms|
      ensures Flatten(Run(mac, true, st, ms').1[k].out) == Flatten(ms[k].data)
      ensures Run(mac, true, st, ms').1[k].tag == Run(mac, false, st, ms).1[k].tag
    {
      SameAmount(mac, st, ms, ms', k);
      TagsCoverOneMessage(mac, false, st, ms, k);
      TagsCoverOneMessage(mac, true, st, ms', k);
      StreamXorTwice(st.stream, st.next + |AllData(ms[..k])|, Flatten(ms[k].data));
    }
    SameAmount(mac, st, ms, ms', |ms|);
    assert ms[..|ms|] == ms && ms'[..|ms|] == ms';
    RunIsOneStream(mac, false, st, ms);
    RunIsOneStream(mac, true, st, ms');
  }

  // ---- what the tag does not tell apart ----

  // The same bytes, cut elsewhere into associated data and ciphertext.
  predicate Shifted(A: Bytes, C: Bytes, B: Bytes, D: Bytes) {
    if |A| <= |B| then |B| <= |A| + |C| && B == A + C[..|B| - |A|] && D == C[|B| - |A|..]
    else |A| <= |B| + |D| && A == B + D[..|A| - |B|] && C == D[|A| - |B|..]
  }

  lemma ShiftedExactly(A: Bytes, C: Bytes, B: Bytes, D: Bytes)
    ensures A + C == B + D <==> Shifted(A, C, B, D)
  {
    if |A| <= |B| {
      ShiftedOne(A, C, B, D);
    } else {
      ShiftedOne(B, D, A, C);
    }
  }

  lemma ShiftedOne(A: Bytes, C: Bytes, B: Bytes, D: Bytes)
    requires |A| <= |B|
    ensures A + C == B + D <==> |B| <= |A| + |C| && B == A + C[..|B| - |A|] && D == C[|B| - |A|..]
  {
    if |B| <= |A| + |C| {
      var k := |B| - |A|;
      assert B == (B + D)[..|B|] && D == (B + D)[|B|..];
      assert (A + C)[..|B|] == A + C[..k] && (A + C)[|B|..] == C[k..];
      assert (A + C[..k]) + C[k..] == A + C;
    } else {
      assert |A + C| < |B + D|;
    }
  }

  // Associated data and ciphertext are fed to the MAC without anything between them: under every
  // digest two messages have the same tag exactly if they are the same bytes cut differently.
  lemma TagsAgreeExactly(key: Bytes, A: Bytes, C: Bytes, B: Bytes, D: Bytes, t: nat)
    requires t > 0
    ensures (forall mac: Mac :: mac(key, A + C, t) == mac(key, B + D, t)) <==> Shifted(A, C, B, D)
  {
    ShiftedExactly(A, C, B, D);
    if A + C != B + D {
      var mac: Mac := Telling(A + C);
      assert mac(key, A + C, t)[0] == 1 && mac(key, B + D, t)[0] == 0;
    }
  }

  // With associated data of the same length they are the same message.
  lemma EqualLengthsInjective(A: Bytes, C: Bytes, B: Bytes, D: Bytes)
    requires |A| == |B|
    ensures Shifted(A, C, B, D) <==> A == B && C == D
  {
    assert C[..0] == [] && C[0..] == C;
  }
}
