// Whole Ascon messages: any chunking meets section 4.1 of NIST SP 800-232 when there is associated
// data, and decryption with any other chunking inverts encryption.
module AsconRuns {
  import opened Bytes
  import opened Sponge
  import opened AsconStream
  import Spec = AsconSpec

  // ---- the byte machine against the block algorithm ----

  lemma PadIsPadded(h: Hash, r: nat, S: Bytes, P: Bytes)
    requires 0 < h.rate <= |S| && |P| < h.rate
    ensures Pad(h, r, Ast(XorAt(S, 0, P), |P|)) == XorAt(S, 0, Spec.Padded1(P))
  {
    hide XorAt;
    XorAtTwice(S, 0, P, [PAD_DATA]);
  }

  lemma PadReady(h: Hash, r: nat, a: Ast, b: Ast)
    requires Ok(h, a) && Ok(h, b) && Ready(h, r, a) == Ready(h, r, b)
    ensures Pad(h, r, a) == Pad(h, r, b)
  {
    hide XorAt;
  }

  // Whole blocks and a padded rest are the bytes one after the other, padded at the end.
  lemma {:induction false} EncryptIsCrypt(h: Hash, r: nat, S: Bytes, P: Bytes)
    requires 0 < h.rate <= |S|
    ensures Spec.Encrypt(h, r, S, P) ==
            var (st, C) := Crypt(h, r, false, Ast(S, 0), P); (Pad(h, r, st), C)
    decreases |P|
  {
    hide XorAt, Crypt, Pad;
    if |P| < h.rate {
      CryptIsPiece(h, r, false, Ast(S, 0), P);
      PadIsPadded(h, r, S, P);
    } else {
      var b, rest := P[..h.rate], P[h.rate..];
      var T := XorAt(S, 0, b);
      assert P == b + rest;
      CryptIsPiece(h, r, false, Ast(S, 0), b);
      CryptAppend(h, r, false, Ast(S, 0), b, rest);
      CryptReady(h, r, false, Ast(T, h.rate), rest);
      EncryptIsCrypt(h, r, h.perm(r, T), rest);
      PadReady(h, r, Crypt(h, r, false, Ast(T, h.rate), rest).0, Crypt(h, r, false, Ast(h.perm(r, T), 0), rest).0);
    }
  }

  lemma {:induction false} AbsorbIsEncrypt(h: Hash, r: nat, S: Bytes, A: Bytes)
    requires 0 < h.rate <= |S|
    ensures Spec.Absorb(h, r, S, A) == h.perm(r, Spec.Encrypt(h, r, S, A).0)
    decreases |A|
  {
    hide XorAt;
    if |A| >= h.rate {
      AbsorbIsEncrypt(h, r, h.perm(r, XorAt(S, 0, A[..h.rate])), A[h.rate..]);
    }
  }

  lemma AadIsAssociate(h: Hash, r: nat, S: Bytes, A: Bytes)
    requires 0 < h.rate <= |S| && A != []
    ensures Aad(h, r, S, A) == Spec.Associate(h, r, S, A)
  {
    hide Crypt, Pad, Spec.Absorb, Spec.Encrypt;
    EncryptIsCrypt(h, r, S, A);
    AbsorbIsEncrypt(h, r, S, A);
  }

  // The code skips the separation bit for empty data: it meets the standard exactly if there is some.
  lemma AadExactly(h: Hash, r: nat, S: Bytes, A: Bytes)
    requires 0 < h.rate <= |S|
    ensures Aad(h, r, S, A) == Spec.Associate(h, r, S, A) <==> A != []
  {
    if A != [] {
      AadIsAssociate(h, r, S, A);
    } else {
      var b := S[|S| - 1];
      assert Spec.Separate(S)[|S| - 1] == b ^ PAD_TRAIL;
      BitFlips(b);
    }
  }

  lemma BitFlips(b: byte)
    ensures b ^ PAD_TRAIL != b
  {
  }

  // ---- runs ----

  function UpdateRun(h: Hash, r: nat, dec: bool, st: Ast, ds: seq<Bytes>): (t: (Ast, seq<Bytes>))
    requires Ok(h, st)
    ensures Ok(h, t.0) && |t.0.state| == |st.state| && |t.1| == |ds|
  {
    if ds == [] then (st, [])
    else
      var (st1, os) := UpdateRun(h, r, dec, st, ds[..|ds| - 1]);
      var (st2, o) := Crypt(h, r, dec, st1, ds[|ds| - 1]);
      (st2, os + [o])
  }

  // The state and rate_offset depend on the concatenated data only.
  lemma {:induction false} RunIsCrypt(h: Hash, r: nat, dec: bool, st: Ast, ds: seq<Bytes>)
    requires Ok(h, st)
    ensures var (t, os) := UpdateRun(h, r, dec, st, ds); (t, Flatten(os)) == Crypt(h, r, dec, st, Flatten(ds))
  {
    if ds == [] {
      CryptEmpty(h, r, dec, st);
    } else {
      hide Crypt;
      var i, d := ds[..|ds| - 1], ds[|ds| - 1];
      RunIsCrypt(h, r, dec, st, i);
      CryptAppend(h, r, dec, st, Flatten(i), d);
      var (t, os) := UpdateRun(h, r, dec, st, i);
      var o := Crypt(h, r, dec, t, d).1;
      assert (os + [o])[..|os|] == os;
    }
  }

  // lc_ascon_finalization: the state it leaves and the tag.
  function Finalize(h: Hash, S: Bytes, K: Bytes, t: nat): (f: (Bytes, Bytes))
    requires h.rate + |K| <= |S| && t <= |S| && t <= |K|
    ensures |f.0| == |S| && |f.1| == t
  {
    var S1 := XorAt(h.perm(12, XorAt(S, h.rate, K)), |S| - t, K[..t]);
    (S1, S1[|S| - t..])
  }

  lemma FinalizeIsTag(h: Hash, S: Bytes, K: Bytes, t: nat)
    requires h.rate + |K| <= |S| && t <= |S| && t <= |K|
    ensures Finalize(h, S, K, t).1 == Spec.Tag(h, S, K, t)
  {
  }

  // ---- the main results ----

  // For all chunkings, ciphertext and tag are the standard's, from the state after initialization.
  lemma EncryptionMeetsStandard(h: Hash, r: nat, S: Bytes, K: Bytes, A: Bytes, pts: seq<Bytes>, t: nat)
    requires 0 < h.rate && h.rate + |K| <= |S| && t <= |K| && A != []
    ensures var (st, cts) := UpdateRun(h, r, false, Ast(Aad(h, r, S, A), 0), pts);
            var (T, C) := Spec.Encrypt(h, r, Spec.Associate(h, r, S, A), Flatten(pts));
            Flatten(cts) == C && Finalize(h, Pad(h, r, st), K, t).1 == Spec.Tag(h, T, K, t)
  {
    hide Crypt, Pad, Aad, UpdateRun, Spec.Encrypt, Spec.Associate, Spec.Tag, Finalize;
    AadIsAssociate(h, r, S, A);
    var U := Aad(h, r, S, A);
    RunIsCrypt(h, r, false, Ast(U, 0), pts);
    EncryptIsCrypt(h, r, U, Flatten(pts));
    FinalizeIsTag(h, Pad(h, r, UpdateRun(h, r, false, Ast(U, 0), pts).0), K, t);
  }

  // Encryption and decryption of the same data in any two chunkings, from equal states, also
  // without associated data: equal states and offsets, the plaintext back, and equal tags.
  lemma {:induction false} DecryptionInvertsEncryption(h: Hash, r: nat, st: Ast, K: Bytes,
                                                         pts: seq<Bytes>, cts': seq<Bytes>, t: nat)
    requires Ok(h, st) && h.rate + |K| <= |st.state| && t <= |K|
    requires Flatten(cts') == Flatten(UpdateRun(h, r, false, st, pts).1)
    ensures var (e, cts) := UpdateRun(h, r, false, st, pts);
            var (d, out) := UpdateRun(h, r, true, st, cts');
            && d == e && Flatten(out) == Flatten(pts)
            && Finalize(h, Pad(h, r, d), K, t) == Finalize(h, Pad(h, r, e), K, t)
  {
    hide Crypt, UpdateRun, Finalize, Pad;
    RunIsCrypt(h, r, false, st, pts);
    RunIsCrypt(h, r, true, st, cts');
    Lockstep(h, r, false, st, Flatten(pts));
  }
}
