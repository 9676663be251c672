// Section 4.1 of NIST SP 800-232 once more, by block number and in closed form: the state before each
// block, each byte of the ciphertext, and the tag. What the block algorithm of AsconSpec computes.
module AsconAead {
  import opened Bytes
  import opened Sponge
  import Spec = AsconSpec

  // pad(X, r) and what precedes it: a bit 1 after X and zeros up to whole blocks.
  function PadBlocks(X: Bytes, rate: nat): (p: Bytes)
    requires rate > 0
    ensures |p| == (|X| / rate + 1) * rate
  {
    WholeBlocks(|X|, rate);
    X + [0x01] + seq(rate - 1 - |X| % rate, _ => 0)
  }

  // The state with the first i blocks of X absorbed, b rounds after each.
  function After(h: Hash, b: nat, S: Bytes, X: Bytes, i: nat): (T: Bytes)
    requires 0 < h.rate <= |S| && i * h.rate <= |X|
    ensures |T| == |S|
    decreases i
  {
    if i == 0 then S
    else
      BlockBounds(i, h.rate);
      h.perm(b, XorAt(After(h, b, S, X, i - 1), 0, X[(i - 1) * h.rate..i * h.rate]))
  }

  // Associated data: all blocks of pad(A), and the last bit of the state flipped. None leave the state
  // as it is, which is where the code and the standard differ.
  function WithData(h: Hash, b: nat, S: Bytes, A: Bytes): (T: Bytes)
    requires 0 < h.rate <= |S|
    ensures |T| == |S|
  {
    if A == [] then S
    else
      var T := After(h, b, S, PadBlocks(A, h.rate), |A| / h.rate + 1);
      T[|T| - 1 := T[|T| - 1] ^ 0x80]
  }

  // Byte k of the ciphertext: that of the plaintext XORed with the state before its block.
  function CipherByte(h: Hash, b: nat, S: Bytes, P: Bytes, k: nat): byte
    requires 0 < h.rate <= |S| && k < |P|
  {
    BlockOf(k, |P|, h.rate);
    P[k] ^ After(h, b, S, PadBlocks(P, h.rate), k / h.rate)[k % h.rate]
  }

  // The state the finalization begins with: the last block of pad(P) added, and no rounds after it.
  function Last(h: Hash, b: nat, S: Bytes, P: Bytes): (T: Bytes)
    requires 0 < h.rate <= |S|
    ensures |T| == |S|
  {
    var q := |P| / h.rate;
    LastBounds(q, h.rate);
    XorAt(After(h, b, S, PadBlocks(P, h.rate), q), 0, PadBlocks(P, h.rate)[q * h.rate..])
  }

  // Byte k of the tag of t bytes.
  function TagByte(h: Hash, b: nat, S: Bytes, P: Bytes, K: Bytes, t: nat, k: nat): byte
    requires 0 < h.rate && h.rate + |K| <= |S| && k < t <= |K|
  {
    h.perm(12, XorAt(Last(h, b, S, P), h.rate, K))[|S| - t + k] ^ K[k]
  }

  // ---- blocks ----

  lemma WholeBlocks(n: nat, rate: nat)
    requires rate > 0
    ensures n + 1 + (rate - 1 - n % rate) == (n / rate + 1) * rate
  {
    assert (n / rate + 1) * rate == n / rate * rate + rate;
  }

  lemma BlockBounds(i: nat, rate: nat)
    requires i > 0
    ensures (i - 1) * rate + rate == i * rate
  {
  }

  lemma LastBounds(q: nat, rate: nat)
    ensures q * rate + rate == (q + 1) * rate
  {
  }

  lemma BlockOf(k: nat, n: nat, rate: nat)
    requires k < n && rate > 0
    ensures k / rate * rate <= (n / rate + 1) * rate
  {
    assert k / rate * rate <= k;
    assert n < (n / rate + 1) * rate;
  }

  // The first block taken off.
  lemma {:induction false} AfterFront(h: Hash, b: nat, S: Bytes, X: Bytes, i: nat)
    requires 0 < h.rate <= |S| && (i + 1) * h.rate <= |X|
    ensures i * h.rate <= |X[h.rate..]|
    ensures After(h, b, S, X, i + 1) == After(h, b, h.perm(b, XorAt(S, 0, X[..h.rate])), X[h.rate..], i)
    decreases i
  {
    hide XorAt;
    var r := h.rate;
    LastBounds(i, r);
    if i > 0 {
      BlockBounds(i, r);
      AfterFront(h, b, S, X, i - 1);
      assert X[r..][(i - 1) * r..i * r] == X[i * r..(i + 1) * r];
    }
  }

  lemma DivModStep(n: nat, rate: nat)
    requires 0 < rate <= n
    ensures (n - rate) / rate == n / rate - 1 && (n - rate) % rate == n % rate
  {
    var q, m := n / rate - 1, n % rate;
    assert n - rate == q * rate + m;
    DivModUnique(n - rate, rate, q, m);
  }

  lemma DivModUnique(n: nat, rate: nat, q: int, m: nat)
    requires m < rate && n == q * rate + m
    ensures n / rate == q && n % rate == m
  {
    var d := n / rate - q;
    assert d * rate == m - n % rate;
    assert d * rate < rate && d * rate > 0 - rate;
    assert d >= 1 ==> (d - 1) * rate >= 0;
    assert d <= -1 ==> (0 - d - 1) * rate >= 0;
  }

  lemma PadFront(X: Bytes, rate: nat)
    requires 0 < rate <= |X|
    ensures PadBlocks(X, rate)[..rate] == X[..rate] && PadBlocks(X, rate)[rate..] == PadBlocks(X[rate..], rate)
  {
    DivModStep(|X|, rate);
  }

  lemma PadShort(X: Bytes, rate: nat)
    requires |X| < rate
    ensures PadBlocks(X, rate) == X + [0x01] + seq(rate - 1 - |X|, _ => 0) && |PadBlocks(X, rate)| == rate && |X| / rate == 0
  {
    DivModUnique(|X|, rate, 0, |X|);
  }

  // The zeros of the padding are not seen by XOR.
  lemma PadSeen(S: Bytes, X: Bytes, rate: nat)
    requires |X| < rate <= |S|
    ensures |PadBlocks(X, rate)| == rate && XorAt(S, 0, PadBlocks(X, rate)) == XorAt(S, 0, Spec.Padded1(X))
  {
    PadShort(X, rate);
    var a, c := XorAt(S, 0, PadBlocks(X, rate)), XorAt(S, 0, Spec.Padded1(X));
    forall i | 0 <= i < |S| ensures a[i] == c[i] {
      XorFacts(S[i], 0);
    }
  }

  // ---- the block algorithm in closed form ----

  lemma AfterOne(h: Hash, b: nat, S: Bytes, A: Bytes)
    requires |A| < h.rate <= |S|
    ensures |PadBlocks(A, h.rate)| == h.rate && |A| / h.rate == 0
    ensures After(h, b, S, PadBlocks(A, h.rate), 1) == h.perm(b, XorAt(S, 0, Spec.Padded1(A)))
  {
    hide XorAt, PadBlocks, Spec.Padded1, KeepsLength;
    PadSeen(S, A, h.rate);
    PadShort(A, h.rate);
    var p := PadBlocks(A, h.rate);
    assert p[0..h.rate] == p;
    assert After(h, b, S, p, 0) == S;
  }

  lemma {:induction false} AbsorbIsAfter(h: Hash, b: nat, S: Bytes, A: Bytes)
    requires 0 < h.rate <= |S|
    ensures Spec.Absorb(h, b, S, A) == After(h, b, S, PadBlocks(A, h.rate), |A| / h.rate + 1)
    decreases |A|
  {
    hide XorAt, PadBlocks, Spec.Padded1;
    var r := h.rate;
    if |A| < r {
      AfterOne(h, b, S, A);
    } else {
      DivModStep(|A|, r);
      PadFront(A, r);
      AbsorbIsAfter(h, b, h.perm(b, XorAt(S, 0, A[..r])), A[r..]);
      AfterFront(h, b, S, PadBlocks(A, r), |A| / r);
    }
  }

  lemma AssociateIsWithData(h: Hash, b: nat, S: Bytes, A: Bytes)
    requires 0 < h.rate <= |S|
    ensures WithData(h, b, S, A) == if A == [] then S else Spec.Associate(h, b, S, A)
  {
    hide After, PadBlocks, Spec.Absorb;
    AbsorbIsAfter(h, b, S, A);
  }

  lemma CipherByteFirst(h: Hash, b: nat, S: Bytes, P: Bytes, k: nat)
    requires 0 < h.rate <= |S| && k < |P| && k < h.rate
    ensures CipherByte(h, b, S, P, k) == S[k] ^ P[k]
  {
    hide PadBlocks, XorAt;
    DivModUnique(k, h.rate, 0, k);
    assert After(h, b, S, PadBlocks(P, h.rate), 0) == S;
    XorFacts(P[k], S[k]);
  }

  lemma CipherByteNext(h: Hash, b: nat, S: Bytes, P: Bytes, k: nat)
    requires 0 < h.rate <= |S| && h.rate <= k < |P|
    ensures CipherByte(h, b, S, P, k) ==
            CipherByte(h, b, h.perm(b, XorAt(S, 0, P[..h.rate])), P[h.rate..], k - h.rate)
  {
    hide PadBlocks, XorAt, After;
    var r := h.rate;
    DivModStep(k, r);
    DivModStep(|P|, r);
    PadFront(P, r);
    BlockOf(k - r, |P| - r, r);
    BlockOf(k, |P|, r);
    BlockBounds(k / r, r);
    AfterFront(h, b, S, PadBlocks(P, r), k / r - 1);
  }

  lemma EncryptFirst(h: Hash, b: nat, S: Bytes, P: Bytes, k: nat)
    requires 0 < h.rate <= |S| && k < |P| && k < h.rate
    ensures Spec.Encrypt(h, b, S, P).1[k] == S[k] ^ P[k]
  {
  }

  lemma EncryptNext(h: Hash, b: nat, S: Bytes, P: Bytes, k: nat)
    requires 0 < h.rate <= |S| && h.rate <= k < |P|
    ensures Spec.Encrypt(h, b, S, P).1[k] ==
            Spec.Encrypt(h, b, h.perm(b, XorAt(S, 0, P[..h.rate])), P[h.rate..]).1[k - h.rate]
  {
    hide XorAt;
  }

  lemma {:induction false} CiphertextIs(h: Hash, b: nat, S: Bytes, P: Bytes, k: nat)
    requires 0 < h.rate <= |S| && k < |P|
    ensures Spec.Encrypt(h, b, S, P).1[k] == CipherByte(h, b, S, P, k)
    decreases |P|
  {
    hide XorAt, CipherByte, Spec.Encrypt;
    if k < h.rate {
      EncryptFirst(h, b, S, P, k);
      CipherByteFirst(h, b, S, P, k);
    } else {
      EncryptNext(h, b, S, P, k);
      CipherByteNext(h, b, S, P, k);
      CiphertextIs(h, b, h.perm(b, XorAt(S, 0, P[..h.rate])), P[h.rate..], k - h.rate);
    }
  }

  lemma {:induction false} LastIs(h: Hash, b: nat, S: Bytes, P: Bytes)
    requires 0 < h.rate <= |S|
    ensures Spec.Encrypt(h, b, S, P).0 == Last(h, b, S, P)
    decreases |P|
  {
    hide PadBlocks, XorAt, Spec.Padded1;
    var r, q := h.rate, |P| / h.rate;
    LastBounds(q, r);
    if |P| < r {
      PadShort(P, r);
      PadSeen(S, P, r);
      assert PadBlocks(P, r)[0..] == PadBlocks(P, r);
      assert After(h, b, S, PadBlocks(P, r), 0) == S;
    } else {
      var T := h.perm(b, XorAt(S, 0, P[..r]));
      DivModStep(|P|, r);
      PadFront(P, r);
      LastIs(h, b, T, P[r..]);
      BlockBounds(q, r);
      AfterFront(h, b, S, PadBlocks(P, r), q - 1);
      assert PadBlocks(P, r)[r..][(q - 1) * r..] == PadBlocks(P, r)[q * r..];
    }
  }

  // The main result: for every key, data and tag length, what the block algorithm puts out.
  lemma EncryptionIs(h: Hash, b: nat, S: Bytes, K: Bytes, P: Bytes, t: nat)
    requires 0 < h.rate && h.rate + |K| <= |S| && t <= |K|
    ensures var (T, C) := Spec.Encrypt(h, b, S, P);
            && (forall k :: 0 <= k < |P| ==> C[k] == CipherByte(h, b, S, P, k))
            && (forall k :: 0 <= k < t ==> Spec.Tag(h, T, K, t)[k] == TagByte(h, b, S, P, K, t, k))
  {
    hide PadBlocks, XorAt, CipherByte, Last, Spec.Encrypt;
    forall k | 0 <= k < |P| ensures Spec.Encrypt(h, b, S, P).1[k] == CipherByte(h, b, S, P, k) {
      CiphertextIs(h, b, S, P, k);
    }
    LastIs(h, b, S, P);
  }

  // Equal bytes of the tag are an equal tag.
  lemma TagVerdict(h: Hash, b: nat, S: Bytes, K: Bytes, P: Bytes, tag: Bytes)
    requires 0 < h.rate && h.rate + |K| <= |S| && |tag| <= |K|
    ensures tag == Spec.Tag(h, Spec.Encrypt(h, b, S, P).0, K, |tag|) <==>
            forall k :: 0 <= k < |tag| ==> tag[k] == TagByte(h, b, S, P, K, |tag|, k)
  {
    hide Spec.Tag, Spec.Encrypt, TagByte;
    EncryptionIs(h, b, S, K, P, |tag|);
  }
}
