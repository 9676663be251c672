// The PE checksum of apps/src/image.c.
module ImageChecksum {
  import opened Bytes
  import opened Octet

  // The 16-bit number with end-around carry that a sum t of 16-bit words folds to: congruent to t
  // modulo 65535, and 0 only for t = 0.
  function Fold(t: nat): (r: nat)
    ensures r < 0x1_0000 && r % 65535 == t % 65535 && (r == 0 <==> t == 0)
  {
    if t == 0 then 0 else (t - 1) % 65535 + 1
  }

  // The sum of the little-endian 16-bit words of b, an odd last byte standing for itself.
  function WordSum(b: Bytes): nat
    decreases |b|
  {
    if |b| == 0 then 0
    else if |b| == 1 then b[0] as nat
    else b[0] as nat + 256 * b[1] as nat + WordSum(b[2..])
  }

  // The same byte by byte: those at even offsets once, those at odd ones 256 times.
  function Weighted(b: Bytes): nat {
    if b == [] then 0
    else Weighted(b[..|b| - 1]) + Weight(|b| - 1, b[|b| - 1])
  }

  function Weight(i: nat, c: byte): nat {
    if i % 2 == 0 then c as nat else 256 * c as nat
  }

  lemma WordSumShort(b: Bytes)
    ensures |b| == 1 ==> WordSum(b) == b[0] as nat
    ensures |b| == 2 ==> WordSum(b) == b[0] as nat + 256 * b[1] as nat
  {
    assert |b| == 2 ==> WordSum(b[2..]) == 0;
  }

  lemma WeightedNext(b: Bytes, c: byte)
    ensures Weighted(b + [c]) == Weighted(b) + Weight(|b|, c)
  {
    hide Weight;
    assert (b + [c])[..|b|] == b;
  }

  lemma {:induction false} WordSumIsWeighted(b: Bytes)
    ensures WordSum(b) == Weighted(b)
    decreases |b|
  {
    hide WordSum, Weighted;
    if b == [] {
      EmptySum();
    } else if |b| % 2 == 1 {
      var i, c := b[..|b| - 1], b[|b| - 1];
      WordSumIsWeighted(i);
      assert b == i + [c];
      WordSumAppend(i, [c]);
      WordSumShort([c]);
      WeightedNext(i, c);
    } else {
      var i, w := b[..|b| - 2], b[|b| - 2..];
      WordSumIsWeighted(i);
      assert b == i + w && b == (i + [w[0]]) + [w[1]];
      WordSumAppend(i, w);
      WordSumShort(w);
      WeightedNext(i, w[0]);
      WeightedNext(i + [w[0]], w[1]);
    }
  }

  lemma EmptySum()
    ensures WordSum([]) == 0 && Weighted([]) == 0
  {
  }

  // csum_update_fold on uint16_t arguments, the sum being 32 bits wide.
  function UpdateFold(csum: nat, x: nat): nat
    requires csum < 0x1_0000 && x < 0x1_0000
  {
    var s := csum + x;
    (s / 0x1_0000 + s % 0x1_0000) % 0x1_0000
  }

  lemma ModPlus(k: nat, m: nat)
    requires m < 2 * 65535
    ensures (65535 * k + m) % 65535 == if m < 65535 then m else m - 65535
  {
  }

  // The 32-bit sum of two 16-bit numbers needs one end-around carry and never overflows.
  lemma UpdateFoldIsFold(t: nat, x: nat)
    requires x < 0x1_0000
    ensures UpdateFold(Fold(t), x) == Fold(t + x)
  {
    if t == 0 {
      if x > 0 {
        ModPlus(0, x - 1);
      }
    } else {
      var k, m := (t - 1) / 65535, (t - 1) % 65535;
      ModPlus(k, m + x);
      assert t + x - 1 == 65535 * k + (m + x);
    }
  }

  lemma {:induction false} WordSumAppend(a: Bytes, b: Bytes)
    requires |a| % 2 == 0
    ensures WordSum(a + b) == WordSum(a) + WordSum(b)
    decreases |a|
  {
    if a == [] {
      assert a + b == b;
    } else {
      assert (a + b)[2..] == a[2..] + b;
      WordSumAppend(a[2..], b);
    }
  }

  lemma {:induction false} WordSumZeros(n: nat)
    ensures WordSum(Zeros(n)) == 0
  {
    if n >= 2 {
      assert Zeros(n)[2..] == Zeros(n - 2);
      WordSumZeros(n - 2);
    }
  }

  lemma WordBound(lo: byte, hi: byte)
    ensures lo as nat + 256 * hi as nat < 0x1_0000
  {
    NatOfByte(lo);
    NatOfByte(hi);
  }

  // csum_bytes: from a checksum of t on, the checksum of t plus the words of the buffer. The loop
  // counter is 32 bits wide.
  method CsumBytes(checksum: nat, buf: array<byte>, off: nat, len: nat, ghost t: nat) returns (c: nat)
    requires off + len <= buf.Length && len < TWO32 && checksum == Fold(t)
    ensures c == Fold(t + WordSum(buf[off..off + len]))
  {
    hide Fold, WordSum, UpdateFold;
    ghost var s := buf[off..off + len];
    c := checksum;
    var i := 0;
    ghost var done: nat := 0;
    while i + 2 <= len
      invariant i <= len && i % 2 == 0
      invariant c == Fold(t + done) && c < 0x1_0000 && done + WordSum(s[i..]) == WordSum(s)
    {
      var w := buf[off + i] as nat + 256 * buf[off + i + 1] as nat;
      WordBound(buf[off + i], buf[off + i + 1]);
      FirstWord(s, i);
      UpdateFoldIsFold(t + done, w);
      c := UpdateFold(c, w);
      done := done + w;
      i := i + 2;
    }
    LastByte(s, i);
    if i < len {
      NatOfByte(buf[off + i]);
      UpdateFoldIsFold(t + done, buf[off + i] as nat);
      c := UpdateFold(c, buf[off + i] as nat);
    }
  }

  lemma FirstWord(s: Bytes, i: nat)
    requires i + 2 <= |s|
    ensures WordSum(s[i..]) == s[i] as nat + 256 * s[i + 1] as nat + WordSum(s[i + 2..])
  {
    assert s[i..][2..] == s[i + 2..];
  }

  lemma LastByte(s: Bytes, i: nat)
    requires i <= |s| < i + 2
    ensures WordSum(s[i..]) == if i < |s| then s[i] as nat else 0
  {
  }

  // ---- the checksum of a file ----

  // The file with its checksum field, at cs, set to zero.
  function Cleared(file: Bytes, cs: nat): (r: Bytes)
    requires cs + 4 <= |file|
    ensures |r| == |file|
  {
    Overwrite(file, cs, Zeros(4))
  }

  // What the PE format wants in the checksum field.
  function PeChecksum(file: Bytes, cs: nat): nat
    requires cs + 4 <= |file|
  {
    (Fold(WordSum(Cleared(file, cs))) + |file|) % TWO32
  }

  // What image_pecoff_update_checksum sums up: the pieces around the field, then the signatures.
  function PieceSum(data: Bytes, cs: nat, sigs: Bytes): nat
    requires cs + 4 <= |data|
  {
    WordSum(data[..cs]) + WordSum(data[cs + 4..]) + WordSum(sigs)
  }

  // Summing in pieces is summing the whole file with a zero field, if the pieces are whole words.
  lemma PieceSumIsFileSum(data: Bytes, cs: nat, sigs: Bytes)
    requires cs + 4 <= |data| && |data| % 2 == 0 && cs % 2 == 0
    ensures PieceSum(data, cs, sigs) == WordSum(Cleared(data + sigs, cs))
  {
    hide WordSum;
    var z := Zeros(4);
    WordSumZeros(4);
    assert Cleared(data + sigs, cs) == (data[..cs] + z) + (data[cs + 4..] + sigs);
    WordSumAppend(data[..cs] + z, data[cs + 4..] + sigs);
    WordSumAppend(data[..cs], z);
    WordSumAppend(data[cs + 4..], sigs);
  }

  lemma OneThenZeros(k: nat)
    ensures WordSum([1] + Zeros(k)) == 1 && WordSum([0, 1] + Zeros(k)) == 256
  {
    WordSumZeros(k);
    assert ([0, 1] + Zeros(k))[2..] == Zeros(k);
    ByteOfNat(1);
    ByteOfNat(0);
    if k > 0 {
      WordSumZeros(k - 1);
      assert ([1] + Zeros(k))[2..] == Zeros(k - 1);
    }
  }

  // All zeros but the first byte after the checksum field.
  function OddWitness(n: nat, cs: nat): (w: Bytes)
    requires cs + 5 <= n
    ensures |w| == n
  {
    Zeros(cs + 4) + ([1] + Zeros(n - cs - 5))
  }

  // With the field at an odd offset the words behind it are summed out of step: a single byte
  // there counts once instead of 256 times.
  lemma OddWitnessDiffers(n: nat, cs: nat)
    requires cs % 2 == 1 && n % 2 == 0 && cs + 4 <= n
    ensures var w := OddWitness(n, cs);
            Fold(PieceSum(w, cs, [])) != Fold(WordSum(Cleared(w, cs)))
  {
    hide WordSum;
    var k := n - cs - 5;
    var data := OddWitness(n, cs);
    OneThenZeros(k);
    WordSumZeros(0);
    WordSumZeros(cs);
    WordSumZeros(cs + 3);
    assert data[..cs] == Zeros(cs) && data[cs + 4..] == [1] + Zeros(k) && Zeros(0) == [];
    assert Cleared(data, cs) == Zeros(cs + 3) + ([0, 1] + Zeros(k));
    WordSumAppend(Zeros(cs + 3), [0, 1] + Zeros(k));
  }

  // The two sums agree on all files of a given even length exactly if the field is word-aligned.
  lemma ChecksumExactly(n: nat, cs: nat)
    requires n % 2 == 0 && cs + 4 <= n
    ensures (forall data: Bytes | |data| == n :: Fold(PieceSum(data, cs, [])) == Fold(WordSum(Cleared(data, cs))))
       <==> cs % 2 == 0
  {
    hide Fold, WordSum, PieceSum, Cleared;
    if cs % 2 == 0 {
      forall data: Bytes | |data| == n ensures Fold(PieceSum(data, cs, [])) == Fold(WordSum(Cleared(data, cs))) {
        PieceSumIsFileSum(data, cs, []);
        assert data + [] == data;
      }
    } else {
      OddWitnessDiffers(n, cs);
    }
  }
}
