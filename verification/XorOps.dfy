// The in-place XOR loops of internal/api/xor.h and the plain copies, on buffers addressed by an
// array and an offset.
module XorOps {
  import opened Bytes

  // Two areas of n bytes that are the same one or do not meet: what every caller of an
  // in-place capable operation has to provide.
  predicate SameOrApart(a: array<byte>, ao: nat, b: array<byte>, bo: nat, n: nat) {
    a != b || ao == bo || ao + n <= bo || bo + n <= ao
  }

  // The same area, and areas one behind the other, are allowed.
  lemma InPlaceAllowed(a: array<byte>, o: nat, n: nat)
    ensures SameOrApart(a, o, a, o, n) && SameOrApart(a, o, a, o + n, n) && SameOrApart(a, o + n, a, o, n)
  {
  }

  // xor_64: dst ^= src
  method XorInto(dst: array<byte>, dOff: nat, src: array<byte>, sOff: nat, n: nat)
    requires dst != src || dOff + n <= sOff || sOff + n <= dOff
    requires dOff + n <= dst.Length && sOff + n <= src.Length
    modifies dst
    ensures dst[..] == XorAt(old(dst[..]), dOff, old(src[sOff..sOff + n]))
  {
    ghost var d0, s0 := dst[..], src[sOff..sOff + n];
    var i := 0;
    while i < n
      invariant i <= n
      invariant forall k :: 0 <= k < dst.Length ==>
        dst[k] == if dOff <= k < dOff + i then d0[k] ^ s0[k - dOff] else d0[k]
      invariant src[sOff..sOff + n] == s0
    {
      assert src[sOff + i] == s0[i];
      dst[dOff + i] := dst[dOff + i] ^ src[sOff + i];
      i := i + 1;
    }
  }

  // xor_64_3: dst = a ^ b, where dst may be b
  method Xor3(dst: array<byte>, dOff: nat, a: array<byte>, aOff: nat, b: array<byte>, bOff: nat, n: nat)
    requires dst != a && SameOrApart(dst, dOff, b, bOff, n)
    requires dOff + n <= dst.Length && aOff + n <= a.Length && bOff + n <= b.Length
    modifies dst
    ensures dst[..] == Overwrite(old(dst[..]), dOff, Xor(a[aOff..aOff + n], old(b[bOff..bOff + n])))
  {
    ghost var d0, b0 := dst[..], b[bOff..bOff + n];
    var i := 0;
    while i < n
      invariant i <= n
      invariant forall k :: 0 <= k < dst.Length ==>
        dst[k] == if dOff <= k < dOff + i then a[aOff + k - dOff] ^ b0[k - dOff] else d0[k]
      invariant forall k :: i <= k < n ==> b[bOff + k] == b0[k]
    {
      assert b[bOff + i] == b0[i];
      dst[dOff + i] := a[aOff + i] ^ b[bOff + i];
      i := i + 1;
    }
  }

  // memcpy unless in place, then xor_64 with k
  method CopyXor(out: array<byte>, oo: nat, inp: array<byte>, io: nat, k: array<byte>, ko: nat, n: nat)
    requires k != inp && k != out && SameOrApart(out, oo, inp, io, n)
    requires oo + n <= out.Length && io + n <= inp.Length && ko + n <= k.Length
    modifies out
    ensures out[..] == Overwrite(old(out[..]), oo, Xor(old(inp[io..io + n]), k[ko..ko + n]))
  {
    hide XorAt, Overwrite, Xor;
    ghost var o0, d := out[..], inp[io..io + n];
    if inp != out || io != oo {
      Store(out, oo, inp[io..io + n]);
    } else {
      OverwriteSelf(o0, oo, n);
    }
    XorOverwritten(o0, oo, d, k[ko..ko + n]);
    XorInto(out, oo, k, ko, n);
  }

  // memcpy of a value
  method Store(dst: array<byte>, off: nat, s: Bytes)
    requires off + |s| <= dst.Length
    modifies dst
    ensures dst[..] == Overwrite(old(dst[..]), off, s)
  {
    forall i | 0 <= i < |s| {
      dst[off + i] := s[i];
    }
  }

  // The input d, at off in p, has been left alone from position done on.
  ghost predicate Unread(p: Bytes, off: nat, d: Bytes, done: nat) {
    off + |d| <= |p| && done <= |d| && p[off + done..off + |d|] == d[done..]
  }

  lemma UnreadAll(p: Bytes, off: nat, n: nat)
    requires off + n <= |p|
    ensures Unread(p, off, p[off..off + n], 0)
  {
  }

  lemma UnreadPiece(p: Bytes, off: nat, d: Bytes, done: nat, u: nat)
    requires Unread(p, off, d, done) && done + u <= |d|
    ensures p[off + done..off + done + u] == d[done..done + u]
  {
    assert p[off + done..off + done + u] == p[off + done..off + |d|][..u];
  }

  // Writing the output o at wo leaves the rest of the input alone, in place or apart.
  lemma UnreadKept(p1: Bytes, p2: Bytes, off: nat, d: Bytes, done: nat, wo: nat, o: Bytes, same: bool)
    requires Unread(p1, off, d, done) && done + |o| <= |d|
    requires !same ==> p2 == p1
    requires same ==> wo + done + |o| <= |p1| && p2 == Overwrite(p1, wo + done, o)
    requires same ==> wo == off || wo + |d| <= off || off + |d| <= wo
    ensures Unread(p2, off, d, done + |o|)
  {
    forall k | done + |o| <= k < |d| ensures p2[off + k] == d[k] {
      assert p1[off + done..off + |d|][k - done] == d[done..][k - done];
    }
  }
}
