// Stream ciphers as a key stream XORed onto the data, and the loop step they share.
module Keystream {
  import opened Bytes
  import opened XorOps

  type Stream = nat -> byte

  // The stream from position p on XORed onto the data.
  function StreamXor(s: Stream, p: nat, d: Bytes): (r: Bytes)
    ensures |r| == |d|
  {
    seq(|d|, i requires 0 <= i < |d| => d[i] ^ s(p + i))
  }

  function Squeeze(s: Stream, p: nat, n: nat): (r: Bytes)
    ensures |r| == n
  {
    seq(n, i requires 0 <= i < n => s(p + i))
  }

  lemma StreamXorNone(s: Stream, p: nat)
    ensures StreamXor(s, p, []) == []
  {
  }

  lemma StreamXorAppend(s: Stream, p: nat, a: Bytes, b: Bytes)
    ensures StreamXor(s, p, a + b) == StreamXor(s, p, a) + StreamXor(s, p + |a|, b)
  {
  }

  lemma StreamXorTwice(s: Stream, p: nat, d: Bytes)
    ensures StreamXor(s, p, StreamXor(s, p, d)) == d
  {
    forall i | 0 <= i < |d| ensures StreamXor(s, p, StreamXor(s, p, d))[i] == d[i] {
      XorFacts(d[i], s(p + i));
    }
  }

  // A cipher loop has put out the data d, read at io in inp and written at oo over o0, as far as done,
  // with the stream s from position p on; the rest of d is still there, in place or apart.
  ghost predicate Taken(s: Stream, p: nat, d: Bytes, inp: Bytes, io: nat, out: Bytes, oo: nat, o0: Bytes, done: nat) {
    && Unread(inp, io, d, done) && oo + |d| <= |o0|
    && out == Overwrite(o0, oo, StreamXor(s, p, d[..done]))
  }

  lemma TakenNone(s: Stream, p: nat, d: Bytes, inp: Bytes, io: nat, out: Bytes, oo: nat)
    requires io + |d| <= |inp| && oo + |d| <= |out| && d == inp[io..io + |d|]
    ensures Taken(s, p, d, inp, io, out, oo, out, 0)
  {
    UnreadAll(inp, io, |d|);
    OverwriteNone(out, oo);
    assert d[..0] == [] && StreamXor(s, p, d[..0]) == [];
  }

  lemma TakenAll(s: Stream, p: nat, d: Bytes, inp: Bytes, io: nat, out: Bytes, oo: nat, o0: Bytes)
    requires Taken(s, p, d, inp, io, out, oo, o0, |d|)
    ensures var o := StreamXor(s, p, d);
            out == Overwrite(o0, oo, o) && out[oo..oo + |d|] == o
  {
    assert d[..|d|] == d;
    OverwriteSlice(o0, oo, StreamXor(s, p, d));
  }

  lemma TakenPiece(s: Stream, p: nat, d: Bytes, inp: Bytes, io: nat, out: Bytes, oo: nat, o0: Bytes, done: nat, u: nat)
    requires Taken(s, p, d, inp, io, out, oo, o0, done) && done + u <= |d|
    ensures io + |d| <= |inp| && inp[io + done..io + done + u] == d[done..done + u]
    ensures |out| == |o0| && oo + |d| <= |o0|
  {
    hide Overwrite, StreamXor;
    UnreadPiece(inp, io, d, done, u);
  }

  // The next piece of output, o, takes it further.
  lemma TakenNext(s: Stream, p: nat, d: Bytes, i1: Bytes, i2: Bytes, io: nat, o1: Bytes, o2: Bytes, oo: nat, o0: Bytes,
                  done: nat, o: Bytes, same: bool)
    requires Taken(s, p, d, i1, io, o1, oo, o0, done) && done + |o| <= |d| && |o1| == |o0|
    requires o == StreamXor(s, p + done, d[done..done + |o|])
    requires oo + |d| <= |o0| && o2 == Overwrite(o1, oo + done, o)
    requires if same then i1 == o1 && i2 == o2 && (oo == io || oo + |d| <= io || io + |d| <= oo) else i2 == i1
    ensures Taken(s, p, d, i2, io, o2, oo, o0, done + |o|)
  {
    hide Overwrite, StreamXor, Unread;
    var e := d[done..done + |o|];
    assert d[..done + |o|] == d[..done] + e;
    StreamXorAppend(s, p, d[..done], e);
    OverwriteNext(o0, oo, StreamXor(s, p, d[..done]), o);
    UnreadKept(i1, i2, io, d, done, oo, o, same);
  }

  // One piece, with the key stream in block from q on.
  method CryptPiece(ghost s: Stream, ghost p: nat, ghost d: Bytes, inp: array<byte>, io: nat, out: array<byte>, oo: nat,
                    ghost o0: Bytes, done: nat, block: array<byte>, q: nat, todo: nat)
    requires block != inp && block != out && q + todo <= block.Length && done + todo <= |d|
    requires io + |d| <= inp.Length && oo + |d| <= out.Length && SameOrApart(out, oo, inp, io, |d|)
    requires block[q..q + todo] == Squeeze(s, p + done, todo)
    requires Taken(s, p, d, inp[..], io, out[..], oo, o0, done)
    modifies out
    ensures Taken(s, p, d, inp[..], io, out[..], oo, o0, done + todo)
  {
    hide Overwrite, Xor, StreamXor, Taken, Squeeze;
    ghost var i1, o1, e := inp[..], out[..], d[done..done + todo];
    TakenPiece(s, p, d, i1, io, o1, oo, o0, done, todo);
    assert inp[io + done..io + done + todo] == i1[io + done..io + done + todo];
    XorIsStreamXor(s, p + done, e, block[q..q + todo]);
    CopyXor(out, oo + done, inp, io + done, block, q, todo);
    TakenNext(s, p, d, i1, inp[..], io, o1, out[..], oo, o0, done, StreamXor(s, p + done, e), inp == out);
  }

  lemma XorIsStreamXor(s: Stream, p: nat, d: Bytes, b: Bytes)
    requires b == Squeeze(s, p, |d|)
    ensures Xor(d, b) == StreamXor(s, p, d)
  {
  }
}
