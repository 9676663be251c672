// lc_kernel_aead_update: an update function driven over differently segmented source and destination.
module KernelUpdate {
  import opened Bytes
  import opened Errno
  import opened XorOps
  import opened Scatter

  // What process(ctx, in, out, datalen) does: the context afterwards, the output, the return code.
  datatype Outcome<S> = Outcome(ctx: S, out: Bytes, ret: int)

  type Process<!S> = (S, Bytes) -> Outcome<S>

  // One call, or none when there are no data.
  function Effect<S>(f: Process<S>, s: S, d: Bytes): Outcome<S> {
    if d == [] then Outcome(s, [], 0) else f(s, d)
  }

  function Then<S>(f: Process<S>, r: Outcome<S>, b: Bytes): Outcome<S> {
    var t := f(r.ctx, b);
    Outcome(t.ctx, r.out + t.out, t.ret)
  }

  // Whether a context takes that many more bytes at all.
  type Limit<!S> = (S, nat) -> bool

  // Within the limit, a call that succeeds and another one are one call on both pieces of data.
  ghost predicate Chunked<S(!new)>(f: Process<S>, fits: Limit<S>) {
    && (forall s, a :: |f(s, a).out| == |a|)
    && (forall s, m, n :: m <= n && fits(s, n) ==> fits(s, m))
    && (forall s, a, b :: a != [] && b != [] && fits(s, |a| + |b|) && f(s, a).ret == 0 ==>
          f(s, a + b) == Then(f, f(s, a), b))
  }

  ghost predicate Succeeds<S(!new)>(f: Process<S>) {
    forall s, a :: f(s, a).ret == 0
  }

  lemma EffectNext<S(!new)>(f: Process<S>, fits: Limit<S>, s: S, a: Bytes, b: Bytes)
    requires Chunked(f, fits) && fits(s, |a| + |b|) && Effect(f, s, a).ret == 0 && b != []
    ensures |Effect(f, s, a).out| == |a| && Effect(f, s, a + b) == Then(f, Effect(f, s, a), b)
  {
    if a == [] {
      assert a + b == b;
      assert [] + f(s, b).out == f(s, b).out;
    }
  }

  // Every byte is read before it is overwritten: source and destination bytes meet at equal
  // positions or not at all. This holds for one list in place and for lists with no common byte.
  ghost predicate Compatible(src: seq<Seg>, dst: seq<Seg>, p: nat, q: nat)
    requires q <= Total(src) && q <= Total(dst)
  {
    Apart(dst, p, q) && forall j, k :: p <= j < q && p <= k < q && j != k ==> Addr(src, j) != Addr(dst, k)
  }

  // One list whose bytes are all different is a source and a destination at once.
  lemma OneListIsCompatible(sg: seq<Seg>, p: nat, q: nat)
    requires q <= Total(sg) && Apart(sg, p, q)
    ensures Compatible(sg, sg, p, q)
  {
    hide Addr, Total;
    forall j, k | p <= j < q && p <= k < q && j != k ensures Addr(sg, j) != Addr(sg, k) {
      if k < j {
        assert Addr(sg, k) != Addr(sg, j);
      }
    }
  }

  // struct aead_request
  class Request<S(!new)> {
    const mem: array<byte>
    const src: seq<Seg>
    const dst: seq<Seg>
    const assoclen: nat
    var ctx: S

    constructor (mem: array<byte>, src: seq<Seg>, dst: seq<Seg>, assoclen: nat, ctx: S)
      ensures this.mem == mem && this.src == src && this.dst == dst && this.assoclen == assoclen && this.ctx == ctx
    {
      this.mem, this.src, this.dst, this.assoclen, this.ctx := mem, src, dst, assoclen, ctx;
    }

    // The two lists hold the associated data and nbytes bytes after it.
    ghost predicate Holds(nbytes: nat)
      reads this
    {
      && Fits(src, mem.Length) && Fits(dst, mem.Length)
      && assoclen + nbytes <= Total(src) && assoclen + nbytes <= Total(dst)
      && Compatible(src, dst, assoclen, assoclen + nbytes)
    }

    // After done bytes of the data d, from the context s and the memory m on: the effect of one call.
    ghost predicate After(f: Process<S>, fits: Limit<S>, s: S, m: Bytes, d: Bytes, done: nat)
      reads this, mem
      requires Chunked(f, fits) && Holds(|d|) && done <= |d| && |m| == mem.Length
    {
      var r := Effect(f, s, d[..done]);
      ctx == r.ctx && mem[..] == Spread(m, dst, assoclen, r.out)
    }

    // An empty segment stops one of the two cursors before it has walked nbytes bytes of data.
    ghost predicate Blocked(nbytes: nat)
      reads this
    {
      Stuck(src, assoclen, assoclen + nbytes) || Stuck(dst, assoclen, assoclen + nbytes)
    }

    // One of them is stopped after done bytes, and none before.
    ghost predicate BlockedAt(nbytes: nat, done: nat)
      reads this
    {
      && !Blocked(done) && done < nbytes
      && (StuckAt(src, assoclen, assoclen + nbytes, assoclen + done)
          || StuckAt(dst, assoclen, assoclen + nbytes, assoclen + done))
    }

    // Both cursors are at position done of the data and have not been stopped.
    ghost predicate InStep(src_walk: Walk, dst_walk: Walk, done: nat)
      reads src_walk, dst_walk
    {
      && src_walk != dst_walk && src_walk.sg == src && dst_walk.sg == dst
      && src_walk.Valid() && src_walk.Smooth() && src_walk.origin == assoclen && src_walk.Pos() == assoclen + done
      && dst_walk.Valid() && dst_walk.Smooth() && dst_walk.origin == assoclen && dst_walk.Pos() == assoclen + done
    }

    lemma NoDataNotBlocked()
      ensures !Blocked(0)
    {
    }

    lemma DoneNotBlocked(src_walk: Walk, dst_walk: Walk, nbytes: nat)
      requires InStep(src_walk, dst_walk, nbytes)
      ensures !Blocked(nbytes)
    {
      hide Stuck;
      src_walk.NeverStuck();
      dst_walk.NeverStuck();
    }

    // One round: what both cursors offer, handed to process; an error if one offers nothing.
    method Round(f: Process<S>, ghost fits: Limit<S>, src_walk: Walk, dst_walk: Walk, left: nat,
                 ghost s: S, ghost m: Bytes, ghost d: Bytes, ghost done: nat)
      returns (ret: int, todo: nat)
      requires Chunked(f, fits) && fits(s, |d|) && Holds(|d|) && |m| == mem.Length && d == Gather(m, src, assoclen, |d|)
      requires 0 < left && left + done == |d| && InStep(src_walk, dst_walk, done)
      requires After(f, fits, s, m, d, done) && Effect(f, s, d[..done]).ret == 0
      modifies this`ctx, mem, src_walk, dst_walk
      ensures todo <= left && After(f, fits, s, m, d, done + todo)
      ensures todo == 0 ==> ret == -22 && Blocked(|d|) && BlockedAt(|d|, done)
      ensures todo > 0 ==> ret == Effect(f, s, d[..done + todo]).ret && InStep(src_walk, dst_walk, done + todo)
    {
      hide Spread, Gather, Flat, Compatible, Addr, Total, Effect, Chunked, Stuck, StuckAt;
      var src_vaddr, stodo := src_walk.Next(left);
      var dst_vaddr, dtodo := dst_walk.Next(left);
      todo := if stodo < dtodo then stodo else dtodo;
      if todo == 0 {
        src_walk.NeverStuck();
        dst_walk.NeverStuck();
        if stodo == 0 {
          src_walk.AtEmpty(assoclen + |d|);
        } else {
          dst_walk.AtEmpty(assoclen + |d|);
        }
        ret := -EINVAL;
        return;
      }
      FlatShorter(src, src_walk.Pos(), stodo, todo, src_vaddr);
      FlatShorter(dst, dst_walk.Pos(), dtodo, todo, dst_vaddr);
      ret := Call(f, fits, src_vaddr, dst_vaddr, todo, s, m, d, done);
      dst_walk.Done(todo);
      src_walk.Done(todo);
    }

    // One call of process on the next todo bytes.
    method Call(f: Process<S>, ghost fits: Limit<S>, inp: nat, out: nat, todo: nat,
                ghost s: S, ghost m: Bytes, ghost d: Bytes, ghost done: nat)
      returns (ret: int)
      requires Chunked(f, fits) && fits(s, |d|) && Holds(|d|) && 0 < todo && done + todo <= |d| && |m| == mem.Length
      requires inp + todo <= mem.Length && out + todo <= mem.Length && d == Gather(m, src, assoclen, |d|)
      requires Flat(src, assoclen + done, assoclen + done + todo, inp)
      requires Flat(dst, assoclen + done, assoclen + done + todo, out)
      requires After(f, fits, s, m, d, done) && Effect(f, s, d[..done]).ret == 0
      modifies this`ctx, mem
      ensures After(f, fits, s, m, d, done + todo) && ret == Effect(f, s, d[..done + todo]).ret
    {
      hide Spread, Overwrite;
      ghost var a, b, o := d[..done], d[done..done + todo], Effect(f, s, d[..done]).out;
      StillUnread(m, d, o, done, inp, todo);
      assert d[..done + todo] == a + b;
      EffectNext(f, fits, s, a, b);
      var r := f(ctx, mem[inp..inp + todo]);
      SpreadNext(m, dst, assoclen, o, r.out, out);
      Store(mem, out, r.out);
      ctx, ret := r.ctx, r.ret;
    }

    lemma AfterNone(f: Process<S>, fits: Limit<S>, m: Bytes, d: Bytes)
      requires Chunked(f, fits) && Holds(|d|) && m == mem[..]
      ensures After(f, fits, ctx, m, d, 0) && Effect(f, ctx, d[..0]).ret == 0
    {
      assert d[..0] == [];
    }

    // The bytes still to come are as they were.
    lemma StillUnread(m: Bytes, d: Bytes, o: Bytes, done: nat, inp: nat, todo: nat)
      requires Holds(|d|) && |m| == mem.Length && d == Gather(m, src, assoclen, |d|)
      requires |o| == done && done + todo <= |d| && inp + todo <= mem.Length
      requires Flat(src, assoclen + done, assoclen + done + todo, inp)
      requires mem[..] == Spread(m, dst, assoclen, o)
      ensures mem[inp..inp + todo] == d[done..done + todo]
    {
      hide Spread;
      var now, was := mem[inp..inp + todo], d[done..done + todo];
      forall k | 0 <= k < todo ensures now[k] == was[k] {
        var x := Addr(src, assoclen + (done + k));
        assert x == inp + k;
        SpreadElsewhere(m, dst, assoclen, o, x);
      }
    }

    // lc_kernel_aead_update: done counts the bytes of the calls that were made.
    method Update(f: Process<S>, ghost fits: Limit<S>, nbytes: nat) returns (ret: int, ghost done: nat)
      requires Chunked(f, fits) && fits(ctx, nbytes) && Holds(nbytes)
      modifies this`ctx, mem
      ensures var d := Gather(old(mem[..]), src, assoclen, nbytes);
              && done <= nbytes && After(f, fits, old(ctx), old(mem[..]), d, done)
              && (ret == Effect(f, old(ctx), d[..done]).ret || (ret == -22 && Blocked(nbytes) && BlockedAt(nbytes, done)))
              && (ret == 0 ==> done == nbytes && !Blocked(nbytes))
              && (Succeeds(f) && ret != 0 ==> BlockedAt(nbytes, done))
      ensures Succeeds(f) ==> ret == if Blocked(nbytes) then -22 else 0
    {
      hide Spread, Gather, Flat, Compatible, Addr, Total, After, Chunked, Stuck;
      ghost var m, s, d := mem[..], ctx, Gather(mem[..], src, assoclen, nbytes);
      done := 0;
      ret := 0;
      AfterNone(f, fits, m, d);
      NoDataNotBlocked();
      if nbytes == 0 {
        return;
      }
      var src_walk := new Walk(src, assoclen);
      var dst_walk := new Walk(dst, assoclen);
      var left := nbytes;
      while left > 0
        invariant left + done == nbytes && 0 <= done <= |d|
        invariant InStep(src_walk, dst_walk, done) && fresh(src_walk) && fresh(dst_walk)
        invariant After(f, fits, s, m, d, done) && ret == Effect(f, s, d[..done]).ret == 0
        decreases left
      {
        var todo;
        ret, todo := Round(f, fits, src_walk, dst_walk, left, s, m, d, done);
        done := done + todo;
        if ret != 0 {
          return;
        }
        left := left - todo;
      }
      DoneNotBlocked(src_walk, dst_walk, nbytes);
    }

    // What After says about the memory: the destination holds the output, all other bytes are as before.
    lemma EffectOnMemory(f: Process<S>, fits: Limit<S>, s: S, m: Bytes, d: Bytes, done: nat)
      requires Chunked(f, fits) && Holds(|d|) && done <= |d| && |m| == mem.Length && After(f, fits, s, m, d, done)
      ensures Gather(mem[..], dst, assoclen, done) == Effect(f, s, d[..done]).out
      ensures forall x :: 0 <= x < |m| && Misses(dst, assoclen, assoclen + done, x) ==> mem[x] == m[x]
    {
      var o := Effect(f, s, d[..done]).out;
      assert |o| == done;
      SpreadGather(m, dst, assoclen, o);
      forall x | 0 <= x < |m| && Misses(dst, assoclen, assoclen + done, x) ensures mem[x] == m[x] {
        SpreadElsewhere(m, dst, assoclen, o, x);
      }
    }
  }
}
