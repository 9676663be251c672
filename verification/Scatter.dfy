// Scatter lists over one memory and the kernel's scatter_walk cursor on them, as lc_kernel_aead_update
// and lc_aead_ascon_aad use it. A list is a sequence of segments; a page boundary splits a segment.
module Scatter {
  import opened Bytes

  datatype Seg = Seg(addr: nat, len: nat)

  function Total(sg: seq<Seg>): nat {
    if sg == [] then 0 else sg[0].len + Total(sg[1..])
  }

  // The address of the byte at position p of the list.
  function Addr(sg: seq<Seg>, p: nat): nat
    requires p < Total(sg)
  {
    if p < sg[0].len then sg[0].addr + p else Addr(sg[1..], p - sg[0].len)
  }

  // Every segment lies in a memory of size bytes.
  ghost predicate Fits(sg: seq<Seg>, size: nat) {
    forall i :: 0 <= i < |sg| ==> sg[i].addr + sg[i].len <= size
  }

  ghost predicate NoEmpty(sg: seq<Seg>) {
    forall i :: 0 <= i < |sg| ==> sg[i].len > 0
  }

  // The positions from p to q are at consecutive addresses from a on.
  ghost predicate Flat(sg: seq<Seg>, p: nat, q: nat, a: nat) {
    q <= Total(sg) && forall k :: p <= k < q ==> Addr(sg, k) == a + (k - p)
  }

  // The n bytes from position p on.
  function Gather(m: Bytes, sg: seq<Seg>, p: nat, n: nat): (g: Bytes)
    requires Fits(sg, |m|) && p + n <= Total(sg)
    ensures |g| == n && forall k :: 0 <= k < n ==> Addr(sg, p + k) < |m| && g[k] == m[Addr(sg, p + k)]
  {
    AddrFits(sg, |m|);
    seq(n, k requires 0 <= k < n => m[Addr(sg, p + k)])
  }

  // The memory with the bytes o stored from position p on, one after the other.
  ghost function Spread(m: Bytes, sg: seq<Seg>, p: nat, o: Bytes): (r: Bytes)
    requires Fits(sg, |m|) && p + |o| <= Total(sg)
    ensures |r| == |m|
  {
    if o == [] then m
    else
      AddrFits(sg, |m|);
      Spread(m, sg, p, o[..|o| - 1])[Addr(sg, p + |o| - 1) := o[|o| - 1]]
  }

  // No two positions from p to q share an address.
  ghost predicate Apart(sg: seq<Seg>, p: nat, q: nat)
    requires q <= Total(sg)
  {
    forall j, k :: p <= j < k < q ==> Addr(sg, j) != Addr(sg, k)
  }

  // None of the positions from p to q is at the address x.
  ghost predicate Misses(sg: seq<Seg>, p: nat, q: nat, x: nat)
    requires q <= Total(sg)
  {
    forall k :: p <= k < q ==> Addr(sg, k) != x
  }

  // ---- positions ----

  lemma {:induction false} AddrFits(sg: seq<Seg>, size: nat)
    requires Fits(sg, size)
    ensures forall p :: 0 <= p < Total(sg) ==> Addr(sg, p) < size
  {
    if sg != [] {
      AddrFits(sg[1..], size);
    }
  }

  lemma {:induction false} TotalSplit(sg: seq<Seg>, i: nat)
    requires i <= |sg|
    ensures Total(sg) == Total(sg[..i]) + Total(sg[i..])
  {
    if i > 0 {
      TotalSplit(sg[1..], i - 1);
      assert sg[..i][1..] == sg[1..][..i - 1] && sg[1..][i - 1..] == sg[i..];
    }
  }

  lemma TotalNext(sg: seq<Seg>, i: nat)
    requires i < |sg|
    ensures Total(sg[..i + 1]) == Total(sg[..i]) + sg[i].len <= Total(sg)
  {
    TotalSplit(sg[..i + 1], i);
    TotalSplit(sg, i + 1);
    assert sg[..i + 1][..i] == sg[..i] && sg[..i + 1][i..] == [sg[i]];
  }

  lemma {:induction false} TotalMono(sg: seq<Seg>, i: nat, j: nat)
    requires i <= j <= |sg|
    ensures Total(sg[..i]) <= Total(sg[..j])
  {
    if i < j {
      TotalMono(sg, i, j - 1);
      TotalNext(sg, j - 1);
    }
  }

  // The bytes of segment i are at consecutive addresses.
  lemma {:induction false} AddrIn(sg: seq<Seg>, i: nat, o: nat)
    requires i < |sg| && o < sg[i].len
    ensures Total(sg[..i]) + o < Total(sg) && Addr(sg, Total(sg[..i]) + o) == sg[i].addr + o
  {
    if i > 0 {
      AddrIn(sg[1..], i - 1, o);
      assert sg[..i][1..] == sg[1..][..i - 1];
    }
  }

  lemma FlatShorter(sg: seq<Seg>, p: nat, n: nat, u: nat, a: nat)
    requires Flat(sg, p, p + n, a) && u <= n
    ensures Flat(sg, p, p + u, a)
  {
  }

  lemma FlatGather(m: Bytes, sg: seq<Seg>, n: nat, p: nat, u: nat, a: nat)
    requires Fits(sg, |m|) && n <= Total(sg) && p + u <= n && Flat(sg, p, p + u, a) && a + u <= |m|
    ensures m[a..a + u] == Gather(m, sg, 0, n)[p..p + u]
  {
    var x, y := m[a..a + u], Gather(m, sg, 0, n)[p..p + u];
    forall k | 0 <= k < u ensures x[k] == y[k] {
      assert Addr(sg, p + k) == a + k;
      assert Gather(m, sg, 0, n)[p + k] == m[Addr(sg, 0 + (p + k))];
    }
  }

  // ---- storing ----

  // Nothing but the destination bytes changes.
  lemma {:induction false} SpreadElsewhere(m: Bytes, sg: seq<Seg>, p: nat, o: Bytes, x: nat)
    requires Fits(sg, |m|) && p + |o| <= Total(sg) && x < |m|
    requires Misses(sg, p, p + |o|, x)
    ensures Spread(m, sg, p, o)[x] == m[x]
  {
    if o != [] {
      SpreadElsewhere(m, sg, p, o[..|o| - 1], x);
    }
  }

  // The destination reads back what was stored.
  lemma {:induction false} SpreadGather(m: Bytes, sg: seq<Seg>, p: nat, o: Bytes)
    requires Fits(sg, |m|) && p + |o| <= Total(sg) && Apart(sg, p, p + |o|)
    ensures Gather(Spread(m, sg, p, o), sg, p, |o|) == o
  {
    if o != [] {
      var i := o[..|o| - 1];
      SpreadGather(m, sg, p, i);
      var m1 := Spread(m, sg, p, i);
      forall k | 0 <= k < |o| ensures Gather(Spread(m, sg, p, o), sg, p, |o|)[k] == o[k] {
        if k < |i| {
          assert Gather(m1, sg, p, |i|)[k] == i[k];
        }
      }
    }
  }

  lemma {:induction false} SpreadNext(m: Bytes, sg: seq<Seg>, p: nat, o: Bytes, e: Bytes, a: nat)
    requires Fits(sg, |m|) && p + |o| + |e| <= Total(sg) && a + |e| <= |m|
    requires Flat(sg, p + |o|, p + |o| + |e|, a)
    ensures Spread(m, sg, p, o + e) == Overwrite(Spread(m, sg, p, o), a, e)
  {
    if e == [] {
      assert o + e == o;
    } else {
      var i := e[..|e| - 1];
      SpreadNext(m, sg, p, o, i, a);
      assert (o + e)[..|o + e| - 1] == o + i;
      OverwriteOne(Spread(m, sg, p, o), a, i, e[|e| - 1]);
      assert i + [e[|e| - 1]] == e;
    }
  }

  lemma OverwriteOne(s: Bytes, a: nat, i: Bytes, b: byte)
    requires a + |i| < |s|
    ensures Overwrite(s, a, i + [b]) == Overwrite(s, a, i)[a + |i| := b]
  {
  }

  // ---- the cursor ----

  // An empty segment stops a cursor on its way from position p to position q: one that begins there,
  // but not the one that the cursor starts in, which it steps over.
  ghost predicate Stuck(sg: seq<Seg>, p: nat, q: nat) {
    exists i :: 0 <= i < |sg| && Stops(sg, i, p, q)
  }

  ghost predicate Stops(sg: seq<Seg>, i: nat, p: nat, q: nat)
    requires i < |sg|
  {
    && sg[i].len == 0 && p <= Total(sg[..i]) < q
    && !(Total(sg[..i]) == p && (i == 0 || sg[i - 1].len > 0))
  }

  // A cursor on its way from p to q is stopped at position x, and not before.
  ghost predicate StuckAt(sg: seq<Seg>, p: nat, q: nat, x: nat) {
    !Stuck(sg, p, x) && exists i :: 0 <= i < |sg| && Stops(sg, i, p, q) && Total(sg[..i]) == x
  }

  // Whoever is stuck is so at one position.
  lemma StuckAtOne(sg: seq<Seg>, p: nat, q: nat, x: nat, y: nat)
    requires StuckAt(sg, p, q, x) && StuckAt(sg, p, q, y)
    ensures x == y && p <= x < q && Stuck(sg, p, q)
  {
    var i :| 0 <= i < |sg| && Stops(sg, i, p, q) && Total(sg[..i]) == x;
    var j :| 0 <= j < |sg| && Stops(sg, j, p, q) && Total(sg[..j]) == y;
    if x < y {
      StopsEarlier(sg, i, p, q, y);
    } else if y < x {
      StopsEarlier(sg, j, p, q, x);
    }
  }

  lemma StopsEarlier(sg: seq<Seg>, i: nat, p: nat, q: nat, y: nat)
    requires i < |sg| && Stops(sg, i, p, q) && Total(sg[..i]) < y
    ensures Stuck(sg, p, y)
  {
    assert Stops(sg, i, p, y);
  }

  lemma NoEmptyNeverStuck(sg: seq<Seg>, p: nat, q: nat)
    requires NoEmpty(sg)
    ensures !Stuck(sg, p, q)
  {
  }

  // struct scatter_walk
  class Walk {
    const sg: seq<Seg>
    // The position and the segment that the cursor was started at.
    ghost const origin: nat
    ghost const start: nat
    var idx: nat
    var off: nat

    // scatterwalk_ffwd by len bytes, then scatterwalk_start
    constructor (sg: seq<Seg>, len: nat)
      requires len < Total(sg)
      ensures this.sg == sg && Valid() && Pos() == len == origin && Smooth()
    {
      this.sg, origin := sg, len;
      var i, n := 0, len;
      while n > 0 && sg[i].len <= n
        invariant i < |sg| && 0 <= n && Total(sg[..i]) + n == len
        invariant n > 0 || i == 0 || sg[i - 1].len > 0
        decreases |sg| - i
      {
        TotalNext(sg, i);
        assert sg[..i + 1] == sg || i + 1 < |sg|;
        i, n := i + 1, n - sg[i].len;
      }
      idx, off, start := i, n, i;
    }

    ghost predicate Valid()
      reads this
    {
      && start <= idx < |sg| && off <= sg[idx].len
      && (if Total(sg[..start]) == origin then start == 0 || sg[start - 1].len > 0
          else Total(sg[..start]) < origin < Total(sg[..start]) + sg[start].len)
    }

    // No empty segment has been entered.
    ghost predicate Smooth()
      reads this
      requires Valid()
    {
      forall i :: start < i <= idx ==> sg[i].len > 0
    }

    // Nor before the one it is in.
    ghost predicate SmoothBefore()
      reads this
      requires Valid()
    {
      forall i :: start < i < idx ==> sg[i].len > 0
    }

    ghost function Pos(): nat
      reads this
      requires Valid()
    {
      Total(sg[..idx]) + off
    }

    // scatterwalk_next: at the end of a segment the cursor first moves to the next one; nothing is
    // offered only if that one is empty.
    method Next(nbytes: nat) returns (addr: nat, n: nat)
      requires Valid() && 0 < nbytes && Pos() + nbytes <= Total(sg)
      modifies this`idx, this`off
      ensures Valid() && Pos() == old(Pos()) && n <= nbytes && off + n <= sg[idx].len
      ensures Flat(sg, Pos(), Pos() + n, addr)
      ensures idx >= old(idx) && (n == 0 ==> idx > old(idx) && sg[idx].len == 0)
      ensures old(Smooth()) ==> SmoothBefore()
      ensures n > 0 && old(Smooth()) ==> Smooth()
      ensures forall size {:trigger Fits(sg, size)} :: Fits(sg, size) ==> addr + n <= size
    {
      if off >= sg[idx].len {
        TotalNext(sg, idx);
        assert sg[..idx + 1] == sg || idx + 1 < |sg|;
        idx, off := idx + 1, 0;
      }
      addr := sg[idx].addr + off;
      n := if nbytes < sg[idx].len - off then nbytes else sg[idx].len - off;
      forall k | Pos() <= k < Pos() + n ensures Addr(sg, k) == addr + (k - Pos()) {
        AddrIn(sg, idx, off + (k - Pos()));
      }
    }

    // scatterwalk_done_src, scatterwalk_done_dst
    method Done(n: nat)
      requires Valid() && off + n <= sg[idx].len
      modifies this`off
      ensures Valid() && Pos() == old(Pos()) + n && (old(Smooth()) ==> Smooth())
    {
      off := off + n;
    }

    // A cursor that was offered nothing is stuck where it is.
    lemma AtEmpty(q: nat)
      requires Valid() && SmoothBefore() && start < idx && sg[idx].len == 0 && Pos() < q
      ensures Stuck(sg, origin, q) && StuckAt(sg, origin, q, Pos())
    {
      TotalNext(sg, start);
      TotalMono(sg, start + 1, idx);
      if Total(sg[..idx]) == origin && sg[idx - 1].len > 0 {
        TotalNext(sg, idx - 1);
        TotalMono(sg, start, idx - 1);
      }
      assert Stops(sg, idx, origin, q);
      NeverStuck();
    }

    lemma SmoothIsBefore()
      requires Valid() && Smooth()
      ensures SmoothBefore()
    {
    }

    // One that came to a position without entering an empty segment before it was not.
    lemma NeverStuck()
      requires Valid() && SmoothBefore()
      ensures !Stuck(sg, origin, Pos())
    {
      forall i | 0 <= i < |sg| ensures !Stops(sg, i, origin, Pos()) {
        if i > idx {
          TotalNext(sg, idx);
          TotalMono(sg, idx + 1, i);
        } else if i < start && sg[i].len == 0 && origin <= Total(sg[..i]) {
          TotalNext(sg, start - 1);
          TotalMono(sg, i, start - 1);
        }
      }
    }
  }
}
