// struct lc_sym_state and the calls of sym/src/chacha20.c that update it in place, with the position
// in the key stream they keep.
module ChaCha20 {
  import opened Bytes
  import opened Errno
  import opened Endian
  import opened Keystream
  import opened XorOps

  const TWO96 := 0x1_0000_0000_0000_0000_0000_0000
  const TWO128 := 0x1_0000_0000_0000_0000_0000_0000_0000_0000

  // LC_CC20_BLOCK_SIZE
  const BLOCK_SIZE := 64

  type KeyBlock = s: Bytes | |s| == 64 witness Zeros(64)

  // The block function of section 2.3 of RFC 7539 by the key and the last four words of its input
  // state taken as one number: the block counter and the nonce.
  type BlockFn = (Bytes, nat) -> KeyBlock

  type Ptr = n: nat | n <= BLOCK_SIZE

  datatype State = State(key: Bytes, counter: nat, keystream: KeyBlock, ptr: Ptr)

  function Inc(c: nat, n: nat): nat {
    (c + n) % TWO128
  }

  // How much of the key stream block is left.
  function Rest(s: State): (r: nat)
    ensures r < BLOCK_SIZE
  {
    if s.ptr == 0 then 0 else BLOCK_SIZE - s.ptr
  }

  // Byte n of what a state is going to put out: the rest of its block, then new blocks.
  function ByteAt(f: BlockFn, s: State, n: nat): byte {
    if n < Rest(s) then s.keystream[s.ptr + n]
    else
      var m: nat := n - Rest(s);
      f(s.key, Inc(s.counter, m / 64))[m % 64]
  }

  function Ahead(f: BlockFn, s: State): Stream {
    (n: nat) => ByteAt(f, s, n)
  }

  // A state puts out the stream r from position p on.
  ghost predicate Follows(f: BlockFn, s: State, r: Stream, p: nat) {
    forall n: nat {:trigger ByteAt(f, s, n)} :: ByteAt(f, s, n) == r(p + n)
  }

  // Taking bytes of the block there is; at its end the offset may as well be 0.
  lemma FollowsInBlock(f: BlockFn, s: State, r: Stream, p: nat, u: nat)
    requires Follows(f, s, r, p) && 0 < s.ptr && s.ptr + u <= BLOCK_SIZE
    ensures s.keystream[s.ptr..s.ptr + u] == Squeeze(r, p, u) && Follows(f, s.(ptr := s.ptr + u), r, p + u)
    ensures s.ptr == BLOCK_SIZE ==> Follows(f, s.(ptr := 0), r, p)
  {
    var w := s.keystream[s.ptr..s.ptr + u];
    forall k | 0 <= k < u ensures w[k] == r(p + k) {
      assert ByteAt(f, s, k) == r(p + k);
    }
    var t := s.(ptr := s.ptr + u);
    forall n: nat ensures ByteAt(f, t, n) == r(p + u + n) {
      assert ByteAt(f, s, u + n) == r(p + (u + n));
      assert Rest(s) == Rest(t) + u;
    }
    if s.ptr == BLOCK_SIZE {
      forall n: nat ensures ByteAt(f, s.(ptr := 0), n) == r(p + n) {
        assert ByteAt(f, s, n) == r(p + n);
      }
    }
  }

  // The state after cc20_block into the key stream buffer, of which u bytes are taken.
  function NextBlock(f: BlockFn, s: State, u: Ptr): State {
    State(s.key, Inc(s.counter, 1), f(s.key, s.counter), u)
  }

  lemma FollowsNextBlock(f: BlockFn, s: State, r: Stream, p: nat, u: nat)
    requires Follows(f, s, r, p) && Rest(s) == 0 && s.counter < TWO128 && 0 < u <= BLOCK_SIZE
    ensures var t := NextBlock(f, s, u);
            t.keystream[..u] == Squeeze(r, p, u) && Follows(f, t, r, p + u)
  {
    hide Inc;
    var t := NextBlock(f, s, u);
    forall k | 0 <= k < BLOCK_SIZE ensures t.keystream[k] == r(p + k) {
      assert ByteAt(f, s, k) == r(p + k);
      IncNone(s.counter);
      assert k / 64 == 0 && k % 64 == k;
    }
    forall n: nat ensures ByteAt(f, t, n) == r(p + u + n) {
      assert ByteAt(f, s, u + n) == r(p + (u + n));
      if n >= Rest(t) {
        var m := n - Rest(t);
        assert u + n == m + BLOCK_SIZE;
        IncTwice(s.counter, 1, m / 64);
      } else {
        assert t.keystream[u + n] == r(p + (u + n));
      }
    }
  }

  lemma IncNone(c: nat)
    requires c < TWO128
    ensures Inc(c, 0) == c
  {
  }

  lemma IncTwice(c: nat, a: nat, b: nat)
    ensures Inc(Inc(c, a), b) == Inc(c, a + b)
  {
    var r, q := (c + a) % TWO128, (c + a) / TWO128;
    var r1, q1 := (r + b) % TWO128, (r + b) / TWO128;
    assert c + a + b == TWO128 * (q + q1) + r1;
  }

  // Section 2.4 of RFC 7539 counts the blocks from 1 on with the nonce unchanged; block j of the
  // stream is of that kind exactly for the first 2^32 - 1, after which the carry reaches the nonce.
  lemma BlocksMeetRfc(nonce: nat, j: nat)
    requires nonce < TWO96 && j < TWO128 - 1
    ensures var c := Inc(1 + TWO32 * nonce, j);
            (c / TWO32 == nonce <==> j < TWO32 - 1) && (j < TWO32 - 1 ==> c % TWO32 == 1 + j)
  {
    var x := 1 + TWO32 * nonce + j;
    if x >= TWO128 {
      assert x % TWO128 == x - TWO128;
    }
  }

  // A state set for a nonce puts out the key stream of section 2.4 for as long as that counts.
  lemma AheadIsRfc(f: BlockFn, s: State, nonce: nat, n: nat)
    requires s.ptr == 0 && nonce < TWO96 && s.counter == 1 + 0x1_0000_0000 * nonce
    requires n < 64 * (TWO32 - 1)
    ensures Ahead(f, s)(n) == f(s.key, 1 + n / 64 + 0x1_0000_0000 * nonce)[n % 64]
  {
    assert s.counter + n / 64 < TWO128;
  }

  // The four words as one number.
  function Counter(c: seq<nat>): nat
    requires |c| == 4
  {
    c[0] + 0x1_0000_0000 * (c[1] + 0x1_0000_0000 * (c[2] + 0x1_0000_0000 * c[3]))
  }

  predicate Words(c: seq<nat>) {
    |c| == 4 && forall i :: 0 <= i < 4 ==> c[i] < TWO32
  }

  // The words after the carry has gone through those that are all ones.
  function Carried(c: seq<nat>): (r: seq<nat>)
    requires Words(c)
    ensures Words(r)
  {
    if c[0] + 1 < TWO32 then [c[0] + 1, c[1], c[2], c[3]]
    else if c[1] + 1 < TWO32 then [0, c[1] + 1, c[2], c[3]]
    else if c[2] + 1 < TWO32 then [0, 0, c[2] + 1, c[3]]
    else [0, 0, 0, Next(c[3], TWO32)]
  }

  lemma CounterNext(c: seq<nat>)
    requires Words(c)
    ensures Counter(c) < TWO128 && Counter(Carried(c)) == Inc(Counter(c), 1)
  {
    hide Inc;
    var h2 := c[2] + 0x1_0000_0000 * c[3];
    var h1 := c[1] + 0x1_0000_0000 * h2;
    CarryStep(c[2], c[3], TWO32);
    CarryStep(c[1], h2, TWO64);
    CarryStep(c[0], h1, TWO96);
    IncIsNext(Counter(c));
  }

  lemma IncIsNext(x: nat)
    requires x < TWO128
    ensures Inc(x, 1) == Next(x, TWO128)
  {
  }

  function Next(x: nat, m: nat): nat {
    if x + 1 == m then 0 else x + 1
  }

  // A word below a number less than m: counting goes to the number when the word is all ones.
  lemma CarryStep(w: nat, h: nat, m: nat)
    requires w < TWO32 && h < m
    ensures var x := w + 0x1_0000_0000 * h;
            && x < 0x1_0000_0000 * m
            && Next(x, 0x1_0000_0000 * m)
               == (if w + 1 < TWO32 then w + 1 + 0x1_0000_0000 * h else 0x1_0000_0000 * Next(h, m))
  {
  }

  // Clearing the block counter.
  lemma ClearLow(c: seq<nat>)
    requires Words(c)
    ensures Counter(c[0 := 0]) == Counter(c) / TWO32 * TWO32
  {
  }

  // ptr_to_le32
  function Word(b: Bytes, o: nat): (w: nat)
    requires o + 4 <= |b|
    ensures w < TWO32
  {
    LeNumBound(b[o..o + 4]);
    assert Pow256(4) == TWO32;
    LeNum(b[o..o + 4])
  }

  lemma FirstByte(b: Bytes, i: nat)
    requires i < |b|
    ensures LeNum(b[i..]) == b[i] as nat + 256 * LeNum(b[i + 1..])
  {
    assert b[i..][1..] == b[i + 1..];
  }

  // The first word of a longer string.
  lemma FirstWord(b: Bytes)
    requires |b| >= 4
    ensures LeNum(b) == Word(b, 0) + 0x1_0000_0000 * LeNum(b[4..])
  {
    hide LeNum;
    var a := b[0..4];
    FirstByte(b, 0);
    FirstByte(b, 1);
    FirstByte(b, 2);
    FirstByte(b, 3);
    FirstByte(a, 0);
    FirstByte(a, 1);
    FirstByte(a, 2);
    FirstByte(a, 3);
    assert b[0..] == b && a[0..] == a && a[4..] == [];
    LeNumBound([]);
  }

  // A 96-bit nonce fills the upper three words.
  lemma NonceWords(w: nat, n: Bytes)
    requires |n| == 12
    ensures Counter([w, Word(n, 0), Word(n, 4), Word(n, 8)]) == w + 0x1_0000_0000 * LeNum(n)
  {
    hide LeNum;
    var n1, n2 := n[4..], n[8..];
    assert n1[4..] == n2 && n[4..8] == n1[0..4] && n[8..12] == n2[0..4] && n2[4..] == [];
    FirstWord(n);
    FirstWord(n1);
    FirstWord(n2);
    assert LeNum([]) == 0 by {
      LeNumBound([]);
    }
  }

  // Block 0 of a nonce is followed by its block 1.
  lemma FirstBlock(n: Bytes)
    requires |n| == 12
    ensures LeNum(n) < TWO96 && Inc(TWO32 * LeNum(n), 1) == 1 + TWO32 * LeNum(n)
  {
    LeNumBound(n);
    assert Pow256(12) == TWO96 by {
      assert Pow256(6) == 0x1_0000_0000_0000;
    }
  }

  class Sym {
    const block: BlockFn
    const keystream: array<byte>
    var key: Bytes
    var counter: seq<nat>
    var ptr: nat
    // The key stream since the state was last set and the position in it.
    ghost var stream: Stream
    ghost var used: nat

    ghost predicate Shaped()
      reads this
    {
      keystream.Length == BLOCK_SIZE && ptr <= BLOCK_SIZE && Words(counter)
    }

    ghost function Abs(): State
      reads this, keystream
      requires Shaped()
    {
      State(key, Counter(counter), keystream[..], ptr)
    }

    ghost predicate Valid()
      reads this, keystream
    {
      Shaped() && Follows(block, Abs(), stream, used)
    }

    constructor (block: BlockFn)
      ensures Valid() && fresh(keystream) && this.block == block
      ensures Abs() == State([], 0, Zeros(BLOCK_SIZE), 0) && stream == Ahead(block, Abs()) && used == 0
    {
      this.block, key, counter, ptr := block, [], [0, 0, 0, 0], 0;
      keystream := new byte[BLOCK_SIZE](_ => 0);
      new;
      assert keystream[..] == Zeros(BLOCK_SIZE);
      Restart();
    }

    // The key stream is counted anew from here.
    ghost method Restart()
      requires Shaped()
      modifies this`stream, this`used
      ensures Valid() && stream == Ahead(block, Abs()) && used == 0
    {
      stream, used := Ahead(block, Abs()), 0;
    }

    // cc20_setkey; the rest of the block begun is dropped.
    method SetKey(k: array<byte>, keylen: nat) returns (ret: int)
      requires Valid() && keylen <= k.Length && k != keystream
      modifies this`key, this`ptr, this`stream, this`used
      ensures Valid() && ret == if keylen != 32 then -22 else 0
      ensures ret == 0 ==>
                Abs() == old(Abs()).(key := k[..keylen], ptr := 0) && stream == Ahead(block, Abs()) && used == 0
      ensures ret != 0 ==> Abs() == old(Abs()) && stream == old(stream) && used == old(used)
    {
      if keylen != 32 {
        return -EINVAL;
      }
      key, ptr := k[..keylen], 0;
      Restart();
      return 0;
    }

    // cc20_inc_counter: the carry goes from word to word.
    method IncCounter()
      requires Shaped()
      modifies this`counter
      ensures Shaped() && Counter(counter) == Inc(Counter(old(counter)), 1)
    {
      hide Counter, Inc;
      CounterNext(counter);
      counter := counter[0 := (counter[0] + 1) % TWO32];
      if counter[0] == 0 {
        counter := counter[1 := (counter[1] + 1) % TWO32];
        if counter[1] == 0 {
          counter := counter[2 := (counter[2] + 1) % TWO32];
          if counter[2] == 0 {
            counter := counter[3 := (counter[3] + 1) % TWO32];
          }
        }
      }
      assert counter == Carried(old(counter));
    }

    // cc20_block
    method Block() returns (b: KeyBlock)
      requires Shaped()
      modifies this`counter
      ensures Shaped() && b == block(key, Counter(old(counter))) && Counter(counter) == Inc(Counter(old(counter)), 1)
    {
      b := block(key, Counter(counter));
      IncCounter();
    }

    // cc20_crypt has taken done bytes of the data d, of the stream s from position next on.
    ghost predicate At(s: Stream, next: nat, d: Bytes, inp: array<byte>, io: nat, out: array<byte>, oo: nat, o0: Bytes,
                       done: nat)
      reads this, keystream, inp, out
    {
      && Valid() && stream == s && used == next + done
      && Taken(s, next, d, inp[..], io, out[..], oo, o0, done)
    }

    // cc20_crypt_remaining
    method CryptRemaining(ghost next: nat, ghost d: Bytes, inp: array<byte>, io: nat, out: array<byte>, oo: nat,
                          ghost o0: Bytes, len: nat)
      returns (todo: nat)
      requires inp != keystream && out != keystream && len == |d|
      requires io + |d| <= inp.Length && oo + |d| <= out.Length && SameOrApart(out, oo, inp, io, |d|)
      requires At(stream, next, d, inp, io, out, oo, o0, 0)
      modifies this`used, this`ptr, out
      ensures todo <= len && At(stream, next, d, inp, io, out, oo, o0, todo)
      ensures todo < len ==> ptr == 0 || ptr == BLOCK_SIZE
    {
      hide Taken, Counter, Follows, Squeeze;
      todo := 0;
      if ptr != 0 {
        ghost var s := Abs();
        if ptr >= BLOCK_SIZE {
          FollowsInBlock(block, s, stream, used, 0);
          ptr := 0;
          return;
        }
        todo := if len < BLOCK_SIZE - ptr then len else BLOCK_SIZE - ptr;
        FollowsInBlock(block, s, stream, used, todo);
        CryptPiece(stream, next, d, inp, io, out, oo, o0, 0, keystream, ptr, todo);
        ptr, used := ptr + todo, used + todo;
        assert Abs() == s.(ptr := s.ptr + todo);
      }
    }

    // cc20_block into the key stream buffer
    method Refill()
      requires Shaped()
      modifies this`counter, keystream
      ensures Shaped() && Abs() == NextBlock(block, old(Abs()), ptr)
    {
      hide Counter, Inc, Overwrite;
      ghost var k0 := keystream[..];
      var b := Block();
      Store(keystream, 0, b);
      OverwriteAll(k0, b);
    }

    // One round of the loop of cc20_crypt: a new block.
    method CryptRound(ghost next: nat, ghost d: Bytes, inp: array<byte>, io: nat, out: array<byte>, oo: nat,
                      ghost o0: Bytes, len: nat, done: nat)
      returns (todo: nat)
      requires inp != keystream && out != keystream && done < |d| && len == |d| - done
      requires io + |d| <= inp.Length && oo + |d| <= out.Length && SameOrApart(out, oo, inp, io, |d|)
      requires At(stream, next, d, inp, io, out, oo, o0, done) && (ptr == 0 || ptr == BLOCK_SIZE)
      modifies this`used, this`ptr, this`counter, keystream, out
      ensures 0 < todo <= len && At(stream, next, d, inp, io, out, oo, o0, done + todo)
      ensures todo < len ==> ptr == BLOCK_SIZE
    {
      hide Taken, Counter, Follows, Squeeze, Inc;
      ghost var s := Abs();
      todo := if len < BLOCK_SIZE then len else BLOCK_SIZE;
      CounterNext(counter);
      FollowsNextBlock(block, s, stream, used, todo);
      Refill();
      assert keystream[0..0 + todo] == keystream[..][..todo];
      CryptPiece(stream, next, d, inp, io, out, oo, o0, done, keystream, 0, todo);
      ptr, used := todo, used + todo;
      assert Abs() == NextBlock(block, s, todo);
    }

    // cc20_crypt; out may be inp.
    method Crypt(inp: array<byte>, io: nat, out: array<byte>, oo: nat, len: nat)
      requires Valid() && inp != keystream && out != keystream
      requires io + len <= inp.Length && oo + len <= out.Length && SameOrApart(out, oo, inp, io, len)
      modifies this`used, this`ptr, this`counter, keystream, out
      ensures Valid() && used == old(used) + len
      ensures var o := StreamXor(stream, old(used), old(inp[io..io + len]));
              out[..] == Overwrite(old(out[..]), oo, o) && out[oo..oo + len] == o
    {
      hide Taken, Counter, Follows, Squeeze, Overwrite, StreamXor;
      ghost var next, d, o0 := used, inp[io..io + len], out[..];
      TakenNone(stream, next, d, inp[..], io, o0, oo);
      if len > 0 {
        var done := CryptRemaining(next, d, inp, io, out, oo, o0, len);
        while done < len
          invariant done <= len && At(stream, next, d, inp, io, out, oo, o0, done)
          invariant done < len ==> ptr == 0 || ptr == BLOCK_SIZE
        {
          var todo := CryptRound(next, d, inp, io, out, oo, o0, len - done, done);
          done := done + todo;
        }
      }
      TakenAll(stream, next, d, inp[..], io, out[..], oo, o0);
    }
  }
}
