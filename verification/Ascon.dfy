// struct lc_ascon_cryptor and the calls of aead/src/ascon.c that update it in place.
module Ascon {
  import opened Bytes
  import opened Errno
  import opened Endian
  import opened XorOps
  import opened Sponge
  import opened AsconStream
  import opened AsconRuns
  import opened AsconAead
  import Spec = AsconSpec

  const MAX_KEYSIZE := 64

  // The two AEADs on top: lc_ascon_setiv of ascon_lightweight.c and of ascon_keccak.c.
  datatype Flavour = Lightweight | Keccak

  // The first word of the state; the Keccak one carries the tag length.
  function IvWord(f: Flavour, rate: nat, taglen: nat): nat {
    match f
    case Lightweight => 0x00001000808c0001
    case Keccak => (if rate == 72 then 0x4048181800000000 else 0x2088181800000000) + taglen * 0x100_0000
  }

  function Iv(f: Flavour, rate: nat, taglen: nat): (b: Bytes)
    ensures |b| == 8
  {
    Le(IvWord(f, rate, taglen), 8)
  }

  // The fields of the IV of NIST SP 800-232: version 1, 12 and 8 rounds, the tag of 128 bits, and the rate of
  // 16 bytes.
  lemma LightweightIv(rate: nat, taglen: nat)
    ensures Iv(Lightweight, rate, taglen) == [1, 0, 12 + 8 * 16, 128, 0, 16, 0, 0]
  {
    hide Le, LeNum;
    var b: Bytes := [1, 0, 12 + 8 * 16, 128, 0, 16, 0, 0];
    LeNumFour(b);
    LeNumFour(b[4..]);
    LeNumNone(b[4..][4..]);
    LeOfNum(b);
  }

  // Those of the Keccak instances: the tag length, 24 rounds twice, the rate and the key length.
  lemma KeccakIv(rate: byte, taglen: byte)
    requires rate == 72 || rate == 136
    ensures Iv(Keccak, rate as nat, taglen as nat) == [0, 0, 0, taglen, 24, 24, rate, if rate == 72 then 64 else 32]
  {
    hide Le, LeNum;
    var b: Bytes := [0, 0, 0, taglen, 24, 24, rate, if rate == 72 then 64 else 32];
    LeNumFour(b);
    LeNumFour(b[4..]);
    LeNumNone(b[4..][4..]);
    LeOfNum(b);
  }

  lemma LeNumNone(b: Bytes)
    requires b == []
    ensures LeNum(b) == 0
  {
  }

  class Cryptor {
    const flavour: Flavour
    const hash: Hash
    const taglen: nat
    const statesize: nat
    const key: array<byte>
    const state: array<byte>
    var keylen: nat
    var rate_offset: nat
    var roundb: nat

    // The context as allocated: the sizes fit each other.
    ghost predicate Shaped()
      reads this
    {
      && state.Length == statesize && key.Length == MAX_KEYSIZE && key != state && keylen <= MAX_KEYSIZE
      && 0 < hash.rate <= 136 && hash.rate <= statesize && (flavour == Lightweight ==> taglen == 16)
      && statesize == (if flavour == Lightweight then 40 else 200)
    }

    // Between two calls.
    ghost predicate Valid()
      reads this
    {
      Shaped() && rate_offset <= hash.rate && hash.rate + keylen <= statesize && taglen <= keylen
    }

    ghost function Abs(): Ast
      reads this, state
    {
      Ast(state[..], rate_offset)
    }

    constructor (f: Flavour, hash: Hash, taglen: nat)
      requires 0 < hash.rate <= 136 && (f == Lightweight ==> taglen == 16)
      requires hash.rate <= if f == Lightweight then 40 else 200
      ensures Shaped() && fresh(key) && fresh(state) && keylen == 0 && rate_offset == 0
      ensures this.hash == hash && this.taglen == taglen && flavour == f
    {
      flavour, this.hash, this.taglen := f, hash, taglen;
      statesize := if f == Lightweight then 40 else 200;
      key := new byte[MAX_KEYSIZE](_ => 0);
      state := new byte[if f == Lightweight then 40 else 200](_ => 0);
      keylen, rate_offset, roundb := 0, 0, 0;
    }

    // lc_sponge
    method Sponge(rounds: nat)
      requires Shaped()
      modifies state
      ensures state[..] == hash.perm(rounds, old(state[..]))
    {
      ghost var s := state[..];
      Store(state, 0, hash.perm(rounds, state[..]));
      OverwriteAll(s, hash.perm(rounds, s));
    }

    // lc_sponge_add_bytes
    method AddBytes(src: array<byte>, so: nat, off: nat, n: nat)
      requires Shaped() && src != state && so + n <= src.Length && off + n <= statesize
      modifies state
      ensures state[..] == XorAt(old(state[..]), off, src[so..so + n])
    {
      XorInto(state, off, src, so, n);
    }

    // ---- key and nonce ----

    // lc_ascon_load_key
    method LoadKey(k: array<byte>, klen: nat) returns (ret: int)
      requires Shaped() && klen <= k.Length && k != key
      modifies key, this`keylen
      ensures Shaped() && ret == if klen < 64 then 0 else -22
      ensures ret == 0 ==> key[..keylen] == k[..klen] && keylen == klen
      ensures ret != 0 ==> key[..] == old(key[..]) && keylen == old(keylen)
    {
      if klen < MAX_KEYSIZE {
        Store(key, 0, k[..klen]);
        keylen := klen;
        return 0;
      }
      return -EINVAL;
    }

    // lc_ascon_zero_ex_key
    method ZeroExKey()
      requires Shaped()
      modifies state, this`rate_offset, this`roundb
      ensures state[..] == Zeros(statesize) && rate_offset == 0 && roundb == 0
    {
      Store(state, 0, Zeros(statesize));
      rate_offset, roundb := 0, 0;
    }

    // lc_ascon_zero
    method Zero()
      requires Shaped()
      modifies state, key, this`keylen, this`rate_offset, this`roundb
      ensures state[..] == Zeros(statesize) && rate_offset == 0 && roundb == 0
      ensures key[..] == Zeros(MAX_KEYSIZE) && keylen == 0
    {
      hide Overwrite;
      ZeroExKey();
      ghost var old_key := key[..];
      Store(key, 0, Zeros(MAX_KEYSIZE));
      OverwriteAll(old_key, Zeros(MAX_KEYSIZE));
      keylen := 0;
    }

    method StoreKey(k: array<byte>, n: nat)
      requires Shaped() && k != key && n <= k.Length && n <= MAX_KEYSIZE
      modifies key
      ensures key[..n] == k[..n]
    {
      hide Overwrite;
      ghost var k0 := key[..];
      Store(key, 0, k[..n]);
      OverwriteSlice(k0, 0, k[..n]);
      assert key[0..0 + n] == key[..n];
    }

    // lc_ascon_setiv and lc_ak_setiv on a cleared state
    method SetIv(klen: nat) returns (ret: int)
      requires Shaped() && state[..] == Zeros(statesize) && roundb == 0 && 16 <= klen
      modifies state, this`keylen, this`roundb
      ensures ret == if flavour == Lightweight && hash.rate == 16 && klen == 16 then 0
                     else if flavour == Keccak && 16 <= taglen <= klen && hash.rate == 72 && klen == 64 then 0
                     else if flavour == Keccak && 16 <= taglen <= klen && hash.rate == 136 && klen == 32 then 0
                     else -22
      ensures ret != 0 ==> keylen == old(keylen) && roundb == old(roundb) && state[..] == old(state[..])
      ensures ret == 0 ==> keylen == klen && roundb == if flavour == Lightweight then 8 else 0
      ensures ret == 0 ==> state[..] == Overwrite(Zeros(statesize), 0, Iv(flavour, hash.rate, taglen))
    {
      hide Overwrite, Iv;
      if flavour == Keccak && (taglen < 16 || taglen > klen) {
        return -EINVAL;
      }
      var want := match flavour
        case Lightweight => if hash.rate == 16 then 16 else 0
        case Keccak => if hash.rate == 72 then 64 else if hash.rate == 136 then 32 else 0;
      if klen != want {
        return -EINVAL;
      }
      Store(state, 0, Iv(flavour, hash.rate, taglen));
      keylen := klen;
      if flavour == Lightweight {
        roundb := 8;
      }
      return 0;
    }

    // lc_ascon_setkey_int: null stands for the key loaded before.
    method SetKey(k: array?<byte>, klen: nat, nonce: array<byte>, noncelen: nat) returns (ret: int)
      requires Shaped() && nonce != state && nonce != key && noncelen <= nonce.Length
      requires k != null ==> k != state && k != key && klen <= k.Length
      modifies this`keylen, this`rate_offset, this`roundb, key, state
      ensures var K := if k == null then old(key[..keylen]) else old(k[..klen]);
              && Shaped()
              && ret == (if noncelen < 16 || noncelen > |K| then -22
                         else if flavour == Lightweight && hash.rate == 16 && |K| == 16 then 0
                         else if flavour == Keccak && 16 <= taglen <= |K| && hash.rate == 72 && |K| == 64 then 0
                         else if flavour == Keccak && 16 <= taglen <= |K| && hash.rate == 136 && |K| == 32 then 0
                         else -22)
              && (ret != 0 ==>
                    && state[..] == Zeros(statesize) && rate_offset == 0 && roundb == 0
                    && (if k == null then key[..] == old(key[..]) && keylen == old(keylen)
                        else key[..] == Zeros(MAX_KEYSIZE) && keylen == 0))
              && (ret == 0 ==>
                    && Valid() && rate_offset == 0 && key[..keylen] == K
                    && roundb == (if flavour == Lightweight then 8 else 0)
                    && var I := Iv(flavour, hash.rate, taglen) + K + nonce[..noncelen];
                       state[..] == XorAt(hash.perm(12, I + Zeros(statesize - |I|)), statesize - |K|, K))
    {
      hide XorAt, Overwrite, Iv, KeepsLength;
      var n := klen;
      ghost var K := if k == null then key[..keylen] else k[..klen];
      if k == null {
        ZeroExKey();
        n := keylen;
      } else {
        Zero();
      }
      if noncelen < 16 || noncelen > n {
        return -EINVAL;
      }
      ret := SetIv(n);
      if ret != 0 {
        return;
      }
      if k != null {
        StoreKey(k, n);
      }
      Initialize(n, nonce, noncelen, Iv(flavour, hash.rate, taglen), K);
    }

    // Key and nonce after the IV, twelve rounds, the key at the end of the state.
    method Initialize(n: nat, nonce: array<byte>, noncelen: nat, ghost iv: Bytes, ghost K: Bytes)
      requires Shaped() && nonce != state && noncelen <= nonce.Length && n <= MAX_KEYSIZE && 8 + n + noncelen <= statesize
      requires |iv| == 8 && state[..] == Overwrite(Zeros(statesize), 0, iv) && key[..n] == K
      modifies state
      ensures var I := iv + K + nonce[..noncelen];
              state[..] == XorAt(hash.perm(12, I + Zeros(statesize - |I|)), statesize - |K|, K)
    {
      hide XorAt, Overwrite;
      InitIsAdds(statesize, iv, K, nonce[..noncelen]);
      assert key[0..0 + n] == key[..n];
      AddBytes(key, 0, 8, n);
      assert nonce[0..0 + noncelen] == nonce[..noncelen];
      AddBytes(nonce, 0, 8 + n, noncelen);
      Sponge(12);
      AddBytes(key, 0, statesize - n, n);
    }

    // ---- associated data ----

    // lc_ascon_add_padbyte
    method AddPadByte(offset: nat)
      requires Shaped() && offset <= hash.rate
      modifies state
      ensures state[..] == XorAt(old(state[..]), if offset == hash.rate then 0 else offset, [PAD_DATA])
    {
      var pad := new byte[1](_ => PAD_DATA);
      var at := if offset == hash.rate then 0 else offset;
      AddBytes(pad, 0, at, 1);
      assert pad[0..1] == [PAD_DATA];
    }

    // The tail that lc_ascon_aad and its kernel counterpart share, the last off bytes being added.
    method CloseAad(offset: nat)
      requires Shaped() && offset < hash.rate
      modifies state
      ensures state[..] == Spec.Separate(hash.perm(roundb, XorAt(old(state[..]), offset, [PAD_DATA])))
    {
      hide XorAt;
      AddPadByte(offset);
      Sponge(roundb);
      var trail := new byte[1](_ => PAD_TRAIL);
      AddBytes(trail, 0, statesize - 1, 1);
      assert trail[0..1] == [PAD_TRAIL];
    }

    // The loop of lc_ascon_aad over the whole blocks; done of the n bytes are absorbed afterwards.
    method AbsorbBlocks(aad: array<byte>, off: nat, n: nat) returns (done: nat)
      requires Shaped() && aad != state && off + n <= aad.Length
      modifies state
      ensures done <= n < done + hash.rate
      ensures Spec.Absorb(hash, roundb, old(state[..]), aad[off..off + n]) ==
              Spec.Absorb(hash, roundb, state[..], aad[off + done..off + n])
    {
      hide XorAt, Spec.Absorb;
      done := 0;
      while n - done >= hash.rate
        invariant done <= n && Shaped()
        invariant Spec.Absorb(hash, roundb, old(state[..]), aad[off..off + n]) ==
                  Spec.Absorb(hash, roundb, state[..], aad[off + done..off + n])
      {
        AbsorbNext(hash, roundb, state[..], aad[..], off, n, done);
        AddBytes(aad, off + done, 0, hash.rate);
        Sponge(roundb);
        done := done + hash.rate;
      }
    }

    // lc_ascon_aad
    method Aad(aad: array<byte>, off: nat, n: nat)
      requires Shaped() && aad != state && off + n <= aad.Length
      modifies state
      ensures state[..] == AsconStream.Aad(hash, roundb, old(state[..]), aad[off..off + n])
    {
      hide XorAt, AsconStream.Aad, Spec.Separate, Spec.Absorb;
      if n == 0 {
        AadNone(hash, roundb, state[..], aad[off..off + n]);
        return;
      }
      AadIsAbsorb(hash, roundb, state[..], aad[off..off + n]);
      var done := AbsorbBlocks(aad, off, n);
      AbsorbLast(hash, roundb, state[..], aad[off + done..off + n]);
      AddBytes(aad, off + done, 0, n - done);
      CloseAad(n - done);
    }

    // ---- data ----

    // One round of lc_ascon_enc_update up to the permutation: add the plaintext, take the ciphertext.
    method EncPiece(pt: array<byte>, po: nat, ct: array<byte>, co: nat, todo: nat)
      requires Shaped() && pt != state && ct != state && po + todo <= pt.Length && co + todo <= ct.Length
      requires rate_offset + todo <= hash.rate
      modifies state, ct
      ensures var (s, o) := Piece(false, old(Abs()), old(pt[po..po + todo]));
              state[..] == s.state && ct[..] == Overwrite(old(ct[..]), co, o)
    {
      hide XorAt;
      AddBytes(pt, po, rate_offset, todo);
      Store(ct, co, state[rate_offset..rate_offset + todo]);
    }

    // The same with the permutation, if more is to come.
    method EncPieceOn(pt: array<byte>, po: nat, ct: array<byte>, co: nat, todo: nat, more: bool)
      requires Shaped() && pt != state && ct != state && po + todo <= pt.Length && co + todo <= ct.Length
      requires rate_offset + todo <= hash.rate
      modifies state, ct
      ensures var (s, o) := Piece(false, old(Abs()), old(pt[po..po + todo]));
              && state[..] == (if more then hash.perm(roundb, s.state) else s.state)
              && ct[..] == Overwrite(old(ct[..]), co, o)
    {
      hide Overwrite, Piece, KeepsLength;
      EncPiece(pt, po, ct, co, todo);
      if more {
        Sponge(roundb);
      }
    }

    // An update loop on the data d, read at io in inp and written at oo over c0, has taken done bytes.
    ghost predicate At(dec: bool, st: Ast, d: Bytes, inp: array<byte>, io: nat, out: array<byte>, oo: nat, c0: Bytes, done: nat)
      requires Shaped() && Ok(hash, st)
      reads this, state, inp, out
    {
      && Valid() && done <= |d| && Unread(inp[..], io, d, done) && oo + |d| <= |c0|
      && var (s, o) := Crypt(hash, roundb, dec, st, d[..done]);
      && (if done < |d| then Sync(hash, roundb, s, Abs(), done) else Abs() == s)
      && out[..] == Overwrite(c0, oo, o)
    }

    lemma AtStart(dec: bool, d: Bytes, inp: array<byte>, io: nat, out: array<byte>, oo: nat)
      requires Valid() && io + |d| <= inp.Length && oo + |d| <= out.Length && d == inp[io..io + |d|]
      ensures At(dec, Abs(), d, inp, io, out, oo, out[..], 0)
    {
      hide Crypt, Overwrite, Unread;
      CryptStart(hash, roundb, dec, Abs(), d);
      OverwriteNone(out[..], oo);
      UnreadAll(inp[..], io, |d|);
      assert d[..0] == [] && [] == d[..0];
    }

    // One round of lc_ascon_enc_update.
    method EncRound(ghost st: Ast, ghost d: Bytes, pt: array<byte>, po: nat, ct: array<byte>, co: nat, ghost c0: Bytes,
                    n: nat, done: nat)
      returns (todo: nat)
      requires Shaped() && Ok(hash, st) && pt != state && ct != state && n == |d| && done < n
      requires SameOrApart(ct, co, pt, po, n) && po + n <= pt.Length && co + n <= ct.Length
      requires At(false, st, d, pt, po, ct, co, c0, done)
      modifies state, ct, this`rate_offset
      ensures done + todo <= n && (todo > 0 || rate_offset < old(rate_offset))
      ensures At(false, st, d, pt, po, ct, co, c0, done + todo)
    {
      hide Crypt, Piece, Overwrite, Unread, KeepsLength;
      todo := if n - done < hash.rate - rate_offset then n - done else hash.rate - rate_offset;
      ghost var cs, p1, o := Abs(), pt[..], Crypt(hash, roundb, false, st, d[..done]).1;
      UnreadPiece(p1, po, d, done, todo);
      CryptNext(hash, roundb, false, st, d, done, todo, cs);
      ghost var q := Piece(false, cs, d[done..done + todo]).1;
      EncPieceOn(pt, po + done, ct, co + done, todo, done + todo < n);
      OverwriteNext(c0, co, o, q);
      UnreadKept(p1, pt[..], po, d, done, co, q, pt == ct);
      rate_offset := if done + todo < n then 0 else rate_offset + todo;
    }

    // lc_ascon_enc_update; ct may be pt.
    method EncUpdate(pt: array<byte>, po: nat, ct: array<byte>, co: nat, n: nat)
      requires Valid() && pt != state && ct != state && po + n <= pt.Length && co + n <= ct.Length
      requires SameOrApart(ct, co, pt, po, n)
      modifies state, ct, this`rate_offset
      ensures Valid()
      ensures var (s, o) := Crypt(hash, roundb, false, old(Abs()), old(pt[po..po + n]));
              Abs() == s && ct[..] == Overwrite(old(ct[..]), co, o)
    {
      hide Crypt, Overwrite, Unread, Sync;
      ghost var st, d, c0 := Abs(), pt[po..po + n], ct[..];
      AtStart(false, d, pt, po, ct, co);
      var done := 0;
      while done < n
        invariant done <= n && At(false, st, d, pt, po, ct, co, c0, done)
        decreases n - done, rate_offset
      {
        var todo := EncRound(st, d, pt, po, ct, co, c0, n, done);
        done := done + todo;
      }
      assert d[..n] == d;
    }

    // lc_sponge_extract_bytes
    method ExtractBytes(dst: array<byte>, d0: nat, off: nat, n: nat)
      requires Shaped() && dst != state && d0 + n <= dst.Length && off + n <= statesize
      modifies dst
      ensures dst[..] == Overwrite(old(dst[..]), d0, state[off..off + n]) && dst[d0..d0 + n] == state[off..off + n]
    {
      hide Overwrite;
      ghost var d := dst[..];
      Store(dst, d0, state[off..off + n]);
      OverwriteSlice(d, d0, state[off..off + n]);
    }

    // lc_sponge_newstate
    method NewState(src: array<byte>, so: nat, off: nat, n: nat)
      requires Shaped() && src != state && so + n <= src.Length && off + n <= statesize
      modifies state
      ensures state[..] == Overwrite(old(state[..]), off, src[so..so + n])
    {
      Store(state, off, src[so..so + n]);
    }

    // A piece with more to come: the ciphertext replaces the rate, and the rounds.
    method ReplaceRate(ct: array<byte>, co: nat, todo: nat)
      requires Shaped() && ct != state && co + todo <= ct.Length && rate_offset + todo <= hash.rate
      modifies state
      ensures state[..] == hash.perm(roundb, Overwrite(old(state[..]), rate_offset, ct[co..co + todo]))
    {
      hide Overwrite, KeepsLength;
      NewState(ct, co, rate_offset, todo);
      Sponge(roundb);
    }

    // The last piece: adding the plaintext to the state puts the ciphertext c into it.
    method AddBack(pt: array<byte>, po: nat, off: nat, n: nat, ghost c: Bytes)
      requires Shaped() && pt != state && po + n <= pt.Length && off + n <= statesize && |c| == n
      requires pt[po..po + n] == Xor(state[off..off + n], c)
      modifies state
      ensures state[..] == Overwrite(old(state[..]), off, c)
    {
      hide XorAt, Overwrite, Xor;
      XorAddsBack(state[..], off, c);
      assert state[..][off..off + n] == state[off..off + n];
      AddBytes(pt, po, off, n);
    }

    // xor_64 onto the key stream k already in the output.
    method XorOut(pt: array<byte>, po: nat, ct: array<byte>, co: nat, n: nat, ghost p0: Bytes, ghost k: Bytes)
      requires (pt != ct || po + n <= co || co + n <= po) && po + n <= pt.Length && co + n <= ct.Length
      requires |k| == n && |p0| == pt.Length && pt[..] == Overwrite(p0, po, k)
      modifies pt
      ensures var o := Xor(k, old(ct[co..co + n])); pt[..] == Overwrite(p0, po, o) && pt[po..po + n] == o
    {
      hide XorAt, Overwrite, Xor;
      XorOverwritten(p0, po, k, ct[co..co + n]);
      OverwriteSlice(p0, po, Xor(k, ct[co..co + n]));
      XorInto(pt, po, ct, co, n);
    }

    // The key stream to the output, apart from the input.
    method ExtractApart(ct: array<byte>, co: nat, pt: array<byte>, po: nat, n: nat)
      requires Shaped() && pt != state && po + n <= pt.Length && co + n <= ct.Length && rate_offset + n <= hash.rate
      requires pt != ct || po + n <= co || co + n <= po
      modifies pt
      ensures pt[..] == Overwrite(old(pt[..]), po, state[rate_offset..rate_offset + n])
      ensures ct[co..co + n] == old(ct[co..co + n])
    {
      hide Overwrite;
      ghost var p0 := pt[..];
      ExtractBytes(pt, po, rate_offset, n);
      if pt == ct {
        OverwriteApart(p0, po, state[rate_offset..rate_offset + n], co, n);
      }
    }

    // One round of lc_ascon_dec_update with separate buffers: the key stream goes to the output, the
    // ciphertext replaces the rate, or for the last piece the plaintext is added back to it.
    method DecPieceApart(ct: array<byte>, co: nat, pt: array<byte>, po: nat, todo: nat, more: bool)
      requires Shaped() && pt != state && ct != state && po + todo <= pt.Length && co + todo <= ct.Length
      requires pt != ct || po + todo <= co || co + todo <= po
      requires rate_offset + todo <= hash.rate
      modifies state, pt
      ensures var (s, o) := Piece(true, old(Abs()), old(ct[co..co + todo]));
              && state[..] == (if more then hash.perm(roundb, s.state) else s.state)
              && pt[..] == Overwrite(old(pt[..]), po, o)
    {
      hide XorAt, Overwrite, Xor, Piece, KeepsLength;
      ghost var p0, c := pt[..], ct[co..co + todo];
      PieceDec(Abs(), c);
      ghost var k := state[rate_offset..rate_offset + todo];
      ExtractApart(ct, co, pt, po, todo);
      if more {
        ReplaceRate(ct, co, todo);
        XorOut(pt, po, ct, co, todo, p0, k);
      } else {
        LastApart(ct, co, pt, po, todo, p0, k);
      }
    }

    // The last piece.
    method LastApart(ct: array<byte>, co: nat, pt: array<byte>, po: nat, n: nat, ghost p0: Bytes, ghost k: Bytes)
      requires Shaped() && pt != state && ct != state && po + n <= pt.Length && co + n <= ct.Length
      requires (pt != ct || po + n <= co || co + n <= po) && rate_offset + n <= hash.rate
      requires k == state[rate_offset..rate_offset + n] && |p0| == pt.Length && pt[..] == Overwrite(p0, po, k)
      modifies state, pt
      ensures var c := old(ct[co..co + n]);
              state[..] == Overwrite(old(state[..]), rate_offset, c) && pt[..] == Overwrite(p0, po, Xor(k, c))
    {
      hide XorAt, Overwrite, Xor, KeepsLength;
      ghost var c := ct[co..co + n];
      XorOut(pt, po, ct, co, n, p0, k);
      AddBack(pt, po, rate_offset, n, c);
    }

    // The same in place, by way of the temporary buffer.
    method DecPieceInPlace(ct: array<byte>, co: nat, tmp_pt: array<byte>, todo: nat, more: bool)
      requires Shaped() && ct != state && tmp_pt != state && tmp_pt != ct && tmp_pt.Length == 136 && co + todo <= ct.Length
      requires rate_offset + todo <= hash.rate
      modifies state, ct, tmp_pt
      ensures var (s, o) := Piece(true, old(Abs()), old(ct[co..co + todo]));
              && state[..] == (if more then hash.perm(roundb, s.state) else s.state)
              && ct[..] == Overwrite(old(ct[..]), co, o)
    {
      hide XorAt, Overwrite, Xor, Piece, KeepsLength;
      ghost var c0, c := ct[..], ct[co..co + todo];
      PieceDec(Abs(), c);
      ghost var k := state[rate_offset..rate_offset + todo];
      ExtractBytes(tmp_pt, 0, rate_offset, todo);
      assert tmp_pt[..todo] == tmp_pt[0..0 + todo] == k;
      if more {
        ReplaceRate(ct, co, todo);
        XorBack(ct, co, tmp_pt, todo, k);
      } else {
        XorBack(ct, co, tmp_pt, todo, k);
        AddBack(ct, co, rate_offset, todo, c);
      }
    }

    // xor_64_3 of the temporary buffer and the data, over the data.
    method XorBack(ct: array<byte>, co: nat, tmp_pt: array<byte>, n: nat, ghost k: Bytes)
      requires tmp_pt != ct && n <= tmp_pt.Length && co + n <= ct.Length && tmp_pt[..n] == k
      modifies ct
      ensures var o := Xor(k, old(ct[co..co + n])); ct[..] == Overwrite(old(ct[..]), co, o) && ct[co..co + n] == o
    {
      hide Overwrite, Xor;
      ghost var c0, c := ct[..], ct[co..co + n];
      assert tmp_pt[0..0 + n] == tmp_pt[..n];
      Xor3(ct, co, tmp_pt, 0, ct, co, n);
      OverwriteSlice(c0, co, Xor(k, c));
    }

    // Either of them: the temporary buffer is used exactly when input and output are the same area.
    method DecPiece(ct: array<byte>, co: nat, pt: array<byte>, po: nat, tmp_pt: array<byte>, todo: nat, more: bool)
      requires Shaped() && pt != state && ct != state && po + todo <= pt.Length && co + todo <= ct.Length
      requires SameOrApart(pt, po, ct, co, todo) && rate_offset + todo <= hash.rate
      requires tmp_pt != state && tmp_pt != ct && tmp_pt != pt && tmp_pt.Length == 136
      modifies state, pt, tmp_pt
      ensures var (s, o) := Piece(true, old(Abs()), old(ct[co..co + todo]));
              && state[..] == (if more then hash.perm(roundb, s.state) else s.state)
              && pt[..] == Overwrite(old(pt[..]), po, o)
    {
      hide Overwrite, Piece, KeepsLength;
      if pt == ct && po == co {
        DecPieceInPlace(ct, co, tmp_pt, todo, more);
      } else {
        DecPieceApart(ct, co, pt, po, todo, more);
      }
    }

    // One round of lc_ascon_dec_update.
    method DecRound(ghost st: Ast, ghost d: Bytes, ct: array<byte>, co: nat, pt: array<byte>, po: nat, ghost p0: Bytes,
                    tmp_pt: array<byte>, n: nat, done: nat)
      returns (todo: nat)
      requires Shaped() && Ok(hash, st) && pt != state && ct != state && n == |d| && done < n
      requires tmp_pt != state && tmp_pt != ct && tmp_pt != pt && tmp_pt.Length == 136
      requires SameOrApart(pt, po, ct, co, n) && po + n <= pt.Length && co + n <= ct.Length
      requires At(true, st, d, ct, co, pt, po, p0, done)
      modifies state, pt, tmp_pt, this`rate_offset
      ensures done + todo <= n && (todo > 0 || rate_offset < old(rate_offset))
      ensures At(true, st, d, ct, co, pt, po, p0, done + todo)
    {
      hide Crypt, Piece, Overwrite, Unread, KeepsLength;
      todo := if n - done < hash.rate - rate_offset then n - done else hash.rate - rate_offset;
      ghost var cs, c1, o := Abs(), ct[..], Crypt(hash, roundb, true, st, d[..done]).1;
      UnreadPiece(c1, co, d, done, todo);
      CryptNext(hash, roundb, true, st, d, done, todo, cs);
      ghost var q := Piece(true, cs, d[done..done + todo]).1;
      DecPiece(ct, co + done, pt, po + done, tmp_pt, todo, done + todo < n);
      OverwriteNext(p0, po, o, q);
      UnreadKept(c1, ct[..], co, d, done, po, q, pt == ct);
      rate_offset := if done + todo < n then 0 else rate_offset + todo;
    }

    // lc_ascon_dec_update; pt may be ct.
    method DecUpdate(ct: array<byte>, co: nat, pt: array<byte>, po: nat, n: nat)
      requires Valid() && pt != state && ct != state && po + n <= pt.Length && co + n <= ct.Length
      requires SameOrApart(pt, po, ct, co, n)
      modifies state, pt, this`rate_offset
      ensures Valid()
      ensures var (s, o) := Crypt(hash, roundb, true, old(Abs()), old(ct[co..co + n]));
              Abs() == s && pt[..] == Overwrite(old(pt[..]), po, o)
    {
      hide Crypt, Overwrite, Unread, Sync;
      ghost var st, d, p0 := Abs(), ct[co..co + n], pt[..];
      AtStart(true, d, ct, co, pt, po);
      var tmp_pt := new byte[136](_ => 0);
      var done := 0;
      while done < n
        invariant done <= n && At(true, st, d, ct, co, pt, po, p0, done)
        decreases n - done, rate_offset
      {
        var todo := DecRound(st, d, ct, co, pt, po, p0, tmp_pt, n, done);
        done := done + todo;
      }
      assert d[..n] == d;
    }

    // ---- finalization ----

    // lc_ascon_finalization
    method Finalization(tag: array<byte>, to: nat, t: nat)
      requires Valid() && tag != state && tag != key && to + t <= tag.Length && t == taglen
      modifies state, tag
      ensures var (S, T) := Finalize(hash, old(state[..]), key[..keylen], t);
              state[..] == S && tag[..] == Overwrite(old(tag[..]), to, T) && tag[to..to + t] == T
    {
      hide XorAt, Overwrite;
      var tag_offset := statesize - t;
      AddBytes(key, 0, hash.rate, keylen);
      assert key[0..0 + keylen] == key[..keylen] && key[0..0 + t] == key[..keylen][..t];
      Sponge(12);
      AddBytes(key, 0, tag_offset, t);
      ExtractBytes(tag, to, tag_offset, t);
      assert state[tag_offset..tag_offset + t] == state[..][tag_offset..];
    }

    // lc_ascon_enc_final: for the wrong tag length the call ends after the last permutation.
    method EncFinal(tag: array<byte>, to: nat, t: nat)
      requires Valid() && tag != state && tag != key && to + t <= tag.Length
      modifies state, tag
      ensures t != taglen ==> state[..] == Ready(hash, roundb, old(Abs())).state && tag[..] == old(tag[..])
      ensures t == taglen ==>
                var (S, T) := Finalize(hash, Pad(hash, roundb, old(Abs())), key[..keylen], t);
                state[..] == S && tag[..] == Overwrite(old(tag[..]), to, T) && tag[to..to + t] == T
    {
      hide XorAt, Overwrite, Finalize;
      if rate_offset == hash.rate {
        Sponge(roundb);
      }
      if t != taglen {
        return;
      }
      AddPadByte(rate_offset);
      Finalization(tag, to, t);
    }

    // lc_ascon_dec_final
    method DecFinal(tag: array<byte>, to: nat, t: nat) returns (ret: int)
      requires Valid() && tag != state && to + t <= tag.Length
      modifies state
      ensures t != taglen ==> ret == -22 && state[..] == old(state[..])
      ensures t == taglen ==>
                var (S, T) := Finalize(hash, Pad(hash, roundb, old(Abs())), key[..keylen], t);
                state[..] == S && ret == if tag[to..to + t] == T then 0 else -74
    {
      hide XorAt, Overwrite, Finalize;
      if t != taglen {
        return -EINVAL;
      }
      if rate_offset == hash.rate {
        Sponge(roundb);
      }
      AddPadByte(rate_offset);
      var calctag := new byte[64](_ => 0);
      Finalization(calctag, 0, t);
      assert calctag[0..0 + t] == calctag[..t];
      ret := if calctag[..t] != tag[to..to + t] then -EBADMSG else 0;
    }

    // ---- one shot ----

    // lc_ascon_encrypt after setkey: section 4.1 of NIST SP 800-232 when there is associated data.
    method Encrypt(pt: array<byte>, po: nat, ct: array<byte>, co: nat, n: nat, aad: array<byte>, ao: nat, aadlen: nat,
                   tag: array<byte>, to: nat, t: nat)
      requires Valid() && rate_offset == 0 && pt != state && ct != state && aad != state && tag != state
      requires ct != key && tag != key && SameOrApart(ct, co, pt, po, n)
      requires po + n <= pt.Length && co + n <= ct.Length && ao + aadlen <= aad.Length && to + t <= tag.Length
      requires tag != ct || to + t <= co || co + n <= to
      modifies state, ct, tag, this`rate_offset
      ensures var A := old(aad[ao..ao + aadlen]);
              var S := WithData(hash, roundb, old(state[..]), A);
              var P := old(pt[po..po + n]);
              && (forall k :: 0 <= k < n ==> ct[co..co + n][k] == CipherByte(hash, roundb, S, P, k))
              && (t == taglen ==>
                    forall k :: 0 <= k < t ==> tag[to..to + t][k] == TagByte(hash, roundb, S, P, key[..keylen], t, k))
    {
      hide XorAt, Overwrite, Finalize, Crypt, Pad, Spec.Encrypt, Spec.Tag, AsconStream.Aad, WithData, CipherByte, TagByte;
      ghost var A, P, c0 := aad[ao..ao + aadlen], pt[po..po + n], ct[..];
      AadMeets(hash, roundb, state[..], A);
      Aad(aad, ao, aadlen);
      ghost var S := state[..];
      assert pt[po..po + n] == P;
      EncryptIsCrypt(hash, roundb, S, P);
      EncUpdate(pt, po, ct, co, n);
      ghost var (T, C) := Spec.Encrypt(hash, roundb, S, P);
      OverwriteSlice(c0, co, C);
      assert ct[co..co + n] == C;
      ghost var c1 := ct[..];
      EncryptionIs(hash, roundb, S, key[..keylen], P, taglen);
      if t == taglen {
        FinalizeIsTag(hash, T, key[..keylen], t);
        if tag == ct {
          OverwriteApart(c1, to, Finalize(hash, T, key[..keylen], t).1, co, n);
        }
      }
      EncFinal(tag, to, t);
    }

    // lc_ascon_decrypt after setkey; the plaintext is put out even when the tag is refused.
    method Decrypt(ct: array<byte>, co: nat, pt: array<byte>, po: nat, n: nat, aad: array<byte>, ao: nat, aadlen: nat,
                   tag: array<byte>, to: nat, t: nat)
      returns (ret: int)
      requires Valid() && rate_offset == 0 && pt != state && ct != state && aad != state && tag != state
      requires pt != key && SameOrApart(pt, po, ct, co, n)
      requires po + n <= pt.Length && co + n <= ct.Length && ao + aadlen <= aad.Length && to + t <= tag.Length
      requires tag != pt || to + t <= po || po + n <= to
      modifies state, pt, this`rate_offset
      ensures var A := old(aad[ao..ao + aadlen]);
              var S := WithData(hash, roundb, old(state[..]), A);
              var P := pt[po..po + n];
              && (forall k :: 0 <= k < n ==> old(ct[co..co + n])[k] == CipherByte(hash, roundb, S, P, k))
              && (t != taglen ==> ret == -22)
              && (t == taglen ==> ret == 0 || ret == -74)
              && (t == taglen ==>
                    (ret == 0 <==>
                     forall k :: 0 <= k < t ==> tag[to..to + t][k] == TagByte(hash, roundb, S, P, key[..keylen], t, k)))
    {
      hide XorAt, Overwrite, Finalize, Crypt, Pad, Spec.Encrypt, Spec.Tag, AsconStream.Aad, WithData, CipherByte, TagByte;
      ghost var A, C, p0, t0 := aad[ao..ao + aadlen], ct[co..co + n], pt[..], tag[to..to + t];
      AadMeets(hash, roundb, state[..], A);
      Aad(aad, ao, aadlen);
      ghost var S := state[..];
      assert ct[co..co + n] == C;
      Lockstep(hash, roundb, true, Ast(S, 0), C);
      DecUpdate(ct, co, pt, po, n);
      ghost var P := Crypt(hash, roundb, true, Ast(S, 0), C).1;
      OverwriteSlice(p0, po, P);
      if tag == pt {
        OverwriteApart(p0, po, P, to, t);
      }
      assert tag[to..to + t] == t0 && pt[po..po + n] == P;
      EncryptIsCrypt(hash, roundb, S, P);
      EncryptionIs(hash, roundb, S, key[..keylen], P, taglen);
      if t == taglen {
        FinalizeIsTag(hash, Spec.Encrypt(hash, roundb, S, P).0, key[..keylen], t);
        TagVerdict(hash, roundb, S, key[..keylen], P, t0);
      }
      ret := DecFinal(tag, to, t);
    }
  }

  // The state before the data, as the standard has it unless there is no associated data.
  lemma AadMeets(h: Hash, r: nat, S: Bytes, A: Bytes)
    requires 0 < h.rate <= |S|
    ensures AsconStream.Aad(h, r, S, A) == WithData(h, r, S, A)
  {
    hide Spec.Associate, WithData, AsconStream.Aad;
    AssociateIsWithData(h, r, S, A);
    if A == [] {
      AadNone(h, r, S, A);
    } else {
      AadIsAssociate(h, r, S, A);
    }
  }

  // Adding key and nonce to the zeros behind the IV is putting them there.
  lemma InitIsAdds(size: nat, iv: Bytes, K: Bytes, N: Bytes)
    requires |iv| == 8 && 8 + |K| + |N| <= size
    ensures var S := XorAt(XorAt(Overwrite(Zeros(size), 0, iv), 8, K), 8 + |K|, N);
            S == iv + K + N + Zeros(size - |iv + K + N|)
  {
    var S := XorAt(XorAt(Overwrite(Zeros(size), 0, iv), 8, K), 8 + |K|, N);
    var I := iv + K + N + Zeros(size - |iv + K + N|);
    forall i | 0 <= i < size ensures S[i] == I[i] {
      if 8 <= i < 8 + |K| {
        XorFacts(K[i - 8], 0);
      } else if 8 + |K| <= i < 8 + |K| + |N| {
        XorFacts(N[i - 8 - |K|], 0);
      }
    }
    assert S == I;
  }

  lemma PieceDec(st: Ast, d: Bytes)
    requires st.off + |d| <= |st.state|
    ensures Piece(true, st, d) ==
            (Ast(Overwrite(st.state, st.off, d), st.off + |d|), Xor(st.state[st.off..st.off + |d|], d))
  {
    assert XorAt(st.state, st.off, d)[st.off..st.off + |d|] == Xor(st.state[st.off..st.off + |d|], d);
  }

  lemma AadNone(h: Hash, r: nat, S: Bytes, A: Bytes)
    requires 0 < h.rate <= |S| && A == []
    ensures AsconStream.Aad(h, r, S, A) == S
  {
  }

  lemma AadIsAbsorb(h: Hash, r: nat, S: Bytes, A: Bytes)
    requires 0 < h.rate <= |S| && A != []
    ensures AsconStream.Aad(h, r, S, A) == Spec.Separate(Spec.Absorb(h, r, S, A))
  {
    hide AsconStream.Aad, Spec.Absorb;
    AadIsAssociate(h, r, S, A);
  }

  lemma AbsorbNext(h: Hash, r: nat, S: Bytes, a: Bytes, off: nat, n: nat, done: nat)
    requires 0 < h.rate <= |S| && off + n <= |a| && done + h.rate <= n
    ensures Spec.Absorb(h, r, S, a[off + done..off + n]) ==
            Spec.Absorb(h, r, h.perm(r, XorAt(S, 0, a[off + done..off + done + h.rate])), a[off + done + h.rate..off + n])
  {
    hide XorAt;
    var A := a[off + done..off + n];
    assert A[..h.rate] == a[off + done..off + done + h.rate] && A[h.rate..] == a[off + done + h.rate..off + n];
  }

  lemma AbsorbLast(h: Hash, r: nat, S: Bytes, A: Bytes)
    requires |A| < h.rate <= |S|
    ensures Spec.Absorb(h, r, S, A) == h.perm(r, XorAt(XorAt(S, 0, A), |A|, [PAD_DATA]))
  {
    hide XorAt;
    XorAtTwice(S, 0, A, [PAD_DATA]);
  }
}
