// struct lc_chacha20_poly1305_cryptor and the calls of aead/src/chacha20poly1305.c that update it.
module ChachaPoly {
  import opened Bytes
  import opened Errno
  import opened Keystream
  import Endian
  import opened XorOps
  import opened ChaCha20
  import opened ChachaFraming

  const TAGSIZE := 16

  type TagBytes = s: Bytes | |s| == 16 witness Zeros(16)

  datatype Primitives = Primitives(block: BlockFn, poly1305: (Bytes, Bytes) -> TagBytes)

  // cc20p1305_setiv: a 64-bit IV gets a constant in front of it.
  function Nonce(iv: Bytes): Bytes {
    if |iv| == 8 then [0x07, 0x00, 0x00, 0x00] + iv else iv
  }

  // The ChaCha20 state with the block counter back at 0.
  function Rewound(s: State): State {
    s.(counter := s.counter / TWO32 * TWO32)
  }

  // Byte k of the ciphertext by key and 96-bit nonce: section 2.4 of RFC 7539 with block 1 first.
  function CipherByte(f: BlockFn, K: Bytes, N: Bytes, P: Bytes, k: nat): byte
    requires k < |P|
  {
    P[k] ^ f(K, 1 + k / 64 + 0x1_0000_0000 * Endian.LeNum(N))[k % 64]
  }

  // What a one-shot call authenticates.
  function TagInput(A: Bytes, C: Bytes): Bytes {
    A + (if A == [] then [] else seq(16 - |A| % 16, _ => 0)) + C + seq(16 - |C| % 16, _ => 0)
    + Endian.Le(|A|, 8) + Endian.Le(|C|, 8)
  }

  // How many tag bytes a buffer of taglen bytes gets.
  function Clamp(taglen: nat): (u: nat)
    ensures u <= taglen && u <= 16 && (u == taglen || u == 16)
  {
    if taglen < TAGSIZE then taglen else TAGSIZE
  }

  class Cryptor {
    const prim: Primitives
    const sym: Sym
    // The Poly1305 context.
    var polyKey: Bytes
    var poly: Bytes
    var aadlen: nat
    var datalen: nat

    ghost predicate Valid()
      reads this, sym, sym.keystream
    {
      sym.Valid() && sym.block == prim.block
    }

    ghost function Abs(): Pst
      reads this, sym
    {
      Pst(sym.stream, sym.used, aadlen, datalen, poly)
    }

    constructor (prim: Primitives)
      ensures Valid() && fresh(sym) && fresh(sym.keystream)
      ensures this.prim == prim && aadlen == 0 && datalen == 0
    {
      this.prim, polyKey, poly, aadlen, datalen := prim, [], [], 0, 0;
      sym := new Sym(prim.block);
    }

    // Nothing has been processed under the key K and the 96-bit nonce N.
    ghost predicate Started(K: Bytes, N: Bytes)
      reads this, sym, sym.keystream
    {
      && Valid() && Fresh(Abs()) && sym.stream == Ahead(prim.block, sym.Abs()) && sym.used == 0
      && sym.key == K && sym.ptr == 0 && |N| == 12 && Counter(sym.counter) == 1 + 0x1_0000_0000 * Endian.LeNum(N)
      && polyKey == prim.block(K, 0x1_0000_0000 * Endian.LeNum(N))[..32]
    }

    // lc_chacha20_poly1305_setkey_internal: nothing without a key.
    method SetKeyOnly(k: array?<byte>, keylen: nat) returns (ret: int)
      requires Valid() && (k != null ==> keylen <= k.Length && k != sym.keystream)
      modifies sym`key, sym`ptr, sym`stream, sym`used
      ensures Valid() && ret == if k != null && keylen != 32 then -22 else 0
      ensures sym.Abs() == if ret != 0 || k == null then old(sym.Abs()) else old(sym.Abs()).(key := k[..keylen], ptr := 0)
      ensures ret == 0 && k != null ==> sym.stream == Ahead(prim.block, sym.Abs()) && sym.used == 0
      ensures ret != 0 || k == null ==> sym.stream == old(sym.stream) && sym.used == old(sym.used)
    {
      if k == null {
        return 0;
      }
      ret := sym.SetKey(k, keylen);
    }

    // cc20p1305_setiv
    method SetNonce(iv: array<byte>, ivlen: nat) returns (ret: int)
      requires sym.Shaped() && ivlen <= iv.Length
      modifies sym`counter
      ensures sym.Shaped() && ret == if ivlen != 8 && ivlen != 12 then -22 else 0
      ensures sym.Abs() == if ret != 0 then old(sym.Abs())
                           else
                             var N := if ivlen == 8 then [0x07, 0, 0, 0] + iv[..8] else iv[..12];
                             old(sym.Abs()).(counter := old(sym.counter)[0] + 0x1_0000_0000 * Endian.LeNum(N))
    {
      if ivlen != 8 && ivlen != 12 {
        return -EINVAL;
      }
      var n := Nonce(iv[..ivlen]);
      NonceWords(sym.counter[0], n);
      sym.counter := [sym.counter[0], Word(n, 0), Word(n, 4), Word(n, 8)];
      return 0;
    }

    // lc_chacha20_poly1305_setiv_internal: nothing without an IV; one that is refused leaves the block
    // counter at 0.
    method SetIv(iv: array?<byte>, ivlen: nat) returns (ret: int)
      requires Valid() && (iv != null ==> ivlen <= iv.Length)
      modifies this, sym
      ensures Valid() && ret == if iv != null && ivlen != 8 && ivlen != 12 then -22 else 0
      ensures iv == null ==> sym.Abs() == old(sym.Abs()) && sym.stream == old(sym.stream) && sym.used == old(sym.used)
      ensures iv != null && ret != 0 ==>
                sym.Abs() == Rewound(old(sym.Abs())) && sym.stream == Ahead(prim.block, sym.Abs()) && sym.used == 0
      ensures iv != null && ret == 0 ==>
                && sym.Abs().keystream == old(sym.Abs()).keystream
                && Started(old(sym.key), if ivlen == 8 then [0x07, 0, 0, 0] + iv[..8] else iv[..12])
      ensures ret != 0 || iv == null ==>
                polyKey == old(polyKey) && aadlen == old(aadlen) && datalen == old(datalen) && poly == old(poly)
    {
      hide Counter, Follows, Endian.LeNum, Inc;
      if iv == null {
        return 0;
      }
      ClearLow(sym.counter);
      sym.counter := sym.counter[0 := 0];
      ret := SetNonce(iv, ivlen);
      if ret != 0 {
        sym.Restart();
        return;
      }
      FirstBlock(Nonce(iv[..ivlen]));
      var subkey := sym.Block();
      polyKey, poly := subkey[..32], [];
      aadlen, datalen := 0, 0;
      sym.ptr := 0;
      sym.Restart();
    }

    // lc_chacha20_poly1305_setkey_nocheck: without a key the one set before is used, without an IV only the
    // key is set.
    method SetKey(k: array?<byte>, keylen: nat, iv: array?<byte>, ivlen: nat) returns (ret: int)
      requires Valid() && (k != null ==> keylen <= k.Length && k != sym.keystream) && (iv != null ==> ivlen <= iv.Length)
      modifies this, sym
      ensures Valid()
      ensures ret == if (k != null && keylen != 32) || (iv != null && ivlen != 8 && ivlen != 12) then -22 else 0
      ensures ret == 0 && iv != null ==>
                && sym.Abs().keystream == old(sym.Abs()).keystream
                && Started(if k == null then old(sym.key) else k[..keylen],
                           if ivlen == 8 then [0x07, 0, 0, 0] + iv[..8] else iv[..12])
      ensures (k != null && keylen != 32) || (k == null && iv == null) ==>
                sym.Abs() == old(sym.Abs()) && sym.stream == old(sym.stream) && sym.used == old(sym.used)
      ensures (k == null || keylen == 32) && (ret != 0 || (k != null && iv == null)) ==>
                var s := if k == null then old(sym.Abs()) else old(sym.Abs()).(key := k[..keylen], ptr := 0);
                && sym.Abs() == (if iv == null then s else Rewound(s))
                && sym.stream == Ahead(prim.block, sym.Abs()) && sym.used == 0
      ensures ret != 0 || iv == null ==>
                polyKey == old(polyKey) && aadlen == old(aadlen) && datalen == old(datalen) && poly == old(poly)
    {
      hide Counter, Follows, Endian.LeNum;
      ret := SetKeyOnly(k, keylen);
      if ret == 0 {
        ret := SetIv(iv, ivlen);
      }
    }

    // lc_chacha20_poly1305_add_aad
    method AddAad(aad: array<byte>, ao: nat, n: nat)
      requires ao + n <= aad.Length
      modifies this`poly, this`aadlen
      ensures Abs() == ChachaFraming.AddAad(old(Abs()), aad[ao..ao + n])
    {
      poly := poly + aad[ao..ao + n];
      aadlen := (aadlen + n) % TWO64;
    }

    // lc_chacha20_poly1305_aad_pad
    method AadPad()
      modifies this`poly
      ensures Abs() == ChachaFraming.AadPad(old(Abs()))
    {
      if datalen != 0 || aadlen == 0 {
        return;
      }
      var padlen := 16 - aadlen % 16;
      poly := poly + Zeros(padlen);
    }

    // lc_chacha20_poly1305_encrypt
    method Encrypt(pt: array<byte>, po: nat, ct: array<byte>, co: nat, n: nat)
      requires Valid() && pt != sym.keystream && ct != sym.keystream
      requires po + n <= pt.Length && co + n <= ct.Length && SameOrApart(ct, co, pt, po, n)
      modifies this`datalen, this`poly, sym`used, sym`ptr, sym`counter, sym.keystream, ct
      ensures Valid()
      ensures var (s, o) := Update(false, old(Abs()), old(pt[po..po + n]));
              Abs() == s && ct[..] == Overwrite(old(ct[..]), co, o) && ct[co..co + n] == o
    {
      hide Overwrite, StreamXor;
      AadPad();
      sym.Crypt(pt, po, ct, co, n);
      datalen := (datalen + n) % TWO64;
      poly := poly + ct[co..co + n];
    }

    // lc_chacha20_poly1305_decrypt
    method Decrypt(ct: array<byte>, co: nat, pt: array<byte>, po: nat, n: nat)
      requires Valid() && pt != sym.keystream && ct != sym.keystream
      requires po + n <= pt.Length && co + n <= ct.Length && SameOrApart(pt, po, ct, co, n)
      modifies this`datalen, this`poly, sym`used, sym`ptr, sym`counter, sym.keystream, pt
      ensures Valid()
      ensures var (s, o) := Update(true, old(Abs()), old(ct[co..co + n]));
              Abs() == s && pt[..] == Overwrite(old(pt[..]), po, o) && pt[po..po + n] == o
    {
      hide Overwrite, StreamXor;
      AadPad();
      poly := poly + ct[co..co + n];
      sym.Crypt(ct, co, pt, po, n);
      datalen := (datalen + n) % TWO64;
    }

    // lc_chacha20_poly1305_encrypt_tag: a longer tag buffer gets the 16 bytes there are.
    method EncryptTag(tag: array<byte>, to: nat, taglen: nat)
      requires to + Clamp(taglen) <= tag.Length
      modifies this`poly, tag
      ensures var T := prim.poly1305(polyKey, Finish(old(Abs())));
              var u := Clamp(taglen);
              && poly == Finish(old(Abs()))
              && tag[..] == Overwrite(old(tag[..]), to, T[..u]) && tag[to..to + u] == T[..u]
    {
      hide Overwrite;
      var padlen := 16 - datalen % 16;
      poly := poly + Zeros(padlen);
      poly := poly + Endian.Le(aadlen, 8);
      poly := poly + Endian.Le(datalen, 8);
      var T := prim.poly1305(polyKey, poly);
      var u := if taglen < TAGSIZE then taglen else TAGSIZE;
      ghost var t0 := tag[..];
      Store(tag, to, T[..u]);
      OverwriteSlice(t0, to, T[..u]);
    }

    // lc_chacha20_poly1305_decrypt_authenticate
    method DecryptAuthenticate(tag: array<byte>, to: nat, taglen: nat) returns (ret: int)
      requires to + taglen <= tag.Length
      modifies this`poly
      ensures var T := prim.poly1305(polyKey, Finish(old(Abs())));
              var u := Clamp(taglen);
              ret == if tag[to..to + u] == T[..u] then 0 else -74
    {
      hide Overwrite, Finish;
      var u := if taglen > TAGSIZE then TAGSIZE else taglen;
      var calctag := new byte[TAGSIZE](_ => 0);
      EncryptTag(calctag, 0, TAGSIZE);
      ghost var T := prim.poly1305(polyKey, Finish(old(Abs())));
      assert calctag[..u] == calctag[0..0 + TAGSIZE][..u] && T[..TAGSIZE][..u] == T[..u];
      ret := if calctag[..u] != tag[to..to + u] then -EBADMSG else 0;
    }

    // lc_chacha20_poly1305_encrypt_oneshot after setkey: one update call, so one padding call.
    method EncryptOneshot(pt: array<byte>, po: nat, ct: array<byte>, co: nat, n: nat, aad: array<byte>, ao: nat, aadlen: nat,
                          tag: array<byte>, to: nat, taglen: nat, ghost K: Bytes, ghost N: Bytes)
      requires Started(K, N) && n < TWO64 && aadlen < TWO64
      requires pt != sym.keystream && ct != sym.keystream && tag != sym.keystream
      requires po + n <= pt.Length && co + n <= ct.Length && ao + aadlen <= aad.Length && to + Clamp(taglen) <= tag.Length
      requires SameOrApart(ct, co, pt, po, n) && (tag != ct || to + Clamp(taglen) <= co || co + n <= to)
      modifies this`aadlen, this`datalen, this`poly, sym`used, sym`ptr, sym`counter, sym.keystream, ct, tag
      ensures Valid()
      ensures var P, A := old(pt[po..po + n]), old(aad[ao..ao + aadlen]);
              var C, u := ct[co..co + n], if taglen < 16 then taglen else 16;
              && (forall k :: 0 <= k < n && k < 64 * 0xFFFF_FFFF ==>
                    C[k] == CipherByte(prim.block, K, N, P, k))
              && C == StreamXor(sym.stream, 0, P)
              && var T := prim.poly1305(prim.block(K, 0x1_0000_0000 * Endian.LeNum(N))[..32], TagInput(A, C));
                 tag[to..to + u] == T[..u]
    {
      hide Overwrite, StreamXor, Framed, Finish, Updates, Aads, Update, ChachaFraming.AddAad, Ahead, CipherByte, TagInput;
      ghost var P, A := pt[po..po + n], aad[ao..ao + aadlen];
      StreamIsRfc(prim.block, sym.Abs(), N, P);
      OneShot(false, Abs(), A, P);
      AddAad(aad, ao, aadlen);
      Encrypt(pt, po, ct, co, n);
      ghost var c1, C := ct[..], ct[co..co + n];
      ghost var T := prim.poly1305(polyKey, Framed(A, 1, C));
      if tag == ct {
        OverwriteApart(c1, to, T[..Clamp(taglen)], co, n);
        assert c1[co..co + n] == C;
      }
      EncryptTag(tag, to, taglen);
      FramedOnce(A, C);
    }

    // lc_chacha20_poly1305_decrypt_oneshot; the plaintext is put out even when the tag is refused.
    method DecryptOneshot(ct: array<byte>, co: nat, pt: array<byte>, po: nat, n: nat, aad: array<byte>, ao: nat, aadlen: nat,
                          tag: array<byte>, to: nat, taglen: nat, ghost K: Bytes, ghost N: Bytes)
      returns (ret: int)
      requires Started(K, N) && n < TWO64 && aadlen < TWO64
      requires pt != sym.keystream && ct != sym.keystream && tag != sym.keystream
      requires po + n <= pt.Length && co + n <= ct.Length && ao + aadlen <= aad.Length && to + taglen <= tag.Length
      requires SameOrApart(pt, po, ct, co, n) && (tag != pt || to + taglen <= po || po + n <= to)
      modifies this`aadlen, this`datalen, this`poly, sym`used, sym`ptr, sym`counter, sym.keystream, pt
      ensures Valid()
      ensures var C, A := old(ct[co..co + n]), old(aad[ao..ao + aadlen]);
              var P, u := pt[po..po + n], if taglen < 16 then taglen else 16;
              && (forall k :: 0 <= k < n && k < 64 * 0xFFFF_FFFF ==>
                    C[k] == CipherByte(prim.block, K, N, P, k))
              && C == StreamXor(sym.stream, 0, P)
              && var T := prim.poly1305(prim.block(K, 0x1_0000_0000 * Endian.LeNum(N))[..32], TagInput(A, C));
                 ret == if tag[to..to + u] == T[..u] then 0 else -74
    {
      hide Overwrite, StreamXor, Framed, Finish, Updates, Aads, Update, ChachaFraming.AddAad, Ahead, CipherByte, TagInput;
      ghost var C, A, p0, t0 := ct[co..co + n], aad[ao..ao + aadlen], pt[..], tag[to..to + Clamp(taglen)];
      OneShot(true, Abs(), A, C);
      StreamXorTwice(sym.stream, sym.used, C);
      AddAad(aad, ao, aadlen);
      Decrypt(ct, co, pt, po, n);
      if tag == pt {
        OverwriteApart(p0, po, pt[po..po + n], to, Clamp(taglen));
      }
      assert tag[to..to + Clamp(taglen)] == t0;
      ret := DecryptAuthenticate(tag, to, taglen);
      StreamIsRfc(prim.block, old(sym.Abs()), N, pt[po..po + n]);
      FramedOnce(A, C);
    }
  }

  // From a fresh state on the data are XORed as section 2.4 of RFC 7539 has it, for as long as it counts.
  lemma StreamIsRfc(f: BlockFn, s: State, N: Bytes, P: Bytes)
    requires s.ptr == 0 && |N| == 12 && s.counter == 1 + 0x1_0000_0000 * Endian.LeNum(N)
    ensures forall k :: 0 <= k < |P| && k < 64 * 0xFFFF_FFFF ==>
              StreamXor(Ahead(f, s), 0, P)[k] == CipherByte(f, s.key, N, P, k)
  {
    hide Ahead, Endian.LeNum;
    FirstBlock(N);
    forall k | 0 <= k < |P| && k < 64 * 0xFFFF_FFFF
      ensures StreamXor(Ahead(f, s), 0, P)[k] == CipherByte(f, s.key, N, P, k)
    {
      AheadIsRfc(f, s, Endian.LeNum(N), k);
    }
  }

  lemma FramedOnce(A: Bytes, C: Bytes)
    ensures Framed(A, 1, C) == TagInput(A, C)
  {
    hide Endian.Le;
    assert A == [] ==> Zeros(0) == [];
  }

  // The key stream of a nonce does not reach the block the Poly1305 key is taken from.
  lemma BlockZeroUnused(nonce: nat, j: nat)
    requires nonce < TWO96 && j < TWO128 - 1
    ensures Inc(1 + TWO32 * nonce, j) != TWO32 * nonce
  {
    var x := 1 + 0x1_0000_0000 * nonce + j;
    assert 0x1_0000_0000 * nonce < TWO128;
    if x >= TWO128 {
      assert x % TWO128 == x - TWO128;
    }
  }

  // After a refused IV it does: a state that has begun j blocks puts out what is left of the last one
  // and then that block.
  lemma RefusedIvRewinds(f: BlockFn, s: State, nonce: nat, j: nat, n: nat)
    requires nonce < TWO96 && j < TWO32 - 1 && s.counter == 1 + 0x1_0000_0000 * nonce + j && n < BLOCK_SIZE
    ensures Ahead(f, Rewound(s))(Rest(s) + n) == f(s.key, 0x1_0000_0000 * nonce)[n]
  {
    assert Rewound(s).counter == 0x1_0000_0000 * nonce < TWO128;
    assert n / 64 == 0 && n % 64 == n;
  }

  lemma OneShot(dec: bool, st: Pst, A: Bytes, d: Bytes)
    requires Fresh(st) && |A| < TWO64 && |d| < TWO64
    ensures var (t, o) := Update(dec, ChachaFraming.AddAad(st, A), d);
            o == StreamXor(st.stream, st.next, d) && Finish(t) == Framed(A, 1, if dec then d else o)
  {
    hide StreamXor, Framed, Finish, PadCalls, ChachaFraming.AddAad, Update;
    assert [A][..0] == [] && [d][..0] == [];
    assert Flatten([A]) == A && Flatten([d]) == d;
    MessageIsFramed(dec, st, [A], [d]);
    OnePadCall([d]);
    var (t, o) := Update(dec, ChachaFraming.AddAad(st, A), d);
    assert Flatten([o]) == o;
    assert [] + [o] == [o];
  }
}
