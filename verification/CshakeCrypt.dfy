// struct lc_cc_cryptor and the calls of aead/src/cshake_crypt.c that update it in place.
module CshakeCrypt {
  import opened Bytes
  import opened Errno
  import opened Keystream
  import opened XorOps
  import opened CshakeRuns

  // LC_CC_KEYSTREAM_BLOCK, the SHA3-256 rate.
  const KEYSTREAM_BLOCK := 136

  class Cryptor {
    const xof: Xof
    const mac: Mac
    const keystream: array<byte>
    // The key stream generator: what it squeezes and how much it has squeezed.
    var cshake: Stream
    var squeezed: nat
    var keystream_ptr: nat
    // The MAC context: its key and what it has been fed.
    var authKey: Bytes
    var authMsg: Bytes

    // The key stream buffer holds the block squeezed last.
    ghost predicate Valid()
      reads this, keystream
    {
      && keystream.Length == KEYSTREAM_BLOCK && keystream_ptr <= KEYSTREAM_BLOCK <= squeezed
      && keystream[..] == Squeeze(cshake, squeezed - KEYSTREAM_BLOCK, KEYSTREAM_BLOCK)
    }

    ghost function Abs(): Cst
      reads this, keystream
      requires Valid()
    {
      Cst(cshake, squeezed - KEYSTREAM_BLOCK + keystream_ptr, authKey, authMsg)
    }

    // lc_cc_setkey_nocheck
    constructor (xof: Xof, mac: Mac, key: Bytes, iv: Bytes)
      ensures Valid() && fresh(keystream) && Abs() == SetKey(xof, key, iv) && this.mac == mac && this.xof == xof
      ensures |authKey| == 32 && (forall i :: 0 <= i < 32 ==> authKey[i] == xof(key, iv)(i)) && Abs().next == 32
    {
      this.xof, this.mac := xof, mac;
      cshake := xof(key, iv);
      squeezed := KEYSTREAM_BLOCK;
      var block := Squeeze(xof(key, iv), 0, KEYSTREAM_BLOCK);
      keystream := new byte[KEYSTREAM_BLOCK](i requires 0 <= i < KEYSTREAM_BLOCK => block[i]);
      authKey := block[..AUTH_KEY_SIZE];
      authMsg := [];
      keystream_ptr := AUTH_KEY_SIZE;
    }

    // The same on a context in use.
    method Rekey(key: Bytes, iv: Bytes)
      requires Valid()
      modifies this, keystream
      ensures Valid() && Abs() == SetKey(xof, key, iv)
      ensures |authKey| == 32 && (forall i :: 0 <= i < 32 ==> authKey[i] == xof(key, iv)(i)) && Abs().next == 32
    {
      cshake, squeezed := xof(key, iv), 0;
      NextBlock();
      authKey, authMsg := keystream[..AUTH_KEY_SIZE], [];
      keystream_ptr := AUTH_KEY_SIZE;
    }

    // lc_hash_final on the key stream generator
    method NextBlock()
      requires keystream.Length == KEYSTREAM_BLOCK
      modifies keystream, this`squeezed
      ensures squeezed == old(squeezed) + KEYSTREAM_BLOCK
      ensures keystream[..] == Squeeze(cshake, old(squeezed), KEYSTREAM_BLOCK)
    {
      Store(keystream, 0, Squeeze(cshake, squeezed, KEYSTREAM_BLOCK));
      squeezed := squeezed + KEYSTREAM_BLOCK;
    }

    // lc_cc_crypt has taken done bytes of the data d from position next on.
    ghost predicate At(next: nat, d: Bytes, inp: array<byte>, io: nat, out: array<byte>, oo: nat, o0: Bytes, done: nat)
      reads this, keystream, inp, out
    {
      Valid() && Abs().next == next + done && Taken(cshake, next, d, inp[..], io, out[..], oo, o0, done)
    }

    // A new block once the last one is used up, and how much of it to use: the position is the same.
    method Refill(len: nat) returns (todo: nat)
      requires Valid() && len > 0
      modifies this`squeezed, this`keystream_ptr, keystream
      ensures Valid() && Abs() == old(Abs()) && 0 < todo <= len && keystream_ptr + todo <= KEYSTREAM_BLOCK
    {
      hide Squeeze;
      todo := if len < KEYSTREAM_BLOCK then len else KEYSTREAM_BLOCK;
      if keystream_ptr >= KEYSTREAM_BLOCK {
        NextBlock();
        keystream_ptr := 0;
      }
      todo := if todo < KEYSTREAM_BLOCK - keystream_ptr then todo else KEYSTREAM_BLOCK - keystream_ptr;
    }

    // One round of lc_cc_crypt.
    method CryptRound(ghost next: nat, ghost d: Bytes, inp: array<byte>, io: nat, out: array<byte>, oo: nat,
                      ghost o0: Bytes, len: nat, done: nat)
      returns (todo: nat)
      requires inp != keystream && out != keystream && done < |d| && len == |d| - done
      requires io + |d| <= inp.Length && oo + |d| <= out.Length && SameOrApart(out, oo, inp, io, |d|)
      requires At(next, d, inp, io, out, oo, o0, done)
      modifies this`squeezed, this`keystream_ptr, keystream, out
      ensures 0 < todo <= len && At(next, d, inp, io, out, oo, o0, done + todo)
    {
      hide Taken;
      todo := Refill(len);
      CryptPiece(cshake, next, d, inp, io, out, oo, o0, done, keystream, keystream_ptr, todo);
      keystream_ptr := keystream_ptr + todo;
    }

    // lc_cc_crypt; out may be inp.
    method Crypt(inp: array<byte>, io: nat, out: array<byte>, oo: nat, len: nat)
      requires Valid() && inp != keystream && out != keystream
      requires io + len <= inp.Length && oo + len <= out.Length && SameOrApart(out, oo, inp, io, len)
      modifies this`squeezed, this`keystream_ptr, keystream, out
      ensures Valid() && Abs() == old(Abs()).(next := old(Abs()).next + len)
      ensures var o := StreamXor(cshake, old(Abs()).next, old(inp[io..io + len]));
              out[..] == Overwrite(old(out[..]), oo, o) && out[oo..oo + len] == o
    {
      hide Overwrite, StreamXor, Taken, Squeeze;
      ghost var next, d, o0 := Abs().next, inp[io..io + len], out[..];
      TakenNone(cshake, next, d, inp[..], io, o0, oo);
      var left, done := len, 0;
      while left > 0
        invariant 0 <= done && 0 <= left && left + done == len && At(next, d, inp, io, out, oo, o0, done)
        decreases left
      {
        var todo := CryptRound(next, d, inp, io, out, oo, o0, left, done);
        left := left - todo;
        done := done + todo;
      }
      TakenAll(cshake, next, d, inp[..], io, out[..], oo, o0);
    }

    // lc_cc_add_aad
    method AddAad(aad: array<byte>, ao: nat, aadlen: nat)
      requires Valid() && ao + aadlen <= aad.Length
      modifies this`authMsg
      ensures Valid() && Abs() == CshakeRuns.AddAad(old(Abs()), aad[ao..ao + aadlen])
    {
      authMsg := authMsg + aad[ao..ao + aadlen];
    }

    // lc_cc_encrypt: the MAC is fed after the encryption
    method Encrypt(pt: array<byte>, po: nat, ct: array<byte>, co: nat, n: nat)
      requires Valid() && pt != keystream && ct != keystream
      requires po + n <= pt.Length && co + n <= ct.Length && SameOrApart(ct, co, pt, po, n)
      modifies this`squeezed, this`keystream_ptr, this`authMsg, keystream, ct
      ensures Valid()
      ensures var (s, o) := Update(false, old(Abs()), old(pt[po..po + n]));
              Abs() == s && ct[..] == Overwrite(old(ct[..]), co, o) && ct[co..co + n] == o
    {
      hide Overwrite, StreamXor, Squeeze;
      Crypt(pt, po, ct, co, n);
      authMsg := authMsg + ct[co..co + n];
    }

    // lc_cc_decrypt: the MAC is fed before the decryption
    method Decrypt(ct: array<byte>, co: nat, pt: array<byte>, po: nat, n: nat)
      requires Valid() && pt != keystream && ct != keystream
      requires po + n <= pt.Length && co + n <= ct.Length && SameOrApart(pt, po, ct, co, n)
      modifies this`squeezed, this`keystream_ptr, this`authMsg, keystream, pt
      ensures Valid()
      ensures var (s, o) := Update(true, old(Abs()), old(ct[co..co + n]));
              Abs() == s && pt[..] == Overwrite(old(pt[..]), po, o) && pt[po..po + n] == o
    {
      hide Overwrite, StreamXor, Squeeze;
      authMsg := authMsg + ct[co..co + n];
      Crypt(ct, co, pt, po, n);
    }

    // lc_cc_encrypt_tag, with the MAC context started anew
    method EncryptTag(tag: array<byte>, to: nat, taglen: nat)
      requires Valid() && tag != keystream && to + taglen <= tag.Length
      modifies this`authMsg, tag
      ensures Valid()
      ensures var (s, T) := Tag(mac, old(Abs()), taglen);
              Abs() == s && tag[..] == Overwrite(old(tag[..]), to, T) && tag[to..to + taglen] == T
    {
      hide Overwrite;
      ghost var t0 := tag[..];
      Store(tag, to, mac(authKey, authMsg, taglen));
      OverwriteSlice(t0, to, mac(authKey, authMsg, taglen));
      authMsg := [];
    }

    // lc_cc_decrypt_authenticate
    method DecryptAuthenticate(tag: array<byte>, to: nat, taglen: nat) returns (ret: int)
      requires Valid() && to + taglen <= tag.Length
      modifies this`authMsg
      ensures Valid()
      ensures var (s, T) := Tag(mac, old(Abs()), taglen);
              Abs() == s && ret == if tag[to..to + taglen] == T then 0 else -74
    {
      var calctag := new byte[taglen](_ => 0);
      EncryptTag(calctag, 0, taglen);
      assert calctag[0..0 + taglen] == calctag[..];
      ret := if calctag[..] != tag[to..to + taglen] then -EBADMSG else 0;
    }

    // lc_cc_encrypt_oneshot: one message of a run, without assuming where the run is.
    method EncryptOneshot(pt: array<byte>, po: nat, ct: array<byte>, co: nat, n: nat, aad: array<byte>, ao: nat, aadlen: nat,
                          tag: array<byte>, to: nat, taglen: nat)
      requires Valid() && pt != keystream && ct != keystream && tag != keystream && aad != keystream
      requires po + n <= pt.Length && co + n <= ct.Length && ao + aadlen <= aad.Length && to + taglen <= tag.Length
      requires SameOrApart(ct, co, pt, po, n) && (tag != ct || to + taglen <= co || co + n <= to)
      requires authMsg == []
      modifies this`squeezed, this`keystream_ptr, this`authMsg, keystream, ct, tag
      ensures Valid()
      ensures var P, A := old(pt[po..po + n]), old(aad[ao..ao + aadlen]);
              var C := StreamXor(cshake, old(Abs()).next, P);
              && ct[co..co + n] == C && tag[to..to + taglen] == mac(authKey, A + C, taglen)
              && Abs() == old(Abs()).(next := old(Abs()).next + n)
    {
      hide Overwrite, StreamXor, Squeeze;
      ghost var P, A := pt[po..po + n], aad[ao..ao + aadlen];
      AddAad(aad, ao, aadlen);
      assert [] + A == A;
      Encrypt(pt, po, ct, co, n);
      ghost var c1, C := ct[..], ct[co..co + n];
      if tag == ct {
        OverwriteApart(c1, to, mac(authKey, A + C, taglen), co, n);
        assert c1[co..co + n] == C;
      }
      EncryptTag(tag, to, taglen);
    }

    // lc_cc_decrypt_oneshot; the plaintext is put out even when the tag is refused.
    method DecryptOneshot(ct: array<byte>, co: nat, pt: array<byte>, po: nat, n: nat, aad: array<byte>, ao: nat, aadlen: nat,
                          tag: array<byte>, to: nat, taglen: nat)
      returns (ret: int)
      requires Valid() && pt != keystream && ct != keystream && tag != keystream && aad != keystream
      requires po + n <= pt.Length && co + n <= ct.Length && ao + aadlen <= aad.Length && to + taglen <= tag.Length
      requires SameOrApart(pt, po, ct, co, n) && (tag != pt || to + taglen <= po || po + n <= to)
      requires authMsg == []
      modifies this`squeezed, this`keystream_ptr, this`authMsg, keystream, pt
      ensures Valid()
      ensures var C, A := old(ct[co..co + n]), old(aad[ao..ao + aadlen]);
              && StreamXor(cshake, old(Abs()).next, pt[po..po + n]) == C
              && ret == (if tag[to..to + taglen] == mac(authKey, A + C, taglen) then 0 else -74)
              && Abs() == old(Abs()).(next := old(Abs()).next + n)
    {
      hide Overwrite, StreamXor, Squeeze;
      ghost var C, A, p0, t0 := ct[co..co + n], aad[ao..ao + aadlen], pt[..], tag[to..to + taglen];
      StreamXorTwice(cshake, Abs().next, C);
      AddAad(aad, ao, aadlen);
      assert [] + A == A;
      Decrypt(ct, co, pt, po, n);
      if tag == pt {
        OverwriteApart(p0, po, pt[po..po + n], to, taglen);
      }
      assert tag[to..to + taglen] == t0;
      ret := DecryptAuthenticate(tag, to, taglen);
    }
  }
}
