// The Ascon AEAD of the kernel: associated data absorbed segment by segment, and the update functions.
module KernelAscon {
  import opened Bytes
  import opened Errno
  import opened Scatter
  import opened KernelUpdate
  import opened Sponge
  import opened AsconStream
  import opened AsconRuns
  import Ascon
  import Spec = AsconSpec

  // ---- the process functions of Ascon ----

  // lc_ascon_enc_update_interface, lc_ascon_dec_update_interface
  function AsconProcess(h: Hash, r: nat, dec: bool): Process<Ast> {
    (s: Ast, d: Bytes) =>
      if Ok(h, s) then var (t, o) := Crypt(h, r, dec, s, d); Outcome(t, o, 0) else Outcome(s, d, -EINVAL)
  }

  lemma AsconIsChunked(h: Hash, r: nat, dec: bool)
    ensures Chunked(AsconProcess(h, r, dec), (s, n) => true)
  {
    hide Crypt;
    var f := AsconProcess(h, r, dec);
    forall s, a, b | a != [] && b != [] && f(s, a).ret == 0 ensures f(s, a + b) == Then(f, f(s, a), b) {
      CryptAppend(h, r, dec, s, a, b);
    }
  }

  // So a request from the state S after the associated data, over any segments, leaves the
  // ciphertext of section 4.1 of NIST SP 800-232, and one over the ciphertext the plaintext.
  lemma AsconRequest(h: Hash, r: nat, S: Bytes, P: Bytes)
    requires 0 < h.rate <= |S|
    ensures var e := Effect(AsconProcess(h, r, false), Ast(S, 0), P);
            && e.ret == 0 && Ok(h, e.ctx) && (Pad(h, r, e.ctx), e.out) == Spec.Encrypt(h, r, S, P)
            && Effect(AsconProcess(h, r, true), Ast(S, 0), e.out) == Outcome(e.ctx, P, 0)
  {
    hide Crypt, Pad, Spec.Encrypt;
    EncryptIsCrypt(h, r, S, P);
    Lockstep(h, r, false, Ast(S, 0), P);
    CryptEmpty(h, r, false, Ast(S, 0));
  }

  lemma AadFromReady(h: Hash, r: nat, S: Bytes, A: Bytes, cs: Ast)
    requires 0 < h.rate <= |S| && A != [] && cs == Ready(h, r, Crypt(h, r, false, Ast(S, 0), A).0)
    ensures Aad(h, r, S, A) == Spec.Separate(h.perm(r, XorAt(cs.state, cs.off, [PAD_DATA])))
  {
    hide Crypt, XorAt, Spec.Separate;
  }

  // The first done bytes of A have been absorbed into the state S, a full rate permuted at once.
  ghost predicate Absorbed(c: Ascon.Cryptor, S: Bytes, A: Bytes, done: nat, sponge_offset: nat)
    reads c, c.state
  {
    && c.Shaped() && |S| == c.statesize && done <= |A| && sponge_offset < c.hash.rate
    && Ast(c.state[..], sponge_offset) == Ready(c.hash, c.roundb, Crypt(c.hash, c.roundb, false, Ast(S, 0), A[..done]).0)
  }

  lemma NoneAbsorbed(c: Ascon.Cryptor, A: Bytes)
    requires c.Shaped()
    ensures Absorbed(c, c.state[..], A, 0, 0)
  {
    CryptStart(c.hash, c.roundb, false, Ast(c.state[..], 0), A);
  }

  // One round of the loop on the todo bytes at addr.
  method AbsorbRound(c: Ascon.Cryptor, mem: array<byte>, addr: nat, sponge_offset: nat, todo: nat,
                     ghost S: Bytes, ghost A: Bytes, ghost done: nat)
    returns (off: nat)
    requires mem != c.state && Absorbed(c, S, A, done, sponge_offset) && sponge_offset + todo <= c.hash.rate
    requires addr + todo <= mem.Length && done + todo <= |A| && mem[addr..addr + todo] == A[done..done + todo]
    modifies c.state
    ensures Absorbed(c, S, A, done + todo, off)
  {
    hide Crypt, XorAt;
    CryptNext(c.hash, c.roundb, false, Ast(S, 0), A, done, todo, Ast(c.state[..], sponge_offset));
    c.AddBytes(mem, addr, sponge_offset, todo);
    off := sponge_offset + todo;
    if off == c.hash.rate {
      c.Sponge(c.roundb);
      off := 0;
    }
  }

  // lc_aead_ascon_aad: c is the context, the list sg in mem starts with the associated data.
  method AsconAad(c: Ascon.Cryptor, mem: array<byte>, sg: seq<Seg>, assoclen: nat)
    requires c.Shaped() && mem != c.state && Fits(sg, mem.Length) && assoclen <= Total(sg)
    modifies c.state
    ensures c.state[..] == Aad(c.hash, c.roundb, old(c.state[..]), Gather(mem[..], sg, 0, assoclen))
  {
    hide Crypt, XorAt, Gather, Addr, Total, Flat, Spec.Separate, Pad;
    ghost var A, S := Gather(mem[..], sg, 0, assoclen), c.state[..];
    if assoclen == 0 {
      return;
    }
    NoneAbsorbed(c, A);
    var src_walk := new Walk(sg, 0);
    var nbytes, sponge_offset := assoclen, 0;
    while nbytes > 0
      invariant 0 <= nbytes <= assoclen && 0 <= sponge_offset && Absorbed(c, S, A, assoclen - nbytes, sponge_offset)
      invariant src_walk.Valid() && src_walk.sg == sg && src_walk.Pos() == assoclen - nbytes && fresh(src_walk)
      decreases nbytes, |sg| - src_walk.idx
    {
      var addr, n := src_walk.Next(nbytes);
      var todo := if n < c.hash.rate - sponge_offset then n else c.hash.rate - sponge_offset;
      FlatShorter(sg, src_walk.Pos(), n, todo, addr);
      FlatGather(mem[..], sg, assoclen, assoclen - nbytes, todo, addr);
      sponge_offset := AbsorbRound(c, mem, addr, sponge_offset, todo, S, A, assoclen - nbytes);
      nbytes := nbytes - todo;
      src_walk.Done(todo);
    }
    assert A[..assoclen] == A;
    AadFromReady(c.hash, c.roundb, S, A, Ast(c.state[..], sponge_offset));
    c.CloseAad(sponge_offset);
  }
}
