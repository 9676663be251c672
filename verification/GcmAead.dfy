// Sections 6.3 to 7.2 of NIST SP 800-38D once more, from the block cipher alone and in closed form: the
// hash subkey, the pre-counter block, each byte of the ciphertext and of the tag. What the block
// algorithms of GcmSpec compute with the multiplication by the hash subkey.
module GcmAead {
  import opened Bytes
  import opened Endian
  import opened Gf128
  import opened GcmSpec
  import opened GcmStream
  import opened GcmRuns
  import opened GcmIv

  // Step 1: the enciphered block of 128 zero bits.
  function Subkey(E: BlockFn): Block {
    E([0, 0, 0, 0, 0, 0, 0, 0, 0, 0, 0, 0, 0, 0, 0, 0])
  }

  // The hash of whole blocks under H, the last one multiplied last.
  function Hash(H: Block, X: Bytes): Block
    requires |X| % 16 == 0
    decreases |X|
  {
    if X == [] then [0, 0, 0, 0, 0, 0, 0, 0, 0, 0, 0, 0, 0, 0, 0, 0]
    else Product(Xor(Hash(H, X[..|X| - 16]), X[|X| - 16..]), H)
  }

  // X and zeros up to whole blocks.
  function Whole(X: Bytes): (p: Bytes)
    ensures |p| % 16 == 0
  {
    X + seq(if |X| % 16 == 0 then 0 else 16 - |X| % 16, _ => 0)
  }

  // What the pre-counter block hashes.
  function IvInput(iv: Bytes): (x: Bytes)
    ensures |x| % 16 == 0
  {
    var w := Whole(iv);
    assert (|w| + 16) % 16 == 0;
    w + [0, 0, 0, 0, 0, 0, 0, 0] + Be(8 * |iv|, 8)
  }

  // Step 2: the pre-counter block.
  function PreCounter(E: BlockFn, iv: Bytes): Block {
    if |iv| == 12 then iv + [0, 0, 0, 1]
    else Hash(Subkey(E), IvInput(iv))
  }

  // The counter block i steps after j0.
  function CounterAt(j0: Block, i: nat): Block {
    j0[..12] + Be((Num(j0[12..]) + i) % 0x1_0000_0000, 4)
  }

  // Step 3: byte k of the ciphertext.
  function CipherByte(E: BlockFn, j0: Block, P: Bytes, k: nat): byte
    requires k < |P|
  {
    P[k] ^ E(CounterAt(j0, k / 16 + 1))[k % 16]
  }

  // Step 5: what the tag hashes.
  function TagInput(A: Bytes, C: Bytes): (x: Bytes)
    ensures |x| % 16 == 0
  {
    var a, c := Whole(A), Whole(C);
    assert (|a| + |c| + 16) % 16 == 0;
    a + c + Be(8 * |A|, 8) + Be(8 * |C|, 8)
  }

  // Steps 4 to 6: byte k of the tag.
  function TagByte(E: BlockFn, j0: Block, A: Bytes, C: Bytes, k: nat): byte
    requires k < 16
  {
    Hash(Subkey(E), TagInput(A, C))[k] ^ E(j0)[k]
  }

  // ---- the algorithms of GcmSpec in closed form ----

  lemma SubkeyIs(E: BlockFn)
    ensures Subkey(E) == E(ZBLOCK)
  {
    var z: Block := [0, 0, 0, 0, 0, 0, 0, 0, 0, 0, 0, 0, 0, 0, 0, 0];
    assert z == ZBLOCK;
  }

  lemma {:induction false} HashIs(H: Block, X: Bytes)
    requires |X| % 16 == 0
    ensures Ghash(HMul(H), ZBLOCK, X) == Hash(H, X)
    decreases |X|
  {
    hide Xor, Product;
    if X == [] {
      var z: Block := [0, 0, 0, 0, 0, 0, 0, 0, 0, 0, 0, 0, 0, 0, 0, 0];
      assert z == ZBLOCK;
    } else {
      var i, b := X[..|X| - 16], X[|X| - 16..];
      assert i + b == X;
      HashIs(H, i);
      GhashAppend(HMul(H), ZBLOCK, i, b);
      GhashOne(HMul(H), Hash(H, i), b);
    }
  }

  lemma WholeIs(X: Bytes)
    ensures Padded(X) == Whole(X)
  {
  }

  lemma PreCounterIs(E: BlockFn, iv: Bytes)
    ensures J0(HMul(Subkey(E)), iv) == PreCounter(E, iv)
  {
    hide Ghash, Hash, HMul, Subkey, Padded, Whole, Be;
    WholeIs(iv);
    var X := IvInput(iv);
    assert Padded(iv) + IvLengthBlock(|iv|) == X;
    HashIs(Subkey(E), X);
  }

  lemma CounterIs(j0: Block, i: nat)
    ensures Inc32N(j0, i) == CounterAt(j0, i)
  {
    hide Inc32N, Num, Be;
    var c := Inc32N(j0, i);
    Inc32NNum(j0, i);
    BeOfNum(c[12..]);
    assert c == c[..12] + c[12..];
  }

  lemma CiphertextIs(E: BlockFn, j0: Block, P: Bytes, k: nat)
    requires k < |P|
    ensures Ciphertext(E, j0, P)[k] == CipherByte(E, j0, P, k)
  {
    hide Gctr, CounterAt, Inc32, Inc32N;
    GctrIsStreamXor(E, j0, P);
    CounterIs(j0, k / 16 + 1);
  }

  lemma TagIs(E: BlockFn, j0: Block, A: Bytes, C: Bytes, t: nat, k: nat)
    requires k < t <= 16
    ensures Tag(E, HMul(Subkey(E)), j0, A, C, t)[k] == TagByte(E, j0, A, C, k)
  {
    hide Ghash, Hash, HMul, Subkey, Padded, Whole, Be;
    WholeIs(A);
    WholeIs(C);
    var X := TagInput(A, C);
    assert Padded(A) + Padded(C) + LengthBlock(|A|, |C|) == X;
    HashIs(Subkey(E), X);
    assert Gctr(E, j0, Hash(Subkey(E), X)) == Xor(Hash(Subkey(E), X), E(j0));
  }

  // The main result, for every cipher, pre-counter block and message.
  lemma EncryptionIs(E: BlockFn, j0: Block, P: Bytes, A: Bytes, C: Bytes, t: nat)
    requires t <= 16
    ensures forall k :: 0 <= k < |P| ==> Ciphertext(E, j0, P)[k] == CipherByte(E, j0, P, k)
    ensures forall k :: 0 <= k < t ==> Tag(E, HMul(Subkey(E)), j0, A, C, t)[k] == TagByte(E, j0, A, C, k)
  {
    hide Ciphertext, CipherByte, Tag, TagByte, HMul, Subkey;
    forall k | 0 <= k < |P| ensures Ciphertext(E, j0, P)[k] == CipherByte(E, j0, P, k) {
      CiphertextIs(E, j0, P, k);
    }
    TagLength(E, HMul(Subkey(E)), j0, A, C, t);
    forall k | 0 <= k < t ensures Tag(E, HMul(Subkey(E)), j0, A, C, t)[k] == TagByte(E, j0, A, C, k) {
      TagIs(E, j0, A, C, t, k);
    }
  }

  // Equal bytes of the tag are an equal tag.
  lemma TagVerdict(E: BlockFn, j0: Block, A: Bytes, C: Bytes, tag: Bytes)
    requires |tag| <= 16
    ensures tag == Tag(E, HMul(Subkey(E)), j0, A, C, |tag|) <==>
            forall k :: 0 <= k < |tag| ==> tag[k] == TagByte(E, j0, A, C, k)
  {
    hide Tag, TagByte, HMul, Subkey;
    EncryptionIs(E, j0, [], A, C, |tag|);
    TagLength(E, HMul(Subkey(E)), j0, A, C, |tag|);
  }

  lemma TagLength(E: BlockFn, M: BlockFn, j0: Block, A: Bytes, C: Bytes, t: nat)
    requires t <= 16
    ensures |Tag(E, M, j0, A, C, t)| == t
  {
    hide Gctr;
  }
}
