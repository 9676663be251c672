// The certificate table of apps/src/image.c: 8-aligned entries, each a header and a signature.
module SigTable {
  import opened Bytes
  import opened Endian

  const HEADER := 8
  const REVISION := 0x0200
  const TYPE_PKCS := 0x0002

  // The sizes in an entry are 32 bits wide.
  const MAX_SIG: nat := 0x1_0000_0000 - 8

  function AlignUp8(n: nat): (r: nat)
    ensures n <= r < n + 8 && r % 8 == 0
  {
    (n + 7) / 8 * 8
  }

  function U32(b: Bytes, o: nat): nat
    requires o + 4 <= |b|
  {
    LeNum(b[o..o + 4])
  }

  function U16(b: Bytes, o: nat): nat
    requires o + 2 <= |b|
  {
    LeNum(b[o..o + 2])
  }

  // struct cert_table_header
  function Header(n: nat): (h: Bytes)
    ensures |h| == 8
  {
    Le(n + HEADER, 4) + Le(REVISION, 2) + Le(TYPE_PKCS, 2)
  }

  function Entry(sig: Bytes): (e: Bytes)
    ensures |e| == AlignUp8(|sig| + HEADER)
  {
    Header(|sig|) + sig + Zeros(AlignUp8(|sig| + HEADER) - (|sig| + HEADER))
  }

  // The table that a list of signatures stands for.
  function Table(sigs: seq<Bytes>): Bytes {
    if sigs == [] then [] else Table(sigs[..|sigs| - 1]) + Entry(sigs[|sigs| - 1])
  }

  lemma {:induction false} TableAligned(sigs: seq<Bytes>)
    ensures |Table(sigs)| % 8 == 0
  {
    hide Entry;
    if sigs != [] {
      TableAligned(sigs[..|sigs| - 1]);
      AlignedSum(|Table(sigs[..|sigs| - 1])|, |sigs[|sigs| - 1]| + HEADER);
    }
  }

  lemma AlignedSum(a: nat, b: nat)
    requires a % 8 == 0
    ensures (a + AlignUp8(b)) % 8 == 0
  {
  }

  predicate Storable(sigs: seq<Bytes>) {
    forall i :: 0 <= i < |sigs| ==> |sigs[i]| < MAX_SIG
  }

  // The pointer walk of image_get_signature: the offset reached after i headers.
  function Walk(t: Bytes, i: nat): nat {
    if i == 0 then 0
    else
      var o := Walk(t, i - 1);
      if o + 4 <= |t| then o + AlignUp8(U32(t, o)) else o
  }

  function Offset(sigs: seq<Bytes>, i: nat): nat
    requires i <= |sigs|
  {
    |Table(sigs[..i])|
  }

  function Without<T>(s: seq<T>, i: nat): seq<T>
    requires i < |s|
  {
    s[..i] + s[i + 1..]
  }

  // ---- structure ----

  lemma {:induction false} TableAppend(a: seq<Bytes>, b: seq<Bytes>)
    ensures Table(a + b) == Table(a) + Table(b)
  {
    hide Entry;
    if b == [] {
      assert a + b == a;
    } else {
      assert (a + b)[..|a + b| - 1] == a + b[..|b| - 1];
      TableAppend(a, b[..|b| - 1]);
    }
  }

  lemma TableOne(sig: Bytes)
    ensures Table([sig]) == Entry(sig)
  {
    hide Entry;
    assert [sig][..0] == [];
    assert Table([]) == [];
  }

  // Entry i lies between its own offset and the next.
  lemma TableSplit(sigs: seq<Bytes>, i: nat)
    requires i < |sigs|
    ensures Table(sigs) == Table(sigs[..i]) + Entry(sigs[i]) + Table(sigs[i + 1..])
    ensures Offset(sigs, i + 1) == Offset(sigs, i) + AlignUp8(|sigs[i]| + HEADER)
    ensures Offset(sigs, i + 1) <= |Table(sigs)|
  {
    hide Entry, Table;
    assert sigs == sigs[..i] + ([sigs[i]] + sigs[i + 1..]);
    TableAppend(sigs[..i], [sigs[i]] + sigs[i + 1..]);
    TableAppend([sigs[i]], sigs[i + 1..]);
    TableOne(sigs[i]);
    assert sigs[..i + 1] == sigs[..i] + [sigs[i]];
    TableAppend(sigs[..i], [sigs[i]]);
  }

  lemma HeaderFields(n: nat)
    requires n < MAX_SIG
    ensures U32(Header(n), 0) == n + HEADER && U16(Header(n), 4) == REVISION && U16(Header(n), 6) == TYPE_PKCS
  {
    hide LeNum, Le;
    var h := Header(n);
    assert h[0..4] == Le(n + HEADER, 4) && h[4..6] == Le(REVISION, 2) && h[6..8] == Le(TYPE_PKCS, 2);
    Pow256s();
    LeNumOfLe(n + HEADER, 4);
    LeNumOfLe(REVISION, 2);
    LeNumOfLe(TYPE_PKCS, 2);
  }

  lemma Pow256s()
    ensures Pow256(2) == 0x1_0000 && Pow256(4) == 0x1_0000_0000
  {
  }

  // The fields of entry i, read where the table says it is.
  lemma EntryFields(sigs: seq<Bytes>, i: nat)
    requires i < |sigs| && Storable(sigs)
    ensures var t, o := Table(sigs), Offset(sigs, i);
            && o + 8 <= |t|
            && U32(t, o) == |sigs[i]| + 8 && U16(t, o + 4) == 0x0200 && U16(t, o + 6) == 0x0002
            && o + 8 + |sigs[i]| <= |t| && t[o + 8..o + 8 + |sigs[i]|] == sigs[i]
            && Offset(sigs, i + 1) <= |t|
            && forall k :: o + 8 + |sigs[i]| <= k < Offset(sigs, i + 1) ==> t[k] == 0
  {
    hide Header, LeNum, Table;
    TableSplit(sigs, i);
    HeaderFields(|sigs[i]|);
    var t, o, h := Table(sigs), Offset(sigs, i), Header(|sigs[i]|);
    assert t[o..o + 4] == h[0..4] && t[o + 4..o + 6] == h[4..6] && t[o + 6..o + 8] == h[6..8];
  }

  lemma {:induction false} WalkIsOffset(sigs: seq<Bytes>, i: nat)
    requires i <= |sigs| && Storable(sigs)
    ensures Walk(Table(sigs), i) == Offset(sigs, i)
  {
    hide Table, U32, U16, AlignUp8, Offset, Storable;
    if i == 0 {
      OffsetZero(sigs);
    } else {
      WalkIsOffset(sigs, i - 1);
      EntryFields(sigs, i - 1);
      TableSplit(sigs, i - 1);
    }
  }

  lemma OffsetZero(sigs: seq<Bytes>)
    ensures Offset(sigs, 0) == 0 && Offset(sigs, |sigs|) == |Table(sigs)|
  {
    assert sigs[..0] == [] && sigs[..|sigs|] == sigs;
  }

  // Taking the bytes of entry i out of the table is taking signature i out of the list.
  lemma TableWithout(sigs: seq<Bytes>, i: nat)
    requires i < |sigs|
    ensures var t, a, b := Table(sigs), Offset(sigs, i), Offset(sigs, i + 1);
            a <= b <= |t| && Table(Without(sigs, i)) == t[..a] + t[b..]
  {
    hide Entry, Table;
    TableSplit(sigs, i);
    TableAppend(sigs[..i], sigs[i + 1..]);
  }

  lemma TableNonEmpty(sigs: seq<Bytes>)
    requires sigs != []
    ensures |Table(sigs)| >= 8
  {
  }

  // ---- enumerating any table ----

  // Every header the walk comes to before the end lies in the table.
  ghost predicate Walkable(t: Bytes) {
    forall i: nat :: Walk(t, i) < |t| ==> Walk(t, i) + HEADER <= |t|
  }

  // It comes to a header of size zero.
  ghost predicate ZeroReached(t: Bytes) {
    exists i: nat :: Walk(t, i) < |t| && Walk(t, i) + 4 <= |t| && U32(t, Walk(t, i)) == 0
  }

  lemma WalkStep(t: Bytes, i: nat)
    requires Walk(t, i) + 4 <= |t|
    ensures var n := U32(t, Walk(t, i));
            if n == 0 then Walk(t, i + 1) == Walk(t, i) else Walk(t, i + 1) >= Walk(t, i) + 8
  {
    hide LeNum;
    ReadAligned(U32(t, Walk(t, i)));
  }

  lemma ReadAligned(n: nat)
    ensures AlignUp8(n) >= (if n == 0 then 0 else 8) && (n == 0 ==> AlignUp8(n) == 0)
  {
  }

  lemma {:induction false} WalkMonotone(t: Bytes, i: nat, j: nat)
    requires i <= j
    ensures Walk(t, i) <= Walk(t, j)
    decreases j - i
  {
    hide U32, AlignUp8;
    if i < j {
      WalkMonotone(t, i, j - 1);
    }
  }

  // A header of size zero is never left.
  lemma {:induction false} WalkStays(t: Bytes, i: nat, j: nat)
    requires i <= j && Walk(t, i) + 4 <= |t| && U32(t, Walk(t, i)) == 0
    ensures Walk(t, j) == Walk(t, i)
    decreases j - i
  {
    hide Walk, U32;
    if i < j {
      WalkStays(t, i, j - 1);
      WalkStep(t, j - 1);
    }
  }

  lemma {:induction false} WalkAdvances(t: Bytes, i: nat)
    requires Walkable(t) && !ZeroReached(t)
    ensures Walk(t, i) >= 8 * i || Walk(t, i) >= |t|
  {
    hide Walk, U32;
    if i > 0 {
      WalkAdvances(t, i - 1);
      if Walk(t, i - 1) < |t| {
        WalkStep(t, i - 1);
      } else {
        WalkMonotone(t, i - 1, i);
      }
    }
  }

  // Counting up comes to an end exactly if no header of size zero is reached.
  lemma EnumerationEnds(t: Bytes)
    requires Walkable(t)
    ensures (exists n: nat :: Walk(t, n) >= |t|) <==> !ZeroReached(t)
  {
    hide Walk, U32;
    if ZeroReached(t) {
      var i: nat :| Walk(t, i) < |t| && Walk(t, i) + 4 <= |t| && U32(t, Walk(t, i)) == 0;
      forall n: nat ensures Walk(t, n) < |t| {
        if i <= n {
          WalkStays(t, i, n);
        } else {
          WalkMonotone(t, n, i);
        }
      }
    } else {
      WalkAdvances(t, |t|);
      assert Walk(t, |t|) >= |t|;
    }
  }

  // Tables made of signatures can be walked, and no header in them has size zero.
  lemma TableEnumerates(sigs: seq<Bytes>)
    requires Storable(sigs)
    ensures Walkable(Table(sigs)) && !ZeroReached(Table(sigs))
  {
    hide Table, Walk, U32, U16;
    WalkIsOffset(sigs, |sigs|);
    OffsetZero(sigs);
    forall i: nat | Walk(Table(sigs), i) < |Table(sigs)|
      ensures Walk(Table(sigs), i) + HEADER <= |Table(sigs)| && U32(Table(sigs), Walk(Table(sigs), i)) != 0
    {
      if i < |sigs| {
        WalkIsOffset(sigs, i);
        EntryFields(sigs, i);
      } else {
        WalkMonotone(Table(sigs), |sigs|, i);
      }
    }
  }

  // ---- the table determines the list ----

  // The signatures met when walking a table to its end.
  function Decode(t: Bytes): seq<Bytes>
    decreases |t|
  {
    if |t| < 8 then []
    else
      var n := U32(t, 0);
      if n < 8 || n > |t| || AlignUp8(n) > |t| then [] else [t[8..n]] + Decode(t[AlignUp8(n)..])
  }

  lemma {:induction false} DecodeTable(sigs: seq<Bytes>)
    requires Storable(sigs)
    ensures Decode(Table(sigs)) == sigs
  {
    hide Table, U32;
    OffsetZero(sigs);
    if sigs == [] {
    } else {
      EntryFields(sigs, 0);
      TableSplit(sigs, 0);
      OffsetZero(sigs[1..]);
      assert sigs[..0] == [];
      var n := |sigs[0]| + HEADER;
      assert Table(sigs)[AlignUp8(n)..] == Table(sigs[1..]);
      DecodeTable(sigs[1..]);
    }
  }
}
