// How often each byte is hashed, for every layout: also with sections that overlap each other or reach
// into the headers.
module ImageCover {
  import opened Bytes
  import opened PeLayout
  import opened ImageRegions

  // ---- sorting and disjointness ----

  lemma SnocDisjoint(s: seq<Region>, x: Region)
    ensures Disjoint(s + [x]) <==> Disjoint(s) && Clear(s, x)
  {
    hide Overlap;
    var t := s + [x];
    if Disjoint(t) {
      assert forall i, j :: 0 <= i < j < |s| ==> s[i] == t[i] && s[j] == t[j];
      forall i | 0 <= i < |s| ensures !Overlap(s[i], x) {
        assert t[i] == s[i] && t[|s|] == x;
      }
    }
  }

  lemma SnocClear(s: seq<Region>, y: Region, x: Region)
    ensures Clear(s + [y], x) <==> Clear(s, x) && !Overlap(y, x)
  {
    hide Overlap;
    var t := s + [y];
    if Clear(t, x) {
      assert forall i :: 0 <= i < |s| ==> s[i] == t[i];
      assert t[|s|] == y;
    }
  }

  lemma {:induction false} InsertClear(r: Region, s: seq<Region>, x: Region)
    ensures Clear(Insert(r, s), x) <==> Clear(s, x) && !Overlap(r, x)
  {
    hide Overlap, Clear;
    if s == [] || s[|s| - 1].data <= r.data {
      SnocClear(s, r, x);
    } else {
      var i, y := s[..|s| - 1], s[|s| - 1];
      InsertClear(r, i, x);
      SnocClear(Insert(r, i), y, x);
      SnocClear(i, y, x);
      assert i + [y] == s;
    }
  }

  lemma {:induction false} InsertDisjoint(r: Region, s: seq<Region>)
    ensures Disjoint(Insert(r, s)) <==> Disjoint(s) && Clear(s, r)
  {
    hide Overlap, Clear, Disjoint;
    if s == [] || s[|s| - 1].data <= r.data {
      SnocDisjoint(s, r);
    } else {
      var i, y := s[..|s| - 1], s[|s| - 1];
      InsertDisjoint(r, i);
      SnocDisjoint(Insert(r, i), y);
      InsertClear(r, i, y);
      SnocDisjoint(i, y);
      SnocClear(i, y, r);
      OverlapSymmetric();
      assert i + [y] == s;
    }
  }

  lemma {:induction false} SortClear(s: seq<Region>, x: Region)
    ensures Clear(Sort(s), x) <==> Clear(s, x)
  {
    hide Overlap, Clear, Insert;
    if s != [] {
      var i, y := s[..|s| - 1], s[|s| - 1];
      SortClear(i, x);
      InsertClear(y, Sort(i), x);
      SnocClear(i, y, x);
      assert i + [y] == s;
    }
  }

  lemma {:induction false} SortDisjoint(s: seq<Region>)
    ensures Disjoint(Sort(s)) <==> Disjoint(s)
  {
    hide Overlap, Clear, Disjoint, Insert;
    if s == [] {
      assert Sort(s) == s;
    } else {
      var i, y := s[..|s| - 1], s[|s| - 1];
      SortDisjoint(i);
      InsertDisjoint(y, Sort(i));
      SortClear(i, y);
      SnocDisjoint(i, y);
      assert i + [y] == s;
    }
  }

  // For every layout whose sections lie before the certificate table: no byte is hashed twice exactly
  // if headers and sections are apart from each other and no section ends beyond the running count.
  lemma DisjointAlways(l: Layout, certSize: nat, size: nat)
    requires HeadersFit(l) && certSize <= size
    requires forall i :: 0 <= i < |SectionRegions(l.sections)| ==> RegionEnd(SectionRegions(l.sections)[i]) + certSize <= size
    ensures Disjoint(FindRegions(l, certSize, size)) <==>
            && Disjoint(TableRegions(l))
            && forall i :: 0 <= i < |SectionRegions(l.sections)| ==> RegionEnd(SectionRegions(l.sections)[i]) <= End(l)
  {
    hide Sort, SectionRegions, TotalSize, Disjoint, Clear;
    var t := TableRegions(l);
    SortDisjoint(t);
    HeaderTotal(l);
    SectionSizes(l.sections);
    if End(l) + certSize < size {
      var junk := Region(End(l), size - End(l) - certSize);
      SnocDisjoint(Sort(t), junk);
      SortClear(t, junk);
      JunkClear(l, certSize, size);
    }
  }

  function RegionEnd(r: Region): nat {
    r.data + r.size
  }

  lemma {:induction false} SectionSizes(s: seq<Section>)
    ensures forall i :: 0 <= i < |SectionRegions(s)| ==> SectionRegions(s)[i].size > 0
  {
    if s != [] {
      SectionSizes(s[..|s| - 1]);
    }
  }

  lemma JunkClear(l: Layout, certSize: nat, size: nat)
    requires HeadersFit(l) && End(l) + certSize < size
    requires forall i :: 0 <= i < |SectionRegions(l.sections)| ==>
               SectionRegions(l.sections)[i].size > 0 && RegionEnd(SectionRegions(l.sections)[i]) + certSize <= size
    ensures Clear(TableRegions(l), Region(End(l), size - End(l) - certSize)) <==>
            forall i :: 0 <= i < |SectionRegions(l.sections)| ==> RegionEnd(SectionRegions(l.sections)[i]) <= End(l)
  {
    hide SectionRegions, TotalSize;
    var h, s, t := HeaderRegions(l), SectionRegions(l.sections), TableRegions(l);
    var junk := Region(End(l), size - End(l) - certSize);
    forall i | 0 <= i < |s| ensures Overlap(s[i], junk) <==> RegionEnd(s[i]) > End(l) {
    }
    if Clear(t, junk) {
      forall i | 0 <= i < |s| ensures RegionEnd(s[i]) <= End(l) {
        assert t[3 + i] == s[i];
      }
    }
  }

  // ---- counting ----

  // How many regions contain byte g.
  function Cover(r: seq<Region>, g: nat): nat {
    if r == [] then 0 else Cover(r[..|r| - 1], g) + if Contains(r[|r| - 1], g) then 1 else 0
  }

  lemma CoverSnoc(s: seq<Region>, x: Region, g: nat)
    ensures Cover(s + [x], g) == Cover(s, g) + if Contains(x, g) then 1 else 0
  {
    assert (s + [x])[..|s|] == s;
  }

  lemma {:induction false} CoverAppend(a: seq<Region>, b: seq<Region>, g: nat)
    ensures Cover(a + b, g) == Cover(a, g) + Cover(b, g)
  {
    hide Contains;
    if b == [] {
      assert a + b == a;
    } else {
      var i, x := b[..|b| - 1], b[|b| - 1];
      CoverAppend(a, i, g);
      CoverSnoc(a + i, x, g);
      assert (a + i) + [x] == a + b;
    }
  }

  lemma {:induction false} InsertCover(r: Region, s: seq<Region>, g: nat)
    ensures Cover(Insert(r, s), g) == Cover(s, g) + if Contains(r, g) then 1 else 0
  {
    hide Contains;
    if s == [] || s[|s| - 1].data <= r.data {
      CoverSnoc(s, r, g);
    } else {
      var i, y := s[..|s| - 1], s[|s| - 1];
      InsertCover(r, i, g);
      CoverSnoc(Insert(r, i), y, g);
    }
  }

  lemma {:induction false} SortCover(s: seq<Region>, g: nat)
    ensures Cover(Sort(s), g) == Cover(s, g)
  {
    hide Contains, Insert;
    if s != [] {
      SortCover(s[..|s| - 1], g);
      InsertCover(s[|s| - 1], Sort(s[..|s| - 1]), g);
    }
  }

  lemma {:induction false} CoverSome(s: seq<Region>, i: nat, g: nat)
    requires i < |s| && Contains(s[i], g)
    ensures Cover(s, g) >= 1
  {
    hide Contains;
    if i < |s| - 1 {
      CoverSome(s[..|s| - 1], i, g);
    }
  }

  lemma {:induction false} CoverTwo(s: seq<Region>, i: nat, j: nat, g: nat)
    requires i < j < |s| && Contains(s[i], g) && Contains(s[j], g)
    ensures Cover(s, g) >= 2
  {
    hide Contains;
    if j < |s| - 1 {
      CoverTwo(s[..|s| - 1], i, j, g);
    } else {
      CoverSome(s[..|s| - 1], i, g);
    }
  }

  lemma {:induction false} CoverNone(s: seq<Region>, g: nat)
    ensures Cover(s, g) == 0 <==> forall i :: 0 <= i < |s| ==> !Contains(s[i], g)
  {
    hide Contains;
    if s != [] {
      var i := s[..|s| - 1];
      CoverNone(i, g);
      assert forall k :: 0 <= k < |i| ==> i[k] == s[k];
      if k: nat :| k < |s| && Contains(s[k], g) {
        CoverSome(s, k, g);
      }
    }
  }

  // ---- the bytes hashed, by their offsets ----

  function Range(o: nat, e: nat): seq<nat> {
    if o <= e then seq(e - o, i requires 0 <= i => o + i) else []
  }

  function Offsets(r: seq<Region>): seq<nat> {
    if r == [] then [] else Offsets(r[..|r| - 1]) + Range(r[|r| - 1].data, RegionEnd(r[|r| - 1]))
  }

  function SkipOffsets(l: Layout, n: nat): seq<nat> {
    Range(0, l.checksum) + Range(l.checksum + 4, l.certDir) + Range(l.certDir + 8, n)
  }

  ghost predicate Within(o: seq<nat>, size: nat) {
    forall k :: 0 <= k < |o| ==> o[k] < size
  }

  function Pick(b: Bytes, o: seq<nat>): (p: Bytes)
    requires Within(o, |b|)
    ensures |p| == |o|
  {
    seq(|o|, k requires 0 <= k < |o| && Within(o, |b|) => b[o[k]])
  }

  lemma SliceIsPick(b: Bytes, o: nat, e: nat)
    requires e <= |b|
    ensures Within(Range(o, e), |b|) && Slice(b, o, e) == Pick(b, Range(o, e))
  {
  }

  lemma PickAppend(b: Bytes, x: seq<nat>, y: seq<nat>)
    requires Within(x, |b|) && Within(y, |b|)
    ensures Within(x + y, |b|) && Pick(b, x + y) == Pick(b, x) + Pick(b, y)
  {
  }

  lemma {:induction false} HashedIsPick(b: Bytes, r: seq<Region>)
    requires forall i :: 0 <= i < |r| ==> RegionEnd(r[i]) <= |b|
    ensures Within(Offsets(r), |b|) && Hashed(b, r) == Pick(b, Offsets(r))
  {
    hide Slice, Pick, Range;
    if r == [] {
      assert Pick(b, []) == [];
    } else {
      var x := r[|r| - 1];
      HashedIsPick(b, r[..|r| - 1]);
      SliceIsPick(b, x.data, RegionEnd(x));
      PickAppend(b, Offsets(r[..|r| - 1]), Range(x.data, RegionEnd(x)));
    }
  }

  lemma SkipIsPick(b: Bytes, l: Layout, n: nat)
    requires l.checksum <= |b| && l.certDir <= |b| && n <= |b|
    ensures Within(SkipOffsets(l, n), |b|) && Skip(b, l, n) == Pick(b, SkipOffsets(l, n))
  {
    hide Slice, Pick, Range;
    SliceIsPick(b, 0, l.checksum);
    SliceIsPick(b, l.checksum + 4, l.certDir);
    SliceIsPick(b, l.certDir + 8, n);
    PickAppend(b, Range(0, l.checksum), Range(l.checksum + 4, l.certDir));
    PickAppend(b, Range(0, l.checksum) + Range(l.checksum + 4, l.certDir), Range(l.certDir + 8, n));
  }

  // Different offsets give different bytes in some buffer.
  lemma Distinguish(x: seq<nat>, y: seq<nat>, size: nat) returns (b: Bytes)
    requires x != y && Within(x, size) && Within(y, size)
    ensures |b| == size && Pick(b, x) != Pick(b, y)
  {
    b := Zeros(size);
    if |x| == |y| {
      var k :| 0 <= k < |x| && x[k] != y[k];
      b := b[x[k] := 1];
      assert Pick(b, x)[k] == 1 && Pick(b, y)[k] == 0;
    }
  }

  lemma {:induction false} RangeCount(o: nat, e: nat, g: nat)
    ensures multiset(Range(o, e))[g] == if o <= g < e then 1 else 0
    decreases e
  {
    if o < e {
      RangeCount(o, e - 1, g);
      assert Range(o, e) == Range(o, e - 1) + [e - 1];
    } else {
      assert Range(o, e) == [];
    }
  }

  lemma {:induction false} CoverIsCount(r: seq<Region>, g: nat)
    ensures multiset(Offsets(r))[g] == Cover(r, g)
  {
    hide Range;
    if r != [] {
      var x := r[|r| - 1];
      CoverIsCount(r[..|r| - 1], g);
      RangeCount(x.data, RegionEnd(x), g);
    }
  }

  // Hashed once: all bytes before n but those of the two fields.
  predicate Kept(l: Layout, n: nat, g: nat) {
    g < l.checksum || l.checksum + 4 <= g < l.certDir || l.certDir + 8 <= g < n
  }

  lemma SkipCount(l: Layout, n: nat, g: nat)
    requires l.checksum + 4 <= l.certDir
    ensures multiset(SkipOffsets(l, n))[g] == if Kept(l, n, g) then 1 else 0
  {
    hide Range;
    RangeCount(0, l.checksum, g);
    RangeCount(l.checksum + 4, l.certDir, g);
    RangeCount(l.certDir + 8, n, g);
  }

  lemma HeaderCover(l: Layout, g: nat)
    requires HeadersFit(l)
    ensures Cover(HeaderRegions(l), g) == if Kept(l, l.headerSize, g) then 1 else 0
  {
    var h := HeaderRegions(l);
    assert h == [h[0]] + [h[1]] + [h[2]] && [h[0]][..0] == [];
    CoverSnoc([h[0]] + [h[1]], h[2], g);
    CoverSnoc([h[0]], h[1], g);
  }

  // What the regions found cover.
  lemma FoundCover(l: Layout, certSize: nat, size: nat, g: nat)
    requires HeadersFit(l)
    ensures Cover(FindRegions(l, certSize, size), g) ==
            (if Kept(l, l.headerSize, g) then 1 else 0) + Cover(SectionRegions(l.sections), g)
            + (if End(l) <= g < size - certSize then 1 else 0)
  {
    hide Sort, SectionRegions, TotalSize, Kept;
    HeaderTotal(l);
    SortCover(TableRegions(l), g);
    CoverAppend(HeaderRegions(l), SectionRegions(l.sections), g);
    HeaderCover(l, g);
    if End(l) + certSize < size {
      CoverSnoc(Sort(TableRegions(l)), Region(End(l), size - End(l) - certSize), g);
    }
  }

  // ---- when the hash is that of the file without the two fields ----

  // Every kept byte covered once, every other not at all.
  ghost predicate Once(l: Layout, certSize: nat, size: nat)
    requires HeadersFit(l) && certSize <= size
  {
    forall g: nat :: Cover(FindRegions(l, certSize, size), g) == if Kept(l, size - certSize, g) then 1 else 0
  }

  lemma SameOffsetsOnce(l: Layout, certSize: nat, size: nat)
    requires HeadersFit(l) && certSize <= size
    requires Offsets(FindRegions(l, certSize, size)) == SkipOffsets(l, size - certSize)
    ensures Once(l, certSize, size)
  {
    hide FindRegions, Offsets, SkipOffsets, Kept, Cover;
    forall g: nat ensures Cover(FindRegions(l, certSize, size), g) == if Kept(l, size - certSize, g) then 1 else 0 {
      CoverIsCount(FindRegions(l, certSize, size), g);
      SkipCount(l, size - certSize, g);
    }
  }

  // Then the sections lie after the headers, apart from each other and before the table.
  lemma OncePlaces(l: Layout, certSize: nat, size: nat)
    requires HeadersFit(l) && l.headerSize + certSize <= size && Once(l, certSize, size)
    ensures Placed(l)
    ensures forall i :: 0 <= i < |SectionRegions(l.sections)| ==> RegionEnd(SectionRegions(l.sections)[i]) + certSize <= size
  {
    hide FindRegions, Cover, SectionRegions, TotalSize;
    var s := SectionRegions(l.sections);
    SectionSizes(l.sections);
    forall i | 0 <= i < |s| ensures l.headerSize <= s[i].data && RegionEnd(s[i]) + certSize <= size {
      FoundCover(l, certSize, size, s[i].data);
      CoverSome(s, i, s[i].data);
      FoundCover(l, certSize, size, RegionEnd(s[i]) - 1);
      CoverSome(s, i, RegionEnd(s[i]) - 1);
    }
    forall i, j | 0 <= i < j < |s| ensures !Overlap(s[i], s[j]) {
      if Overlap(s[i], s[j]) {
        var g := if s[i].data < s[j].data then s[j].data else s[i].data;
        CoverTwo(s, i, j, g);
        FoundCover(l, certSize, size, g);
      }
    }
  }

  lemma OnceTiles(l: Layout, certSize: nat, size: nat)
    requires HeadersFit(l) && l.headerSize + certSize <= size && Once(l, certSize, size)
    ensures Placed(l) && NoGap(l) && End(l) + certSize <= size
  {
    hide FindRegions, Cover, SectionRegions, TotalSize, TiledFrom, Sort, Separate;
    OncePlaces(l, certSize, size);
    SortedTable(l);
    SortTotal(SectionRegions(l.sections));
    ReachIsEnd(l);
    if !NoGap(l) {
      var g := GapByte(Sorted(l), l.headerSize);
      CoverNone(Sorted(l), g);
      SortCover(SectionRegions(l.sections), g);
      FoundCover(l, certSize, size, g);
      GapBeforeEnd(l, certSize, size, g);
    }
    LastFits(l, certSize, size);
  }

  // The gap lies before the end of the last section, which lies before the table.
  lemma GapBeforeEnd(l: Layout, certSize: nat, size: nat, g: nat)
    requires Placed(l) && g < Reach(l)
    requires forall i :: 0 <= i < |SectionRegions(l.sections)| ==> RegionEnd(SectionRegions(l.sections)[i]) + certSize <= size
    requires l.headerSize + certSize <= size
    ensures g < size - certSize
  {
    LastFits(l, certSize, size);
  }

  lemma LastFits(l: Layout, certSize: nat, size: nat)
    requires Placed(l) && l.headerSize + certSize <= size
    requires forall i :: 0 <= i < |SectionRegions(l.sections)| ==> RegionEnd(SectionRegions(l.sections)[i]) + certSize <= size
    ensures Reach(l) + certSize <= size
  {
    hide Sort, SectionRegions, Cover;
    var s, r := SectionRegions(l.sections), Sorted(l);
    SortedTable(l);
    if r != [] {
      var x := r[|r| - 1];
      CoverSome(r, |r| - 1, RegionEnd(x) - 1);
      SortCover(s, RegionEnd(x) - 1);
      CoverNone(s, RegionEnd(x) - 1);
    }
  }

  // Without gap the sections lie after the headers, apart from each other.
  lemma NoGapPlaced(l: Layout)
    requires HeadersFit(l) && NoGap(l)
    ensures Placed(l)
  {
    hide Sort, SectionRegions, TotalSize, Cover;
    var s, r := SectionRegions(l.sections), Sorted(l);
    SectionSizes(l.sections);
    forall i | 0 <= i < |s| ensures l.headerSize <= s[i].data {
      CoverSome(s, i, s[i].data);
      SortCover(s, s[i].data);
      CoverNone(r, s[i].data);
    }
    TiledDisjoint(r, l.headerSize);
    SortDisjoint(s);
  }

  lemma TiledDisjoint(r: seq<Region>, o: nat)
    requires TiledFrom(r, o)
    ensures Disjoint(r)
  {
    hide TotalSize;
    forall i, j | 0 <= i < j < |r| ensures !Overlap(r[i], r[j]) {
      TotalUpTo(r, i, j);
    }
  }

  lemma TotalUpTo(r: seq<Region>, i: nat, j: nat)
    requires i < j <= |r|
    ensures TotalSize(r[..i]) + r[i].size <= TotalSize(r[..j])
  {
    TotalAppend(r[..i + 1], r[i + 1..j]);
    assert r[..j] == r[..i + 1] + r[i + 1..j];
    assert r[..i + 1][..i] == r[..i];
  }

  // For every layout whose headers and certificate table fit and whose sections lie in the file: what
  // is hashed is the file without the two fields and the table, for all files of the size, exactly if
  // there is no gap and the sections end before the table.
  lemma HashedAlways(l: Layout, certSize: nat, size: nat)
    requires HeadersFit(l) && l.headerSize + certSize <= size
    requires forall i :: 0 <= i < |SectionRegions(l.sections)| ==> RegionEnd(SectionRegions(l.sections)[i]) <= size
    ensures (forall b: Bytes | |b| == size :: Hashed(b, FindRegions(l, certSize, size)) == Skip(b, l, size - certSize))
       <==> NoGap(l) && End(l) + certSize <= size
  {
    hide Hashed, FindRegions, Skip, Offsets, SkipOffsets, SectionRegions, TotalSize, NoGap;
    var r := FindRegions(l, certSize, size);
    if NoGap(l) && End(l) + certSize <= size {
      NoGapPlaced(l);
      forall b: Bytes | |b| == size ensures Hashed(b, r) == Skip(b, l, size - certSize) {
        HashedIsSkip(b, l, certSize);
      }
    } else {
      if Offsets(r) == SkipOffsets(l, size - certSize) {
        SameOffsetsOnce(l, certSize, size);
        OnceTiles(l, certSize, size);
        assert false;
      }
      FoundWithin(l, certSize, size);
      HashedIsPick(Zeros(size), r);
      SkipIsPick(Zeros(size), l, size - certSize);
      var b := Distinguish(Offsets(r), SkipOffsets(l, size - certSize), size);
      HashedIsPick(b, r);
      SkipIsPick(b, l, size - certSize);
    }
  }

  lemma FoundWithin(l: Layout, certSize: nat, size: nat)
    requires HeadersFit(l) && l.headerSize + certSize <= size
    requires forall i :: 0 <= i < |SectionRegions(l.sections)| ==> RegionEnd(SectionRegions(l.sections)[i]) <= size
    ensures forall i :: 0 <= i < |FindRegions(l, certSize, size)| ==> RegionEnd(FindRegions(l, certSize, size)[i]) <= size
  {
    hide SectionRegions, TotalSize, Sort;
    var t := TableRegions(l);
    SortWithin(t, size);
    assert forall i :: 0 <= i < |t| ==> RegionEnd(t[i]) <= size;
  }

  lemma {:induction false} SortWithin(s: seq<Region>, size: nat)
    requires forall i :: 0 <= i < |s| ==> RegionEnd(s[i]) <= size
    ensures forall i :: 0 <= i < |Sort(s)| ==> RegionEnd(Sort(s)[i]) <= size
  {
    hide Insert, RegionEnd;
    if s != [] {
      SortWithin(s[..|s| - 1], size);
      InsertWithin(s[|s| - 1], Sort(s[..|s| - 1]), size);
    }
  }

  lemma {:induction false} InsertWithin(r: Region, s: seq<Region>, size: nat)
    requires RegionEnd(r) <= size && forall i :: 0 <= i < |s| ==> RegionEnd(s[i]) <= size
    ensures forall i :: 0 <= i < |Insert(r, s)| ==> RegionEnd(Insert(r, s)[i]) <= size
  {
    hide RegionEnd;
    if s != [] && s[|s| - 1].data > r.data {
      InsertWithin(r, s[..|s| - 1], size);
    }
  }
}
