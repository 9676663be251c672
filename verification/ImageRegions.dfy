// image_find_regions of apps/src/image.c: the parts of the file that are hashed.
module ImageRegions {
  import opened Bytes
  import opened SigTable
  import opened PeLayout

  datatype Region = Region(data: nat, size: nat)

  // The certificate entry ends within the headers.
  predicate HeadersFit(l: Layout) {
    l.checksum + 4 <= l.certDir && l.certDir + 8 <= l.headerSize
  }

  function HeaderRegions(l: Layout): (r: seq<Region>)
    requires HeadersFit(l)
    ensures |r| == 3
  {
    [Region(0, l.checksum),
     Region(l.checksum + 4, l.certDir - (l.checksum + 4)),
     Region(l.certDir + 8, l.headerSize - (l.certDir + 8))]
  }

  // Sections without data are left out.
  function SectionRegions(s: seq<Section>): seq<Region> {
    if s == [] then []
    else
      var l := s[|s| - 1];
      SectionRegions(s[..|s| - 1]) + if l.size == 0 then [] else [Region(l.off, l.size)]
  }

  function TotalSize(r: seq<Region>): nat {
    if r == [] then 0 else TotalSize(r[..|r| - 1]) + r[|r| - 1].size
  }

  // qsort with cmp_regions; among equal offsets the order of insertion stays.
  function Insert(r: Region, s: seq<Region>): seq<Region> {
    if s == [] || s[|s| - 1].data <= r.data then s + [r] else Insert(r, s[..|s| - 1]) + [s[|s| - 1]]
  }

  function Sort(s: seq<Region>): seq<Region> {
    if s == [] then [] else Insert(s[|s| - 1], Sort(s[..|s| - 1]))
  }

  // All regions but the rest of the file, in table order.
  function TableRegions(l: Layout): seq<Region>
    requires HeadersFit(l)
  {
    HeaderRegions(l) + SectionRegions(l.sections)
  }

  // The running count "bytes": the regions, the checksum field and the certificate entry.
  function Covered(l: Layout): nat
    requires HeadersFit(l)
  {
    TotalSize(TableRegions(l)) + 12
  }

  function FindRegions(l: Layout, certSize: nat, size: nat): seq<Region>
    requires HeadersFit(l)
  {
    var r, n := Sort(TableRegions(l)), Covered(l);
    if n + certSize < size then r + [Region(n, size - n - certSize)] else r
  }

  // Where the last region ends, aligned to 8.
  function DataSize(r: seq<Region>): nat
    requires r != []
  {
    AlignUp8(r[|r| - 1].data + r[|r| - 1].size)
  }

  // ---- sections in any order, with or without gaps ----

  // The regions of the sections in file order.
  function Sorted(l: Layout): seq<Region> {
    Sort(SectionRegions(l.sections))
  }

  // Regions that begin at o or after it and do not meet, in any order.
  ghost predicate Separate(r: seq<Region>, o: nat) {
    && (forall i :: 0 <= i < |r| ==> r[i].size > 0 && o <= r[i].data)
    && forall i, j :: 0 <= i < j < |r| ==> !Overlap(r[i], r[j])
  }

  // Two regions have a byte in common.
  predicate Overlap(a: Region, b: Region) {
    && a.data < a.data + a.size && b.data < b.data + b.size
    && a.data < b.data + b.size && b.data < a.data + a.size
  }

  predicate Contains(r: Region, x: nat) {
    r.data <= x < r.data + r.size
  }

  ghost predicate Clear(s: seq<Region>, x: Region) {
    forall i :: 0 <= i < |s| ==> !Overlap(s[i], x)
  }

  // The sections lie after the headers, apart from each other. Nothing is said about their order in
  // the table or about gaps.
  ghost predicate Placed(l: Layout) {
    HeadersFit(l) && Separate(SectionRegions(l.sections), l.headerSize)
  }

  // The header fields and the section table lie in the headers, too.
  ghost predicate Sound(l: Layout) {
    && Placed(l) && l.certDir + 8 + SCN_HDR * |l.sections| <= l.tableEnd <= l.headerSize
    && 0 < l.checksum && l.checksum + 4 < l.certDir
  }

  // Regions that follow each other without gap from offset o on.
  ghost predicate TiledFrom(r: seq<Region>, o: nat) {
    forall i :: 0 <= i < |r| ==> r[i].size > 0 && r[i].data == o + TotalSize(r[..i])
  }

  // In file order, the sections tile the file from the end of the headers on.
  ghost predicate NoGap(l: Layout) {
    TiledFrom(Sorted(l), l.headerSize)
  }

  // The running count at its end: headers and sections, wherever these are.
  function End(l: Layout): nat {
    l.headerSize + TotalSize(SectionRegions(l.sections))
  }

  function EndOf(r: seq<Region>, o: nat): nat {
    if r == [] then o else r[|r| - 1].data + r[|r| - 1].size
  }

  // Where the last section ends.
  function Reach(l: Layout): nat {
    EndOf(Sorted(l), l.headerSize)
  }

  ghost predicate Ascending(r: seq<Region>) {
    forall i, j :: 0 <= i < j < |r| ==> r[i].data <= r[j].data
  }

  // Each region ends before the next one begins.
  ghost predicate InOrder(r: seq<Region>, o: nat) {
    && (forall i :: 0 <= i < |r| ==> r[i].size > 0 && o <= r[i].data)
    && forall i, j :: 0 <= i < j < |r| ==> r[i].data + r[i].size <= r[j].data
  }

  lemma {:induction false} SectionCount(s: seq<Section>)
    ensures |SectionRegions(s)| <= |s|
  {
    if s != [] {
      SectionCount(s[..|s| - 1]);
    }
  }

  lemma {:induction false} TotalAppend(a: seq<Region>, b: seq<Region>)
    ensures TotalSize(a + b) == TotalSize(a) + TotalSize(b)
  {
    if b == [] {
      assert a + b == a;
    } else {
      assert (a + b)[..|a + b| - 1] == a + b[..|b| - 1];
      TotalAppend(a, b[..|b| - 1]);
    }
  }

  lemma TotalNone()
    ensures TotalSize([]) == 0
  {
  }

  lemma TotalOne(r: Region)
    ensures TotalSize([r]) == r.size
  {
    assert [r][..0] == [];
  }

  lemma HeaderTotal(l: Layout)
    requires HeadersFit(l)
    ensures TotalSize(HeaderRegions(l)) == l.headerSize - 12 && Covered(l) == End(l)
  {
    var h := HeaderRegions(l);
    assert h[..2][..1][..0] == [] && h[..2][..1] == h[..1];
    assert TotalSize(h) == TotalSize(h[..2]) + h[2].size;
    assert TotalSize(h[..2]) == TotalSize(h[..1]) + h[1].size;
    assert TotalSize(h[..1]) == h[0].size;
    TotalAppend(h, SectionRegions(l.sections));
  }

  // ---- what sorting keeps ----

  lemma {:induction false} InsertTotal(r: Region, s: seq<Region>)
    ensures TotalSize(Insert(r, s)) == TotalSize(s) + r.size && |Insert(r, s)| == |s| + 1
  {
    if s == [] || s[|s| - 1].data <= r.data {
      assert (s + [r])[..|s|] == s;
    } else {
      var i, x := s[..|s| - 1], s[|s| - 1];
      InsertTotal(r, i);
      assert (Insert(r, i) + [x])[..|Insert(r, i)|] == Insert(r, i);
    }
  }

  lemma {:induction false} SortTotal(s: seq<Region>)
    ensures TotalSize(Sort(s)) == TotalSize(s) && |Sort(s)| == |s|
  {
    hide Insert;
    if s != [] {
      SortTotal(s[..|s| - 1]);
      InsertTotal(s[|s| - 1], Sort(s[..|s| - 1]));
    }
  }

  lemma {:induction false} InsertAscending(r: Region, s: seq<Region>)
    requires Ascending(s)
    ensures Ascending(Insert(r, s))
    ensures forall k :: 0 <= k < |Insert(r, s)| ==> Insert(r, s)[k] == r || Insert(r, s)[k] in s
  {
    if s != [] && s[|s| - 1].data > r.data {
      var i, x := s[..|s| - 1], s[|s| - 1];
      InsertAscending(r, i);
      assert forall k :: 0 <= k < |Insert(r, i)| ==> Insert(r, i)[k].data <= x.data;
    }
  }

  lemma {:induction false} SortAscending(s: seq<Region>)
    ensures Ascending(Sort(s))
  {
    hide Insert;
    if s != [] {
      SortAscending(s[..|s| - 1]);
      InsertAscending(s[|s| - 1], Sort(s[..|s| - 1]));
    }
  }

  lemma {:induction false} InsertMultiset(r: Region, s: seq<Region>)
    ensures multiset(Insert(r, s)) == multiset(s) + multiset{r}
  {
    if s != [] && s[|s| - 1].data > r.data {
      InsertMultiset(r, s[..|s| - 1]);
      assert s == s[..|s| - 1] + [s[|s| - 1]];
    }
  }

  // Sorting keeps the regions and puts them in the order of their offsets.
  lemma {:induction false} SortIsPermutation(s: seq<Region>)
    ensures multiset(Sort(s)) == multiset(s) && Ascending(Sort(s))
  {
    hide Insert;
    SortAscending(s);
    if s != [] {
      SortIsPermutation(s[..|s| - 1]);
      InsertMultiset(s[|s| - 1], Sort(s[..|s| - 1]));
      assert s == s[..|s| - 1] + [s[|s| - 1]];
    }
  }

  // The sections with any bytes in them, and no others, become regions.
  lemma {:induction false} FilledSections(s: seq<Section>, r: Region)
    ensures r in SectionRegions(s) <==> r.size > 0 && Section(r.data, r.size) in s
  {
    if s != [] {
      FilledSections(s[..|s| - 1], r);
      assert s == s[..|s| - 1] + [s[|s| - 1]];
    }
  }

  // A region apart from all others stays so wherever it is inserted.
  lemma {:induction false} InsertSeparate(r: Region, s: seq<Region>, o: nat)
    requires Separate(s, o) && r.size > 0 && o <= r.data && Clear(s, r)
    ensures Separate(Insert(r, s), o)
    ensures forall x: Region :: !Overlap(r, x) && Clear(s, x) ==> Clear(Insert(r, s), x)
  {
    hide Overlap;
    OverlapSymmetric();
    if s != [] && s[|s| - 1].data > r.data {
      InsertSeparate(r, s[..|s| - 1], o);
    }
  }

  lemma OverlapSymmetric()
    ensures forall a, b :: Overlap(a, b) == Overlap(b, a)
  {
  }

  lemma {:induction false} SortSeparate(s: seq<Region>, o: nat)
    requires Separate(s, o)
    ensures Separate(Sort(s), o)
    ensures forall x: Region :: Clear(s, x) ==> Clear(Sort(s), x)
  {
    hide Insert, Overlap;
    if s != [] {
      var i, r := s[..|s| - 1], s[|s| - 1];
      SortSeparate(i, o);
      InsertSeparate(r, Sort(i), o);
    }
  }

  lemma SortInOrder(s: seq<Region>, o: nat)
    requires Separate(s, o)
    ensures InOrder(Sort(s), o)
  {
    hide Sort;
    SortSeparate(s, o);
    SortAscending(s);
    var r := Sort(s);
    forall i, j | 0 <= i < j < |r| ensures r[i].data + r[i].size <= r[j].data {
      assert !Overlap(r[i], r[j]);
    }
  }

  lemma {:induction false} InsertBeyond(h: seq<Region>, s: seq<Region>, r: Region)
    requires h != [] && h[|h| - 1].data <= r.data
    ensures Insert(r, h + s) == h + Insert(r, s)
  {
    if s == [] {
      assert h + s == h;
    } else if s[|s| - 1].data > r.data {
      InsertBeyond(h, s[..|s| - 1], r);
      assert (h + s)[..|h + s| - 1] == h + s[..|s| - 1];
      var x := s[|s| - 1];
      assert (h + Insert(r, s[..|s| - 1])) + [x] == h + (Insert(r, s[..|s| - 1]) + [x]);
    } else {
      assert (h + s) + [r] == h + (s + [r]);
    }
  }

  lemma {:induction false} SortBeyond(h: seq<Region>, s: seq<Region>)
    requires h != [] && Sort(h) == h && forall i :: 0 <= i < |s| ==> h[|h| - 1].data <= s[i].data
    ensures Sort(h + s) == h + Sort(s)
  {
    hide Insert;
    if s == [] {
      assert h + s == h;
      assert h + [] == h;
    } else {
      var i := s[..|s| - 1];
      SortBeyond(h, i);
      assert (h + s)[..|h + s| - 1] == h + i;
      InsertBeyond(h, Sort(i), s[|s| - 1]);
    }
  }

  lemma SortHeaders(l: Layout)
    requires HeadersFit(l)
    ensures Sort(HeaderRegions(l)) == HeaderRegions(l)
  {
    var h := HeaderRegions(l);
    assert h[..2][..1] == h[..1] && h[..1][..0] == [];
    assert Sort(h[..1]) == h[..1];
    assert Sort(h[..2]) == h[..2];
  }

  lemma SortedTable(l: Layout)
    requires Placed(l)
    ensures Sort(TableRegions(l)) == HeaderRegions(l) + Sorted(l) && InOrder(Sorted(l), l.headerSize)
  {
    hide Sort, SectionRegions;
    SortHeaders(l);
    SortBeyond(HeaderRegions(l), SectionRegions(l.sections));
    SortInOrder(SectionRegions(l.sections), l.headerSize);
  }

  // ---- the regions found ----

  function Junk(l: Layout, certSize: nat, size: nat): seq<Region> {
    if End(l) + certSize < size then [Region(End(l), size - End(l) - certSize)] else []
  }

  // The regions of a sound image, in file order but for the rest of the file.
  lemma SoundRegions(l: Layout, certSize: nat, size: nat)
    requires Placed(l)
    ensures FindRegions(l, certSize, size) == HeaderRegions(l) + Sorted(l) + Junk(l, certSize, size)
    ensures DataSize(FindRegions(l, certSize, size)) == AlignUp8(if End(l) + certSize < size then size - certSize else Reach(l))
  {
    hide Sort, TotalSize, SectionRegions, Separate;
    SortedTable(l);
    HeaderTotal(l);
    assert HeaderRegions(l) + Sorted(l) + [] == HeaderRegions(l) + Sorted(l);
  }

  // For every layout: the regions, the two fields left out and the certificate table make up the
  // file exactly if headers, sections and certificate table are not counted to more than its size.
  lemma RegionsAddUp(l: Layout, certSize: nat, size: nat)
    requires HeadersFit(l)
    ensures TotalSize(FindRegions(l, certSize, size)) + 12 + certSize == size <==> Covered(l) + certSize <= size
  {
    hide Sort, TotalSize, TableRegions;
    var t, n := Sort(TableRegions(l)), Covered(l);
    SortTotal(TableRegions(l));
    if n + certSize < size {
      var junk := Region(n, size - n - certSize);
      TotalAppend(t, [junk]);
      TotalOne(junk);
    }
  }

  // Sections in file order reach as far as their sizes say, or further: exactly as far without gap.
  lemma {:induction false} ReachTotal(s: seq<Region>, o: nat)
    requires InOrder(s, o)
    ensures EndOf(s, o) >= o + TotalSize(s)
    ensures EndOf(s, o) == o + TotalSize(s) <==> TiledFrom(s, o)
  {
    if s != [] {
      var i, r := s[..|s| - 1], s[|s| - 1];
      ReachTotal(i, o);
      assert EndOf(i, o) <= r.data;
      if TiledFrom(s, o) {
        TiledInit(s, o);
      } else if EndOf(s, o) == o + TotalSize(s) {
        TiledSnoc(s, o);
      }
    }
  }

  lemma TiledInit(s: seq<Region>, o: nat)
    requires TiledFrom(s, o) && s != []
    ensures var i, r := s[..|s| - 1], s[|s| - 1];
            TiledFrom(i, o) && r.data == o + TotalSize(i) && TotalSize(s) == TotalSize(i) + r.size
  {
    var i := s[..|s| - 1];
    assert forall k :: 0 <= k < |i| ==> i[k] == s[k] && i[..k] == s[..k];
  }

  lemma TiledSnoc(s: seq<Region>, o: nat)
    requires s != [] && TiledFrom(s[..|s| - 1], o)
    requires s[|s| - 1].size > 0 && s[|s| - 1].data == o + TotalSize(s[..|s| - 1])
    ensures TiledFrom(s, o)
  {
    hide TotalSize;
    var i := s[..|s| - 1];
    assert forall k :: 0 <= k < |i| ==> i[k] == s[k] && i[..k] == s[..k];
  }

  lemma ReachIsEnd(l: Layout)
    requires Placed(l)
    ensures Reach(l) >= End(l) && (Reach(l) == End(l) <==> NoGap(l))
  {
    hide Sort, SectionRegions, TotalSize, TiledFrom;
    SortedTable(l);
    SortTotal(SectionRegions(l.sections));
    ReachTotal(Sorted(l), l.headerSize);
  }

  // No byte is hashed twice.
  ghost predicate Disjoint(r: seq<Region>) {
    forall i, j :: 0 <= i < j < |r| ==> !Overlap(r[i], r[j])
  }

  // Headers and sections never meet.
  lemma TableInOrder(l: Layout, i: nat, j: nat)
    requires Placed(l)
    ensures var r := HeaderRegions(l) + Sorted(l);
            && (i < j < |r| ==> r[i].data + r[i].size <= r[j].data)
            && (i < |r| ==> r[i].data + r[i].size <= Reach(l))
  {
    hide Sort, SectionRegions;
    SortedTable(l);
  }

  // What DisjointExactly says for images without gap: the regions follow each other.
  lemma RegionsPartition(l: Layout, certSize: nat, size: nat)
    requires Placed(l) && NoGap(l) && End(l) + certSize <= size
    ensures var r := FindRegions(l, certSize, size);
            && TotalSize(r) + 12 + certSize == size
            && forall i, j :: 0 <= i < j < |r| ==> r[i].data + r[i].size <= r[j].data
  {
    hide TotalSize, FindRegions, Sorted, NoGap, Reach, End;
    RegionsAddUp(l, certSize, size);
    HeaderTotal(l);
    SoundRegions(l, certSize, size);
    ReachIsEnd(l);
    var r := FindRegions(l, certSize, size);
    forall i, j | 0 <= i < j < |r| ensures r[i].data + r[i].size <= r[j].data {
      TableInOrder(l, i, j);
    }
  }

  // Whenever headers, sections and certificate table fit: the regions are disjoint exactly if there
  // is no gap. With one, the rest of the file is taken to begin within the sections.
  lemma DisjointExactly(l: Layout, certSize: nat, size: nat)
    requires Placed(l) && Reach(l) + certSize <= size
    ensures Disjoint(FindRegions(l, certSize, size)) <==> NoGap(l)
  {
    hide TotalSize, FindRegions, Sorted, NoGap, End;
    ReachIsEnd(l);
    SoundRegions(l, certSize, size);
    var r, h, s := FindRegions(l, certSize, size), HeaderRegions(l), Sorted(l);
    if NoGap(l) {
      RegionsPartition(l, certSize, size);
    } else {
      LastSection(l);
      assert r[|r| - 1] == Region(End(l), size - End(l) - certSize) && r[|r| - 2] == s[|s| - 1];
      assert Overlap(r[|r| - 2], r[|r| - 1]);
    }
  }

  lemma LastSection(l: Layout)
    requires Placed(l) && !NoGap(l)
    ensures Sorted(l) != [] && Sorted(l)[|Sorted(l)| - 1].size > 0
  {
    hide Sort, SectionRegions;
    SortedTable(l);
  }

  // Headers of 512 bytes, one section of 512 bytes at 1024, 2048 bytes in all: the section is hashed
  // twice and the gap before it not at all.
  lemma GapHashedTwice(checksum: nat, certDir: nat, tableEnd: nat)
    requires 0 < checksum && checksum + 4 < certDir && certDir + 48 <= tableEnd <= 512
    ensures var l := Layout(checksum, certDir, 512, [Section(1024, 512)], tableEnd);
            var r := FindRegions(l, 0, 2048);
            && Sound(l) && Reach(l) <= 2048 && |r| == 5
            && r[3] == Region(1024, 512) && r[4] == Region(1024, 1024)
            && forall x, i :: 512 <= x < 1024 && 0 <= i < |r| ==> !Contains(r[i], x)
  {
    hide FindRegions, Sort, SectionRegions, TotalSize;
    var l := Layout(checksum, certDir, 512, [Section(1024, 512)], tableEnd);
    OneSection(l.sections[0]);
    SoundRegions(l, 0, 2048);
    var r := FindRegions(l, 0, 2048);
    assert r == HeaderRegions(l) + [Region(1024, 512)] + [Region(1024, 1024)];
  }

  lemma OneSection(s: Section)
    requires s.size > 0
    ensures var r := Region(s.off, s.size);
            SectionRegions([s]) == [r] && Sort(SectionRegions([s])) == [r] && TotalSize([r]) == r.size
  {
    var r := [Region(s.off, s.size)];
    assert [s][..0] == [] && r[..0] == [];
    assert SectionRegions([]) == [] && Sort([]) == [];
    assert SectionRegions([s]) == [] + r;
    TotalOne(r[0]);
  }

  // ---- what is hashed ----

  // Bytes o to e of the buffer; reads beyond its end are not made.
  function Slice(b: Bytes, o: nat, e: nat): Bytes {
    if o <= e <= |b| then b[o..e] else []
  }

  // The regions of buffer b in order, as image_hash feeds them.
  function Hashed(b: Bytes, r: seq<Region>): Bytes {
    if r == [] then []
    else
      var l := r[|r| - 1];
      Hashed(b, r[..|r| - 1]) + Slice(b, l.data, l.data + l.size)
  }

  // The first n bytes of the file without the checksum field and the certificate entry.
  function Skip(b: Bytes, l: Layout, n: nat): Bytes {
    Slice(b, 0, l.checksum) + Slice(b, l.checksum + 4, l.certDir) + Slice(b, l.certDir + 8, n)
  }

  lemma Join(b: Bytes, o: nat, m: nat, e: nat)
    requires o <= m <= e <= |b|
    ensures Slice(b, o, m) + Slice(b, m, e) == Slice(b, o, e)
  {
  }

  lemma Assoc(a: Bytes, b: Bytes, c: Bytes)
    ensures (a + b) + c == a + (b + c)
  {
  }

  lemma HashedSnoc(b: Bytes, r: seq<Region>, x: Region)
    ensures Hashed(b, r + [x]) == Hashed(b, r) + Slice(b, x.data, x.data + x.size)
  {
    hide Slice;
    assert (r + [x])[..|r|] == r;
  }

  lemma SliceNone(b: Bytes, o: nat)
    ensures Slice(b, o, o) == []
  {
  }

  lemma HashedNone(b: Bytes, pre: seq<Region>)
    ensures Hashed(b, pre + []) == Hashed(b, pre) + []
  {
    assert pre + [] == pre;
  }

  lemma {:induction false} HashedTiled(b: Bytes, pre: seq<Region>, s: seq<Region>, o: nat)
    requires TiledFrom(s, o) && o + TotalSize(s) <= |b|
    ensures Hashed(b, pre + s) == Hashed(b, pre) + Slice(b, o, o + TotalSize(s))
  {
    hide TiledFrom, TotalSize, Hashed, Slice;
    if s == [] {
      TotalNone();
      SliceNone(b, o);
      HashedNone(b, pre);
    } else {
      var i, r := s[..|s| - 1], s[|s| - 1];
      TiledInit(s, o);
      HashedTiled(b, pre, i, o);
      assert pre + s == (pre + i) + [r];
      HashedSnoc(b, pre + i, r);
      Assoc(Hashed(b, pre), Slice(b, o, r.data), Slice(b, r.data, r.data + r.size));
      Join(b, o, r.data, o + TotalSize(s));
    }
  }

  lemma HashedHeader(b: Bytes, l: Layout)
    requires HeadersFit(l)
    ensures Hashed(b, HeaderRegions(l)) == Skip(b, l, l.headerSize)
  {
    hide Hashed, Slice;
    var h := HeaderRegions(l);
    assert h == ([h[0]] + [h[1]]) + [h[2]];
    HashedOne(b, h[0]);
    HashedSnoc(b, [h[0]], h[1]);
    HashedSnoc(b, [h[0]] + [h[1]], h[2]);
  }

  lemma HashedOne(b: Bytes, x: Region)
    ensures Hashed(b, [x]) == Slice(b, x.data, x.data + x.size)
  {
    hide Slice;
    assert [x][..0] == [];
    assert Hashed(b, []) == [];
    var s := Slice(b, x.data, x.data + x.size);
    assert [] + s == s;
  }

  lemma SkipExtend(b: Bytes, l: Layout, m: nat, n: nat)
    requires l.certDir + 8 <= m <= n <= |b|
    ensures Skip(b, l, m) + Slice(b, m, n) == Skip(b, l, n)
  {
    hide Slice;
    Join(b, l.certDir + 8, m, n);
    Assoc(Slice(b, 0, l.checksum) + Slice(b, l.checksum + 4, l.certDir), Slice(b, l.certDir + 8, m), Slice(b, m, n));
  }

  // Without gap, however the file is cut into regions, the bytes hashed are the data without the
  // two fields.
  lemma HashedIsSkip(b: Bytes, l: Layout, certSize: nat)
    requires Placed(l) && NoGap(l) && End(l) + certSize <= |b|
    ensures Hashed(b, FindRegions(l, certSize, |b|)) == Skip(b, l, |b| - certSize)
  {
    hide Hashed, FindRegions, TotalSize, SectionRegions, TiledFrom, HeaderRegions, Skip, Slice, Sort;
    var h, s, e, n := HeaderRegions(l), Sorted(l), End(l), |b| - certSize;
    SoundRegions(l, certSize, |b|);
    SortTotal(SectionRegions(l.sections));
    HashedHeader(b, l);
    HashedTiled(b, h, s, l.headerSize);
    SkipExtend(b, l, l.headerSize, e);
    if e + certSize < |b| {
      HashedSnoc(b, h + s, Region(e, n - e));
      SkipExtend(b, l, e, n);
    } else {
      assert (h + s) + [] == h + s;
    }
  }

  // Buffers that agree on every region are hashed alike.
  lemma {:induction false} HashedSame(b: Bytes, c: Bytes, r: seq<Region>)
    requires forall i :: 0 <= i < |r| ==> Slice(b, r[i].data, r[i].data + r[i].size) == Slice(c, r[i].data, r[i].data + r[i].size)
    ensures Hashed(b, r) == Hashed(c, r)
  {
    hide Slice;
    if r != [] {
      HashedSame(b, c, r[..|r| - 1]);
    }
  }

  // The first byte of a gap.
  lemma {:induction false} GapByte(s: seq<Region>, o: nat) returns (g: nat)
    requires InOrder(s, o) && !TiledFrom(s, o)
    ensures o <= g < o + TotalSize(s) && g < EndOf(s, o)
    ensures forall i :: 0 <= i < |s| ==> !Contains(s[i], g)
  {
    hide TiledFrom, TotalSize;
    if s == [] {
      ReachTotal(s, o);
      TotalNone();
      assert false;
    }
    var i, r := s[..|s| - 1], s[|s| - 1];
    assert i + [r] == s;
    TotalAppend(i, [r]);
    TotalOne(r);
    assert EndOf(i, o) <= r.data;
    if TiledFrom(i, o) {
      ReachTotal(i, o);
      if r.data == o + TotalSize(i) {
        TiledSnoc(s, o);
      }
      g := o + TotalSize(i);
    } else {
      g := GapByte(i, o);
    }
  }

  lemma SliceUpdate(b: Bytes, g: nat, v: byte, o: nat, e: nat)
    requires g < |b| && !(o <= g < e)
    ensures Slice(b[g := v], o, e) == Slice(b, o, e)
  {
  }

  lemma SkipUpdate(b: Bytes, g: nat, v: byte, l: Layout, n: nat)
    requires l.checksum + 4 <= l.certDir && l.certDir + 8 <= g < n <= |b| && b[g] != v
    ensures Skip(b[g := v], l, n) != Skip(b, l, n)
  {
    var c := b[g := v];
    var x := l.checksum + (l.certDir - l.checksum - 4);
    assert Skip(b, l, n)[x + g - l.certDir - 8] == b[g];
    assert Skip(c, l, n)[x + g - l.certDir - 8] == v;
  }

  // The regions are all of the file but the two fields and the table exactly if there is no gap.
  lemma HashedExactly(l: Layout, certSize: nat, size: nat)
    requires Placed(l) && Reach(l) + certSize <= size
    ensures (forall b: Bytes :: |b| == size ==> Hashed(b, FindRegions(l, certSize, size)) == Skip(b, l, size - certSize))
            <==> NoGap(l)
  {
    hide Hashed, FindRegions, TotalSize, SectionRegions, TiledFrom, Skip, Slice, Sort;
    ReachIsEnd(l);
    if NoGap(l) {
      forall b: Bytes | |b| == size ensures Hashed(b, FindRegions(l, certSize, size)) == Skip(b, l, size - certSize) {
        HashedIsSkip(b, l, certSize);
      }
    } else {
      SortedTable(l);
      SortTotal(SectionRegions(l.sections));
      var g := GapByte(Sorted(l), l.headerSize);
      var b, r := Zeros(size), FindRegions(l, certSize, size);
      var c := b[g := 1];
      SoundRegions(l, certSize, size);
      forall i | 0 <= i < |r|
        ensures Slice(b, r[i].data, r[i].data + r[i].size) == Slice(c, r[i].data, r[i].data + r[i].size)
      {
        SliceUpdate(b, g, 1, r[i].data, r[i].data + r[i].size);
      }
      HashedSame(b, c, r);
      SkipUpdate(b, g, 1, l, size - certSize);
    }
  }
}
