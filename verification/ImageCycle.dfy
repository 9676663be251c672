// Loading, signing, unsigning and writing an image, as values: what every sequence of these
// operations keeps.
module ImageCycle {
  import opened Bytes
  import opened Endian
  import opened SigTable
  import opened PeLayout
  import opened ImageRegions
  import opened ImageChecksum

  datatype Option<T> = None | Some(value: T)

  // struct image: buf and size, the parsed header, the regions, data_size, cert_table_size, and
  // sigbuf with sigsize.
  datatype Img = Img(buf: Bytes, layout: Layout, certSize: nat, regions: seq<Region>, dataSize: nat, sigs: Option<Bytes>)

  // Undefined: the code would read outside the buffer, or the headers end before the certificate
  // entry, which makes a region size negative.
  datatype LoadResult = Loaded(img: Img) | Refused | Undefined

  // The certificate table as image_pecoff_parse finds it.
  datatype Cert = Cert(size: nat, sigs: Option<Bytes>) | CertOutside

  function ReadCert(b: Bytes, l: Layout): Cert
    requires l.certDir + 8 <= |b|
  {
    var size, addr := U32(b, l.certDir + 4), U32(b, l.certDir);
    if size == 0 then Cert(0, None)
    else if addr + HEADER > |b| then CertOutside
    else if U16(b, addr + 4) != REVISION || U16(b, addr + 6) != TYPE_PKCS || U32(b, addr) >= |b| then Cert(size, None)
    else if addr + size > |b| then CertOutside
    else Cert(size, Some(b[addr..addr + size]))
  }

  // One pass of image_load: parse and find the regions.
  // With a table that lies in the file it is read exactly if its first header has the revision 2.0 and the
  // type of PKCS signatures and is shorter than the file; of another kind it is left unread.
  lemma CertExactly(b: Bytes, l: Layout)
    requires l.certDir + 8 <= |b|
    ensures var addr, size := LeNum(b[l.certDir..l.certDir + 4]), LeNum(b[l.certDir + 4..l.certDir + 8]);
            && (size == 0 ==> ReadCert(b, l) == Cert(0, None))
            && (size != 0 && addr + 8 <= |b| ==>
                  var pkcs := b[addr + 4..addr + 8] == [0x00, 0x02, 0x02, 0x00] && LeNum(b[addr..addr + 4]) < |b|;
                  && (!pkcs ==> ReadCert(b, l) == Cert(size, None))
                  && (pkcs && addr + size <= |b| ==> ReadCert(b, l) == Cert(size, Some(b[addr..addr + size])))
                  && (pkcs && addr + size > |b| ==> ReadCert(b, l) == CertOutside))
            && (size != 0 && addr + 8 > |b| ==> ReadCert(b, l) == CertOutside)
  {
    hide LeNum;
    var addr := U32(b, l.certDir);
    if addr + 8 <= |b| {
      SameNum(b[addr + 4..addr + 6], [0x00, 0x02]);
      SameNum(b[addr + 6..addr + 8], [0x02, 0x00]);
      NumOfTwo([0x00, 0x02]);
      NumOfTwo([0x02, 0x00]);
      assert b[addr + 4..addr + 8] == b[addr + 4..addr + 6] + b[addr + 6..addr + 8];
      var k: Bytes := [0x00, 0x02, 0x02, 0x00];
      assert k[..2] == [0x00, 0x02] && k[2..] == [0x02, 0x00];
      assert b[addr + 4..addr + 8][..2] == b[addr + 4..addr + 6] && b[addr + 4..addr + 8][2..] == b[addr + 6..addr + 8];
    }
  }

  lemma SameNum(s: Bytes, t: Bytes)
    requires |s| == |t|
    ensures LeNum(s) == LeNum(t) <==> s == t
  {
    hide Le, LeNum;
    LeOfNum(s);
    LeOfNum(t);
  }

  lemma NumOfTwo(t: Bytes)
    requires |t| == 2
    ensures LeNum(t) == t[0] as nat + 256 * t[1] as nat
  {
    assert t[1..][1..] == [];
    assert LeNum(t[1..]) == t[1] as nat + 256 * LeNum([]);
  }

  function LoadOnce(b: Bytes): LoadResult {
    match ParseLayout(b)
    case Invalid => Refused
    case Outside => Undefined
    case Parsed(l) =>
      if l.certDir + 8 > |b| then Undefined
      else
        match ReadCert(b, l)
        case CertOutside => Undefined
        case Cert(size, sigs) =>
          if !HeadersFit(l) then Undefined
          else
            var r := FindRegions(l, size, |b|);
            if r == [] then Undefined else Loaded(Img(b, l, size, r, DataSize(r), sigs))
  }

  // The buffer of the next pass: the original image, padded with zeros.
  function Pad(b: Bytes, n: nat): (p: Bytes)
    requires |b| <= n
    ensures |p| == n
  {
    b + Zeros(n - |b|)
  }

  // The first pass and, if the data does not fit the buffer, one over the padded image.
  function Load(file: Bytes): LoadResult {
    var r := LoadOnce(file);
    if r.Loaded? && r.img.dataSize > |file| then LoadOnce(Pad(file, r.img.dataSize)) else r
  }

  // ---- there is never a third pass ----

  lemma AlignKeeps(n: nat, m: nat)
    requires n <= m && m % 8 == 0
    ensures AlignUp8(n) <= m
  {
  }

  lemma PadSame(b: Bytes, l: Layout, n: nat)
    requires l.tableEnd <= |b| <= n
    ensures SameHeaders(b, Pad(b, n), l, l.tableEnd)
  {
  }

  lemma SortNonEmpty(l: Layout)
    requires HeadersFit(l)
    ensures Sort(TableRegions(l)) != []
  {
    var t := TableRegions(l);
    assert t != [];
    InsertNonEmpty(t[|t| - 1], Sort(t[..|t| - 1]));
  }

  lemma InsertNonEmpty(r: Region, s: seq<Region>)
    ensures Insert(r, s) != []
  {
  }

  // The buffer of the second pass is large enough for its own data: image_load reparses at most
  // once on every input.
  lemma SecondPassFits(file: Bytes)
    requires LoadOnce(file).Loaded? && LoadOnce(file).img.dataSize > |file|
    ensures var n := LoadOnce(file).img.dataSize;
            var r := LoadOnce(Pad(file, n));
            && n % 8 == 0 && (r.Loaded? ==> r.img.dataSize <= n && r.img.layout == LoadOnce(file).img.layout)
  {
    hide Sort, TableRegions, Covered, LeNum, ParseLayout;
    var i := LoadOnce(file).img;
    var l, n := i.layout, i.dataSize;
    var p := Pad(file, n);
    LayoutShapeOf(file);
    PadSame(file, l, n);
    ParseStable(file, p);
    var r := LoadOnce(p);
    if r.Loaded? {
      assert p[l.certDir + 4..l.certDir + 8] == file[l.certDir + 4..l.certDir + 8];
      assert r.img.certSize == i.certSize;
      SortNonEmpty(l);
      if Covered(l) + i.certSize < |p| {
        AlignKeeps(|p| - i.certSize, n);
      }
    }
  }

  // Whatever file is loaded: the buffer is the file and zeros behind it, and reaches as far as the data.
  lemma LoadedIsPadded(file: Bytes)
    requires Load(file).Loaded?
    ensures var i := Load(file).img;
            && |file| <= |i.buf| && i.buf[..|file|] == file && i.dataSize <= |i.buf|
            && (forall k :: |file| <= k < |i.buf| ==> i.buf[k] == 0)
            && (LoadOnce(file).Loaded? && |i.buf| == if LoadOnce(file).img.dataSize > |file| then LoadOnce(file).img.dataSize
                                                      else |file|)
  {
    hide ParseLayout, FindRegions, ReadCert, DataSize;
    var r := LoadOnce(file);
    if r.Loaded? && r.img.dataSize > |file| {
      SecondPassFits(file);
    }
  }

  // A certificate table found in the first pass is found in the second.
  lemma CertStays(file: Bytes, l: Layout, n: nat)
    requires l.certDir + 8 <= |file| <= n && ReadCert(file, l).Cert? && ReadCert(file, l).sigs.Some?
    ensures ReadCert(Pad(file, n), l) == ReadCert(file, l)
  {
    hide LeNum;
    var p := Pad(file, n);
    var size, addr := U32(file, l.certDir + 4), U32(file, l.certDir);
    assert p[l.certDir + 4..l.certDir + 8] == file[l.certDir + 4..l.certDir + 8];
    assert p[l.certDir..l.certDir + 4] == file[l.certDir..l.certDir + 4];
    assert p[addr + 4..addr + 6] == file[addr + 4..addr + 6] && p[addr + 6..addr + 8] == file[addr + 6..addr + 8];
    assert p[addr..addr + 4] == file[addr..addr + 4];
    assert p[addr..addr + size] == file[addr..addr + size];
  }

  lemma LayoutShapeOf(file: Bytes)
    requires ParseLayout(file).Parsed?
    ensures var l := ParseLayout(file).layout; l.certDir + 8 <= l.tableEnd <= |file|
  {
    LayoutShape(file);
  }

  // ---- the operations ----

  function TableOf(t: Option<Bytes>): Bytes {
    if t.None? then [] else t.value
  }

  // image_add_signature
  function AddSig(t: Option<Bytes>, sig: Bytes): Option<Bytes> {
    Some(TableOf(t) + Entry(sig))
  }

  // The table that image_remove_signature leaves, or the size of the copy wrapped below zero, an
  // allocation of almost the whole address space that fails.
  datatype Removal = Removed(table: Option<Bytes>) | NoMemory

  // image_remove_signature; past the last signature nothing is removed. The aligned size of the
  // entry is taken off the size of the table even if the entry is at the end and overruns it.
  function RemoveSig(t: Option<Bytes>, i: nat): Removal {
    if t.None? then Removed(t)
    else
      var b := t.value;
      var o := Walk(b, i);
      if o >= |b| || o + 4 > |b| then Removed(t)
      else
        var n := AlignUp8(U32(b, o));
        if o + n < |b| then Removed(Some(b[..o] + b[o + n..]))
        else if o == 0 then Removed(None)
        else if n > |b| then NoMemory
        else Removed(Some(b[..|b| - n]))
  }

  // The table without the bytes from o to e.
  function WithoutBytes(t: Bytes, o: nat, e: nat): Option<Bytes>
    requires o <= e && o <= |t|
  {
    if e < |t| then Some(t[..o] + t[e..]) else if o == 0 then None else Some(t[..o])
  }

  // Removal leaves all other entries as they are exactly if the entry is the first one or does not
  // reach beyond the table.
  lemma RemoveExactly(t: Bytes, i: nat)
    requires Walk(t, i) + HEADER <= |t|
    ensures var o := Walk(t, i);
            var e := o + AlignUp8(U32(t, o));
            RemoveSig(Some(t), i) == Removed(WithoutBytes(t, o, e)) <==> o == 0 || e <= |t|
  {
    hide U32, AlignUp8, Walk;
    var o, n := Walk(t, i), AlignUp8(U32(t, Walk(t, i)));
    if o + n < |t| || o == 0 {
    } else if n <= |t| {
      assert |t[..|t| - n]| == |t| - n && |t[..o]| == o;
    }
  }

  // It removes anything at all exactly if the size in the header is not zero.
  lemma RemoveDeletes(t: Bytes, i: nat)
    requires Walk(t, i) + HEADER <= |t|
    ensures RemoveSig(Some(t), i) != Removed(Some(t)) <==> U32(t, Walk(t, i)) != 0
  {
    hide U32, AlignUp8, Walk;
    var o, n := Walk(t, i), U32(t, Walk(t, i));
    ReadAligned(n);
    if n == 0 {
      assert t[..o] + t[o..] == t;
    } else if o + AlignUp8(n) < |t| {
      assert |t[..o] + t[o + AlignUp8(n)..]| < |t|;
    }
  }

  // A last entry of 9 bytes in a table of 17: removing it leaves one byte of the entry before it.
  lemma RemoveCutsPrevious()
    ensures var t := Header(0) + Header(1) + [0x77];
            && Walk(t, 1) == 8 && Walk(t, 2) == 24
            && RemoveSig(Some(t), 1) == Removed(Some(t[..1]))
  {
    hide LeNum, Header;
    HeaderFields(0);
    HeaderFields(1);
    var t := Header(0) + Header(1) + [0x77];
    assert t[0..4] == Header(0)[0..4] && t[8..12] == Header(1)[0..4];
    assert Walk(t, 0) == 0;
    assert Walk(t, 1) == 8;
  }

  const U32S: nat := 0x1_0000_0000

  // The certificate entry image_write stores: where the table will be and how long it is.
  function CertEntry(dataSize: nat, table: Bytes): (e: Bytes)
    ensures |e| == 8
  {
    if table == [] then Zeros(8) else Le(dataSize, 4) + Le(|table|, 4)
  }

  function StoredChecksum(data: Bytes, cs: nat, table: Bytes): nat
    requires cs + 4 <= |data|
  {
    (Fold(PieceSum(data, cs, table)) + |data| + |table|) % U32S
  }

  // The first dataSize bytes as image_write leaves and writes them.
  function Stamped(data: Bytes, l: Layout, table: Bytes): (r: Bytes)
    requires l.checksum + 4 <= |data| && l.certDir + 8 <= |data|
    ensures |r| == |data|
  {
    var d := Overwrite(data, l.certDir, CertEntry(|data|, table));
    Overwrite(d, l.checksum, Le(StoredChecksum(d, l.checksum, table), 4))
  }

  predicate Writable(img: Img) {
    img.dataSize <= |img.buf| && img.layout.checksum + 4 <= img.dataSize && img.layout.certDir + 8 <= img.dataSize
  }

  function Written(img: Img): Bytes
    requires Writable(img)
  {
    Stamped(img.buf[..img.dataSize], img.layout, TableOf(img.sigs)) + TableOf(img.sigs)
  }

  // ---- what an image stands for ----

  // An image whose data is P, up to the two fields, and that carries the given signatures.
  ghost predicate Represents(img: Img, P: Bytes, l: Layout, sigs: seq<Bytes>) {
    && HeadersFit(l) && img.layout == l && img.dataSize == |P| && |img.buf| == |P| + img.certSize
    && SameHeaders(P, img.buf, l, |P|)
    && img.regions == FindRegions(l, img.certSize, |img.buf|)
    && img.sigs == (if sigs == [] then None else Some(Table(sigs)))
  }

  // The unsigned original, padded as image_load pads it: loading it asks for no more bytes, and the
  // sections lie within it.
  ghost predicate Original(P: Bytes, l: Layout) {
    && ParseLayout(P) == Parsed(l) && Sound(l) && Reach(l) <= |P|
    && DataSize(FindRegions(l, 0, |P|)) == |P|
  }

  // A certificate table behind the data changes none of the regions.
  lemma RegionsStay(l: Layout, certSize: nat, size: nat)
    requires HeadersFit(l)
    ensures FindRegions(l, certSize, size + certSize) == FindRegions(l, 0, size)
  {
  }

  // Every region lies within the data and keeps clear of the two fields.
  lemma RegionsAvoidFields(l: Layout, size: nat, i: nat)
    requires Sound(l) && Reach(l) <= size && i < |FindRegions(l, 0, size)|
    ensures var r := FindRegions(l, 0, size)[i];
            var e := r.data + r.size;
            && e <= size && (e <= l.checksum || l.checksum + 4 <= r.data) && (e <= l.certDir || l.certDir + 8 <= r.data)
  {
    hide FindRegions, Sort, SectionRegions, TotalSize, Sorted, Reach;
    SoundRegions(l, 0, size);
    TableInOrder(l, i, i);
    SortedTable(l);
  }

  lemma SliceSame(b: Bytes, c: Bytes, l: Layout, n: nat, o: nat, e: nat)
    requires SameHeaders(b, c, l, n) && o <= e <= n
    requires (e <= l.checksum || l.checksum + 4 <= o) && (e <= l.certDir || l.certDir + 8 <= o)
    ensures Slice(b, o, e) == Slice(c, o, e)
  {
  }

  // The hashed bytes are those of the original, whatever has been signed: also with gaps.
  lemma RepresentsHash(img: Img, P: Bytes, l: Layout, sigs: seq<Bytes>)
    requires Represents(img, P, l, sigs) && Original(P, l)
    ensures Hashed(img.buf, img.regions) == Hashed(P, FindRegions(l, 0, |P|))
  {
    hide Hashed, FindRegions, SameHeaders, Slice, Reach, Separate, ParseLayout, DataSize, TotalSize, Table;
    RegionsStay(l, img.certSize, |P|);
    var r := img.regions;
    forall i | 0 <= i < |r|
      ensures Slice(P, r[i].data, r[i].data + r[i].size) == Slice(img.buf, r[i].data, r[i].data + r[i].size)
    {
      RegionsAvoidFields(l, |P|, i);
      SliceSame(P, img.buf, l, |P|, r[i].data, r[i].data + r[i].size);
    }
    HashedSame(P, img.buf, r);
  }

  // Without gaps they are the original without the two fields.
  lemma OriginalHash(P: Bytes, l: Layout)
    requires Original(P, l) && NoGap(l)
    ensures Hashed(P, FindRegions(l, 0, |P|)) == Skip(P, l, |P|)
  {
    hide Hashed, FindRegions, Skip, Reach, End, NoGap, Separate, ParseLayout, DataSize, TotalSize;
    ReachIsEnd(l);
    HashedIsSkip(P, l, 0);
  }

  lemma AddKeeps(img: Img, P: Bytes, l: Layout, sigs: seq<Bytes>, sig: Bytes)
    requires Represents(img, P, l, sigs)
    ensures Represents(img.(sigs := AddSig(img.sigs, sig)), P, l, sigs + [sig])
  {
    hide Table, Entry, FindRegions;
    TableAppend(sigs, [sig]);
    TableOne(sig);
    TableNone();
  }

  lemma TableNone()
    ensures Table([]) == []
  {
  }

  lemma {:induction false} OffsetMonotone(sigs: seq<Bytes>, i: nat, j: nat)
    requires i <= j <= |sigs|
    ensures Offset(sigs, i) <= Offset(sigs, j)
    decreases j - i
  {
    hide Table, AlignUp8;
    if i < j {
      TableSplit(sigs, j - 1);
      OffsetMonotone(sigs, i, j - 1);
    }
  }

  // Entry i as the remove walk finds it: first and last are told apart by its bounds.
  lemma EntryBounds(sigs: seq<Bytes>, i: nat)
    requires i < |sigs| && Storable(sigs)
    ensures var t, o, e := Table(sigs), Walk(Table(sigs), i), Offset(sigs, i + 1);
            && o == Offset(sigs, i) && o + 8 <= |t| && e == o + AlignUp8(U32(t, o)) && e <= |t|
            && (e == |t| <==> i + 1 == |sigs|) && (o == 0 <==> i == 0)
  {
    hide Table, U32, AlignUp8, Walk;
    WalkIsOffset(sigs, i);
    OffsetZero(sigs);
    EntryFields(sigs, i);
    TableSplit(sigs, i);
    if i + 1 < |sigs| {
      TableSplit(sigs, i + 1);
    }
    if i > 0 {
      TableSplit(sigs, 0);
      OffsetMonotone(sigs, 1, i);
    }
  }

  // Removing signature i deletes exactly that one; i = n removes nothing.
  lemma RemoveIsWithout(sigs: seq<Bytes>, i: nat)
    requires sigs != [] && i <= |sigs| && Storable(sigs)
    ensures RemoveSig(Some(Table(sigs)), i) ==
            Removed(if i == |sigs| then Some(Table(sigs))
                    else if |sigs| == 1 then None else Some(Table(Without(sigs, i))))
  {
    hide Table, U32, AlignUp8, Walk, Offset, Storable;
    if i == |sigs| {
      WalkIsOffset(sigs, i);
      OffsetZero(sigs);
    } else {
      EntryBounds(sigs, i);
      RemoveExactly(Table(sigs), i);
      TableWithout(sigs, i);
      CutAtEnd(Table(sigs), Offset(sigs, i), Offset(sigs, i + 1));
    }
  }

  lemma CutAtEnd(t: Bytes, a: nat, b: nat)
    requires a <= b <= |t|
    ensures b == |t| ==> t[..a] + t[b..] == t[..a]
  {
  }
}
