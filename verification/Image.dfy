// struct image of apps/src/image.c and the calls that update it in place.
module Image {
  import opened Bytes
  import opened Errno
  import opened Endian
  import opened SigTable
  import opened PeLayout
  import opened ImageRegions
  import opened ImageChecksum
  import opened ImageCycle
  import opened XorOps

  class Image {
    var buf: array<byte>
    var layout: Layout
    var cert_table_size: nat
    var checksum_regions: seq<Region>
    var data_size: nat
    // sigbuf is null while there is no signature; sigsize is what of it is in use.
    var sigbuf: array?<byte>
    var sigsize: nat

    constructor (image_buf: array<byte>)
      ensures buf == image_buf && sigbuf == null && sigsize == 0
    {
      buf, layout, cert_table_size, checksum_regions, data_size := image_buf, Layout(0, 0, 0, [], 0), 0, [], 0;
      sigbuf, sigsize := null, 0;
    }

    ghost predicate Valid()
      reads this
    {
      sigbuf != buf && (sigbuf == null ==> sigsize == 0) && (sigbuf != null ==> sigsize <= sigbuf.Length)
    }

    ghost function Sigs(): Option<Bytes>
      requires Valid()
      reads this, sigbuf
    {
      if sigbuf == null then None else Some(sigbuf[..sigsize])
    }

    ghost function Abs(): Img
      requires Valid()
      reads this, buf, sigbuf
    {
      Img(buf[..], layout, cert_table_size, checksum_regions, data_size, Sigs())
    }

    // ---- the regions ----

    // image_find_regions
    method FindRegions()
      requires Valid() && HeadersFit(layout)
      modifies this`checksum_regions, this`data_size
      ensures checksum_regions == ImageRegions.FindRegions(layout, cert_table_size, buf.Length)
      ensures checksum_regions != [] && data_size == DataSize(checksum_regions)
    {
      hide Sort, TotalSize, SectionRegions;
      checksum_regions := HeaderRegions(layout);
      HeaderTotal(layout);
      var bytes := layout.headerSize;
      var i := 0;
      EmptySections(layout.sections);
      while i < |layout.sections|
        invariant i <= |layout.sections|
        invariant checksum_regions == HeaderRegions(layout) + SectionRegions(layout.sections[..i])
        invariant bytes == layout.headerSize + TotalSize(SectionRegions(layout.sections[..i]))
      {
        NextSection(layout.sections, i);
        var s := layout.sections[i];
        if s.size != 0 {
          checksum_regions := checksum_regions + [Region(s.off, s.size)];
          bytes := bytes + s.size;
        }
        i := i + 1;
      }
      assert layout.sections[..i] == layout.sections;
      SortNonEmpty(layout);
      checksum_regions := Sort(checksum_regions);
      if bytes + cert_table_size < buf.Length {
        checksum_regions := checksum_regions + [Region(bytes, buf.Length - bytes - cert_table_size)];
      }
      var r := checksum_regions[|checksum_regions| - 1];
      data_size := AlignUp8(r.data + r.size);
    }

    // ---- loading ----

    // image_pecoff_parse: the layout and, if there is one, a shadow copy of the certificate table.
    method Parse() returns (ret: int)
      requires Valid() && LoadOnce(buf[..]) != Undefined
      modifies this
      ensures buf == old(buf) && ret == if LoadOnce(buf[..]) == Refused then -1 else 0
      ensures ret == 0 ==>
                && Valid() && HeadersFit(layout) && ParseLayout(buf[..]) == Parsed(layout) && layout.certDir + 8 <= buf.Length
                && var c := ReadCert(buf[..], layout);
                && c.Cert? && cert_table_size == c.size
                && (if c.sigs == None then sigbuf == old(sigbuf) && sigsize == old(sigsize)
                    else sigbuf != null && fresh(sigbuf) && Sigs() == c.sigs)
    {
      hide ParseLayout, LeNum, ImageRegions.FindRegions;
      var b := buf[..];
      var p := ParseLayout(b);
      if p == Invalid {
        return -1;
      }
      layout := p.layout;
      var size, addr := U32(b, layout.certDir + 4), U32(b, layout.certDir);
      cert_table_size := size;
      if size != 0 && U16(b, addr + 4) == REVISION && U16(b, addr + 6) == TYPE_PKCS && U32(b, addr) < |b| {
        CopyTable(addr, size);
      }
      ret := 0;
    }

    // The malloc and memcpy of sigbuf.
    method CopyTable(addr: nat, size: nat)
      requires 0 < size && addr + size <= buf.Length
      modifies this`sigbuf, this`sigsize
      ensures Valid() && sigbuf != null && fresh(sigbuf) && Sigs() == Some(buf[addr..addr + size])
    {
      ghost var b := buf[..];
      sigbuf := new byte[size](i requires 0 <= i < size && addr + size <= buf.Length reads this, buf => buf[addr + i]);
      sigsize := size;
      assert sigbuf[..sigsize] == buf[addr..addr + size];
    }

    // One pass over buf.
    method Pass() returns (ret: int)
      requires Valid() && LoadOnce(buf[..]) != Undefined
      requires sigbuf == null || (ParseLayout(buf[..]).Parsed? && HasCert(buf[..]))
      modifies this
      ensures buf == old(buf) && ret == if LoadOnce(buf[..]) == Refused then -1 else 0
      ensures ret == 0 ==> Valid() && LoadOnce(buf[..]) == Loaded(Abs())
      ensures ret == 0 ==> sigbuf == null || HasCert(buf[..])
    {
      hide ParseLayout, LeNum, ImageRegions.FindRegions, ReadCert;
      ret := Parse();
      if ret != 0 {
        return;
      }
      FindRegions();
    }

    // The zero-padded copy of the original image that the second pass works on.
    method PadBuffer(image_buf: array<byte>)
      requires Valid() && buf == image_buf && image_buf.Length < data_size
      modifies this`buf
      ensures Valid() && fresh(buf) && buf[..] == Pad(image_buf[..], data_size)
    {
      var tmp := new byte[data_size](_ => 0);
      forall i | 0 <= i < image_buf.Length {
        tmp[i] := image_buf[i];
      }
      buf := tmp;
    }

    // image_load
    method Load(image_buf: array<byte>) returns (ret: int)
      requires ImageCycle.Load(image_buf[..]) != Undefined && LoadOnce(image_buf[..]) != Undefined
      modifies this
      ensures ret == if ImageCycle.Load(image_buf[..]).Loaded? then 0 else -1
      ensures ret == 0 ==> Valid() && Abs() == ImageCycle.Load(image_buf[..]).img
      ensures ret == 0 ==>
                && image_buf.Length <= buf.Length && buf[..image_buf.Length] == image_buf[..]
                && data_size <= buf.Length && forall k :: image_buf.Length <= k < buf.Length ==> buf[k] == 0
    {
      hide LoadOnce, Pad, HasCert;
      ghost var file := image_buf[..];
      buf := image_buf;
      sigbuf, sigsize := null, 0;
      var again := false;
      while true
        invariant Valid() && image_buf[..] == file
        invariant !again ==> buf == image_buf && sigbuf == null
        invariant again ==> LoadOnce(file).Loaded? && LoadOnce(file).img.dataSize > |file|
                            && buf[..] == Pad(file, LoadOnce(file).img.dataSize)
                            && (sigbuf == null || (ParseLayout(buf[..]).Parsed? && HasCert(buf[..])))
        decreases !again
      {
        ret := Pass();
        if ret != 0 {
          return;
        }
        if data_size <= buf.Length {
          LoadedIsPadded(file);
          return;
        }
        if again {
          SecondPassFits(file);
          assert false;
        }
        HasCertStays(file);
        PadBuffer(image_buf);
        again := true;
      }
    }

    // ---- the signature table ----

    // image_add_signature
    method AddSignature(sig: array<byte>, n: nat)
      requires Valid() && n <= sig.Length
      modifies this`sigbuf, this`sigsize
      ensures Valid() && fresh(sigbuf) && Sigs() == AddSig(old(Sigs()), sig[..n])
    {
      hide Header, AlignUp8, Overwrite;
      var tot_size := n + HEADER;
      var aligned_size := AlignUp8(tot_size);
      ghost var t := TableOf(Sigs());
      var tmp := new byte[sigsize + aligned_size](_ => 0);
      ghost var z := tmp[..];
      if sigbuf == null {
        OverwriteNone(z, 0);
      } else {
        Store(tmp, 0, sigbuf[..sigsize]);
      }
      assert tmp[..] == Overwrite(z, 0, t);
      var start := sigsize;
      Store(tmp, start, Header(n));
      OverwriteNext(z, 0, t, Header(n));
      Store(tmp, start + HEADER, sig[..n]);
      OverwriteNext(z, 0, t + Header(n), sig[..n]);
      Store(tmp, start + HEADER + n, Zeros(aligned_size - tot_size));
      OverwriteNext(z, 0, t + Header(n) + sig[..n], Zeros(aligned_size - tot_size));
      OverwriteAll(z, t + Header(n) + sig[..n] + Zeros(aligned_size - tot_size));
      AppendEntry(t, sig[..n]);
      sigbuf, sigsize := tmp, sigsize + aligned_size;
      assert sigbuf[..sigsize] == tmp[..];
    }

    // image_get_signature: offset and size of signature signum within sigbuf.
    method GetSignature(signum: nat) returns (ret: int, off: nat, size: nat)
      requires Valid() && (sigbuf != null ==> InBounds(sigbuf[..sigsize], signum))
      ensures ret == if sigbuf == null || Walk(sigbuf[..sigsize], signum) >= sigsize then -61 else 0
      ensures ret == 0 ==>
                var t := sigbuf[..sigsize];
                var o := Walk(t, signum);
                off == o + HEADER && o + HEADER <= |t| && size == (U32(t, o) + SIZE_T - HEADER) % SIZE_T
    {
      off, size := 0, 0;
      if sigbuf == null {
        return -ENODATA, 0, 0;
      }
      hide LeNum, AlignUp8;
      var t := sigbuf[..sigsize];
      var addr := 0;
      var i := 0;
      while i < signum
        invariant i <= signum && addr == Walk(t, i)
      {
        assert InBoundsAt(t, i);
        addr := addr + AlignUp8(U32(t, addr));
        i := i + 1;
      }
      if addr >= sigsize {
        return -ENODATA, 0, 0;
      }
      ret, off, size := 0, addr + HEADER, (U32(t, addr) + SIZE_T - HEADER) % SIZE_T;
    }

    // The memmove over an entry in the middle.
    method MoveDown(start: nat, n: nat)
      requires Valid() && sigbuf != null && start + n < sigsize
      modifies sigbuf
      ensures sigbuf[..sigsize - n] == old(sigbuf[..start]) + old(sigbuf[start + n..sigsize])
    {
      forall i | start <= i < sigsize - n {
        sigbuf[i] := sigbuf[i + n];
      }
    }

    // The copy of the first n bytes into a buffer of their own.
    method Truncate(n: nat)
      requires Valid() && sigbuf != null && n <= sigsize
      modifies this`sigbuf, this`sigsize
      ensures Valid() && sigbuf != null && fresh(sigbuf) && sigsize == n && sigbuf[..n] == old(sigbuf[..n])
    {
      ghost var was := sigbuf[..n];
      var tmp := new byte[n](_ => 0);
      Store(tmp, 0, sigbuf[..n]);
      assert tmp[..] == was;
      sigbuf, sigsize := tmp, n;
      assert sigbuf[..n] == tmp[..];
    }

    // The entry at start removed: moved over if it is not at the end, and then its aligned size taken
    // off the end. Where that is more than there is, the size wraps and the copy cannot be allocated.
    method CutOut(start: nat, aligned_size: nat) returns (ret: int)
      requires Valid() && sigbuf != null && start < sigsize && aligned_size < SIZE_T
      modifies this`sigbuf, this`sigsize, sigbuf
      ensures var t := old(sigbuf[..sigsize]);
              if start + aligned_size < |t| then ret == 0 && Kept(Some(t[..start] + t[start + aligned_size..]))
              else if start == 0 then ret == 0 && Kept(None)
              else if aligned_size <= |t| then ret == 0 && Kept(Some(t[..|t| - aligned_size]))
              else ret == -12 && sigbuf == old(sigbuf) && sigsize == |t| + SIZE_T - aligned_size
      ensures sigbuf == null || sigbuf == old(sigbuf) || fresh(sigbuf)
    {
      ghost var t := sigbuf[..sigsize];
      if start + aligned_size >= sigsize {
        if start == 0 {
          sigbuf, sigsize := null, 0;
          return 0;
        }
        if aligned_size > sigsize {
          sigsize := sigsize + SIZE_T - aligned_size;
          return -ENOMEM;
        }
        assert t[..sigsize - aligned_size] == sigbuf[..sigsize - aligned_size];
      } else {
        assert sigbuf[..start] == t[..start] && sigbuf[start + aligned_size..sigsize] == t[start + aligned_size..];
        MoveDown(start, aligned_size);
      }
      Truncate(sigsize - aligned_size);
      ret := 0;
    }

    ghost predicate Kept(t: Option<Bytes>)
      reads this, sigbuf
    {
      Valid() && Sigs() == t
    }

    // image_remove_signature
    method RemoveSignature(signum: nat) returns (ret: int)
      requires Valid() && (sigbuf != null ==> InBounds(sigbuf[..sigsize], signum))
      modifies this`sigbuf, this`sigsize, sigbuf
      ensures sigbuf == null || sigbuf == old(sigbuf) || fresh(sigbuf)
      ensures match RemoveSig(old(Sigs()), signum)
              case Removed(table) =>
                && Kept(table)
                && ret == (if old(sigbuf) == null || old(Walk(sigbuf[..sigsize], signum) >= sigsize) then -61 else 0)
              case NoMemory =>
                var t := old(sigbuf[..sigsize]);
                var o := Walk(t, signum);
                && ret == -12 && sigbuf == old(sigbuf) && o + 4 <= |t|
                && sigsize == |t| + SIZE_T - AlignUp8(U32(t, o))
    {
      var off, size;
      ret, off, size := GetSignature(signum);
      if ret != 0 {
        return;
      }
      hide U32, AlignUp8, Walk, RemoveSig;
      ghost var t := sigbuf[..sigsize];
      SizeBack(t, off - HEADER);
      RemoveCases(t, signum);
      var start := off - HEADER;
      ret := CutOut(start, AlignUp8((size + HEADER) % SIZE_T));
    }

    // The enumeration of apps/src/sbsign.c: count up until there is no signature. It ends because no
    // header of size zero is reached, and on a table of signatures has counted them.
    method CountSignatures() returns (i: nat)
      requires Valid() && (sigbuf != null ==> Walkable(sigbuf[..sigsize]) && !ZeroReached(sigbuf[..sigsize]))
      ensures sigbuf == null ==> i == 0
      ensures sigbuf != null ==>
                var t := sigbuf[..sigsize];
                Walk(t, i) >= |t| && forall j :: 0 <= j < i ==> Walk(t, j) < |t|
      ensures forall sigs :: Storable(sigs) && Sigs() == (if sigs == [] then None else Some(Table(sigs))) ==> i == |sigs|
    {
      hide Table, Walk, U32, Walkable, ZeroReached, InBounds, Storable;
      i := 0;
      ghost var t := TableOf(Sigs());
      while true
        invariant sigbuf == null ==> i == 0
        invariant sigbuf != null ==> forall j :: 0 <= j < i ==> Walk(t, j) < |t|
        decreases |t| - Walk(t, i)
      {
        if sigbuf != null {
          WalkableInBounds(t, i);
        }
        var ret, off, size := GetSignature(i);
        if ret != 0 {
          CountIsLength(t, i);
          return;
        }
        WalkableAdvances(t, i);
        i := i + 1;
      }
    }

    // ---- writing ----

    // image_pecoff_update_checksum
    method UpdateChecksum()
      requires Valid() && data_size <= buf.Length && layout.checksum + 4 <= data_size
      requires data_size < U32S && sigsize < U32S
      modifies buf
      ensures Valid() && sigbuf == old(sigbuf) && Sigs() == old(Sigs())
      ensures var d := old(buf[..data_size]);
              buf[..] == Overwrite(old(buf[..]), layout.checksum, Le(StoredChecksum(d, layout.checksum, TableOf(Sigs())), 4))
    {
      hide Fold, WordSum, Le, Overwrite;
      var cs := layout.checksum;
      ghost var d, t := buf[..data_size], TableOf(Sigs());
      FoldZero();
      var checksum := CsumBytes(0, buf, 0, cs, 0);
      checksum := CsumBytes(checksum, buf, cs + 4, data_size - (cs + 4), WordSum(buf[0..cs]));
      assert buf[0..cs] == d[..cs] && buf[cs + 4..cs + 4 + (data_size - (cs + 4))] == d[cs + 4..];
      if sigbuf != null && sigsize > 0 {
        checksum := CsumBytes(checksum, sigbuf, 0, sigsize, WordSum(d[..cs]) + WordSum(d[cs + 4..]));
        assert sigbuf[0..0 + sigsize] == t;
      } else {
        EmptySum();
      }
      checksum := (checksum + data_size) % U32S;
      if sigbuf != null && sigsize > 0 {
        checksum := (checksum + sigsize) % U32S;
      }
      WrapTwice(Fold(PieceSum(d, cs, t)) + data_size, |t|);
      ghost var b0, sig0 := buf[..], Sigs();
      Store(buf, cs, Le(checksum, 4));
      assert Sigs() == sig0;
    }

    // image_write: out is what goes to the file.
    method Write() returns (out: Bytes)
      requires Valid() && Writable(Abs()) && data_size + sigsize < U32S
      modifies buf
      ensures Valid() && out == Written(old(Abs()))
      ensures buf[..] == Stamped(old(buf[..data_size]), layout, TableOf(old(Sigs()))) + old(buf[data_size..])
      ensures Sigs() == old(Sigs())
    {
      hide StoredChecksum, Le, Overwrite;
      ghost var b0, t := buf[..], TableOf(Sigs());
      ghost var d := b0[..data_size];
      if sigbuf != null && sigsize > 0 {
        Store(buf, layout.certDir, Le(data_size, 4) + Le(sigsize, 4));
      } else {
        Store(buf, layout.certDir, Zeros(8));
      }
      assert buf[..] == Overwrite(b0, layout.certDir, CertEntry(data_size, t));
      OverwritePrefix(b0, layout.certDir, CertEntry(data_size, t), data_size);
      ghost var b1 := buf[..];
      UpdateChecksum();
      OverwritePrefix(b1, layout.checksum, Le(StoredChecksum(b1[..data_size], layout.checksum, t), 4), data_size);
      out := buf[..data_size];
      if sigbuf != null && sigsize > 0 {
        out := out + sigbuf[..sigsize];
      }
    }
  }

  lemma FoldZero()
    ensures Fold(0) == 0
  {
  }

  lemma WrapTwice(a: nat, b: nat)
    ensures (a % U32S + b) % U32S == (a + b) % U32S
  {
  }

  // An overwrite within the first n bytes.
  lemma OverwritePrefix(s: Bytes, off: nat, d: Bytes, n: nat)
    requires off + |d| <= n <= |s|
    ensures Overwrite(s, off, d) == Overwrite(s[..n], off, d) + s[n..]
    ensures Overwrite(s, off, d)[..n] == Overwrite(s[..n], off, d)
  {
  }

  lemma AppendEntry(t: Bytes, sig: Bytes)
    ensures t + Header(|sig|) + sig + Zeros(AlignUp8(|sig| + HEADER) - (|sig| + HEADER)) == t + Entry(sig)
  {
    hide Header, AlignUp8;
  }

  lemma RemoveCases(t: Bytes, i: nat)
    requires Walk(t, i) + HEADER <= |t|
    ensures var o := Walk(t, i);
            var n := AlignUp8(U32(t, o));
            && n < SIZE_T
            && RemoveSig(Some(t), i) ==
               if o + n < |t| then Removed(Some(t[..o] + t[o + n..]))
               else if o == 0 then Removed(None)
               else if n > |t| then NoMemory
               else Removed(Some(t[..|t| - n]))
  {
    hide AlignUp8, Walk, LeNum;
    var o := Walk(t, i);
    LeNumBound(t[o..o + 4]);
    Pow256s();
  }

  const SIZE_T: nat := 0x1_0000_0000_0000_0000

  ghost predicate InBoundsAt(t: Bytes, i: nat) {
    Walk(t, i) + HEADER <= |t|
  }

  // The walk to signature n reads only headers that lie in the table.
  ghost predicate InBounds(t: Bytes, n: nat) {
    (forall i :: 0 <= i < n ==> InBoundsAt(t, i)) && (Walk(t, n) < |t| ==> InBoundsAt(t, n))
  }

  lemma SizeBack(t: Bytes, o: nat)
    requires o + HEADER <= |t|
    ensures ((U32(t, o) + SIZE_T - HEADER) % SIZE_T + HEADER) % SIZE_T == U32(t, o)
  {
    hide LeNum;
    LeNumBound(t[o..o + 4]);
    Pow256s();
  }

  lemma WalkableInBounds(t: Bytes, n: nat)
    requires Walkable(t) && forall j :: 0 <= j < n ==> Walk(t, j) < |t|
    ensures InBounds(t, n)
  {
    hide Walk;
  }

  lemma WalkableAdvances(t: Bytes, i: nat)
    requires Walkable(t) && !ZeroReached(t) && Walk(t, i) < |t|
    ensures Walk(t, i + 1) > Walk(t, i)
  {
    hide Walk, U32;
    WalkStep(t, i);
  }

  // Counting on a table of signatures ends at their number.
  lemma CountIsLength(t: Bytes, i: nat)
    ensures Walk(t, i) >= |t| && (forall j :: 0 <= j < i ==> Walk(t, j) < |t|) ==>
              forall sigs :: Storable(sigs) && t == Table(sigs) ==> i == |sigs|
  {
    hide Walk, Table, Storable;
    if Walk(t, i) >= |t| && forall j :: 0 <= j < i ==> Walk(t, j) < |t| {
      forall sigs | Storable(sigs) && t == Table(sigs) ensures i == |sigs| {
        TableWalkEnds(sigs, i);
      }
    }
  }

  lemma TableWalkEnds(sigs: seq<Bytes>, i: nat)
    requires Storable(sigs) && Walk(Table(sigs), i) >= |Table(sigs)|
    requires forall j :: 0 <= j < i ==> Walk(Table(sigs), j) < |Table(sigs)|
    ensures i == |sigs|
  {
    hide Walk, Table, U32, U16;
    WalkIsOffset(sigs, |sigs|);
    OffsetZero(sigs);
    if i < |sigs| {
      WalkIsOffset(sigs, i);
      EntryFields(sigs, i);
    }
  }

  // The table of RemoveCutsPrevious is one that image_remove_signature walks within bounds.
  lemma CutTableInBounds()
    ensures InBounds(Header(0) + Header(1) + [0x77], 1)
  {
    RemoveCutsPrevious();
    var t := Header(0) + Header(1) + [0x77];
    assert Walk(t, 0) == 0;
    forall i | 0 <= i < 1 ensures InBoundsAt(t, i) {
    }
  }

  lemma TableInBoundsAt(sigs: seq<Bytes>, i: nat)
    requires Storable(sigs) && i < |sigs|
    ensures InBoundsAt(Table(sigs), i)
  {
    hide Table, Walk, U32, U16;
    WalkIsOffset(sigs, i);
    EntryFields(sigs, i);
  }

  lemma TableInBounds(sigs: seq<Bytes>, n: nat)
    requires Storable(sigs) && n <= |sigs|
    ensures InBounds(Table(sigs), n)
  {
    hide Table, Walk, InBoundsAt, Storable;
    forall i | 0 <= i <= n && i < |sigs| ensures InBoundsAt(Table(sigs), i) {
      TableInBoundsAt(sigs, i);
    }
    WalkIsOffset(sigs, n);
    OffsetZero(sigs);
  }

  // Signature i of a table is what the offset and size of image_get_signature delimit.
  lemma NthSignature(sigs: seq<Bytes>, i: nat)
    requires Storable(sigs) && i < |sigs|
    ensures var t, o := Table(sigs), Walk(Table(sigs), i);
            && o + HEADER <= |t| && o < |t|
            && var size := (U32(t, o) + SIZE_T - HEADER) % SIZE_T;
            o + HEADER + size <= |t| && t[o + HEADER..o + HEADER + size] == sigs[i]
  {
    hide Table, Walk;
    WalkIsOffset(sigs, i);
    EntryFields(sigs, i);
  }

  // A certificate table is found in b.
  ghost predicate HasCert(b: Bytes) {
    match ParseLayout(b)
    case Parsed(l) => l.certDir + 8 <= |b| && ReadCert(b, l).Cert? && ReadCert(b, l).sigs.Some?
    case _ => false
  }

  lemma HasCertStays(file: Bytes)
    requires LoadOnce(file).Loaded? && LoadOnce(file).img.dataSize > |file|
    ensures var p := Pad(file, LoadOnce(file).img.dataSize);
            ParseLayout(p).Parsed? && (HasCert(file) ==> HasCert(p))
  {
    hide ParseLayout, ImageRegions.FindRegions, ReadCert, LeNum;
    var i := LoadOnce(file).img;
    LayoutShapeOf(file);
    PadSame(file, i.layout, i.dataSize);
    ParseStable(file, Pad(file, i.dataSize));
    if HasCert(file) {
      CertStays(file, i.layout, i.dataSize);
    }
  }

  lemma EmptySections(s: seq<Section>)
    ensures SectionRegions(s[..0]) == [] && TotalSize([]) == 0
  {
  }

  lemma NextSection(s: seq<Section>, i: nat)
    requires i < |s|
    ensures SectionRegions(s[..i + 1]) ==
            SectionRegions(s[..i]) + if s[i].size == 0 then [] else [Region(s[i].off, s[i].size)]
    ensures TotalSize(SectionRegions(s[..i + 1])) == TotalSize(SectionRegions(s[..i])) + s[i].size
  {
    hide TotalSize;
    assert s[..i + 1][..i] == s[..i];
    assert SectionRegions(s[..i]) + [] == SectionRegions(s[..i]);
    if s[i].size != 0 {
      TotalAppend(SectionRegions(s[..i]), [Region(s[i].off, s[i].size)]);
      TotalOne(Region(s[i].off, s[i].size));
    }
  }
}
