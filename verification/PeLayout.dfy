// image_pecoff_parse of apps/src/image.c: what the PE/COFF headers say about where the checksum,
// the certificate directory entry and the sections are.
module PeLayout {
  import opened Bytes
  import opened Endian
  import opened SigTable

  datatype Section = Section(off: nat, size: nat)

  // Offsets of the checksum field and of the certificate entry of the data directory, SizeOfHeaders
  // and the section table.
  datatype Layout = Layout(checksum: nat, certDir: nat, headerSize: nat, sections: seq<Section>, tableEnd: nat)

  // Invalid is the error return; Outside marks a read beyond the buffer, which the code does not
  // guard against.
  datatype Parse = Parsed(layout: Layout) | Invalid | Outside

  const DOS_HDR := 128
  const PE_HDR := 24
  const SCN_HDR := 40

  function SectionAt(b: Bytes, o: nat): Section
    requires o + SCN_HDR <= |b|
  {
    Section(U32(b, o + 20), U32(b, o + 16))
  }

  function Sections(b: Bytes, o: nat, n: nat): (s: seq<Section>)
    requires o + n * SCN_HDR <= |b|
    ensures |s| == n
    decreases n
  {
    if n == 0 then [] else Sections(b, o, n - 1) + [SectionAt(b, o + (n - 1) * SCN_HDR)]
  }

  // Size of the optional header before the data directory, or 0 for a foreign machine type.
  function MinOptHdr(magic: nat): nat {
    if magic in {0x8664, 0xaa64, 0x5064} then 112 else if magic in {0x014c, 0x01c2} then 96 else 0
  }

  function ParseLayout(b: Bytes): Parse {
    if |b| < DOS_HDR then Invalid
    else if b[0] != 0x4d || b[1] != 0x5a then Invalid
    else
      var addr := U32(b, 60);
      if addr >= |b| then Invalid
      else if addr + PE_HDR > |b| then Invalid
      else if b[addr..addr + 4] != [0x50, 0x45, 0, 0] then Invalid
      else ParseOptional(b, addr)
  }

  // From the a.out header, which follows the PE header, on.
  function ParseOptional(b: Bytes, addr: nat): Parse
    requires addr + PE_HDR <= |b|
  {
    var opt := addr + PE_HDR;
    var min := MinOptHdr(U16(b, addr + 4));
    if min == 0 then Invalid
    else if opt + 2 > |b| then Outside
    else if b[opt] != 0x0b || b[opt + 1] != (if min == 112 then 2 else 1) then Invalid
    else
      var optSize := U16(b, addr + 20);
      if optSize < min + 40 then Invalid
      else if |b| < DOS_HDR + PE_HDR + optSize then Invalid
      else
        var scn := opt + optSize;
        var n := U16(b, addr + 6);
        if scn + n * SCN_HDR > |b| then Outside
        else Parsed(Layout(opt + 64, opt + min + 32, U32(b, opt + 60), Sections(b, scn, n), scn + n * SCN_HDR))
  }

  // ---- signing does not touch what parsing reads ----

  // Agreement up to n except on the checksum field and the certificate entry.
  ghost predicate SameHeaders(b: Bytes, c: Bytes, l: Layout, n: nat) {
    && n <= |b| && n <= |c|
    && forall i :: 0 <= i < n && !(l.checksum <= i < l.checksum + 4) && !(l.certDir <= i < l.certDir + 8) ==> b[i] == c[i]
  }

  lemma SameU(b: Bytes, c: Bytes, l: Layout, n: nat, o: nat, k: nat)
    requires SameHeaders(b, c, l, n) && o + k <= n
    requires o + k <= l.checksum || l.checksum + 4 <= o
    requires o + k <= l.certDir || l.certDir + 8 <= o
    ensures b[o..o + k] == c[o..o + k]
  {
  }

  lemma {:induction false} SameSections(b: Bytes, c: Bytes, l: Layout, o: nat, n: nat, k: nat)
    requires SameHeaders(b, c, l, n) && o + k * SCN_HDR <= n
    requires l.checksum + 4 <= o && l.certDir + 8 <= o
    ensures Sections(b, o, k) == Sections(c, o, k)
    decreases k
  {
    hide LeNum;
    if k > 0 {
      SameSections(b, c, l, o, n, k - 1);
      var e := o + (k - 1) * SCN_HDR;
      SameU(b, c, l, n, e + 16, 4);
      SameU(b, c, l, n, e + 20, 4);
    }
  }

  lemma LayoutShape(b: Bytes)
    requires ParseLayout(b).Parsed?
    ensures var l := ParseLayout(b).layout;
            && 88 <= l.checksum && l.checksum + 4 < l.certDir
            && l.certDir + 8 + SCN_HDR * |l.sections| <= l.tableEnd <= |b|
            && l.certDir <= l.checksum + 80
  {
    hide LeNum, Sections;
  }

  // Another buffer with the same headers, and at least as much room, parses to the same layout.
  lemma ParseStable(b: Bytes, c: Bytes)
    requires ParseLayout(b).Parsed?
    requires SameHeaders(b, c, ParseLayout(b).layout, ParseLayout(b).layout.tableEnd)
    requires |c| >= |b|
    ensures ParseLayout(c) == ParseLayout(b)
  {
    hide LeNum, Sections;
    LayoutShape(b);
    var l := ParseLayout(b).layout;
    var n := l.tableEnd;
    var addr := U32(b, 60);
    var opt := addr + PE_HDR;
    SameU(b, c, l, n, 0, 2);
    assert b[0] == b[0..2][0] && b[1] == b[0..2][1] && c[0] == c[0..2][0] && c[1] == c[0..2][1];
    SameU(b, c, l, n, 60, 4);
    SameU(b, c, l, n, addr, 4);
    SameU(b, c, l, n, addr + 4, 2);
    SameU(b, c, l, n, addr + 6, 2);
    SameU(b, c, l, n, addr + 20, 2);
    SameU(b, c, l, n, opt, 2);
    assert b[opt] == b[opt..opt + 2][0] && b[opt + 1] == b[opt..opt + 2][1];
    assert c[opt] == c[opt..opt + 2][0] && c[opt + 1] == c[opt..opt + 2][1];
    SameU(b, c, l, n, opt + 60, 4);
    SameSections(b, c, l, opt + U16(b, addr + 20), n, U16(b, addr + 6));
  }
}
