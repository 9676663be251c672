// The headers of a PE/COFF image written down as what stands at which offset, and the proof that parsing
// reads back exactly that.
module PeFields {
  import opened Bytes
  import opened Endian
  import opened SigTable
  import opened PeLayout

  // The bytes s stand at o.
  ghost predicate Has(b: Bytes, o: nat, s: Bytes) {
    o + |s| <= |b| && b[o..o + |s|] == s
  }

  // The number v stands at o in k bytes, little-endian.
  ghost predicate HasNum(b: Bytes, o: nat, v: nat, k: nat) {
    v < Pow256(k) && Has(b, o, Le(v, k))
  }

  // The machine types with a 64-bit optional header, and those with a 32-bit one.
  predicate Wide(machine: nat) {
    machine == 0x8664 || machine == 0xaa64 || machine == 0x5064
  }

  predicate Narrow(machine: nat) {
    machine == 0x014c || machine == 0x01c2
  }

  // The DOS header with the offset addr of the PE header, its signature, the machine type, the size of
  // the optional header and its magic number.
  ghost predicate SaysHeader(b: Bytes, addr: nat, machine: nat, optSize: nat) {
    && |b| >= 128 && Has(b, 0, [0x4d, 0x5a]) && HasNum(b, 60, addr, 4)
    && Has(b, addr, [0x50, 0x45, 0, 0]) && HasNum(b, addr + 4, machine, 2) && HasNum(b, addr + 20, optSize, 2)
    && (Wide(machine) || Narrow(machine)) && Has(b, addr + 24, [0x0b, if Wide(machine) then 2 else 1])
    && optSize >= (if Wide(machine) then 152 else 136) && 152 + optSize <= |b|
  }

  // The section header at o: size and file offset behind 16 other bytes, of 40 in all.
  ghost predicate SaysSection(b: Bytes, o: nat, s: Section) {
    o + 40 <= |b| && HasNum(b, o + 16, s.size, 4) && HasNum(b, o + 20, s.off, 4)
  }

  // All headers: the size of the headers, and the section headers right behind the optional header. The
  // checksum and the certificate entry are where the optional header has them.
  ghost predicate Says(b: Bytes, addr: nat, machine: nat, optSize: nat, l: Layout) {
    && SaysHeader(b, addr, machine, optSize)
    && l.tableEnd == addr + 24 + optSize + 40 * |l.sections| <= |b|
    && HasNum(b, addr + 6, |l.sections|, 2) && HasNum(b, addr + 84, l.headerSize, 4)
    && l.checksum == addr + 88 && l.certDir == addr + (if Wide(machine) then 168 else 152)
    && forall i :: 0 <= i < |l.sections| ==> SaysSection(b, addr + 24 + optSize + 40 * i, l.sections[i])
  }

  // ---- single fields ----

  lemma NumIs(b: Bytes, o: nat, v: nat, k: nat)
    ensures HasNum(b, o, v, k) <==> o + k <= |b| && LeNum(b[o..o + k]) == v
  {
    hide Le, LeNum, Pow256;
    if o + k <= |b| {
      LeOfNum(b[o..o + k]);
      LeNumBound(b[o..o + k]);
    }
    if v < Pow256(k) {
      LeNumOfLe(v, k);
    }
  }

  lemma {:induction false} SectionsAt(b: Bytes, o: nat, n: nat, i: nat)
    requires o + n * 40 <= |b| && i < n
    ensures o + i * 40 + 40 <= o + n * 40 && Sections(b, o, n)[i] == SectionAt(b, o + i * 40)
    decreases n
  {
    hide SectionAt;
    if i < n - 1 {
      SectionsAt(b, o, n - 1, i);
    }
  }

  lemma SectionIs(b: Bytes, o: nat, s: Section)
    ensures SaysSection(b, o, s) <==> o + 40 <= |b| && SectionAt(b, o) == s
  {
    hide HasNum, LeNum;
    NumIs(b, o + 16, s.size, 4);
    NumIs(b, o + 20, s.off, 4);
  }

  // ---- the round trip ----

  // What the checks of ParseLayout make sure of.
  ghost predicate Checked(b: Bytes, addr: nat, machine: nat, optSize: nat) {
    && |b| >= 128 && b[0] == 0x4d && b[1] == 0x5a && addr == U32(b, 60)
    && addr + 26 <= |b| && b[addr..addr + 4] == [0x50, 0x45, 0, 0]
    && machine == U16(b, addr + 4) && optSize == U16(b, addr + 20) && MinOptHdr(machine) != 0
    && b[addr + 24] == 0x0b && b[addr + 25] == (if MinOptHdr(machine) == 112 then 2 else 1)
    && optSize >= MinOptHdr(machine) + 40 && 152 + optSize <= |b|
  }

  lemma HeaderIsChecked(b: Bytes, addr: nat, machine: nat, optSize: nat)
    ensures SaysHeader(b, addr, machine, optSize) <==> Checked(b, addr, machine, optSize)
  {
    hide HasNum, LeNum;
    NumIs(b, 60, addr, 4);
    NumIs(b, addr + 4, machine, 2);
    NumIs(b, addr + 20, optSize, 2);
    TwoBytes(b, 0, 0x4d, 0x5a);
    TwoBytes(b, addr + 24, 0x0b, if Wide(machine) then 2 else 1);
  }

  lemma TwoBytes(b: Bytes, o: nat, x: byte, y: byte)
    ensures Has(b, o, [x, y]) <==> o + 2 <= |b| && b[o] == x && b[o + 1] == y
  {
  }

  // The section headers say exactly the sections that are read.
  lemma SectionsAre(b: Bytes, o: nat, s: seq<Section>)
    requires o + 40 * |s| <= |b|
    ensures (forall i :: 0 <= i < |s| ==> SaysSection(b, o + 40 * i, s[i])) <==> Sections(b, o, |s|) == s
  {
    hide SectionAt, SaysSection, Sections;
    forall i | 0 <= i < |s| ensures SaysSection(b, o + 40 * i, s[i]) <==> Sections(b, o, |s|)[i] == s[i] {
      SectionsAt(b, o, |s|, i);
      SectionIs(b, o + 40 * i, s[i]);
    }
  }

  // The layout behind headers that pass the checks.
  ghost predicate Behind(b: Bytes, addr: nat, machine: nat, optSize: nat, l: Layout)
    requires addr + 26 <= |b| && 152 + optSize <= |b|
  {
    && U16(b, addr + 6) == |l.sections| && l.tableEnd == addr + 24 + optSize + 40 * |l.sections| <= |b|
    && Sections(b, addr + 24 + optSize, |l.sections|) == l.sections
    && addr + 88 <= |b| && U32(b, addr + 84) == l.headerSize
    && l.checksum == addr + 88 && l.certDir == addr + (if Wide(machine) then 168 else 152)
  }

  lemma SaysIs(b: Bytes, addr: nat, machine: nat, optSize: nat, l: Layout)
    ensures Says(b, addr, machine, optSize, l) <==>
            Checked(b, addr, machine, optSize) && Behind(b, addr, machine, optSize, l)
  {
    hide SaysHeader, SaysSection, HasNum, LeNum, Sections;
    HeaderIsChecked(b, addr, machine, optSize);
    NumIs(b, addr + 6, |l.sections|, 2);
    NumIs(b, addr + 84, l.headerSize, 4);
    if addr + 24 + optSize + 40 * |l.sections| <= |b| {
      SectionsAre(b, addr + 24 + optSize, l.sections);
    }
  }

  lemma CheckedParses(b: Bytes, addr: nat, machine: nat, optSize: nat, l: Layout)
    requires Checked(b, addr, machine, optSize)
    ensures ParseLayout(b) == Parsed(l) <==> Behind(b, addr, machine, optSize, l)
  {
    hide LeNum, Sections;
  }

  lemma ParsedIsChecked(b: Bytes)
    requires ParseLayout(b).Parsed?
    ensures |b| >= 64 && var addr := U32(b, 60);
            addr + 24 <= |b| && Checked(b, addr, U16(b, addr + 4), U16(b, addr + 20))
  {
    hide LeNum, Sections;
  }

  // The main result: an image parses to a layout exactly if its headers say so.
  lemma ParseExactly(b: Bytes, l: Layout)
    ensures ParseLayout(b) == Parsed(l) <==> exists addr, machine, optSize :: Says(b, addr, machine, optSize, l)
  {
    hide ParseLayout, Says, Checked, Behind;
    if ParseLayout(b) == Parsed(l) {
      ParsedIsChecked(b);
      var addr := U32(b, 60);
      var machine, optSize := U16(b, addr + 4), U16(b, addr + 20);
      CheckedParses(b, addr, machine, optSize, l);
      SaysIs(b, addr, machine, optSize, l);
      assert Says(b, addr, machine, optSize, l);
    }
    if exists addr, machine, optSize :: Says(b, addr, machine, optSize, l) {
      var addr, machine, optSize :| Says(b, addr, machine, optSize, l);
      SaysIs(b, addr, machine, optSize, l);
      CheckedParses(b, addr, machine, optSize, l);
    }
  }

  // Reading beyond the buffer is what is left undefined: the magic number behind the PE header, or the
  // section headers.
  lemma OutsideExactly(b: Bytes)
    ensures ParseLayout(b) == Outside <==>
            && |b| >= 128 && b[0] == 0x4d && b[1] == 0x5a
            && var addr := LeNum(b[60..64]);
            && addr + 24 <= |b| && b[addr..addr + 4] == [0x50, 0x45, 0, 0]
            && var machine, n := LeNum(b[addr + 4..addr + 6]), LeNum(b[addr + 6..addr + 8]);
            && var optSize := LeNum(b[addr + 20..addr + 22]);
            && (Wide(machine) || Narrow(machine))
            && (addr + 26 > |b|
                || (&& b[addr + 24] == 0x0b && b[addr + 25] == (if Wide(machine) then 2 else 1)
                    && optSize >= (if Wide(machine) then 152 else 136) && 152 + optSize <= |b|
                    && addr + 24 + optSize + 40 * n > |b|))
  {
    hide LeNum, Sections;
  }
}
