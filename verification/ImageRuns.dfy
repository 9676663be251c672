// Every sequence of adding, removing, writing and reloading keeps the hashed bytes and the list of
// signatures; what is written carries the right checksum.
module ImageRuns {
  import opened Bytes
  import opened Endian
  import opened SigTable
  import opened PeLayout
  import opened PeFields
  import opened ImageRegions
  import opened ImageChecksum
  import opened ImageCycle

  // ---- the fields image_write stores ----

  lemma FieldAt(b: Bytes, o: nat, v: nat)
    requires o + 4 <= |b| && b[o..o + 4] == Le(v, 4)
    ensures v < U32S ==> U32(b, o) == v
  {
    hide LeNum, Le;
    Pow256s();
    if v < U32S {
      LeNumOfLe(v, 4);
    }
  }

  lemma StampedSame(data: Bytes, l: Layout, table: Bytes)
    requires l.checksum + 4 <= |data| && l.certDir + 8 <= |data|
    ensures SameHeaders(data, Stamped(data, l, table), l, |data|)
  {
    hide StoredChecksum, Le, CertEntry;
  }

  lemma StampedCert(data: Bytes, l: Layout, table: Bytes)
    requires l.checksum + 4 <= l.certDir && l.certDir + 8 <= |data| && |data| + |table| < U32S
    ensures var s := Stamped(data, l, table);
            && U32(s, l.certDir + 4) == |table| && (table != [] ==> U32(s, l.certDir) == |data|)
  {
    hide StoredChecksum, Le, LeNum, Overwrite;
    var s, e := Stamped(data, l, table), CertEntry(|data|, table);
    StampedSlices(data, l, table);
    if table == [] {
      LeZero(4);
      assert e[4..8] == Zeros(4);
      FieldAt(s, l.certDir + 4, 0);
    } else {
      assert e[0..4] == Le(|data|, 4) && e[4..8] == Le(|table|, 4);
      FieldAt(s, l.certDir, |data|);
      FieldAt(s, l.certDir + 4, |table|);
    }
  }

  lemma StampedSlices(data: Bytes, l: Layout, table: Bytes)
    requires l.checksum + 4 <= l.certDir && l.certDir + 8 <= |data|
    ensures var s, e := Stamped(data, l, table), CertEntry(|data|, table);
            s[l.certDir..l.certDir + 4] == e[0..4] && s[l.certDir + 4..l.certDir + 8] == e[4..8]
  {
    hide StoredChecksum, Le, CertEntry;
  }

  lemma {:induction false} LeZero(n: nat)
    ensures Le(0, n) == Zeros(n)
  {
    if n > 0 {
      LeZero(n - 1);
    }
  }

  // The checksum field of a written file, and the file but for that field.
  lemma WrittenValue(data: Bytes, l: Layout, table: Bytes)
    requires l.checksum + 4 <= l.certDir && l.certDir + 8 <= |data|
    ensures var d := Overwrite(data, l.certDir, CertEntry(|data|, table));
            var file := Stamped(data, l, table) + table;
            && U32(file, l.checksum) == StoredChecksum(d, l.checksum, table)
            && Cleared(file, l.checksum) == Cleared(d + table, l.checksum)
  {
    hide Fold, WordSum, Le, LeNum, CertEntry, PieceSum;
    var d := Overwrite(data, l.certDir, CertEntry(|data|, table));
    var v := StoredChecksum(d, l.checksum, table);
    var file := Stamped(data, l, table) + table;
    assert file[l.checksum..l.checksum + 4] == Le(v, 4);
    FieldAt(file, l.checksum, v);
  }

  // The checksum in a written file is the PE checksum of that file, if the field is word-aligned.
  lemma WrittenChecksum(data: Bytes, l: Layout, table: Bytes)
    requires l.checksum + 4 <= l.certDir && l.certDir + 8 <= |data| && |data| % 2 == 0 && l.checksum % 2 == 0
    ensures var file := Stamped(data, l, table) + table;
            U32(file, l.checksum) == PeChecksum(file, l.checksum)
  {
    hide Fold, WordSum, U32, CertEntry, Stamped, Cleared;
    WrittenValue(data, l, table);
    PieceSumIsFileSum(Overwrite(data, l.certDir, CertEntry(|data|, table)), l.checksum, table);
  }

  // For the whole family of files of one size it is, exactly if the field is word-aligned.
  lemma WrittenExactly(n: nat, l: Layout)
    requires l.checksum + 4 < l.certDir && l.certDir + 8 <= n && n % 2 == 0
    ensures (forall data: Bytes, table: Bytes | |data| == n ::
               U32(Stamped(data, l, table) + table, l.checksum) == PeChecksum(Stamped(data, l, table) + table, l.checksum))
       <==> l.checksum % 2 == 0
  {
    hide Fold, WordSum, U32, Stamped, PeChecksum;
    if l.checksum % 2 == 0 {
      forall data: Bytes, table: Bytes | |data| == n
        ensures U32(Stamped(data, l, table) + table, l.checksum) == PeChecksum(Stamped(data, l, table) + table, l.checksum)
      {
        WrittenChecksum(data, l, table);
      }
    } else {
      OddWritten(n, l);
    }
  }

  lemma OddWritten(n: nat, l: Layout)
    requires l.checksum + 4 < l.certDir && l.certDir + 8 <= n && n % 2 == 0 && l.checksum % 2 == 1
    ensures exists data: Bytes :: |data| == n &&
              U32(Stamped(data, l, []) + [], l.checksum) != PeChecksum(Stamped(data, l, []) + [], l.checksum)
  {
    hide WordSum, U32, Stamped, Cleared, Fold, PieceSum, OddWitness, PeChecksum;
    var data := OddWitness(n, l.checksum);
    OddWitnessDiffers(n, l.checksum);
    OddStored(n, l);
    SumsDiffer(Fold(PieceSum(data, l.checksum, [])), Fold(WordSum(Cleared(data, l.checksum))), n);
  }

  // The witness as written: what its field holds and what it should hold.
  lemma OddStored(n: nat, l: Layout)
    requires l.checksum + 4 < l.certDir && l.certDir + 8 <= n
    ensures var w := OddWitness(n, l.checksum);
            var file := Stamped(w, l, []) + [];
            && U32(file, l.checksum) == (Fold(PieceSum(w, l.checksum, [])) + n) % U32S
            && PeChecksum(file, l.checksum) == (Fold(WordSum(Cleared(w, l.checksum))) + n) % U32S
  {
    hide WordSum, U32, Stamped, Cleared, Fold, PieceSum, OddWitness, CertEntry;
    var data := OddWitness(n, l.checksum);
    WrittenValue(data, l, []);
    OddWitnessZero(n, l.checksum, l.certDir);
    assert data + [] == data;
  }

  lemma OddWitnessZero(n: nat, cs: nat, o: nat)
    requires cs + 4 < o && o + 8 <= n
    ensures Overwrite(OddWitness(n, cs), o, CertEntry(n, [])) == OddWitness(n, cs)
  {
  }

  lemma SumsDiffer(a: nat, b: nat, n: nat)
    requires a < 0x1_0000 && b < 0x1_0000 && a != b
    ensures (a + n) % U32S != (b + n) % U32S
  {
  }

  // ---- loading ----

  // The data size image_load finds in an unsigned file.
  function PaddedSize(file: Bytes, l: Layout): nat
    requires HeadersFit(l)
  {
    DataSize(FindRegions(l, 0, |file|))
  }

  // A well-formed unsigned file: the sections in any order, with or without gaps, but apart from the
  // headers and each other, and none beyond the end of the padded file.
  ghost predicate WellFormed(file: Bytes, l: Layout) {
    && ParseLayout(file) == Parsed(l) && Sound(l) && l.certDir + 8 <= |file| && U32(file, l.certDir + 4) == 0
    && Reach(l) <= PaddedSize(file, l)
  }

  // The file as image_load leaves it in the buffer.
  function Padded(file: Bytes, l: Layout): Bytes
    requires HeadersFit(l)
  {
    var n := PaddedSize(file, l);
    if |file| < n then Pad(file, n) else file
  }

  // Without gaps the sections never reach beyond it.
  lemma NoGapReaches(file: Bytes, l: Layout)
    requires Sound(l) && NoGap(l)
    ensures Reach(l) <= PaddedSize(file, l) == AlignUp8(if End(l) < |file| then |file| else End(l))
  {
    hide FindRegions, Reach, End, NoGap, Separate;
    ReachIsEnd(l);
    SoundRegions(l, 0, |file|);
  }

  // The padded file asks for no further padding.
  lemma PaddedSettles(file: Bytes, l: Layout)
    requires Sound(l) && Reach(l) <= PaddedSize(file, l)
    ensures var n := PaddedSize(file, l);
            |file| <= n == |Padded(file, l)| && DataSize(FindRegions(l, 0, n)) == n
  {
    hide FindRegions, Reach, End, Separate;
    ReachIsEnd(l);
    SoundRegions(l, 0, |file|);
    SoundRegions(l, 0, PaddedSize(file, l));
  }

  // One pass over data that is P up to the two fields, followed by the certificate table.
  lemma PassRepresents(b: Bytes, P: Bytes, l: Layout, sigs: seq<Bytes>)
    requires Original(P, l) && SameHeaders(P, b, l, |P|) && |P| <= |b|
    requires ReadCert(b, l) == Cert(|b| - |P|, if sigs == [] then None else Some(Table(sigs)))
    ensures LoadOnce(b).Loaded? && Represents(LoadOnce(b).img, P, l, sigs)
  {
    hide ParseLayout, ReadCert, FindRegions, Separate, Reach, Table, AlignUp8, Sort;
    var c := |b| - |P|;
    LayoutShapeOf(P);
    ParseStable(P, b);
    RegionsStay(l, c, |P|);
    SoundRegions(l, 0, |P|);
  }

  // A well-formed original loads as itself padded to a multiple of 8, with no signatures.
  lemma LoadOriginal(file: Bytes, l: Layout)
    requires WellFormed(file, l)
    ensures var P := Padded(file, l);
            && Original(P, l)
            && Load(file).Loaded? && Represents(Load(file).img, P, l, [])
  {
    hide ParseLayout, FindRegions, Separate, Reach, LeNum, DataSize, TotalSize;
    PaddedSettles(file, l);
    var n := PaddedSize(file, l);
    var P := Pad(file, n);
    PadNothing(file);
    LayoutShapeOf(file);
    PadSame(file, l, n);
    ParseStable(file, P);
    SoundRegions(l, 0, |file|);
    assert P[l.certDir + 4..l.certDir + 8] == file[l.certDir + 4..l.certDir + 8];
    assert U32(P, l.certDir + 4) == U32(file, l.certDir + 4) == 0;
    assert ReadCert(P, l) == Cert(0, None);
    PassRepresents(P, P, l, []);
    if n > |file| {
      assert LoadOnce(file).img.dataSize == n;
    }
  }

  lemma PadNothing(file: Bytes)
    ensures Pad(file, |file|) == file
  {
  }

  // The table follows the data of a written file and is found there again.
  lemma CertFound(D: Bytes, l: Layout, sigs: seq<Bytes>)
    requires l.certDir + 8 <= |D| && Storable(sigs) && 0 < |D|
    requires U32(D, l.certDir + 4) == |Table(sigs)| && (sigs != [] ==> U32(D, l.certDir) == |D|)
    ensures ReadCert(D + Table(sigs), l) == Cert(|Table(sigs)|, if sigs == [] then None else Some(Table(sigs)))
  {
    hide LeNum, Table;
    var t := Table(sigs);
    var b := D + t;
    assert b[l.certDir + 4..l.certDir + 8] == D[l.certDir + 4..l.certDir + 8];
    assert b[l.certDir..l.certDir + 4] == D[l.certDir..l.certDir + 4];
    if sigs == [] {
      TableNone();
    } else {
      EntryFields(sigs, 0);
      OffsetZero(sigs);
      assert b[|D|..|D| + 4] == t[0..4] && b[|D| + 4..|D| + 6] == t[4..6] && b[|D| + 6..|D| + 8] == t[6..8];
      assert b[|D|..|D| + |t|] == t;
    }
  }

  lemma SameTrans(a: Bytes, b: Bytes, c: Bytes, l: Layout, n: nat)
    requires SameHeaders(a, b, l, n) && SameHeaders(b[..n], c, l, n)
    ensures SameHeaders(a, c, l, n)
  {
  }

  // A file whose data is P, up to the two fields, followed by the table of the given signatures.
  ghost predicate Carries(b: Bytes, P: Bytes, l: Layout, sigs: seq<Bytes>) {
    && Original(P, l) && SameHeaders(P, b, l, |P|) && |P| <= |b| && l.certDir + 8 <= |b| && Storable(sigs)
    && ReadCert(b, l) == Cert(|b| - |P|, if sigs == [] then None else Some(Table(sigs)))
  }

  lemma CarriesLoads(b: Bytes, P: Bytes, l: Layout, sigs: seq<Bytes>)
    requires Carries(b, P, l, sigs)
    ensures Load(b).Loaded? && Represents(Load(b).img, P, l, sigs)
  {
    hide LoadOnce, Original, SameHeaders, ReadCert, Table, FindRegions;
    PassRepresents(b, P, l, sigs);
  }

  // What is written carries the signatures behind the data.
  lemma WrittenCarries(img: Img, P: Bytes, l: Layout, sigs: seq<Bytes>)
    requires Represents(img, P, l, sigs) && Original(P, l) && Storable(sigs)
    requires |P| + |Table(sigs)| < U32S
    ensures Writable(img) && Carries(Written(img), P, l, sigs)
  {
    hide ParseLayout, FindRegions, Separate, Reach, Table, Stamped, ReadCert, DataSize;
    var t := Table(sigs);
    TableNone();
    LayoutShapeOf(P);
    var data := img.buf[..|P|];
    var D := Stamped(data, l, t);
    StampedSame(data, l, t);
    StampedCert(data, l, t);
    SameTrans(P, img.buf, D, l, |P|);
    if sigs != [] {
      TableNonEmpty(sigs);
    }
    CertFound(D, l, sigs);
    SameTrans(P, D, D + t, l, |P|);
  }

  // Writing and loading again gives the same data and the same signatures.
  lemma WrittenReloads(img: Img, P: Bytes, l: Layout, sigs: seq<Bytes>)
    requires Represents(img, P, l, sigs) && Original(P, l) && Storable(sigs)
    requires |P| + |Table(sigs)| < U32S
    ensures Writable(img) && Load(Written(img)).Loaded? && Represents(Load(Written(img)).img, P, l, sigs)
  {
    hide Carries, Represents, Original, Written, Load, Table;
    WrittenCarries(img, P, l, sigs);
    CarriesLoads(Written(img), P, l, sigs);
  }

  // ---- runs ----

  datatype Op = Add(sig: Bytes) | Remove(i: nat) | Write | WriteAndReload

  function ListStep(sigs: seq<Bytes>, op: Op): seq<Bytes> {
    match op
    case Add(sig) => sigs + [sig]
    case Remove(i) => if i < |sigs| then Without(sigs, i) else sigs
    case Write => sigs
    case WriteAndReload => sigs
  }

  function ListRun(sigs: seq<Bytes>, ops: seq<Op>): seq<Bytes> {
    if ops == [] then sigs else ListStep(ListRun(sigs, ops[..|ops| - 1]), ops[|ops| - 1])
  }

  // The image that image_write leaves in memory: its two fields are stored there too.
  function AfterWrite(img: Img): Img
    requires Writable(img)
  {
    img.(buf := Stamped(img.buf[..img.dataSize], img.layout, TableOf(img.sigs)) + img.buf[img.dataSize..])
  }

  function Step(r: LoadResult, op: Op): LoadResult {
    if !r.Loaded? then r
    else
      match op
      case Add(sig) => Loaded(r.img.(sigs := AddSig(r.img.sigs, sig)))
      case Remove(i) =>
        (match RemoveSig(r.img.sigs, i)
         case Removed(table) => Loaded(r.img.(sigs := table))
         case NoMemory => Refused)
      case Write => if Writable(r.img) then Loaded(AfterWrite(r.img)) else Undefined
      case WriteAndReload => if Writable(r.img) then Load(Written(r.img)) else Undefined
  }

  function Run(r: LoadResult, ops: seq<Op>): LoadResult {
    if ops == [] then r else Step(Run(r, ops[..|ops| - 1]), ops[|ops| - 1])
  }

  // What the 32-bit fields can hold, and no removal beyond the end of the list.
  predicate OpFits(dataSize: nat, sigs: seq<Bytes>, op: Op) {
    match op
    case Add(sig) => |sig| < MAX_SIG
    case Remove(i) => i <= |sigs|
    case Write => dataSize + |Table(sigs)| < U32S
    case WriteAndReload => dataSize + |Table(sigs)| < U32S
  }

  predicate RunFits(dataSize: nat, sigs: seq<Bytes>, ops: seq<Op>) {
    forall k :: 0 <= k < |ops| ==> OpFits(dataSize, ListRun(sigs, ops[..k]), ops[k])
  }

  lemma RemoveKeeps(img: Img, P: Bytes, l: Layout, sigs: seq<Bytes>, i: nat)
    requires Represents(img, P, l, sigs) && Storable(sigs) && i <= |sigs|
    ensures var r := RemoveSig(img.sigs, i);
            r.Removed? && Represents(img.(sigs := r.table), P, l, ListStep(sigs, Remove(i)))
  {
    hide Table, FindRegions, Walk;
    if sigs != [] {
      RemoveIsWithout(sigs, i);
      if i < |sigs| {
        assert |Without(sigs, i)| == |sigs| - 1;
      }
    }
  }

  lemma WriteKeeps(img: Img, P: Bytes, l: Layout, sigs: seq<Bytes>)
    requires Represents(img, P, l, sigs) && Original(P, l)
    ensures Writable(img) && Represents(AfterWrite(img), P, l, sigs)
  {
    hide ParseLayout, FindRegions, Separate, Reach, Table, Stamped, DataSize;
    LayoutShapeOf(P);
    var data := img.buf[..|P|];
    var D := Stamped(data, l, TableOf(img.sigs));
    StampedSame(data, l, TableOf(img.sigs));
    SameTrans(P, img.buf, D, l, |P|);
    SameTrans(P, D, D + img.buf[|P|..], l, |P|);
  }

  lemma StepKeeps(img: Img, P: Bytes, l: Layout, sigs: seq<Bytes>, op: Op)
    requires Represents(img, P, l, sigs) && Original(P, l) && Storable(sigs) && OpFits(|P|, sigs, op)
    ensures var r := Step(Loaded(img), op);
            r.Loaded? && Represents(r.img, P, l, ListStep(sigs, op)) && Storable(ListStep(sigs, op))
  {
    hide Represents, Original, Load, Written, AfterWrite, RemoveSig, AddSig, Table;
    match op
    case Add(sig) => AddKeeps(img, P, l, sigs, sig);
    case Remove(i) => RemoveKeeps(img, P, l, sigs, i);
    case Write => WriteKeeps(img, P, l, sigs);
    case WriteAndReload => WrittenReloads(img, P, l, sigs);
  }

  // Every sequence of operations, from any list of signatures on.
  lemma {:induction false} RunKeeps(r: LoadResult, P: Bytes, l: Layout, sigs: seq<Bytes>, ops: seq<Op>)
    requires r.Loaded? && Represents(r.img, P, l, sigs) && Original(P, l) && Storable(sigs) && RunFits(|P|, sigs, ops)
    ensures var e := Run(r, ops);
            e.Loaded? && Represents(e.img, P, l, ListRun(sigs, ops)) && Storable(ListRun(sigs, ops))
  {
    hide Represents, Original, OpFits, Step, ListStep, Storable;
    if ops != [] {
      var i := ops[..|ops| - 1];
      assert forall k :: 0 <= k < |i| ==> i[..k] == ops[..k] && i[k] == ops[k];
      RunKeeps(r, P, l, sigs, i);
      StepKeeps(Run(r, i).img, P, l, ListRun(sigs, i), ops[|ops| - 1]);
    }
  }

  // What a run from the loaded image r ends with: the hashed bytes of P and the table of the list.
  ghost predicate Ends(r: LoadResult, P: Bytes, l: Layout, sigs: seq<Bytes>)
    requires HeadersFit(l)
  {
    && r.Loaded? && Hashed(r.img.buf, r.img.regions) == Hashed(P, FindRegions(l, 0, |P|))
    && r.img.sigs == (if sigs == [] then None else Some(Table(sigs)))
    && Decode(TableOf(r.img.sigs)) == sigs
  }

  lemma RunEnds(r: LoadResult, P: Bytes, l: Layout, sigs: seq<Bytes>, ops: seq<Op>)
    requires r.Loaded? && Represents(r.img, P, l, sigs) && Original(P, l) && Storable(sigs) && RunFits(|P|, sigs, ops)
    ensures HeadersFit(l) && Ends(Run(r, ops), P, l, ListRun(sigs, ops))
  {
    hide Original, Run, Hashed, ListRun, RunFits, Table, Decode, FindRegions, Storable;
    RunKeeps(r, P, l, sigs, ops);
    RepresentsHash(Run(r, ops).img, P, l, ListRun(sigs, ops));
    DecodeTable(ListRun(sigs, ops));
    TableNone();
  }

  // The main result, gaps or not. From a well-formed unsigned file, after any sequence of operations:
  // the hashed bytes are those hashed of the padded original, and the signature buffer is the table
  // of exactly the signatures added and not removed.
  lemma SigningKeepsHash(file: Bytes, l: Layout, ops: seq<Op>)
    requires WellFormed(file, l) && RunFits(PaddedSize(file, l), [], ops)
    ensures Original(Padded(file, l), l) && Ends(Run(Load(file), ops), Padded(file, l), l, ListRun([], ops))
  {
    hide Original, Load, Run, Ends, ListRun, RunFits, WellFormed, Table, Padded, PaddedSize;
    WellFormedPads(file, l);
    LoadOriginal(file, l);
    RunEnds(Load(file), Padded(file, l), l, [], ops);
  }

  lemma WellFormedPads(file: Bytes, l: Layout)
    requires WellFormed(file, l)
    ensures HeadersFit(l) && PaddedSize(file, l) == |Padded(file, l)|
  {
    PaddedSettles(file, l);
  }

  // The same from a file that carries signatures already, as any written file does.
  lemma SigningAgainKeepsHash(file: Bytes, P: Bytes, l: Layout, sigs: seq<Bytes>, ops: seq<Op>)
    requires Carries(file, P, l, sigs) && RunFits(|P|, sigs, ops)
    ensures HeadersFit(l) && Ends(Run(Load(file), ops), P, l, ListRun(sigs, ops))
  {
    hide Original, Load, Run, Ends, ListRun, RunFits, Table, ReadCert;
    CarriesLoads(file, P, l, sigs);
    RunEnds(Load(file), P, l, sigs, ops);
  }

  // Without gaps, they are the padded original without the checksum and the certificate entry.
  lemma SigningPreservesHash(file: Bytes, l: Layout, ops: seq<Op>)
    requires WellFormed(file, l) && NoGap(l) && RunFits(PaddedSize(file, l), [], ops)
    ensures var P := Padded(file, l);
            var e := Run(Load(file), ops);
            e.Loaded? && Hashed(e.img.buf, e.img.regions) == Skip(P, l, |P|)
  {
    hide Original, Load, Run, Hashed, Skip, ListRun, RunFits, WellFormed, FindRegions, Padded, PaddedSize, NoGap, Table, Decode;
    WellFormedPads(file, l);
    SigningKeepsHash(file, l, ops);
    OriginalHash(Padded(file, l), l);
  }

  // ---- from the file alone ----

  // What a well-formed file is loaded as: its own bytes and zeros up to the next multiple of 8 of its size,
  // or of where its sections end if that is further on.
  lemma LoadedBytes(file: Bytes, l: Layout)
    requires WellFormed(file, l)
    ensures var m := if End(l) < |file| then |file| else Reach(l);
            && |file| <= m && Load(file).Loaded?
            && Load(file).img.buf == file + seq((m + 7) / 8 * 8 - |file|, _ => 0)
  {
    hide ParseLayout, FindRegions, Separate, Reach, Load, LeNum, DataSize;
    LoadOriginal(file, l);
    LoadedIsPadded(file);
    PaddedSettles(file, l);
    ReachIsEnd(l);
    SoundRegions(l, 0, |file|);
    var b := Load(file).img.buf;
    assert |b| == PaddedSize(file, l);
    assert b == b[..|file|] + b[|file|..];
  }

  // Without gaps, after every sequence of operations: the hashed bytes are those of the file without the
  // checksum and the certificate entry, followed by these zeros.
  lemma SignedFileHash(file: Bytes, l: Layout, ops: seq<Op>)
    requires WellFormed(file, l) && NoGap(l)
    requires RunFits(((if End(l) < |file| then |file| else End(l)) + 7) / 8 * 8, [], ops)
    ensures var m := if End(l) < |file| then |file| else End(l);
            var e := Run(Load(file), ops);
            && l.checksum + 4 <= l.certDir && l.certDir + 8 <= |file| && e.Loaded?
            && Hashed(e.img.buf, e.img.regions) ==
               file[..l.checksum] + file[l.checksum + 4..l.certDir] + file[l.certDir + 8..]
               + seq((m + 7) / 8 * 8 - |file|, _ => 0)
  {
    hide ParseLayout, FindRegions, Separate, Reach, Load, Run, Hashed, NoGap, ListRun, RunFits, Decode, Table, End;
    LayoutShapeOf(file);
    NoGapReaches(file, l);
    PaddedSettles(file, l);
    SigningPreservesHash(file, l, ops);
    SkipPadded(file, l, PaddedSize(file, l));
  }

  lemma SkipPadded(file: Bytes, l: Layout, n: nat)
    requires l.checksum + 4 <= l.certDir && l.certDir + 8 <= |file| <= n
    ensures Skip(Pad(file, n), l, n) ==
            file[..l.checksum] + file[l.checksum + 4..l.certDir] + file[l.certDir + 8..] + seq(n - |file|, _ => 0)
  {
    var p := Pad(file, n);
    assert p[..l.checksum] == file[..l.checksum] && p[l.checksum + 4..l.certDir] == file[l.checksum + 4..l.certDir];
    assert p[l.certDir + 8..n] == file[l.certDir + 8..] + seq(n - |file|, _ => 0);
  }

  // An image of 1001 bytes whose headers take 512 and whose only section takes the rest is such a file, and
  // is loaded with seven zeros behind it.
  lemma SmallImage(b: Bytes)
    requires |b| == 1001 && HasNum(b, 300, 0, 4)
    requires Says(b, 128, 0x8664, 152, Layout(216, 296, 512, [Section(512, 489)], 344))
    ensures var l := Layout(216, 296, 512, [Section(512, 489)], 344);
            WellFormed(b, l) && NoGap(l) && Load(b).Loaded? && Load(b).img.buf == b + [0, 0, 0, 0, 0, 0, 0]
  {
    hide ParseLayout, FindRegions, Load, LeNum, Says, Sort, SectionRegions, TotalSize, HasNum;
    var l := Layout(216, 296, 512, [Section(512, 489)], 344);
    ParseExactly(b, l);
    NumIs(b, 300, 0, 4);
    OneSection(l.sections[0]);
    TotalNone();
    assert Sorted(l)[..0] == [];
    NoGapReaches(b, l);
    LoadedBytes(b, l);
    var z: Bytes := seq(7, _ => 0);
    assert z == [0, 0, 0, 0, 0, 0, 0];
  }

  // Adding a signature, writing and loading, and removing it again is a fitting sequence as long as the
  // 32-bit fields hold the sizes.
  lemma SomeRunFits(n: nat, sig: Bytes)
    requires n + |sig| + 15 < U32S
    ensures RunFits(n, [], [Add(sig), WriteAndReload, Remove(0)])
  {
    hide Table;
    var ops := [Add(sig), WriteAndReload, Remove(0)];
    assert ops[..0] == [] && ops[..1] == [Add(sig)] && ops[..2] == [Add(sig), WriteAndReload];
    ListRunNext([], [], Add(sig));
    ListRunNext([], [Add(sig)], WriteAndReload);
    assert [] + [sig] == [sig] && [] + [Add(sig)] == [Add(sig)];
    assert [Add(sig)] + [WriteAndReload] == ops[..2];
    TableOne(sig);
  }

  lemma ListRunNext(sigs: seq<Bytes>, ops: seq<Op>, op: Op)
    ensures ListRun(sigs, ops + [op]) == ListStep(ListRun(sigs, ops), op) && ListRun(sigs, []) == sigs
  {
    assert (ops + [op])[..|ops|] == ops;
  }
}
