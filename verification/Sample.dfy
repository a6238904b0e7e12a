/**
 * A small file that meets everything the rewrites rely on, and on which they succeed: the theorems
 * about executables, libraries and search paths are about something.
 */
module Sample {
  import opened Bytes
  import opened Options
  import opened Codec
  import opened ElfTypes
  import opened Rounding
  import opened Staging
  import opened Sorting
  import opened Elf
  import opened Links
  import opened Placement
  import opened Tables
  import opened Steps
  import opened Relayout
  import opened Layout
  import opened Memory
  import opened Parsing
  import opened Reparse
  import opened Outcomes
  import opened Congruence
  import opened RPath
  import opened RPathSteps
  import opened RPathRun

  const CFG := Config(Elf64, Little, false)
  const SHT_STRTAB := 3
  const SHT_DYNAMIC := 6
  const SHSTRTAB: Name := ".shstrtab"

  /** The names of the null section, .interp at 1, .dynamic at 9, .dynstr at 18 and .shstrtab at 26. */
  function Names(): (s: seq<Byte>)
    ensures |s| == 36 && s[35] == '\0'
  {
    ['\0'] + WithNul(INTERP) + WithNul(DYNAMIC) + WithNul(DYNSTR) + WithNul(SHSTRTAB)
  }

  const NULL_SHDR := Shdr(0, 0, 0, 0, 0, 0, 0, 0, 0, 0)
  const SHDRS := [NULL_SHDR,
                  Shdr(1, SHT_PROGBITS, 0, 0x400078, 120, 8, 0, 0, 1, 0),
                  Shdr(9, SHT_DYNAMIC, 0, 0x400080, 128, 48, 0, 0, 8, 16),
                  Shdr(18, SHT_STRTAB, 0, 0x4000b0, 176, 4, 0, 0, 1, 0),
                  Shdr(26, SHT_STRTAB, 0, 0x4000b8, 184, 36, 0, 0, 1, 0)]
  const PHDRS := [Phdr(PT_LOAD, PF_RW, 0, 0x400000, 0x400000, 544, 544, 4096)]

  /** The dynamic table: the strings, and the path "/a" among them. */
  const ENTRIES := [Dyn(DT_STRTAB, 0x4000b0), Dyn(DT_RUNPATH, 1)]
  const STRINGS: seq<Byte> := "\0/a\0"

  function Table(): (b: seq<Byte>)
    ensures |b| == 48
  {
    EncodeDyn(CFG, ENTRIES[0]) + EncodeDyn(CFG, ENTRIES[1]) + EncodeDyn(CFG, Dyn(DT_NULL, 0))
  }

  function Ident(): (s: seq<Byte>)
    ensures |s| == 16
  {
    ELFMAG + [ELFCLASS64, ELFDATA2LSB, EV_CURRENT] + Fill(9, '\0')
  }

  function Header(etype: nat): Ehdr {
    Ehdr(Ident(), etype, 62, 1, 0x400000, 64, 224, 0, 64, 56, 1, 64, 5, 4)
  }

  /** The bodies in their places, and a null section header at 224. */
  function Bodies(): (f: seq<Byte>)
    ensures |f| == 544
  {
    var f := Splice(Fill(544, '\0'), 224, EncodeShdr(CFG, NULL_SHDR));
    Splice(Splice(Splice(f, 128, Table()), 176, STRINGS), 184, Names())
  }

  function WithTables(f: seq<Byte>): (g: seq<Byte>)
    requires |f| == 544
    ensures |g| == 544
  {
    TableSizeIs(5, 64);
    TableSizeIs(1, 56);
    WritePhdrs(CFG, WriteShdrs(CFG, f, 224, SHDRS, 5), 64, PHDRS, 1)
  }

  /** Header, program header table, .interp from 120 on, .dynamic, .dynstr, .shstrtab, section header table. */
  function State(etype: nat): (e: Elf)
    requires etype < HALF
    ensures |e.file| == 544 && e.cfg == CFG
  {
    Elf(CFG, Names(), WithTables(WithHdr(CFG, Bodies(), Header(etype))), PHDRS, SHDRS)
  }

  // ----- what the file holds -----

  /** All that the proofs need to know of the state. */
  ghost predicate Shaped(e: Elf, etype: nat) {
    && etype < HALF && e.cfg == CFG && e.names == Names() && e.phdrs == PHDRS && e.shdrs == SHDRS
    && |e.file| == 544 && HdrAt(CFG, e.file) == Header(etype)
    && e.file[128..176] == Table() && e.file[176..180] == STRINGS && e.file[184..220] == Names()
    && HoldsShdrs(CFG, e.file, 224, SHDRS, 5)
  }

  lemma BodiesHold()
    ensures var f := Bodies();
            f[128..176] == Table() && f[176..180] == STRINGS && f[184..220] == Names()
            && f[224..288] == EncodeShdr(CFG, NULL_SHDR)
  {
    hide Table, EncodeShdr, Splice;
    var a := Splice(Fill(544, '\0'), 224, EncodeShdr(CFG, NULL_SHDR));
    var b := Splice(a, 128, Table());
    var c := Splice(b, 176, STRINGS);
    var d := Splice(c, 184, Names());
    assert d[128..176] == Table() && d[176..180] == STRINGS && d[184..220] == Names();
    assert d[224..288] == EncodeShdr(CFG, NULL_SHDR);
  }

  lemma TablesStored(f: seq<Byte>)
    requires |f| == 544 && f[224..288] == EncodeShdr(CFG, NULL_SHDR)
    ensures var g := WithTables(f);
            && (forall k :: 0 <= k < 64 || 120 <= k < 224 ==> g[k] == f[k])
            && HoldsPhdrs(CFG, g, 64, PHDRS, 1) && HoldsShdrs(CFG, g, 224, SHDRS, 5)
  {
    hide EncodeShdr, DecodeShdr, HoldsShdrs, HoldsPhdrs, WritePhdrs, WriteShdrs;
    assert Slot(224, 0, 64) == 224;
    ShdrRoundTrip(CFG, NULL_SHDR);
    assert HoldsShdr(CFG, f, 224, SHDRS, 0);
    WriteShdrsReads(CFG, f, 224, SHDRS, 5);
    var s := WriteShdrs(CFG, f, 224, SHDRS, 5);
    WritePhdrsReads(CFG, s, 64, PHDRS, 1);
    HoldsShdrsFrame(CFG, s, WithTables(f), 224, SHDRS, 5);
  }

  lemma SampleShaped(etype: nat)
    requires etype < HALF
    ensures Shaped(State(etype), etype) && PhdrsStored(State(etype))
  {
    hide Bodies, HdrAt, WithHdr, WithTables, HoldsShdrs, HoldsPhdrs, EncodeShdr;
    var b := Bodies();
    BodiesHold();
    var f := WithHdr(CFG, b, Header(etype));
    assert f[224..288] == b[224..288];
    TablesStored(f);
    var g := WithTables(f);
    assert g[..64] == f[..64];
    assert HdrAt(CFG, g) == HdrAt(CFG, f) by { SameFront(f, g); }
    assert g[128..176] == b[128..176] && g[176..180] == b[176..180] && g[184..220] == b[184..220];
  }

  lemma SameFront(f: seq<Byte>, g: seq<Byte>)
    requires |f| >= 64 && |g| >= 64 && f[..64] == g[..64]
    ensures HdrAt(CFG, g) == HdrAt(CFG, f)
  {
  }

  lemma NameBetween(a: seq<Byte>, name: Name, b: seq<Byte>)
    requires '\0' !in name
    ensures CString(a + WithNul(name) + b, |a|) == name
  {
    hide CString;
    var s := a + WithNul(name) + b;
    assert s[|a|..|a| + |name|] == name;
    CStringIs(s, |a|, name);
  }

  lemma SampleNames()
    ensures CString(Names(), 0) == [] && CString(Names(), 1) == INTERP && CString(Names(), 9) == DYNAMIC
    ensures CString(Names(), 18) == DYNSTR && CString(Names(), 26) == SHSTRTAB
    ensures INTERP != [] && DYNAMIC != [] && DYNSTR != [] && SHSTRTAB != []
    ensures INTERP != DYNAMIC && INTERP != DYNSTR && INTERP != SHSTRTAB
    ensures DYNAMIC != DYNSTR && DYNAMIC != SHSTRTAB && DYNSTR != SHSTRTAB
  {
    hide CString, WithNul;
    NamesDiffer();
    var none: seq<Byte> := [];
    var a: seq<Byte> := ['\0'];
    var b := a + WithNul(INTERP);
    var c := b + WithNul(DYNAMIC);
    var d := c + WithNul(DYNSTR);
    NameBetween(a, INTERP, WithNul(DYNAMIC) + WithNul(DYNSTR) + WithNul(SHSTRTAB));
    NameBetween(b, DYNAMIC, WithNul(DYNSTR) + WithNul(SHSTRTAB));
    NameBetween(c, DYNSTR, WithNul(SHSTRTAB));
    NameBetween(d, SHSTRTAB, none);
    assert Names() == b + (WithNul(DYNAMIC) + WithNul(DYNSTR) + WithNul(SHSTRTAB));
    assert Names() == c + (WithNul(DYNSTR) + WithNul(SHSTRTAB));
    assert Names() == d + WithNul(SHSTRTAB) == d + WithNul(SHSTRTAB) + none;
    assert Names()[0] == '\0' by { assert a[0] == '\0'; }
    NoName(Names());
  }

  lemma NamesDiffer()
    ensures INTERP != [] && DYNAMIC != [] && DYNSTR != [] && SHSTRTAB != []
    ensures INTERP != DYNAMIC && INTERP != DYNSTR && INTERP != SHSTRTAB
    ensures DYNAMIC != DYNSTR && DYNAMIC != SHSTRTAB && DYNSTR != SHSTRTAB
    ensures |INTERP| == 7 && |DYNAMIC| == 8 && |DYNSTR| == 7 && |SHSTRTAB| == 9
    ensures '\0' !in INTERP && '\0' !in DYNAMIC && '\0' !in DYNSTR && '\0' !in SHSTRTAB
  {
    assert INTERP[1] == 'i' && SHSTRTAB[1] == 's' && DYNAMIC[4] == 'a' && DYNSTR[4] == 's' && DYNSTR[1] == 'd';
  }

  lemma NoName(s: seq<Byte>)
    requires |s| > 0 && s[0] == '\0'
    ensures CString(s, 0) == []
  {
  }

  // ----- it is well formed -----

  /** The places of the tables and the bodies. */
  lemma SamplePlaces(e: Elf, etype: nat)
    requires Shaped(e, etype)
    ensures Counts(e) && TablesApart(e) && PhEnd(e) == 120 && ShEnd(e) == 544 && Hdr(e).phoff == 64
    ensures Hdr(e).shoff == 224
    ensures NullFirst(e.shdrs) && LinksInRange(e.shdrs) && NullStored(e) && ShdrsStored(e)
  {
    hide HdrAt, Table, HoldsShdr, Names;
  }

  lemma SampleDistinct(e: Elf, etype: nat)
    requires Shaped(e, etype)
    ensures DistinctNames(e.names, e.shdrs)
    ensures NameOf(e.names, e.shdrs[1]) == INTERP && NameOf(e.names, e.shdrs[2]) == DYNAMIC
    ensures NameOf(e.names, e.shdrs[3]) == DYNSTR && NameOf(e.names, e.shdrs[4]) == SHSTRTAB
    ensures Find(e.names, e.shdrs, INTERP) == 1 && Find(e.names, e.shdrs, DYNAMIC) == 2
    ensures Find(e.names, e.shdrs, DYNSTR) == 3
  {
    hide HdrAt, Table, HoldsShdrs, CString, Find, Names;
    SampleNames();
    assert NameOf(e.names, e.shdrs[0]) == [] && NameOf(e.names, e.shdrs[1]) == INTERP;
    assert NameOf(e.names, e.shdrs[2]) == DYNAMIC;
    assert NameOf(e.names, e.shdrs[3]) == DYNSTR && NameOf(e.names, e.shdrs[4]) == SHSTRTAB;
    FindUnique(e.names, e.shdrs, 1);
    FindUnique(e.names, e.shdrs, 2);
    FindUnique(e.names, e.shdrs, 3);
  }

  lemma SampleBodies(e: Elf, etype: nat)
    requires Shaped(e, etype) && PhEnd(e) == 120 && ShEnd(e) == 544 && Hdr(e).phoff == 64 && Hdr(e).shoff == 224
    ensures BodiesInFile(e) && BodiesDisjoint(e.shdrs)
  {
    hide HdrAt, Table, HoldsShdrs, PhEnd, ShEnd, Hdr, Names;
    forall i, k | 0 <= i < |e.shdrs| && InBody(e.shdrs[i], k)
      ensures (i == 1 && 120 <= k < 128) || (i == 2 && 128 <= k < 176)
           || (i == 3 && 176 <= k < 180) || (i == 4 && 184 <= k < 220)
    {
    }
  }

  lemma SampleWellFormed(e: Elf, etype: nat)
    requires Shaped(e, etype)
    ensures WellFormed(e)
  {
    hide HdrAt, Counts, TablesApart, NullFirst, LinksInRange, DistinctNames, PhEnd, ShEnd, Hdr, NullStored,
         ShdrsStored, BodiesInFile, BodiesDisjoint, Find, NameOf, Shaped;
    SamplePlaces(e, etype);
    SampleDistinct(e, etype);
    SampleBodies(e, etype);
  }

  lemma SampleDescribesItself(e: Elf, etype: nat)
    requires Shaped(e, etype) && (etype == ET_EXEC || etype == ET_DYN)
    ensures SelfDescribing(e) && Hdr(e).shstrndx == 4 && NamesSection(e) == NameOf(e.names, e.shdrs[4])
  {
    hide HdrAt, Table, HoldsShdrs, Names, NameOf;
    SampleIdent();
  }

  lemma SampleIdent()
    ensures ConfigOf(false, Ident()) == Some(CFG)
  {
    var i := Ident();
    assert i[..4] == ELFMAG;
    assert i[4] == ELFCLASS64 && i[5] == ELFDATA2LSB && i[6] == EV_CURRENT;
  }

  /** So the file parses to the state. */
  lemma SampleParses(etype: nat)
    requires etype == ET_EXEC || etype == ET_DYN
    ensures Parse(false, State(etype).file) == Some(State(etype))
  {
    hide State, Parse, PhdrsStored, Shaped;
    SampleShaped(etype);
    ShapedParses(State(etype), etype);
  }

  lemma ShapedParses(e: Elf, etype: nat)
    requires Shaped(e, etype) && PhdrsStored(e) && (etype == ET_EXEC || etype == ET_DYN)
    ensures Parse(false, e.file) == Some(e)
  {
    hide Parse, SelfDescribing, PhdrsStored, ShdrsStored, Table, HoldsShdrs, Names, HdrAt, Counts, TablesApart;
    SamplePlaces(e, etype);
    SampleDescribesItself(e, etype);
    ParseYields(e);
  }

  // ----- its dynamic table -----

  lemma EntryHere(b: seq<Byte>, i: nat, d: Dyn)
    requires (i + 1) * 16 <= |b| && b[i * 16..(i + 1) * 16] == EncodeDyn(CFG, d) && DynOk(CFG, d)
    ensures HoldsEntry(CFG, b, i, d)
  {
    hide DecodeDyn, EncodeDyn;
    DynRoundTrip(CFG, d);
    TableSizeIs(i, 16);
  }

  lemma SampleTable()
    ensures HoldsTable(CFG, Table(), ENTRIES) && SmallTags(ENTRIES)
  {
    hide DecodeDyn, EncodeDyn, DynEntry;
    var b, last := Table(), Dyn(DT_NULL, 0);
    assert b[0..16] == EncodeDyn(CFG, ENTRIES[0]) && b[16..32] == EncodeDyn(CFG, ENTRIES[1]);
    assert b[32..48] == EncodeDyn(CFG, last);
    EntryHere(b, 0, ENTRIES[0]);
    EntryHere(b, 1, ENTRIES[1]);
    EntryHere(b, 2, last);
  }

  lemma SampleDynamic(e: Elf, etype: nat)
    requires Shaped(e, etype)
    ensures DynamicReady(e, 2) && StringsOf(e) == STRINGS
    ensures Readable(e.file, e.shdrs[2]) && HoldsTable(e.cfg, BodyOf(e.file, e.shdrs[2]), ENTRIES)
    ensures TableResolves(e.cfg, e.names, e.shdrs, e.file, 128, 2)
  {
    hide HdrAt, Table, HoldsShdrs, HoldsTable, Names, Find, DynamicReady, EditFor;
    SampleTable();
    SampleDistinct(e, etype);
    assert BodyOf(e.file, e.shdrs[2]) == Table();
    TableReady(e, ENTRIES);
    forall i | 0 <= i < 2 ensures EntryFinds(e.cfg, e.names, e.shdrs, e.file, 128, i) {
      EntryInBody(e.cfg, e.file, e.shdrs[2], i);
      EntryIs(CFG, Table(), ENTRIES, i);
      SampleRules(e, ENTRIES[i].tag);
    }
  }

  lemma SampleRules(e: Elf, tag: nat)
    requires Find(e.names, e.shdrs, DYNSTR) == 3 && (tag == DT_STRTAB || tag == DT_RUNPATH)
    ensures !EditFor(e.names, e.shdrs, tag).Missing?
  {
    hide EditFor, Find;
    EditForTag(e.names, e.shdrs, tag, if tag == DT_STRTAB then 0 else |RULES|);
  }

  // ----- both layouts succeed on it -----

  lemma SampleStaged(e: Elf, etype: nat, rs: seq<Entry>, interpreter: seq<Byte>)
    requires Shaped(e, etype) && rs == [Entry(INTERP, interpreter)] && |interpreter| < 1000
    ensures StagedOk(e, rs) && !Has(rs, SHSTRTAB) && !Has(rs, DYNAMIC) && Has(rs, INTERP)
    ensures NobitsPast(e, rs) && OffsetsSmall(e) && AddressesAbove(e) && AddressesSmall(e.cfg, e.phdrs)
  {
    hide HdrAt, Table, HoldsShdrs, CString, Find, Names;
    SampleNames();
    SampleDistinct(e, etype);
    OneStaged(INTERP, interpreter);
  }

  lemma SampleSpace(e: Elf, etype: nat, rs: seq<Entry>, interpreter: seq<Byte>)
    requires Shaped(e, etype) && rs == [Entry(INTERP, interpreter)] && |interpreter| < 1000
    ensures Space(e.cfg, rs, 1) == Padded(|interpreter|, 8) && LastPage(e.cfg, e.phdrs, 1) < 0x500000
    ensures LibrarySpace(e, rs) < 2000
  {
    hide HdrAt, Table, HoldsShdrs, Padded, Names;
    assert Space(e.cfg, rs, 0) == 0;
    assert LastPage(e.cfg, e.phdrs, 0) == 0;
  }

  /** With any interpreter name staged, the file is ready for both layouts. */
  lemma SampleReady(e: Elf, etype: nat, rs: seq<Entry>, interpreter: seq<Byte>, maxSize: nat)
    requires Shaped(e, etype) && (etype == ET_EXEC || etype == ET_DYN) && 544 <= maxSize < 0x8000_0000
    requires rs == [Entry(INTERP, interpreter)] && |interpreter| < 1000
    ensures LibraryReady(e, rs, maxSize, 2) && ExecReady(e, rs, maxSize, 2)
    ensures SelfDescribing(e) && NamesFree(e, rs) && AllCongruent(e.cfg, e.phdrs)
  {
    hide WellFormed, NullStored, StagedOk, NobitsPast, OffsetsSmall, AddressesAbove, AddressesSmall, LibrarySpace,
         LastPage, AllCongruent, SelfDescribing, HdrAt, Counts, TablesApart, CString, Find, Names, Table, HoldsShdrs,
         DynamicReady, ShdrsStored;
    SamplePlaces(e, etype);
    SampleWellFormed(e, etype);
    SampleDescribesItself(e, etype);
    SampleStaged(e, etype, rs, interpreter);
    SampleSpace(e, etype, rs, interpreter);
    SampleDistinct(e, etype);
    SampleNames();
    SampleDynamic(e, etype);
    SampleCongruent();
  }

  lemma SampleCongruent()
    ensures AllCongruent(CFG, PHDRS)
  {
    ConfigPowers(CFG);
    assert 0x400000 - 0 == 1024 * 4096;
    assert Divides(4096, 0x400000 - 0);
  }

  /** Sorting the sections of this file leaves them where they are. */
  lemma SampleSorted(e: Elf, etype: nat, s: Elf, p: seq<nat>, inv: seq<nat>)
    requires Shaped(e, etype) && SortStep(e, s, p, inv)
    ensures Shaped(s, etype) && s.shdrs == e.shdrs
  {
    hide HdrAt, Table, Names, HoldsShdrs, WithHdr, SortedShdrs, NullFirst, LinksInRange, Counts;
    SamplePlaces(e, etype);
    OrderedStays(e.shdrs, s.shdrs, p, inv);
    SortSame(e, s, p, inv);
    assert s.file[128..176] == e.file[128..176] && s.file[176..180] == e.file[176..180];
    assert s.file[184..220] == e.file[184..220];
    HoldsShdrsFrame(CFG, e.file, s.file, 224, SHDRS, 5);
  }

  /** The scan ends at .dynamic, right behind .interp. */
  lemma SampleScan(e: Elf, etype: nat, rs: seq<Entry>, interpreter: seq<Byte>)
    requires Shaped(e, etype) && rs == [Entry(INTERP, interpreter)] && |interpreter| < 1000
    ensures LastStaged(e.names, e.shdrs, rs, 5) == 1 && Boundary(e.names, e.shdrs, 1, 1) == 2
    ensures BoundaryOk(e, rs) && ReadableBefore(e, 2) && StageUpTo(e, rs, 2) == rs
  {
    hide HdrAt, Table, HoldsShdrs, CString, Find, Names, Space, Padded;
    SampleStaged(e, etype, rs, interpreter);
    SampleDistinct(e, etype);
    SamplePlaces(e, etype);
    assert LastStaged(e.names, e.shdrs, rs, 5) == 1;
    assert Boundary(e.names, e.shdrs, 1, 1) == 2;
    assert StageUpTo(e, rs, 2) == rs;
  }

  lemma SampleResolves(e: Elf, etype: nat, rs: seq<Entry>, interpreter: seq<Byte>)
    requires Shaped(e, etype) && rs == [Entry(INTERP, interpreter)] && |interpreter| < 1000
    ensures StateResolves(e, rs, 2)
  {
    hide HdrAt, Table, HoldsShdrs, CString, Find, Names, TableResolves;
    SampleStaged(e, etype, rs, interpreter);
    SampleDynamic(e, etype);
    SampleDistinct(e, etype);
  }

  lemma SampleRoom(e: Elf, etype: nat, rs: seq<Entry>, interpreter: seq<Byte>, maxSize: nat)
    requires Shaped(e, etype) && rs == [Entry(INTERP, interpreter)] && |interpreter| < 1000 && 8000 <= maxSize
    ensures RoomFits(e, rs, 128, 0x400080, maxSize)
    ensures Padded(|e.file|, e.cfg.PageSize()) + LibrarySpace(e, rs) <= maxSize
    ensures ShiftFor(e, rs, 128) == if |interpreter| <= 8 then 0 else 4096
  {
    hide HdrAt, Table, HoldsShdrs, Names, Space, LibrarySpace, Padded;
    SampleSpace(e, etype, rs, interpreter);
    SampleShift(interpreter);
  }

  /** Both layouts succeed for a staged interpreter, the shift being at most a page. */
  lemma SampleFits(e: Elf, etype: nat, rs: seq<Entry>, interpreter: seq<Byte>, maxSize: nat)
    requires Shaped(e, etype) && rs == [Entry(INTERP, interpreter)] && |interpreter| < 1000 && 8000 <= maxSize
    ensures ExecFits(e, rs, maxSize, 2) && LibraryFits(e, rs, maxSize, 2)
    ensures ShiftFor(e, rs, 128) == if |interpreter| <= 8 then 0 else 4096
  {
    hide HdrAt, Table, Names, HoldsShdrs, LibrarySpace, Padded, StateResolves, LastStaged, Boundary, StageUpTo,
         BoundaryOk, RoomFits, ShiftFor, ReadableBefore;
    SampleScan(e, etype, rs, interpreter);
    SampleResolves(e, etype, rs, interpreter);
    SampleRoom(e, etype, rs, interpreter, maxSize);
  }

  lemma SampleShift(interpreter: seq<Byte>)
    requires |interpreter| < 1000
    ensures |interpreter| <= 8 ==> Padded(|interpreter|, 8) <= 8
    ensures |interpreter| > 8 ==> Padded(120 + Padded(|interpreter|, 8) + 56 - 128, 4096) == 4096
    ensures Padded(544, 4096) == 4096 && Padded(|interpreter|, 8) < 1008
  {
  }

  /**
   * The whole run succeeds, whatever the sort does: for libraries, and for executables, without a
   * shift up to 8 bytes of interpreter and with one above.
   */
  lemma SampleSucceeds(e: Elf, etype: nat, interpreter: seq<Byte>, maxSize: nat, o: Outcome)
    requires Shaped(e, etype) && (etype == ET_EXEC || etype == ET_DYN) && |interpreter| < 1000 && 8000 <= maxSize
    requires |e.file| >= e.cfg.EhdrSize() && SortRecorded(e, [Entry(INTERP, interpreter)], o)
    ensures Succeeds(e, [Entry(INTERP, interpreter)], maxSize, 2, o)
  {
    hide SortStep, ExecFits, LibraryFits, Shaped;
    var rs := [Entry(INTERP, interpreter)];
    SampleFits(e, etype, rs, interpreter, maxSize);
    ShapedType(e, etype);
    if etype == ET_EXEC {
      SampleSorted(e, etype, o.r.sorted, o.r.p, o.r.inv);
      SampleFits(o.r.sorted, etype, rs, interpreter, maxSize);
    }
  }

  lemma ShapedType(e: Elf, etype: nat)
    requires Shaped(e, etype)
    ensures |e.file| >= e.cfg.EhdrSize() && Hdr(e).etype == etype
  {
  }

  /** What the theorems on loading ask of an executable's segments holds of this layout, shifted or not. */
  lemma SampleMapped(e: Elf, etype: nat, x: ExecLayout)
    requires Shaped(e, etype) && x.startOffset == 128 && x.startAddr == 0x400080
    ensures MapsFront(e, x, PHDRS[0]) && FrontIsFirst(e, x) && SegmentsApart(e, x)
  {
  }

  // ----- and so does changing its path -----

  lemma SamplePath()
    ensures CString(STRINGS, 1) == "/a" && LastRPath(ENTRIES) == -1 && LastRunPath(ENTRIES) == 1
    ensures PathOf(ENTRIES, STRINGS) == Some("/a") && StrTabAddr(ENTRIES, 2) == 0x4000b0
    ensures StringsEnd(ENTRIES, STRINGS)
  {
    hide CString;
    assert STRINGS[1..3] == "/a";
    CStringIs(STRINGS, 1, "/a");
    LastTagIs(ENTRIES, DT_RUNPATH, 1);
    LastTagNone(ENTRIES, DT_RPATH);
  }

  /**
   * A run that sets any path, in place or in a grown .dynstr, with or without a new interpreter, may
   * start from this file.
   */
  lemma SamplePathReady(e: Elf, etype: nat, rs: seq<Entry>, interpreter: seq<Byte>, path: seq<Byte>, maxSize: nat)
    requires Shaped(e, etype) && PhdrsStored(e) && (etype == ET_EXEC || etype == ET_DYN)
    requires |interpreter| < 1000 && |path| < 1000 && 544 <= maxSize < 0x8000_0000
    requires rs == [] || rs == [Entry(INTERP, interpreter)]
    ensures PathRunReady(e, rs, ENTRIES, path, maxSize) && PathAllowed(e, ENTRIES) && ParsesAsIs(e)
    ensures StringsOf(e) == STRINGS && NeededKept(ENTRIES, STRINGS, path) && PathOf(ENTRIES, STRINGS) == Some("/a")
    ensures NoLonger(ENTRIES, STRINGS, path) <==> |path| <= 2
  {
    hide WellFormed, PathGrowReady, SelfDescribing, HdrAt, Counts, TablesApart, CString, Find, Names, Table,
         HoldsShdrs, HoldsTable, DynamicReady, ShdrsStored, PhdrsStored, LastTag, StringsEnd, NamesSection, NameOf,
         NeededKept, NoLonger, Leftover, PathOf;
    ShapedGrowReady(e, etype, rs, interpreter, path, maxSize);
    SamplePlaces(e, etype);
    SampleWellFormed(e, etype);
    SampleDescribesItself(e, etype);
    SampleDistinct(e, etype);
    SampleDynamic(e, etype);
    SampleNames();
    SampleTable();
    SamplePath();
    SampleKept(path);
    OnlyInterpreter(rs, interpreter);
  }

  lemma SampleKept(path: seq<Byte>)
    ensures NeededKept(ENTRIES, STRINGS, path) && (NoLonger(ENTRIES, STRINGS, path) <==> |path| <= 2)
  {
    hide CString, Leftover, Chosen;
    SamplePath();
  }

  lemma OnlyInterpreter(rs: seq<Entry>, interpreter: seq<Byte>)
    requires rs == [] || rs == [Entry(INTERP, interpreter)]
    ensures Sorted(rs) && !Has(rs, DYNAMIC) && !Has(rs, DYNSTR)
  {
    DynstrIsNotDynamic();
    InterpIsNotDynamic();
  }

  lemma ShapedGrowReady(e: Elf, etype: nat, rs: seq<Entry>, interpreter: seq<Byte>, path: seq<Byte>, maxSize: nat)
    requires Shaped(e, etype) && |interpreter| < 1000 && |path| < 1000 && 544 <= maxSize < 0x8000_0000
    requires rs == [] || rs == [Entry(INTERP, interpreter)]
    ensures PathGrowReady(e, rs, ENTRIES, path, maxSize)
  {
    hide WellFormed, NullStored, OffsetsSmall, AddressesAbove, AddressesSmall, LastPage, HdrAt, Counts, TablesApart,
         CString, Find, Names, Table, HoldsShdrs, HoldsTable, ShdrsStored, SmallTags, Padded, LastTag, DynamicReady;
    SamplePlaces(e, etype);
    SampleWellFormed(e, etype);
    SampleDynamic(e, etype);
    SampleTable();
    SamplePath();
    SampleStaged(e, etype, [Entry(INTERP, interpreter)], interpreter);
    SampleSpace(e, etype, [Entry(INTERP, interpreter)], interpreter);
    OnlyInterpreter(rs, interpreter);
  }
}
