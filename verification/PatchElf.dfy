/** The rewriter itself (patchelf.cc: class ElfFile), over one growable buffer. */
module PatchElf {
  import opened Bytes
  import opened Options
  import opened Codec
  import opened ElfTypes
  import opened Staging
  import opened Sorting
  import opened Elf
  import opened Links
  import opened Rounding
  import opened Placement
  import opened Tables
  import opened Steps
  import opened Relayout
  import opened Layout
  import opened Memory
  import opened Agreement
  import opened Loading
  import opened Congruence
  import opened Parsing
  import opened Reparse
  import opened Outcomes
  import opened RPath
  import opened RPathSteps
  import opened RPathRun
  import opened Shrink

  class ElfFile {
    const cfg: Config
    var contents: array<Byte>
    var fileSize: nat
    var maxSize: nat
    var phdrs: seq<Phdr>
    var shdrs: seq<Shdr>
    var sectionNames: seq<Byte>
    var replacedSections: seq<Entry>
    var changed: bool
    var neededLibs: seq<seq<Byte>>

    /** readFile: the file at the front of a buffer that has room for maxSize bytes. */
    constructor (c: Config, file: seq<Byte>, max: nat)
      requires |file| <= max
      ensures Valid() && fresh(contents) && cfg == c && File() == file && maxSize == max
      ensures phdrs == [] && shdrs == [] && sectionNames == [] && replacedSections == [] && !changed && neededLibs == []
    {
      cfg := c;
      contents := new Byte[max](i => if 0 <= i < |file| then file[i] else '\0');
      fileSize := |file|;
      maxSize := max;
      phdrs, shdrs, sectionNames := [], [], [];
      replacedSections, changed, neededLibs := [], false, [];
    }

    predicate Valid()
      reads this
    {
      fileSize <= maxSize <= contents.Length
    }

    function File(): seq<Byte>
      requires Valid()
      reads this, contents
    {
      contents[..fileSize]
    }

    /** The state as a value. */
    function State(): Elf
      requires Valid()
      reads this, contents
    {
      Elf(cfg, sectionNames, File(), phdrs, shdrs)
    }

    // ----- the buffer -----

    /** memcpy into the file; memset and memmove are the same with other blocks. */
    method Write(off: nat, b: seq<Byte>)
      requires Valid() && off + |b| <= fileSize
      modifies contents
      ensures File() == Splice(old(File()), off, b)
    {
      forall i | 0 <= i < |b| {
        contents[off + i] := b[i];
      }
    }

    method WriteHdr(h: Ehdr)
      requires Valid() && fileSize >= cfg.EhdrSize() && EhdrOk(cfg, h)
      modifies contents
      ensures File() == WithHdr(cfg, old(File()), h)
    {
      Write(0, EncodeEhdr(cfg, h));
    }

    method GrowFile(newSize: nat) returns (ok: bool)
      requires Valid()
      modifies this`fileSize, contents
      ensures Valid() && ok == (newSize <= maxSize)
      ensures File() == old(File()) + (if ok && newSize > old(fileSize)
                                       then Fill(newSize - old(fileSize), '\0') else [])
    {
      ok := newSize <= maxSize;
      if ok && newSize > fileSize {
        forall i | fileSize <= i < newSize {
          contents[i] := '\0';
        }
        fileSize := newSize;
      }
    }

    // ----- names and order -----

    method FindSection3(name: Name) returns (r: nat)
      requires Valid()
      ensures r == Find(sectionNames, shdrs, name)
    {
      var i := 1;
      while i < |shdrs|
        invariant 1 <= i && FindFrom(sectionNames, shdrs, name, i) == Find(sectionNames, shdrs, name)
      {
        if NameOf(sectionNames, shdrs[i]) == name {
          return i;
        }
        i := i + 1;
      }
      return 0;
    }

    method TargetNames(kind: Kind) returns (m: map<Name, Name>)
      requires DistinctNames(sectionNames, shdrs) && LinksInRange(shdrs) && |shdrs| > 0
      ensures NamesTargets(kind, sectionNames, shdrs, |shdrs|, m)
    {
      m := map[];
      var i := 1;
      while i < |shdrs|
        invariant 1 <= i <= |shdrs| && NamesTargets(kind, sectionNames, shdrs, i, m)
      {
        var t := Target(kind, shdrs[i]);
        ghost var m0 := m;
        if t != 0 {
          m := m[NameOf(sectionNames, shdrs[i]) := NameOf(sectionNames, shdrs[t])];
        }
        NamesTargetsStep(kind, sectionNames, shdrs, i, m0, m);
        i := i + 1;
      }
    }

    method RestoreTargets(kind: Kind, m: map<Name, Name>, ghost a: seq<Shdr>, ghost t: seq<Shdr>,
                          ghost p: seq<nat>, ghost inv: seq<nat>)
      requires Valid() && NamesTargets(kind, sectionNames, a, |a|, m)
      requires Rearranged(a, t, p, inv) && DistinctNames(sectionNames, a) && |t| > 0 && inv[0] == 0
      requires SameTargets(kind, shdrs, t) && PartlyMoved(kind, shdrs, shdrs, p, 1)
      modifies this`shdrs
      ensures PartlyMoved(kind, old(shdrs), shdrs, p, |t|)
    {
      ghost var was := shdrs;
      var i := 1;
      while i < |shdrs|
        invariant 1 <= i <= |shdrs| == |t|
        invariant PartlyMoved(kind, was, shdrs, p, i)
      {
        PartlyMovedStep(kind, was, shdrs, p, i);
        if Target(kind, shdrs[i]) != 0 {
          TargetFoundAgain(kind, sectionNames, m, a, t, shdrs, p, inv, i);
          var r := FindSection3(m[NameOf(sectionNames, shdrs[i])]);
          shdrs := shdrs[i := WithTarget(kind, shdrs[i], r)];
        }
        i := i + 1;
      }
    }

    method SortShdrs() returns (ghost p: seq<nat>, ghost inv: seq<nat>)
      requires Valid() && Resolvable(State())
      modifies this`shdrs, contents
      ensures Valid() && SortStep(old(State()), State(), p, inv)
    {
      ghost var e := State();
      ghost var a := shdrs;
      var h := Hdr(State());
      var linkage := TargetNames(Link);
      var info := TargetNames(Info);
      var shstrtabName := NameOf(sectionNames, shdrs[h.shstrndx]);
      var t, p0, inv0 := Sort(shdrs, OffsetKeys(shdrs));
      p, inv := p0, inv0;
      NullSortsFirst(a, t, p, inv);
      ReadyForLinks(a, t, p, inv);
      shdrs := t;
      RestoreTargets(Link, linkage, a, t, p, inv);
      ghost var u := shdrs;
      ReadyForInfos(a, t, u, p, inv);
      RestoreTargets(Info, info, a, t, p, inv);
      RestoredIsSorted(a, t, u, shdrs, p, inv);
      FindMoved(sectionNames, a, t, shdrs, p, inv, h.shstrndx);
      var s := FindSection3(shstrtabName);
      WriteHdr(h.(shstrndx := s));
    }

    // ----- staging and placing section bodies -----

    /** Fails when there is no such section; otherwise stages its current or already staged body, resized. */
    method ReplaceSection(name: Name, size: nat) returns (ok: bool)
      requires Valid() && Sorted(replacedSections)
      requires Find(sectionNames, shdrs, name) == 0
        || Readable(File(), shdrs[Find(sectionNames, shdrs, name)])
      modifies this`replacedSections
      ensures ok == (Has(old(replacedSections), name) || Find(sectionNames, shdrs, name) > 0)
      ensures !ok ==> replacedSections == old(replacedSections)
      ensures ok ==> StagedResized(State(), old(replacedSections), name, size, replacedSections)
      ensures Sorted(replacedSections)
    {
      var s: seq<Byte>;
      if Has(replacedSections, name) {
        s := Get(replacedSections, name);
      } else {
        var i := FindSection3(name);
        if i == 0 {
          return false;
        }
        s := BodyOf(File(), shdrs[i]);
      }
      PutSorted(replacedSections, name, Resize(s, size));
      replacedSections := Put(replacedSections, name, Resize(s, size));
      ok := true;
    }

    /** First pass: fill the old places with 'X', so that no new body is overwritten later. */
    method EraseOld(ghost p: Plan)
      requires Valid() && Placeable(State(), p) && p.rs == replacedSections
      modifies contents
      ensures Erased(old(State()), p.rs, |p.rs|, File())
    {
      ghost var e := State();
      var j := 0;
      while j < |replacedSections|
        invariant j <= |replacedSections| && Erased(e, p.rs, j, File())
      {
        var i := FindSection3(replacedSections[j].name);
        EraseStep(e, p.rs, j, File(), i);
        if shdrs[i].size > 0 {
          Write(shdrs[i].offset, Fill(shdrs[i].size, 'X'));
        }
        j := j + 1;
      }
    }

    /** Bring the segments of one type into line with a section. */
    method SyncSegments(ptype: nat, to: Spot)
      modifies this`phdrs
      ensures phdrs == SyncAll(old(phdrs), ptype, to)
    {
      ghost var was := phdrs;
      var j := 0;
      while j < |phdrs|
        invariant j <= |phdrs| == |was|
        invariant forall i :: 0 <= i < j ==> phdrs[i] == SyncAll(was, ptype, to)[i]
        invariant forall i :: j <= i < |was| ==> phdrs[i] == was[i]
      {
        if phdrs[j].ptype == ptype {
          phdrs := phdrs[j := SyncWith(phdrs[j], to)];
        }
        j := j + 1;
      }
    }

    method PlaceEntry(entry: Entry, to: Spot)
      requires Valid() && Find(sectionNames, shdrs, entry.name) > 0 && to.offset + |entry.data| <= fileSize
      modifies this`shdrs, this`phdrs, contents
      ensures Valid() && State() == Placement.PlaceEntry(old(State()), entry, to)
    {
      var i := FindSection3(entry.name);
      Write(to.offset, entry.data);
      shdrs := shdrs[i := MovedShdr(cfg, shdrs[i], to)];
      if entry.name == INTERP {
        SyncSegments(PT_INTERP, to);
      }
      if entry.name == DYNAMIC {
        InterpIsNotDynamic();
        SyncSegments(PT_DYNAMIC, to);
      }
    }

    /** One staged body written; returns where the next one goes. */
    method PlaceNext(j: nat, curOff: nat, startAddr: nat, startOffset: nat, ghost e: Elf, ghost x: Elf, ghost p: Plan)
      returns (next: nat)
      requires Valid() && e.cfg == cfg && p.rs == replacedSections && p.startAddr == startAddr
      requires p.startOffset == startOffset
      requires Placeable(e, p) && Erased(e, p.rs, |p.rs|, x.file) && x == e.(file := x.file)
      requires j < |p.rs| && startOffset <= curOff == p.cur + Space(e.cfg, p.rs, j) && State() == PlaceRun(x, p, j)
      modifies this`shdrs, this`phdrs, contents
      ensures Valid() && State() == PlaceRun(x, p, j + 1)
      ensures next == p.cur + Space(e.cfg, p.rs, j + 1)
    {
      hide Placeable, Erased, Placement.PlaceEntry, PlaceRun, Space, Padded, Find;
      RunReady(e, x, p, j);
      RunStep(x, p, j);
      var data := replacedSections[j].data;
      var to := Spot(curOff, startAddr + (curOff - startOffset), |data|);
      assert to == NewSpot(x.cfg, p, j);
      PlaceEntry(replacedSections[j], to);
      var space := Round(|data|, cfg.SectionAlignment());
      next := curOff + space;
    }

    /** Second pass: write the staged bodies one after the other. */
    method PlaceAll(cur: nat, startAddr: nat, startOffset: nat, ghost e: Elf) returns (curOff: nat)
      requires Valid() && startOffset <= cur
      requires var p := Plan(replacedSections, cur, startAddr, startOffset);
               Placeable(e, p) && Erased(e, p.rs, |p.rs|, File()) && State() == e.(file := File())
      modifies this`shdrs, this`phdrs, contents
      ensures Valid()
      ensures State() == PlaceRun(old(State()), Plan(replacedSections, cur, startAddr, startOffset), |replacedSections|)
      ensures curOff == cur + Space(cfg, replacedSections, |replacedSections|)
    {
      hide Placeable, Erased, Space, PlaceRun;
      ghost var p := Plan(replacedSections, cur, startAddr, startOffset);
      ghost var x := State();
      RunStart(x, p);
      curOff := cur;
      var j := 0;
      while j < |replacedSections|
        invariant Valid() && j <= |p.rs| && startOffset <= curOff == cur + Space(e.cfg, p.rs, j)
        invariant State() == PlaceRun(x, p, j)
      {
        curOff := PlaceNext(j, curOff, startAddr, startOffset, e, x, p);
        j := j + 1;
      }
    }

    method WriteReplacedSections(cur: nat, startAddr: nat, startOffset: nat) returns (curOff: nat)
      requires Valid() && startOffset <= cur
      requires Placeable(State(), Plan(replacedSections, cur, startAddr, startOffset))
      modifies this`shdrs, this`phdrs, this`replacedSections, contents
      ensures Valid()
      ensures Placed(old(State()), State(), Plan(old(replacedSections), cur, startAddr, startOffset))
      ensures curOff == cur + Space(cfg, old(replacedSections), |old(replacedSections)|)
      ensures replacedSections == []
    {
      ghost var e := State();
      ghost var p := Plan(replacedSections, cur, startAddr, startOffset);
      EraseOld(p);
      ghost var x := State();
      curOff := PlaceAll(cur, startAddr, startOffset, e);
      RunPlaces(e, x, p);
      ghost var g := State();
      replacedSections := [];
      assert State() == g;
    }

    // ----- shiftFile -----

    method ShiftFile(extraPages: nat, startPage: nat) returns (ok: bool)
      requires Valid() && Counts(State()) && cfg.EhdrSize() <= extraPages * cfg.PageSize()
      requires fileSize + extraPages * cfg.PageSize() <= maxSize ==> ShiftFits(State(), extraPages * cfg.PageSize())
      modifies this`fileSize, this`phdrs, this`shdrs, contents
      ensures Valid() && ok == (old(fileSize) + extraPages * cfg.PageSize() <= maxSize)
      ensures ok ==> State() == Shifted(old(State()), extraPages * cfg.PageSize(), startPage)
    {
      var shift := extraPages * cfg.PageSize();
      ok := fileSize + shift <= maxSize;
      if ok {
        ShiftContents(shift);
        ShiftSectionHeaders(shift);
        ShiftProgramHeaders(shift);
        phdrs := phdrs + [LoadSegment(cfg, 0, startPage, shift)];
      }
    }

    /** Move the file's contents up and adjust the ELF header, which stays at the front. */
    method ShiftContents(shift: nat)
      requires Valid() && cfg.EhdrSize() <= fileSize && cfg.EhdrSize() <= shift && fileSize + shift <= maxSize
      requires EhdrOk(cfg, ShiftedHdr(cfg, HdrAt(cfg, File()), shift))
      modifies this`fileSize, contents
      ensures Valid()
      ensures File() == WithHdr(cfg, MovedUp(cfg, old(File()), shift), ShiftedHdr(cfg, HdrAt(cfg, old(File())), shift))
    {
      ghost var f := File();
      var oldSize := fileSize;
      var h := HdrAt(cfg, File());
      var grown := GrowFile(fileSize + shift);
      assert File()[..oldSize] == f;
      MoveUp(shift, oldSize);
      WriteHdr(ShiftedHdr(cfg, h, shift));
    }

    /** memmove of the old contents, then memset of the gap behind the ELF header. */
    method MoveUp(shift: nat, oldSize: nat)
      requires Valid() && cfg.EhdrSize() <= shift && cfg.EhdrSize() <= oldSize && fileSize == oldSize + shift
      modifies contents
      ensures File() == MovedUp(cfg, old(File())[..oldSize], shift)
    {
      ghost var f := File();
      MovedIs(cfg, f, f[..oldSize], shift);
      assert contents[..oldSize] == f[..oldSize];
      Write(shift, contents[..oldSize]);
      Write(cfg.EhdrSize(), Fill(shift - cfg.EhdrSize(), '\0'));
    }

    method ShiftSectionHeaders(shift: nat)
      requires |shdrs| > 0
      modifies this`shdrs
      ensures shdrs == ShiftedShdrs(old(shdrs), shift)
    {
      ghost var was := shdrs;
      var i := 1;
      while i < |shdrs|
        invariant 1 <= i <= |shdrs| == |was|
        invariant forall j :: 0 <= j < i ==> shdrs[j] == ShiftedShdrs(was, shift)[j]
        invariant forall j :: i <= j < |was| ==> shdrs[j] == was[j]
      {
        shdrs := shdrs[i := shdrs[i].(offset := shdrs[i].offset + shift)];
        i := i + 1;
      }
    }

    method ShiftProgramHeaders(shift: nat)
      modifies this`phdrs
      ensures phdrs == ShiftedPhdrs(cfg, old(phdrs), shift)
    {
      ghost var was := phdrs;
      var i := 0;
      while i < |phdrs|
        invariant i <= |phdrs| == |was|
        invariant forall j :: 0 <= j < i ==> phdrs[j] == ShiftPhdr(cfg, was[j], shift)
        invariant forall j :: i <= j < |was| ==> phdrs[j] == was[j]
      {
        phdrs := phdrs[i := ShiftPhdr(cfg, phdrs[i], shift)];
        i := i + 1;
      }
    }

    // ----- rewriteHeaders -----

    method StorePhdr(off: nat, i: nat)
      requires Valid() && i < |phdrs| && off + TableSize(|phdrs|, cfg.PhdrSize()) <= fileSize
      modifies contents
      ensures Valid() && Slot(off, i, cfg.PhdrSize()) + cfg.PhdrSize() <= |old(File())|
      ensures File() == Splice(old(File()), Slot(off, i, cfg.PhdrSize()), EncodePhdr(cfg, phdrs[i]))
    {
      SlotInside(off, i, |phdrs|, cfg.PhdrSize());
      Write(Slot(off, i, cfg.PhdrSize()), EncodePhdr(cfg, phdrs[i]));
    }

    method StorePhdrs(off: nat)
      requires Valid() && off + TableSize(|phdrs|, cfg.PhdrSize()) <= fileSize
      modifies contents
      ensures Valid() && File() == WritePhdrs(cfg, old(File()), off, phdrs, |phdrs|)
    {
      hide EncodePhdr;
      ghost var f := File();
      var i := 0;
      while i < |phdrs|
        invariant i <= |phdrs| && File() == WritePhdrs(cfg, f, off, phdrs, i)
      {
        StorePhdr(off, i);
        i := i + 1;
      }
    }

    method StoreShdr(off: nat, i: nat)
      requires Valid() && i < |shdrs| && off + TableSize(|shdrs|, cfg.ShdrSize()) <= fileSize
      modifies contents
      ensures Valid() && Slot(off, i, cfg.ShdrSize()) + cfg.ShdrSize() <= |old(File())|
      ensures File() == Splice(old(File()), Slot(off, i, cfg.ShdrSize()), EncodeShdr(cfg, shdrs[i]))
    {
      SlotInside(off, i, |shdrs|, cfg.ShdrSize());
      Write(Slot(off, i, cfg.ShdrSize()), EncodeShdr(cfg, shdrs[i]));
    }

    method StoreShdrs(off: nat)
      requires Valid() && off + TableSize(|shdrs|, cfg.ShdrSize()) <= fileSize && |shdrs| > 0
      modifies contents
      ensures Valid() && File() == WriteShdrs(cfg, old(File()), off, shdrs, |shdrs|)
    {
      ghost var f := File();
      var i := 1;
      while i < |shdrs|
        invariant 1 <= i <= |shdrs| && File() == WriteShdrs(cfg, f, off, shdrs, i)
      {
        StoreShdr(off, i);
        i := i + 1;
      }
    }

    method RewritePhdrs(addr: nat) returns (ghost p: seq<nat>, ghost inv: seq<nat>)
      requires Valid() && fileSize >= cfg.EhdrSize()
      requires HdrAt(cfg, File()).phoff + TableSize(|phdrs|, cfg.PhdrSize()) <= fileSize
      modifies this`phdrs, contents
      ensures Valid() && PhdrStep(old(State()), State(), addr, p, inv)
    {
      var phoff := HdrAt(cfg, File()).phoff;
      phdrs := WithPhdrEntry(cfg, phdrs, phoff, addr);
      ghost var a := phdrs;
      var t, p0, inv0 := Sort(phdrs, PhdrKeys(phdrs));
      p, inv := p0, inv0;
      phdrs := t;
      SortedByKey(a, t, p, inv);
      StorePhdrs(phoff);
    }

    /** One dynamic entry; fails when it calls for a section that does not exist. */
    method EditEntry(off: nat, i: nat) returns (ok: bool)
      requires Valid() && Slot(off, i, cfg.DynSize()) + cfg.DynSize() <= fileSize
      modifies contents
      ensures Valid() && ok == !EditFor(sectionNames, shdrs, old(DynEntry(cfg, File(), off, i)).tag).Missing?
      ensures ok ==> File() == EditDyn(cfg, sectionNames, shdrs, old(File()), off, i)
    {
      var entry := DynEntry(cfg, File(), off, i);
      var edit := EditFor(sectionNames, shdrs, entry.tag);
      if edit.Set? {
        Write(Slot(off, i, cfg.DynSize()), EncodeDyn(cfg, entry.(val := edit.val)));
      }
      ok := !edit.Missing?;
    }

    /** Fails exactly when an entry calls for a section that does not exist. */
    method UpdateDynamic(ghost n: nat) returns (ok: bool)
      requires Valid() && DynamicReady(State(), n)
      requires forall j :: 0 <= j < |shdrs| ==> ShdrOk(cfg, shdrs[j])
      modifies contents
      ensures Valid() && ok == DynamicResolves(old(State()), n)
      ensures ok ==> State() == WithDynamic(old(State()), n)
    {
      hide EditFor, EndsOnlyAt, Terminated, DynEntry, EditDyns;
      ghost var e := State();
      var d := FindSection3(DYNAMIC);
      if d == 0 {
        return true;
      }
      var off := shdrs[d].offset;
      var i := 0;
      DynamicScanStart(e, n);
      DynamicScanStep(e, e.file, n, 0);
      while !EndsAt(cfg, File(), off, i)
        invariant DynamicScan(e, File(), n, i)
        invariant EndsAt(cfg, File(), off, i) <==> i == n
        decreases n - i
      {
        DynamicScanStep(e, File(), n, i);
        ok := EditEntry(off, i);
        if !ok {
          return;
        }
        i := i + 1;
        DynamicScanStep(e, File(), n, i);
      }
      ok := true;
    }

    method RewriteHeaders(addr: nat, ghost n: nat) returns (ok: bool, ghost t: HeaderTrace)
      requires Valid() && WellFormed(State()) && DynamicReady(State(), n) && NullStored(State()) && addr < cfg.Limit()
      modifies this`phdrs, this`shdrs, contents
      ensures Valid() && ok == DynamicResolves(old(State()), n)
      ensures ok ==> HeadersStep(old(State()), State(), addr, n, t)
    {
      hide DecodeEhdr, EncodeEhdr, EditDyns, DynamicResolves, NullStored, SortedPhdrs, SortedShdrs, WritePhdrs,
           DistinctNames, BodiesInFile, BodiesDisjoint;
      ghost var e := State();
      ghost var p, inv := RewritePhdrs(addr);
      ghost var tabled := State();
      TabledFacts(e, tabled, addr, n, p, inv);
      ghost var sp, sinv := SortShdrs();
      ghost var sorted := State();
      SortedFacts(tabled, sorted, n, sp, sinv);
      StoreShdrs(HdrAt(cfg, File()).shoff);
      StoredFacts(sorted, n);
      t := HeaderTrace(tabled, sorted, p, inv, sp, sinv);
      HeadersResolve(e, t, n, addr);
      ok := UpdateDynamic(n);
    }

    // ----- rewriteSectionsLibrary -----

    method StagedSpace() returns (space: nat)
      requires SmallData(replacedSections)
      ensures space == Space(cfg, replacedSections, |replacedSections|)
    {
      space := 0;
      var j := 0;
      while j < |replacedSections|
        invariant j <= |replacedSections| && space == Space(cfg, replacedSections, j)
      {
        var s := Round(|replacedSections[j].data|, cfg.SectionAlignment());
        space := space + s;
        j := j + 1;
      }
    }

    method FindLastPage() returns (startPage: nat)
      ensures startPage == Layout.LastPage(cfg, phdrs, |phdrs|)
    {
      startPage := 0;
      var i := 0;
      while i < |phdrs|
        invariant i <= |phdrs| && startPage == Layout.LastPage(cfg, phdrs, i)
      {
        var thisPage := RoundUp(phdrs[i].vaddr + phdrs[i].memsz, cfg.PageSize());
        if thisPage > startPage {
          startPage := thisPage;
        }
        i := i + 1;
      }
    }

    /** Grow the file and add the segment that maps the new area. */
    method Extend(startOffset: nat, startPage: nat, space: nat) returns (ok: bool)
      requires Valid() && cfg.EhdrSize() <= fileSize <= startOffset && HdrAt(cfg, File()).phnum + 1 < HALF
      modifies this`fileSize, this`phdrs, contents
      ensures Valid() && ok == (startOffset + space <= maxSize)
      ensures ok ==> State() == Extended(old(State()), startOffset, startPage, space)
    {
      hide HdrAt, LoadSegment;
      ghost var f := File();
      var h := HdrAt(cfg, File());
      ok := GrowFile(startOffset + space);
      if ok {
        assert File() == Grown(f, startOffset + space);
        assert File()[..cfg.EhdrSize()] == f[..cfg.EhdrSize()];
        WriteHdr(h.(phnum := h.phnum + 1));
        phdrs := phdrs + [LoadSegment(cfg, startOffset, startPage, space)];
      }
    }

    /** Put the program header table and the staged bodies into the new area. */
    method FillNewArea(startOffset: nat, startPage: nat, space: nat, ghost e: Elf) returns (curOff: nat)
      requires Valid() && LibraryRoom(e, replacedSections, startOffset, startPage)
      requires space == LibrarySpace(e, replacedSections) && State() == Extended(e, startOffset, startPage, space)
      modifies this`phdrs, this`shdrs, this`replacedSections, contents
      ensures Valid()
      ensures Relaid(e, State(), LibraryMove(e, old(replacedSections), startOffset, startPage))
      ensures Refilled(e, LibraryMove(e, old(replacedSections), startOffset, startPage), cfg.EhdrSize(), File())
      ensures |File()| == startOffset + space
      ensures Hdr(State()).phoff == startOffset && curOff == startOffset + space
    {
      hide LibraryRoom, Placed, Relaid, DecodeEhdr, EncodeEhdr, Space, Refilled;
      ghost var rs := replacedSections;
      ghost var g := State();
      ExtendedIsPrepared(e, rs, startOffset, startPage);
      curOff := startOffset + TableSize(|phdrs|, cfg.PhdrSize());
      curOff := WriteReplacedSections(curOff, startPage, startOffset);
      ghost var b := State();
      PlacedKeepsHdr(g, b, LibraryPlan(e, rs, startOffset, startPage));
      WriteHdr(HdrAt(cfg, File()).(phoff := startOffset));
      LibraryRelaid(e, rs, startOffset, startPage, b, State());
    }

    method RewriteSectionsLibrary(ghost n: nat) returns (ok: bool, ghost mid: Elf, ghost t: HeaderTrace)
      requires Valid() && LibraryReady(State(), replacedSections, maxSize, n)
      modifies this`fileSize, this`phdrs, this`shdrs, this`replacedSections, contents
      ensures Valid()
      ensures ok == LibraryFits(old(State()), old(replacedSections), maxSize, n)
      ensures ok ==> LibraryRewritten(old(State()), old(replacedSections), State(), n, mid, t)
    {
      hide WellFormed, NullStored, DynamicReady, HeadersStep, Relaid, Refilled, Extended, DynamicResolves,
           StateResolves;
      ghost var e := State();
      ghost var rs := replacedSections;
      mid, t := e, HeaderTrace(e, e, [], [], [], []);
      LibraryStarts(e, rs, maxSize, n);
      SortedDistinct(rs);
      var startPage := FindLastPage();
      LastPageAbove(cfg, phdrs, |phdrs|);
      var staged := StagedSpace();
      var neededSpace := TableSize(|phdrs| + 1, cfg.PhdrSize()) + staged;
      var startOffset := Round(fileSize, cfg.PageSize());
      ok := Extend(startOffset, startPage, neededSpace);
      if ok {
        var _ := FillNewArea(startOffset, startPage, neededSpace, e);
        mid := State();
        RelaidReady(e, mid, LibraryMove(e, rs, startOffset, startPage), n);
        RelaidResolves(e, mid, LibraryMove(e, rs, startOffset, startPage), n);
        ok, t := RewriteHeaders(startPage, n);
      }
    }

    // ----- rewriteSectionsExecutable -----

    method FindLastStaged() returns (last: nat)
      requires |shdrs| > 0
      ensures last == LastStaged(sectionNames, shdrs, replacedSections, |shdrs|)
    {
      last := 0;
      var i := 1;
      while i < |shdrs|
        invariant 1 <= i <= |shdrs| && last == LastStaged(sectionNames, shdrs, replacedSections, i)
      {
        if Has(replacedSections, NameOf(sectionNames, shdrs[i])) {
          last := i;
        }
        i := i + 1;
      }
    }

    /** Stage the sections in the way, up to one that cannot move. */
    method Scan(last: nat) returns (b: nat)
      requires Valid() && Sorted(replacedSections) && DistinctNames(sectionNames, shdrs)
      requires last + 1 < |shdrs| && ReadableBefore(State(), Boundary(sectionNames, shdrs, 1, last))
      modifies this`replacedSections
      ensures b == Boundary(sectionNames, shdrs, 1, last)
      ensures 1 <= b <= last + 1 && ReadableBefore(State(), b)
      ensures replacedSections == StageUpTo(State(), old(replacedSections), b)
    {
      hide LastStaged, StagedBefore, Get, IndexOf;
      ghost var e := State();
      ghost var rs := replacedSections;
      b := 1;
      while b <= last && !StopsAt(sectionNames, shdrs, b)
        invariant 1 <= b <= last + 1 && State() == e && ReadableBefore(e, b)
        invariant Sorted(replacedSections) && replacedSections == StageUpTo(e, rs, b)
        invariant Boundary(sectionNames, shdrs, b, last) == Boundary(sectionNames, shdrs, 1, last)
      {
        StageInTheWay(b);
        b := b + 1;
      }
    }

    method StageInTheWay(b: nat)
      requires Valid() && Sorted(replacedSections) && DistinctNames(sectionNames, shdrs)
      requires 1 <= b < |shdrs| && Readable(File(), shdrs[b])
      modifies this`replacedSections
      ensures Sorted(replacedSections)
      ensures var name := NameOf(sectionNames, shdrs[b]);
              replacedSections == if Has(old(replacedSections), name) then old(replacedSections)
                                  else Put(old(replacedSections), name, BodyOf(File(), shdrs[b]))
    {
      var name := NameOf(sectionNames, shdrs[b]);
      if !Has(replacedSections, name) {
        FindUnique(sectionNames, shdrs, b);
        ResizeSame(BodyOf(File(), shdrs[b]));
        var _ := ReplaceSection(name, shdrs[b].size);
      }
    }

    method FillFront(x: ExecLayout, ghost e: Elf) returns (curOff: nat)
      requires Valid() && ExecRoom(e, x) && RoomMade(e, x, State()) && x.rs == replacedSections
      modifies this`phdrs, this`shdrs, this`replacedSections, contents
      ensures Valid() && Relaid(e, State(), ExecMove(e, x)) && Hdr(State()).phoff == e.cfg.EhdrSize()
      ensures Refilled(e, ExecMove(e, x), ExecStart(e, x.shift), File()) && |File()| == |e.file| + x.shift
      ensures curOff == ExecStart(e, x.shift) + Space(cfg, x.rs, |x.rs|) <= x.startOffset + x.shift
    {
      hide ExecRoom, RoomMade, Placeable, Placed, Relaid, Hdr, DecodeEhdr, TableSize, Space, Padded, Sorted, Refilled;
      ghost var s := State();
      FrontFacts(e, x, s);
      curOff := cfg.EhdrSize() + TableSize(|phdrs|, cfg.PhdrSize());
      var startOffset := x.startOffset + x.shift;
      Write(curOff, Fill(startOffset - curOff, '\0'));
      ExecIsPlaceable(e, x, s);
      ghost var g := State();
      assert g == Cleared(s, ExecStart(e, x.shift), startOffset);
      curOff := WriteReplacedSections(curOff, x.startAddr - x.startOffset - x.shift, 0);
      ExecRelaid(e, x, s, State());
    }

    /** How many pages, if any, must be put in front; fails when the addresses below do not suffice. */
    method DecideShift(startOffset: nat, startAddr: nat) returns (ok: bool, pages: nat)
      requires Valid() && SmallData(replacedSections) && startOffset <= startAddr
      ensures var x := ExecLayout(replacedSections, startOffset, startAddr, pages * cfg.PageSize());
              ok ==> ShiftDecided(State(), x) && x.FirstPage() >= 0
      ensures var shift := ShiftFor(State(), replacedSections, startOffset);
              !ok ==> shift > startAddr - startOffset || shift >= 0x8000_0000
    {
      var firstPage := startAddr - startOffset;
      var space := StagedSpace();
      var neededSpace := cfg.EhdrSize() + TableSize(|phdrs|, cfg.PhdrSize()) + space;
      if neededSpace <= startOffset {
        return true, 0;
      }
      neededSpace := neededSpace + cfg.PhdrSize();
      // Beyond this the 32-bit page count would wrap; growFile's limit is far lower.
      if neededSpace - startOffset > TWO_TO_32 - cfg.PageSize() {
        return false, 0;
      }
      var room := Round(neededSpace - startOffset, cfg.PageSize());
      PagesOf(neededSpace - startOffset, cfg);
      pages := room / cfg.PageSize();
      ok := pages * cfg.PageSize() <= firstPage;
    }

    /** Decide whether room must be made at the front, and make it. */
    method MakeRoom(startOffset: nat, startAddr: nat) returns (ok: bool, x: ExecLayout)
      requires Valid() && BeforeShift(State(), replacedSections, startOffset, startAddr, maxSize)
      modifies this`fileSize, this`phdrs, this`shdrs, contents
      ensures Valid() && x == ExecLayout(replacedSections, startOffset, startAddr, x.shift)
      ensures ok == RoomFits(old(State()), replacedSections, startOffset, startAddr, maxSize)
      ensures ok ==> ExecRoom(old(State()), x) && ShiftDecided(old(State()), x) && RoomMade(old(State()), x, State())
    {
      hide WellFormed, ShiftDecided, ExecRoom, RoomMade, ShiftFits, Shifted;
      ghost var e := State();
      var pages;
      ok, pages := DecideShift(startOffset, startAddr);
      x := ExecLayout(replacedSections, startOffset, startAddr, pages * cfg.PageSize());
      if !ok {
        return;
      }
      if fileSize + x.shift > maxSize {
        return false, x;
      }
      DecidedRoom(e, x, maxSize);
      ExecRoomMade(e, x);
      TableInside(e);
      if pages > 0 {
        ok := ShiftFile(pages, startAddr - startOffset - x.shift);
      }
    }

    /** Find the boundary, stage what is in the way, and check the program's assertions. */
    method FindBoundary(ghost n: nat) returns (ok: bool, b: nat)
      requires Valid() && ExecReady(State(), replacedSections, maxSize, n) && ByOffset(shdrs)
      modifies this`replacedSections
      ensures Valid() && (ok ==> 1 <= b < |shdrs|) && ok == BoundaryOk(State(), old(replacedSections))
      ensures ok ==> Scanned(State(), old(replacedSections), b, replacedSections, shdrs[b].offset, shdrs[b].addr)
      ensures ok ==> shdrs[b].addr % cfg.PageSize() == shdrs[b].offset % cfg.PageSize()
      ensures ok ==> BeforeShift(State(), replacedSections, shdrs[b].offset, shdrs[b].addr, maxSize)
      ensures ok ==> Ready(State(), replacedSections, n)
    {
      hide ExecReady, WellFormed, Ready, BeforeShift, NobitsPast, ByOffset, ReadableBefore, DistinctNames, LastStaged,
           Boundary;
      ghost var rs := replacedSections;
      ExecReadyParts(State(), rs, maxSize, n);
      var last := FindLastStaged();
      if last == 0 || last + 1 >= |shdrs| {
        return false, 0;
      }
      ScanIsReadable(State(), rs, last);
      b := Scan(last);
      ok := shdrs[b].addr % cfg.PageSize() == shdrs[b].offset % cfg.PageSize()
            && HdrAt(cfg, File()).shoff >= shdrs[b].offset;
      if ok {
        ScanReady(State(), rs, last, b, replacedSections, maxSize, n);
      }
    }

    /** Make room and fill it. */
    method LayoutFront(startOffset: nat, startAddr: nat) returns (ok: bool, x: ExecLayout)
      requires Valid() && BeforeShift(State(), replacedSections, startOffset, startAddr, maxSize)
      modifies this`fileSize, this`phdrs, this`shdrs, this`replacedSections, contents
      ensures Valid() && x == ExecLayout(old(replacedSections), startOffset, startAddr, x.shift)
      ensures ok == RoomFits(old(State()), old(replacedSections), startOffset, startAddr, maxSize)
      ensures ok ==> ExecLaidOut(old(State()), x, State())
    {
      ghost var s := State();
      ok, x := MakeRoom(startOffset, startAddr);
      if ok {
        var _ := FillFront(x, s);
      }
    }

    /** Lay out the front and rewrite the headers. */
    method LayoutExecutable(startOffset: nat, startAddr: nat, ghost n: nat)
      returns (ok: bool, x: ExecLayout, ghost mid: Elf, ghost t: HeaderTrace)
      requires Valid() && BeforeShift(State(), replacedSections, startOffset, startAddr, maxSize)
      requires Ready(State(), replacedSections, n)
      modifies this`fileSize, this`phdrs, this`shdrs, this`replacedSections, contents
      ensures Valid() && x == ExecLayout(old(replacedSections), startOffset, startAddr, x.shift)
      ensures ok == (RoomFits(old(State()), old(replacedSections), startOffset, startAddr, maxSize)
                     && StateResolves(old(State()), old(replacedSections), n))
      ensures ok ==>
        ExecLaidOut(old(State()), x, mid) && HeadersStep(mid, State(), x.FirstPage() + cfg.EhdrSize(), n, t)
    {
      hide WellFormed, Ready, ExecLaidOut, HeadersStep, DynamicReady, NullStored, BeforeShift, RoomFits,
           StateResolves, DynamicResolves;
      ghost var s := State();
      mid, t := s, HeaderTrace(s, s, [], [], [], []);
      ok, x := LayoutFront(startOffset, startAddr);
      if ok {
        mid := State();
        ExecLaidOutReady(s, x, mid, n);
        ExecResolves(s, x, mid, n);
        PhdrAddressFits(s, x, mid);
        ok, t := RewriteHeaders(x.FirstPage() + cfg.EhdrSize(), n);
      }
    }

    method RewriteSectionsExecutable(ghost n: nat)
      returns (ok: bool, ghost r: ExecTrace, ghost mid: Elf, ghost t: HeaderTrace)
      requires Valid() && ExecReady(State(), replacedSections, maxSize, n)
      modifies this`fileSize, this`phdrs, this`shdrs, this`replacedSections, contents
      ensures Valid() && SortStep(old(State()), r.sorted, r.p, r.inv)
      ensures ok == ExecFits(r.sorted, old(replacedSections), maxSize, n)
      ensures ok ==> ExecRewritten(old(State()), old(replacedSections), State(), n, r, mid, t)
    {
      hide ExecReady, Resolvable, Ready, ExecLaidOut, HeadersStep, BeforeShift, Scanned, SortStep, RoomFits,
           StateResolves, BoundaryOk;
      ghost var e := State();
      ghost var rs := replacedSections;
      r := ExecTrace(e, [], [], 0, ExecLayout([], 0, 0, 0));
      mid, t := e, HeaderTrace(e, e, [], [], [], []);
      ReadyResolves(e, rs, maxSize, n);
      ghost var p, inv := SortShdrs();
      ghost var s := State();
      SortKeepsExecReady(e, s, p, inv, rs, maxSize, n);
      var b;
      r := ExecTrace(s, p, inv, 0, r.x);
      ok, b := FindBoundary(n);
      if ok {
        ExecFitsIs(s, rs, b, replacedSections, maxSize, n);
        var x;
        ok, x, mid, t := LayoutExecutable(shdrs[b].offset, shdrs[b].addr, n);
        r := ExecTrace(s, p, inv, b, x);
        if ok {
          ExecComplete(e, rs, State(), n, r, mid, t);
        }
      }
    }

    /** Fails on a file that is neither a library nor an executable. */
    method RewriteSections(ghost n: nat) returns (ok: bool, ghost o: Outcome)
      requires Valid() && Sorted(replacedSections) && Rewritable(State(), replacedSections, maxSize, n)
      modifies this`fileSize, this`phdrs, this`shdrs, this`replacedSections, contents
      ensures Valid() && (ok ==> Rewritten(old(State()), old(replacedSections), State(), n, o))
      ensures ok ==> (o == Untouched <==> old(replacedSections) == [])
      ensures ok == Succeeds(old(State()), old(replacedSections), maxSize, n, o)
      ensures SortRecorded(old(State()), old(replacedSections), o)
    {
      hide LibraryReady, ExecReady, LibraryRewritten, ExecRewritten, LibraryFits, ExecFits, SortStep, StateResolves;
      ghost var e, rs := State(), replacedSections;
      o := Untouched;
      if replacedSections == [] {
        return true, o;
      }
      var etype := HdrAt(cfg, File()).etype;
      if etype == ET_DYN {
        ghost var mid, t;
        ok, mid, t := RewriteSectionsLibrary(n);
        o := Library(mid, t);
        if ok {
          LibraryFitsResolves(e, rs, maxSize, n);
        }
      } else if etype == ET_EXEC {
        ExecReadyIs(State(), replacedSections, maxSize, n);
        ghost var r, mid, t;
        ok, r, mid, t := RewriteSectionsExecutable(n);
        o := Executable(r, mid, t);
        if ok {
          ExecFitsResolves(e, rs, State(), maxSize, n, r, mid, t);
        }
      } else {
        ok := false;
      }
    }

    // ----- parse -----

    method CopyPhdrs(off: nat, n: nat)
      requires Valid() && phdrs == [] && off + TableSize(n, cfg.PhdrSize()) <= fileSize
      modifies this`phdrs
      ensures phdrs == ReadPhdrs(cfg, File(), off, n)
    {
      var i := 0;
      while i < n
        invariant i <= n && off + TableSize(i, cfg.PhdrSize()) <= fileSize && phdrs == ReadPhdrs(cfg, File(), off, i)
      {
        SlotInside(off, i, n, cfg.PhdrSize());
        phdrs := phdrs + [PhdrAt(cfg, File(), Slot(off, i, cfg.PhdrSize()))];
        i := i + 1;
      }
    }

    method CopyShdrs(off: nat, n: nat)
      requires Valid() && shdrs == [] && off + TableSize(n, cfg.ShdrSize()) <= fileSize
      modifies this`shdrs
      ensures shdrs == ReadShdrs(cfg, File(), off, n)
    {
      var i := 0;
      while i < n
        invariant i <= n && off + TableSize(i, cfg.ShdrSize()) <= fileSize && shdrs == ReadShdrs(cfg, File(), off, i)
      {
        SlotInside(off, i, n, cfg.ShdrSize());
        shdrs := shdrs + [ShdrAt(cfg, File(), Slot(off, i, cfg.ShdrSize()))];
        i := i + 1;
      }
    }

    /** Reads the headers of a file whose class and byte order are those of this object. */
    method Parse() returns (ok: bool)
      requires Valid() && phdrs == [] && shdrs == [] && FileConfig(cfg.mipsel, File()) == Some(cfg)
      modifies this`phdrs, this`shdrs, this`sectionNames
      ensures Valid() && File() == old(File())
      ensures ok == Parsing.Parse(cfg.mipsel, File()).Some?
      ensures ok ==> Some(State()) == Parsing.Parse(cfg.mipsel, File())
    {
      if !HeaderOk(cfg, File()) {
        return false;
      }
      var h := HdrAt(cfg, File());
      CopyPhdrs(h.phoff, h.phnum);
      CopyShdrs(h.shoff, h.shnum);
      if h.shstrndx >= |shdrs| {
        return false;
      }
      var names := ReadNames(File(), shdrs[h.shstrndx]);
      if names == None {
        return false;
      }
      sectionNames := names.value;
      ok := true;
    }

    // ----- the interpreter -----

    method GetInterpreter() returns (r: Option<seq<Byte>>)
      requires Valid()
      ensures r == InterpreterOf(State())
      ensures var i := Find(sectionNames, shdrs, ".interp");
              if i > 0 && Readable(File(), shdrs[i]) then r == Some(BodyOf(File(), shdrs[i])) else r == None
    {
      var i := FindSection3(INTERP);
      if i > 0 && Readable(File(), shdrs[i]) {
        r := Some(BodyOf(File(), shdrs[i]));
      } else {
        r := None;
      }
    }

    /** setSubstr on a staged body. */
    method SetSubstr(name: Name, pos: nat, b: seq<Byte>)
      requires Sorted(replacedSections) && Has(replacedSections, name) && pos + |b| <= |Get(replacedSections, name)|
      modifies this`replacedSections
      ensures Sorted(replacedSections)
      ensures replacedSections == Put(old(replacedSections), name, Splice(Get(old(replacedSections), name), pos, b))
    {
      var s := Splice(Get(replacedSections, name), pos, b);
      PutSorted(replacedSections, name, s);
      replacedSections := Put(replacedSections, name, s);
    }

    method SetInterpreter(newInterpreter: seq<Byte>) returns (ok: bool)
      requires Valid() && Sorted(replacedSections)
      requires Find(sectionNames, shdrs, INTERP) == 0
        || Readable(File(), shdrs[Find(sectionNames, shdrs, INTERP)])
      modifies this`replacedSections, this`changed
      ensures ok == (Has(old(replacedSections), INTERP) || Find(sectionNames, shdrs, INTERP) > 0)
      ensures ok ==> changed && replacedSections == Put(old(replacedSections), INTERP, newInterpreter + ['\0'])
      ensures !ok ==> changed == old(changed) && replacedSections == old(replacedSections)
      ensures Sorted(replacedSections)
    {
      hide Put, Find, Has, Get;
      ghost var rs := replacedSections;
      var data: seq<Byte> := newInterpreter + ['\0'];
      ok := ReplaceSection(INTERP, |data|);
      if ok {
        ghost var s: seq<Byte> := Resize(CurrentBody(State(), rs, INTERP), |data|);
        PutGet(rs, INTERP, s, INTERP);
        SetSubstr(INTERP, 0, data);
        assert Splice<Byte>(s, 0, data) == data;
        PutPut(rs, INTERP, s, data);
        changed := true;
      }
    }

    /**
     * patchElf2 with a new interpreter: what is written parses back to the state in memory, and its
     * interpreter is the new one with its terminating NUL.
     */
    method PatchInterpreter(newInterpreter: seq<Byte>, ghost n: nat) returns (ok: bool, ghost o: Outcome)
      requires Valid() && replacedSections == [] && SelfDescribing(State())
      requires Hdr(State()).shstrndx < |shdrs| && NamesFree(State(), [Entry(INTERP, newInterpreter + ['\0'])])
      requires Find(sectionNames, shdrs, INTERP) == 0
        || Readable(File(), shdrs[Find(sectionNames, shdrs, INTERP)])
      requires Find(sectionNames, shdrs, INTERP) > 0 ==>
        Rewritable(State(), [Entry(INTERP, newInterpreter + ['\0'])], maxSize, n) && maxSize < 0x8000_0000
      modifies this`fileSize, this`phdrs, this`shdrs, this`replacedSections, this`changed, contents
      ensures Valid()
      ensures ok == (Find(old(sectionNames), old(shdrs), INTERP) > 0
                     && Succeeds(old(State()), [Entry(INTERP, newInterpreter + ['\0'])], maxSize, n, o))
      ensures Find(old(sectionNames), old(shdrs), INTERP) > 0 ==>
        SortRecorded(old(State()), [Entry(INTERP, newInterpreter + ['\0'])], o)
      ensures ok ==> Rewritten(old(State()), [Entry(INTERP, newInterpreter + ['\0'])], State(), n, o)
      ensures ok ==> Parsing.Parse(cfg.mipsel, File()) == Some(State())
      ensures ok ==> InterpreterOf(State()) == Some(newInterpreter + ['\0'])
    {
      hide Rewritable, Rewritten, Parsing.Parse, SelfDescribing, NamesFree, Succeeds, SortRecorded;
      o := Untouched;
      ghost var e := State();
      ok := SetInterpreter(newInterpreter);
      if ok {
        ghost var rs := [Entry(INTERP, newInterpreter + ['\0'])];
        assert replacedSections == rs;
        ok, o := RewriteSections(n);
        if ok {
          RunParsesBack(e, rs, State(), n, o);
          InterpIsNotDynamic();
          OneStaged(INTERP, newInterpreter + ['\0']);
          StagedReadsBack(e, rs, State(), n, o, INTERP);
          RunConfig(e, rs, State(), n, o);
        }
      }
    }

    // ----- modifyRPath -----

    /** A write inside the string table. */
    method WriteString(d: nat, s: nat, pos: nat, b: seq<Byte>, ghost e: Elf, ghost es: seq<Dyn>, ghost str: seq<Byte>)
      requires Valid() && PathSections(e, d, s) && PathState(e, State(), d, s, es, str) && 0 < |b| && pos + |b| <= |str|
      modifies contents
      ensures Valid() && PathState(e, State(), d, s, es, Splice(str, pos, b))
    {
      hide PathSections, HoldsTable;
      StringsWritten(e, State(), d, s, es, str, pos, b);
      Write(shdrs[s].offset + pos, b);
    }

    /** One entry of the dynamic table overwritten. */
    method WriteEntry(d: nat, s: nat, i: nat, entry: Dyn, ghost e: Elf, ghost es: seq<Dyn>, ghost str: seq<Byte>)
      requires Valid() && PathSections(e, d, s) && PathState(e, State(), d, s, es, str)
      requires i < |es| && DynOk(e.cfg, entry) && entry.tag != DT_NULL
      modifies contents
      ensures Valid() && PathState(e, State(), d, s, es[i := entry], str)
    {
      hide PathSections, HoldsTable;
      ghost var f := State();
      EntryInFile(e, f, d, s, es, str, i);
      Write(shdrs[d].offset + Slot(0, i, cfg.DynSize()), EncodeDyn(cfg, entry));
      EntryStored(e, f, State(), d, s, es, str, i, entry);
    }

    method EntryOf(d: nat, s: nat, i: nat, ghost e: Elf, ghost es: seq<Dyn>, ghost str: seq<Byte>) returns (entry: Dyn)
      requires Valid() && PathState(e, State(), d, s, es, str) && i <= |es|
      ensures i < |es| ==> entry == es[i] && DynOk(e.cfg, entry) && entry.tag != DT_NULL
      ensures i == |es| ==> entry.tag == DT_NULL
    {
      hide HoldsTable;
      EntryInFile(e, State(), d, s, es, str, i);
      entry := DynAt(cfg, File(), shdrs[d].offset + Slot(0, i, cfg.DynSize()));
    }

    /** The address DT_STRTAB names, or 0. */
    method FindStrTab(d: nat, s: nat, ghost e: Elf, ghost es: seq<Dyn>, ghost str: seq<Byte>) returns (addr: nat)
      requires Valid() && PathState(e, State(), d, s, es, str)
      ensures addr == StrTabAddr(es, |es|)
    {
      hide PathState;
      addr := 0;
      var i := 0;
      var entry := EntryOf(d, s, 0, e, es, str);
      while entry.tag != DT_NULL
        invariant i <= |es| && addr == StrTabAddr(es, i)
        invariant i < |es| ==> entry == es[i] && entry.tag != DT_NULL
        invariant i == |es| ==> entry.tag == DT_NULL
        decreases |es| - i
      {
        if entry.tag == DT_STRTAB {
          addr := entry.val;
        }
        i := i + 1;
        entry := EntryOf(d, s, i, e, es, str);
      }
    }

    /** Walk the dynamic table for the two path entries and the needed libraries. */
    method WalkDynamic(d: nat, s: nat, strTab: seq<Byte>, ghost e: Elf, ghost es: seq<Dyn>)
      returns (rp: int, run: int, rpath: Option<nat>)
      requires Valid() && PathState(e, State(), d, s, es, strTab)
      modifies this`neededLibs
      ensures rp == LastRPath(es) && run == LastRunPath(es)
      ensures rpath == if Chosen(es) < 0 then None else Some(es[Chosen(es)].val)
      ensures neededLibs == old(neededLibs) + Needed(es, strTab, |es|)
    {
      hide PathState, CString;
      rp, run, rpath := -1, -1, None;
      var i := 0;
      var entry := EntryOf(d, s, 0, e, es, strTab);
      while entry.tag != DT_NULL
        invariant i <= |es| && rp == LastTag(es, DT_RPATH, i) && run == LastTag(es, DT_RUNPATH, i)
        invariant rpath == if run >= 0 then Some(es[run].val) else if rp >= 0 then Some(es[rp].val) else None
        invariant neededLibs == old(neededLibs) + Needed(es, strTab, i)
        invariant i < |es| ==> entry == es[i] && entry.tag != DT_NULL
        invariant i == |es| ==> entry.tag == DT_NULL
        decreases |es| - i
      {
        if entry.tag == DT_RPATH {
          rp := i;
          if run < 0 {
            rpath := Some(entry.val);
          }
        } else if entry.tag == DT_RUNPATH {
          run := i;
          rpath := Some(entry.val);
        } else if entry.tag == DT_NEEDED {
          neededLibs := neededLibs + [CString(strTab, entry.val)];
        }
        i := i + 1;
        entry := EntryOf(d, s, i, e, es, strTab);
      }
    }

    /** Convert DT_RPATH to DT_RUNPATH, or with force make DT_RUNPATH ignored. */
    method ConvertEntries(d: nat, s: nat, rp: int, run: int, force: bool, ghost e: Elf, ghost es: seq<Dyn>,
                          ghost str: seq<Byte>)
      requires Valid() && PathSections(e, d, s) && PathState(e, State(), d, s, es, str)
      requires rp == LastRPath(es) && run == LastRunPath(es)
      modifies contents
      ensures Valid() && PathState(e, State(), d, s, Converted(es, force), str)
    {
      hide PathState, PathSections;
      if !force && rp >= 0 && run < 0 {
        var entry := EntryOf(d, s, rp, e, es, str);
        WriteEntry(d, s, rp, entry.(tag := DT_RUNPATH), e, es, str);
      } else if force && rp >= 0 && run >= 0 {
        var entry := EntryOf(d, s, run, e, es, str);
        WriteEntry(d, s, run, entry.(tag := DT_IGNORE), e, es, str);
      }
    }

    /** Point the path entries at a new string. */
    method RepointEntries(d: nat, s: nat, rp: int, run: int, val: nat, ghost e: Elf, ghost es: seq<Dyn>,
                          ghost str: seq<Byte>)
      requires Valid() && PathSections(e, d, s) && PathState(e, State(), d, s, es, str)
      requires -1 <= rp < |es| && -1 <= run < |es| && val < e.cfg.Limit()
      modifies contents
      ensures Valid() && PathState(e, State(), d, s, Repointed(es, rp, run, val), str)
    {
      hide PathState, PathSections;
      ghost var q := es;
      if run >= 0 {
        var entry := EntryOf(d, s, run, e, es, str);
        WriteEntry(d, s, run, entry.(val := val), e, es, str);
        q := es[run := es[run].(val := val)];
      }
      if rp >= 0 {
        var entry := EntryOf(d, s, rp, e, q, str);
        WriteEntry(d, s, rp, entry.(val := val), e, q, str);
      }
    }

    /** Grow the string table by the new path. */
    method GrowStrTab(s: nat, path: seq<Byte>, ghost str: seq<Byte>)
      requires Valid() && Sorted(replacedSections) && !Has(replacedSections, DYNSTR)
      requires s == Find(sectionNames, shdrs, DYNSTR) > 0 && Readable(File(), shdrs[s])
      requires str == BodyOf(File(), shdrs[s])
      modifies this`replacedSections
      ensures Sorted(replacedSections) && replacedSections == Put(old(replacedSections), DYNSTR, str + WithNul(path))
    {
      hide Put, Has, Get, Find;
      ghost var rs := replacedSections;
      var size := shdrs[s].size;
      var _ := ReplaceSection(DYNSTR, size + |path| + 1);
      ghost var grown := Resize(str, size + |path| + 1);
      PutGet(rs, DYNSTR, grown, DYNSTR);
      SetSubstr(DYNSTR, size, WithNul(path));
      assert Splice(grown, size, WithNul(path)) == str + WithNul(path);
      PutPut(rs, DYNSTR, grown, str + WithNul(path));
    }

    /** Index of DT_NULL in a table. */
    method NullIndex(table: seq<Byte>, ghost es: seq<Dyn>) returns (idx: nat)
      requires HoldsTable(cfg, table, es)
      ensures idx == |es| && TableSize(idx + 1, cfg.DynSize()) <= |table|
    {
      hide HoldsTable;
      idx := 0;
      EntryIs(cfg, table, es, 0);
      while DynEntry(cfg, table, 0, idx).tag != DT_NULL
        invariant idx <= |es| && Slot(0, idx, cfg.DynSize()) + cfg.DynSize() <= |table|
        decreases |es| - idx
      {
        EntryIs(cfg, table, es, idx);
        idx := idx + 1;
        EntryIs(cfg, table, es, idx);
      }
      EntryIs(cfg, table, es, idx);
    }

    /** Grow the dynamic table by an entry, put on top. */
    method AddEntry(d: nat, entry: Dyn, ghost es: seq<Dyn>)
      requires Valid() && Sorted(replacedSections) && !Has(replacedSections, DYNAMIC)
      requires d == Find(sectionNames, shdrs, DYNAMIC) > 0 && Readable(File(), shdrs[d])
      requires HoldsTable(cfg, BodyOf(File(), shdrs[d]), es)
      modifies this`replacedSections
      ensures Sorted(replacedSections) && TableSize(|es| + 1, cfg.DynSize()) <= |BodyOf(File(), shdrs[d])|
      ensures replacedSections
           == Put(old(replacedSections), DYNAMIC, WithFirst(cfg, BodyOf(File(), shdrs[d]), |es|, entry))
    {
      hide Put, Has, Get, Find, HoldsTable;
      ghost var rs := replacedSections;
      ghost var b := BodyOf(File(), shdrs[d]);
      var sz, size := cfg.DynSize(), shdrs[d].size;
      var _ := ReplaceSection(DYNAMIC, size + sz);
      ghost var g := Resize(b, size + sz);
      PutGet(rs, DYNAMIC, g, DYNAMIC);
      ResizeHolds(cfg, b, es, size + sz);
      EntryIs(cfg, b, es, |es|);
      var data := Get(replacedSections, DYNAMIC);
      var idx := NullIndex(data, es);
      SetSubstr(DYNAMIC, sz, data[..TableSize(idx + 1, sz)]);
      ghost var g1 := Splice(g, sz, g[..TableSize(idx + 1, sz)]);
      PutPut(rs, DYNAMIC, g, g1);
      PutGet(rs, DYNAMIC, g1, DYNAMIC);
      SetSubstr(DYNAMIC, 0, EncodeDyn(cfg, entry));
      PutPut(rs, DYNAMIC, g1, Splice(g1, 0, EncodeDyn(cfg, entry)));
    }

    /** Overwrite the old path; returns how many bytes it had. */
    method BlankOld(d: nat, s: nat, rpath: Option<nat>, strTab: seq<Byte>, ghost e: Elf, ghost es: seq<Dyn>)
      returns (rpathSize: nat)
      requires Valid() && PathSections(e, d, s) && PathState(e, State(), d, s, es, strTab)
      requires rpath == if Chosen(es) < 0 then None else Some(es[Chosen(es)].val)
      requires rpath.Some? ==> Ends(strTab, rpath.value)
      modifies contents
      ensures Valid() && PathState(e, State(), d, s, es, BlankedPath(es, strTab))
      ensures rpathSize == |Text(PathOf(es, strTab))|
    {
      hide PathSections, PathState, Chosen, CString;
      rpathSize := 0;
      if rpath.Some? {
        rpathSize := |CString(strTab, rpath.value)|;
        if rpathSize > 0 {
          WriteString(d, s, rpath.value, Fill(rpathSize, 'X'), e, es, strTab);
        }
        assert rpathSize == 0 ==> BlankedPath(es, strTab) == strTab;
      }
    }

    /** Store a path that does not fit in place of the old one. */
    method StoreLonger(d: nat, s: nat, rp: int, run: int, path: seq<Byte>, force: bool,
                       ghost e: Elf, ghost es: seq<Dyn>, ghost str: seq<Byte>)
      requires Valid() && PathSections(e, d, s) && PathState(e, State(), d, s, es, str) && Sorted(replacedSections)
      requires d == Find(e.names, e.shdrs, DYNAMIC) > 0 && s == Find(e.names, e.shdrs, DYNSTR) > 0
      requires !Has(replacedSections, DYNAMIC) && !Has(replacedSections, DYNSTR)
      requires -1 <= rp < |es| && -1 <= run < |es| && |str| < e.cfg.Limit()
      modifies this`replacedSections, contents
      ensures Valid()
      ensures PathStored(e, old(replacedSections), State(), replacedSections, Longer(es, str, rp, run, path, force))
    {
      hide PathSections, HoldsTable, PathState, PathStored, Repointed, Put, Has, Get, Find, WithFirst, Sorted,
           GrownTable;
      ghost var rs := replacedSections;
      StateBodies(e, State(), d, s, es, str);
      GrowStrTab(s, path, str);
      if run >= 0 || rp >= 0 {
        RepointEntries(d, s, rp, run, shdrs[s].size, e, es, str);
        StoredGrown(e, rs, State(), d, s, Repointed(es, rp, run, |str|), str, str + WithNul(path));
      } else {
        PutGet(rs, DYNSTR, str + WithNul(path), DYNAMIC);
        DynstrIsNotDynamic();
        var entry := Dyn(if force then DT_RPATH else DT_RUNPATH, shdrs[s].size);
        ghost var b := BodyOf(File(), shdrs[d]);
        AddEntry(d, entry, es);
        WithFirstHolds(cfg, b, es, entry);
        WithFirstGrows(cfg, b, es, entry);
        StoredAdded(e, rs, State(), d, s, es, str, str + WithNul(path), WithFirst(cfg, b, |es|, entry), [entry] + es);
      }
    }

    /** Store a path that differs from the one in force: in place, or in a grown string table. */
    method StorePath(d: nat, s: nat, rp: int, run: int, rpath: Option<nat>, path: seq<Byte>, force: bool,
                     strTab: seq<Byte>, ghost es: seq<Dyn>)
      requires Valid() && PathReady(State(), replacedSections, es)
      requires d == Find(sectionNames, shdrs, DYNAMIC) && s == Find(sectionNames, shdrs, DYNSTR)
      requires Readable(File(), shdrs[s]) && strTab == BodyOf(File(), shdrs[s])
      requires rp == LastRPath(es) && run == LastRunPath(es)
      requires rpath == if Chosen(es) < 0 then None else Some(es[Chosen(es)].val)
      requires path != Text(PathOf(es, strTab)) && (Chosen(es) >= 0 ==> Ends(strTab, es[Chosen(es)].val))
      modifies this`replacedSections, this`changed, contents
      ensures Valid() && changed
      ensures PathStored(old(State()), old(replacedSections), State(), replacedSections,
                         SetPath(es, strTab, path, force))
    {
      hide PathSections, HoldsTable, PathState, PathStored, PathReady, Chosen, LastRPath, LastRunPath, Converted,
           Longer, BlankedPath, PathOf, CString, Has;
      ghost var e := State();
      ghost var rs := replacedSections;
      PathStarts(e, rs, es, d, s);
      PathFacts(e, rs, es, d, s);
      changed := true;
      var rpathSize := BlankOld(d, s, rpath, strTab, e, es);
      ghost var x := BlankedPath(es, strTab);
      ConvertEntries(d, s, rp, run, force, e, es, x);
      ghost var conv := Converted(es, force);
      if |path| <= rpathSize {
        PathFits(es, strTab, path);
        WriteString(d, s, rpath.value, WithNul(path), e, conv, x);
        StoredInPlace(e, rs, State(), d, s, conv, Splice(x, rpath.value, WithNul(path)));
      } else {
        StoreLonger(d, s, rp, run, path, force, e, conv, x);
      }
    }

    /** The path the operation asks for. */
    method PathAsked(op: PathOp, was: Option<seq<Byte>>, holds: Oracle) returns (path: Option<seq<Byte>>)
      ensures path == NewPath(op, was, neededLibs, holds)
    {
      match op
      case RpPrint => path := None;
      case RpShrink =>
        if was == None {
          path := None;
        } else {
          var p := ShrinkPath(was.value, neededLibs, holds);
          path := Some(p);
        }
      case RpSet(p) => path := Some(p);
    }

    /**
     * modifyRPath: print, shrink or set.  Fails when a section is missing or DT_STRTAB does not name
     * .dynstr; otherwise a path that differs from the one in force is stored.
     */
    method ModifyRPath(op: PathOp, force: bool, holds: Oracle, ghost es: seq<Dyn>, ghost str: seq<Byte>)
      returns (ok: bool, printed: seq<Byte>)
      requires Valid()
      requires Find(sectionNames, shdrs, DYNAMIC) > 0 && Find(sectionNames, shdrs, DYNSTR) > 0 ==>
        PathReady(State(), replacedSections, es) && str == StringsOf(State())
      requires Chosen(es) >= 0 ==> Ends(str, es[Chosen(es)].val)
      modifies this`replacedSections, this`changed, this`neededLibs, contents
      ensures Valid() && ok == PathAllowed(old(State()), es)
      ensures ok ==> neededLibs == old(neededLibs) + Needed(es, str, |es|)
      ensures ok ==> printed == if op == RpPrint then Text(PathOf(es, str)) else []
      ensures ok ==> changed == (old(changed) || AsksOther(op, Text(PathOf(es, str)), neededLibs, holds))
      ensures ok ==>
        PathDone(old(State()), old(replacedSections), State(), replacedSections, es, str, op, neededLibs, force, holds)
      ensures ok ==>
        PathModified(old(State()), old(replacedSections), State(), replacedSections, es, str, op, neededLibs,
                                  force, holds)
    {
      hide PathSections, HoldsTable, PathState, PathStored, PathReady, Chosen, CString, SetPath, LastRPath,
           LastRunPath, Needed, StrTabAddr;
      ok, printed := false, [];
      var d := FindSection3(DYNAMIC);
      var s := FindSection3(DYNSTR);
      if d == 0 || s == 0 {
        return;
      }
      ghost var e, rs := State(), replacedSections;
      PathStarts(e, rs, es, d, s);
      PathFacts(e, rs, es, d, s);
      var strTab := BodyOf(File(), shdrs[s]);
      var addr := FindStrTab(d, s, e, es, strTab);
      if addr == 0 || addr != shdrs[s].addr {
        return;
      }
      ok := true;
      var rp, run, rpath := WalkDynamic(d, s, strTab, e, es);
      var was := if rpath.Some? then Some(CString(strTab, rpath.value)) else None;
      if op == RpPrint {
        printed := Text(was);
      }
      var path := PathAsked(op, was, holds);
      if path != None && path.value != Text(was) {
        StorePath(d, s, rp, run, rpath, path.value, force, strTab, es);
      }
      AsksOtherIs(op, was, neededLibs, holds);
      ModifiedIsDone(e, rs, State(), replacedSections, es, str, op, neededLibs, force, holds);
    }

    /** The end of patchElf2: a file is rewritten only if something was changed. */
    method RewriteIfChanged(ghost n: nat) returns (ok: bool, ghost o: Outcome)
      requires Valid() && Sorted(replacedSections) && Rewritable(State(), replacedSections, maxSize, n)
      requires !changed ==> replacedSections == []
      modifies this`fileSize, this`phdrs, this`shdrs, this`replacedSections, contents
      ensures Valid() && (ok ==> Rewritten(old(State()), old(replacedSections), State(), n, o))
      ensures old(replacedSections) == [] ==> ok && o == Untouched
      ensures ok == Succeeds(old(State()), old(replacedSections), maxSize, n, o)
      ensures SortRecorded(old(State()), old(replacedSections), o)
    {
      hide LibraryReady, ExecReady, LibraryFits, ExecFits, SortStep, LibraryRewritten, ExecRewritten;
      ok, o := true, Untouched;
      if changed {
        ok, o := RewriteSections(n);
      }
    }

    /**
     * patchElf2 with an operation on the search path: carry it out, and rewrite the file if that, or
     * what was done before, changed anything.  Succeeds exactly when the sections are there and the
     * rewrite succeeds; with nothing staged before, a path no longer than the old one, such as a
     * shrunk one, is always stored.
     */
    method PatchPath(op: PathOp, force: bool, holds: Oracle, ghost es: seq<Dyn>)
      returns (ok: bool, printed: seq<Byte>, ghost r: PathRun)
      requires Valid() && (!changed ==> replacedSections == []) && OpOk(op)
      requires Find(sectionNames, shdrs, DYNAMIC) > 0 && Find(sectionNames, shdrs, DYNSTR) > 0 ==>
        PathRunReady(State(), replacedSections, es,
                     PathWanted(op, PathOf(es, StringsOf(State())),
                                neededLibs + Needed(es, StringsOf(State()), |es|), holds),
                     maxSize)
      requires Chosen(es) >= 0 ==> Ends(StringsOf(State()), es[Chosen(es)].val)
      modifies this`fileSize, this`phdrs, this`shdrs, this`replacedSections, this`changed, this`neededLibs, contents
      ensures Valid() && (ok ==> PathAllowed(old(State()), es))
      ensures PathAllowed(old(State()), es) ==>
        && neededLibs == old(neededLibs) + Needed(es, StringsOf(old(State())), |es|)
        && printed == (if op == RpPrint then Text(PathOf(es, StringsOf(old(State())))) else [])
        && PathRan(old(State()), old(replacedSections), es, op, neededLibs, force, holds, maxSize, ok, r, State())
    {
      hide PathReady, PathModified, Rewritten, Rewritable, PathPatched, SmallTags, PathStrings, PathAllowed,
           PathRunReady, PathWanted, NoLonger, Succeeds, SortRecorded, Ends, Chosen, PathDone, PathChanges, AsksOther,
           PathOf, Needed, Find;
      ghost var e, rs, str := State(), replacedSections, StringsOf(State());
      ghost var o := Untouched;
      r := PathRun(e, [], 0, o, es, str);
      ghost var needed := neededLibs + Needed(es, str, |es|);
      ghost var wanted := PathWanted(op, PathOf(es, str), needed, holds);
      if Find(sectionNames, shdrs, DYNAMIC) > 0 && Find(sectionNames, shdrs, DYNSTR) > 0 {
        RunStarts(e, rs, es, wanted, maxSize);
      }
      ok, printed := ModifyRPath(op, force, holds, es, str);
      if !ok {
        return;
      }
      ghost var f, qs := State(), replacedSections;
      AllowedSections(e, es);
      ghost var n := ModifiedRewrites(e, rs, f, qs, es, op, needed, force, holds, maxSize);
      if AsksNoLonger(op, Text(PathOf(es, str))) {
        WantsNoLonger(op, es, str, needed, holds);
      }
      AsksOtherIs(op, PathOf(es, str), needed, holds);
      if !changed {
        NothingChanged(e, rs, f, qs, es, op, needed, force, holds);
      }
      ok, o := RewriteIfChanged(n);
      r := PathRun(f, qs, n, o, es, str);
      if ok {
        r := RunPatches(e, rs, f, qs, State(), n, o, es, op, needed, force, holds);
      }
    }

    /**
     * patchElf2 with an operation on the search path and, unless it is empty, a new interpreter, both
     * written by one rewrite: the file that is left has both.
     */
    method PatchBoth(newInterpreter: seq<Byte>, op: PathOp, force: bool, holds: Oracle, ghost es: seq<Dyn>)
      returns (ok: bool, printed: seq<Byte>, ghost r: PathRun)
      requires Valid() && replacedSections == [] && !changed && OpOk(op)
      requires newInterpreter != [] && Find(sectionNames, shdrs, INTERP) > 0 ==>
        Readable(File(), shdrs[Find(sectionNames, shdrs, INTERP)])
      requires HasInterpreter(State(), newInterpreter)
               && Find(sectionNames, shdrs, DYNAMIC) > 0 && Find(sectionNames, shdrs, DYNSTR) > 0 ==>
        PathRunReady(State(), StagedInterpreter(newInterpreter), es,
                     PathWanted(op, PathOf(es, StringsOf(State())),
                                neededLibs + Needed(es, StringsOf(State()), |es|), holds),
                     maxSize)
      requires Chosen(es) >= 0 ==> Ends(StringsOf(State()), es[Chosen(es)].val)
      modifies this`fileSize, this`phdrs, this`shdrs, this`replacedSections, this`changed, this`neededLibs, contents
      ensures Valid()
      ensures ok ==> HasInterpreter(old(State()), newInterpreter) && PathAllowed(old(State()), es)
      ensures HasInterpreter(old(State()), newInterpreter) && PathAllowed(old(State()), es) ==>
        && neededLibs == old(neededLibs) + Needed(es, StringsOf(old(State())), |es|)
        && printed == (if op == RpPrint then Text(PathOf(es, StringsOf(old(State())))) else [])
        && PathRan(old(State()), StagedInterpreter(newInterpreter), es, op, neededLibs, force, holds, maxSize, ok, r,
                   State())
      ensures ok && newInterpreter != [] ==> InterpreterOf(State()) == Some(newInterpreter + ['\0'])
    {
      hide PathRunReady, PathWanted, PathAllowed, Ends, Chosen, Find, Succeeds, SortRecorded, PathModified, NoLonger,
           Rewritten, PathTables, Misdirected, NeededKept, ParsesAsIs, Parsing.Parse, Needed, PathDone, PathSays,
           PathOf;
      ghost var e := State();
      r := PathRun(e, [], 0, Untouched, es, []);
      printed := [];
      ok := true;
      if newInterpreter != [] {
        ok := SetInterpreter(newInterpreter);
        if !ok {
          return;
        }
      }
      assert replacedSections == StagedInterpreter(newInterpreter);
      ok, printed, r := PatchPath(op, force, holds, es);
      if ok && newInterpreter != [] {
        OneStaged(INTERP, newInterpreter + ['\0']);
        assert ReadsAs(State(), INTERP, Get(StagedInterpreter(newInterpreter), INTERP));
      }
    }
  }
}
