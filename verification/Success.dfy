/** What a rewrite stages, when it succeeds, and what it leaves where it is. */
module Success {
  import opened Bytes
  import opened ElfTypes
  import opened Rounding
  import opened Staging
  import opened Elf
  import opened Links
  import opened Placement
  import opened Tables
  import opened Steps
  import opened Relayout
  import opened Layout
  import opened Memory
  import opened Agreement
  import opened Outcomes
  import opened Fields
  import opened Entries
  import opened Contents

  // ----- executables: what is staged besides -----

  /** A section that cannot move: SHT_PROGBITS (1), other than .interp. */
  predicate CannotMove(names: seq<Byte>, s: Shdr) {
    s.stype == 1 && NameOf(names, s) != ".interp"
  }

  lemma {:induction false} BoundaryIs(names: seq<Byte>, shdrs: seq<Shdr>, i: nat, last: nat)
    requires 1 <= i && last < |shdrs| && i <= last + 1
    ensures var b := Boundary(names, shdrs, i, last);
            && i <= b <= last + 1
            && (forall j :: i <= j < b ==> !CannotMove(names, shdrs[j]))
            && (forall j :: 1 <= j && i - 1 <= j < b - 1 ==> NameOf(names, shdrs[j]) != ".dynstr")
            && (b <= last ==> CannotMove(names, shdrs[b]) || (b > 1 && NameOf(names, shdrs[b - 1]) == ".dynstr"))
    decreases last + 1 - i
  {
    hide NameOf;
    if i <= last && !StopsAt(names, shdrs, i) {
      BoundaryIs(names, shdrs, i + 1, last);
    }
  }

  /**
   * The scan of an executable's sections, in order of offset: the boundary is the section behind the
   * last one staged, or an earlier one that cannot move or comes right behind .dynstr, and no such
   * section lies before it.
   */
  ghost predicate EndsScan(s: Elf, rs: seq<Entry>, b: nat) {
    && 1 <= b < |s.shdrs|
    && (forall j :: 1 <= j < b ==> !CannotMove(s.names, s.shdrs[j]))
    && (forall j :: 1 <= j < b - 1 ==> NameOf(s.names, s.shdrs[j]) != ".dynstr")
    && (|| CannotMove(s.names, s.shdrs[b])
        || (b > 1 && NameOf(s.names, s.shdrs[b - 1]) == ".dynstr")
        || (b > 1 && Has(rs, NameOf(s.names, s.shdrs[b - 1]))))
    && (exists j :: b - 1 <= j < |s.shdrs| && Has(rs, NameOf(s.names, s.shdrs[j])))
    && (!CannotMove(s.names, s.shdrs[b]) && !(b > 1 && NameOf(s.names, s.shdrs[b - 1]) == ".dynstr") ==>
          forall j :: b <= j < |s.shdrs| ==> !Has(rs, NameOf(s.names, s.shdrs[j])))
  }

  lemma ScanEnds(s: Elf, rs: seq<Entry>, b: nat, q: seq<Entry>, startOffset: nat, startAddr: nat)
    requires Scanned(s, rs, b, q, startOffset, startAddr)
    ensures EndsScan(s, rs, b) && startOffset == s.shdrs[b].offset && startAddr == s.shdrs[b].addr
  {
    hide Boundary, LastStaged, StageUpTo, ReadableBefore, NameOf;
    var last := LastStaged(s.names, s.shdrs, rs, |s.shdrs|);
    BoundaryIs(s.names, s.shdrs, 1, last);
    assert Has(rs, NameOf(s.names, s.shdrs[last]));
  }

  /** Section i of an executable is staged by the scan, or was before. */
  ghost predicate StagedByScan(s: Elf, rs: seq<Entry>, b: nat, name: Name) {
    Has(rs, name) || exists i :: 1 <= i < b && i < |s.shdrs| && NameOf(s.names, s.shdrs[i]) == name
  }

  /** Exactly the sections before the boundary are staged besides those of the caller. */
  lemma StagedByRun(e: Elf, rs: seq<Entry>, f: Elf, n: nat, o: Outcome, name: Name)
    requires Rewritten(e, rs, f, n, o) && o.Executable?
    ensures EndsScan(o.r.sorted, rs, o.r.boundary)
    ensures o.r.x.startOffset == o.r.sorted.shdrs[o.r.boundary].offset
    ensures o.r.x.startAddr == o.r.sorted.shdrs[o.r.boundary].addr
    ensures Has(RunStaged(rs, o), name) <==> StagedByScan(o.r.sorted, rs, o.r.boundary, name)
  {
    hide WellFormed, SortStep, HeadersStep, Ready, ExecLaidOut, Resolvable, StateResolves, Scanned, EndsScan,
         StagedBefore, StageUpTo;
    var s, b := o.r.sorted, o.r.boundary;
    ScanEnds(s, rs, b, o.r.x.rs, o.r.x.startOffset, o.r.x.startAddr);
    ScanAdds(s, rs, b, o.r.x.rs, o.r.x.startOffset, o.r.x.startAddr, name);
  }

  lemma ScanAdds(s: Elf, rs: seq<Entry>, b: nat, q: seq<Entry>, startOffset: nat, startAddr: nat, name: Name)
    requires Scanned(s, rs, b, q, startOffset, startAddr) && Sorted(rs)
    ensures 1 <= b < |s.shdrs| && (Has(q, name) <==> StagedByScan(s, rs, b, name))
  {
    hide StageUpTo, LastStaged, Boundary;
    StageUpToAdds(s, rs, b);
    assert StagedAs(s, rs, b, q, name);
  }

  /** A section that cannot move, and that the caller did not stage, keeps its address and its size. */
  lemma FixedStays(e: Elf, rs: seq<Entry>, f: Elf, n: nat, o: Outcome, name: Name)
    requires Rewritten(e, rs, f, n, o) && o != Untouched && Find(e.names, e.shdrs, name) > 0 && !Has(rs, name)
    requires CannotMove(e.names, e.shdrs[Find(e.names, e.shdrs, name)])
    ensures var i, k := Find(e.names, e.shdrs, name), Find(f.names, f.shdrs, name);
            k > 0 && f.shdrs[k].addr == e.shdrs[i].addr && f.shdrs[k].size == e.shdrs[i].size
  {
    hide Rewritten, Rewrite, WellFormed, SortStep;
    SectionAfterRun(e, rs, f, n, o, name);
    if o.Executable? {
      StagedByRun(e, rs, f, n, o, name);
      FixedUnstaged(e, rs, f, n, o, name);
    }
  }

  lemma FixedUnstaged(e: Elf, rs: seq<Entry>, f: Elf, n: nat, o: Outcome, name: Name)
    requires Rewritten(e, rs, f, n, o) && o.Executable? && Find(e.names, e.shdrs, name) > 0 && !Has(rs, name)
    requires CannotMove(e.names, e.shdrs[Find(e.names, e.shdrs, name)])
    requires EndsScan(o.r.sorted, rs, o.r.boundary)
    ensures !StagedByScan(o.r.sorted, rs, o.r.boundary, name)
  {
    hide SortStep, HeadersStep, Ready, ExecLaidOut, Resolvable, StateResolves, Scanned;
    var s, b := o.r.sorted, o.r.boundary;
    BaseSection(e, rs, f, n, o, s, name);
    SortCfg(e, s, o.r.p, o.r.inv);
    SortKeepsWellFormed(e, s, o.r.p, o.r.inv);
    Names(s);
    forall i | 1 <= i < b && i < |s.shdrs| ensures NameOf(s.names, s.shdrs[i]) != name {
      if NameOf(s.names, s.shdrs[i]) == name {
        FindUnique(s.names, s.shdrs, i);
      }
    }
  }

  // ----- when a run succeeds -----

  /** The section that an entry with this tag calls for exists. */
  ghost predicate TagFinds(e: Elf, tag: nat) {
    var t := tag % 0x1_0000_0000;
    if t == 5 || t == 10 then Exists(e, ".dynstr")
    else if t == 6 then Exists(e, ".dynsym")
    else if t == 4 then Exists(e, ".hash")
    else if t == 0x6ffffef5 then Exists(e, ".gnu.hash")
    else if t == 23 then Exists(e, ".rel.plt") || Exists(e, ".rela.plt") || Exists(e, ".rela.IA_64.pltoff")
    else if t == 17 then Exists(e, ".rel.dyn") || Exists(e, ".rel.got")
    else if t == 7 then Exists(e, ".rela.dyn")
    else if t == 0x6ffffffe then Exists(e, ".gnu.version_r")
    else if t == 0x6ffffff0 then Exists(e, ".gnu.version")
    else true
  }

  lemma TagFindsIs(e: Elf, tag: nat)
    ensures TagFinds(e, tag) <==> !EditFor(e.names, e.shdrs, tag).Missing?
  {
    hide EditFor, FindFirst, Find;
    var t := tag % WORD;
    var k := if t == 5 then 0 else if t == 10 then 1 else if t == 6 then 2 else if t == 4 then 3
             else if t == 0x6ffffef5 then 4 else if t == 23 then 5 else if t == 17 then 6 else if t == 7 then 7
             else if t == 0x6ffffffe then 8 else if t == 0x6ffffff0 then 9 else 10;
    EditForTag(e.names, e.shdrs, tag, k);
    if k < 10 {
      Candidates(e.names, e.shdrs, k);
    }
  }

  /** No entry of the dynamic table, staged or in the file, calls for a section that is missing. */
  ghost predicate NothingMissing(e: Elf, rs: seq<Entry>, n: nat) {
    Exists(e, ".dynamic") ==>
      var a, x := OldTable(e, rs).0, OldTable(e, rs).1;
      forall i :: 0 <= i < n ==> EntryFound(e, a, x, i)
  }

  ghost predicate EntryFound(e: Elf, a: seq<Byte>, x: nat, i: nat) {
    Slot(x, i, e.cfg.DynSize()) + e.cfg.DynSize() <= |a| && TagFinds(e, DynEntry(e.cfg, a, x, i).tag)
  }

  lemma NothingMissingIs(e: Elf, rs: seq<Entry>, n: nat)
    ensures NothingMissing(e, rs, n) <==> StateResolves(e, rs, n)
  {
    hide TagFinds, EditFor, DynEntry, Find;
    var a, x := OldTable(e, rs).0, OldTable(e, rs).1;
    forall i | 0 <= i < n ensures EntryFound(e, a, x, i) <==> EntryFinds(e.cfg, e.names, e.shdrs, a, x, i) {
      if Slot(x, i, e.cfg.DynSize()) + e.cfg.DynSize() <= |a| {
        TagFindsIs(e, DynEntry(e.cfg, a, x, i).tag);
      }
    }
  }

  /** The sizes of the first j staged bodies, each rounded up. */
  function SizesOf(c: Config, rs: seq<Entry>, j: nat): nat
    requires j <= |rs|
  {
    if j == 0 then 0 else SizesOf(c, rs, j - 1) + Rounded(|rs[j - 1].data|, if c.cls == Elf32 then 4 else 8)
  }

  lemma {:induction false} SizesAre(c: Config, rs: seq<Entry>, j: nat)
    requires j <= |rs|
    ensures SizesOf(c, rs, j) == Space(c, rs, j)
  {
    hide Padded, Rounded;
    if j > 0 {
      SizesAre(c, rs, j - 1);
      PaddedIs(|rs[j - 1].data|, c.SectionAlignment());
    }
  }

  /** n rounded up to whole pages. */
  function Paged(c: Config, n: nat): nat {
    (n + PageOf(c) - 1) / PageOf(c) * PageOf(c)
  }

  lemma PagedIs(c: Config, n: nat)
    ensures Padded(n, c.PageSize()) == Paged(c, n)
  {
    PaddedMultiple(n, c.PageSize());
    var q: nat :| Padded(n, c.PageSize()) == q * c.PageSize();
    DivUnique(n + c.PageSize() - 1, c.PageSize(), q, n + c.PageSize() - 1 - q * c.PageSize());
  }

  /** A library's rewrite succeeds if the file stays within maxSize and no dynamic entry misses its section. */
  lemma LibrarySucceeds(e: Elf, rs: seq<Entry>, maxSize: nat, n: nat)
    ensures LibraryFits(e, rs, maxSize, n) <==>
      && Paged(e.cfg, |e.file|) + (|e.phdrs| + 1) * (if e.cfg.cls == Elf32 then 32 else 56)
         + SizesOf(e.cfg, rs, |rs|) <= maxSize
      && NothingMissing(e, rs, n)
  {
    hide NothingMissing, StateResolves, Padded, SizesOf, Space, Paged;
    NothingMissingIs(e, rs, n);
    PagedIs(e.cfg, |e.file|);
    SizesAre(e.cfg, rs, |rs|);
    TableSizeIs(|e.phdrs| + 1, e.cfg.PhdrSize());
  }

  /** What the staged bodies, the ELF header and the program header table take in front. */
  function FrontSize(e: Elf, rs: seq<Entry>): nat {
    (if e.cfg.cls == Elf32 then 52 + |e.phdrs| * 32 else 64 + |e.phdrs| * 56) + SizesOf(e.cfg, rs, |rs|)
  }

  /** How far the file must be shifted. */
  function ShiftNeeded(e: Elf, rs: seq<Entry>, startOffset: nat): nat {
    if FrontSize(e, rs) <= startOffset then 0
    else Paged(e.cfg, FrontSize(e, rs) + (if e.cfg.cls == Elf32 then 32 else 56) - startOffset)
  }

  lemma ShiftNeededIs(e: Elf, rs: seq<Entry>, startOffset: nat)
    ensures ShiftFor(e, rs, startOffset) == ShiftNeeded(e, rs, startOffset)
  {
    hide SizesOf, Space, Paged, Padded, TableSize;
    SizesAre(e.cfg, rs, |rs|);
    TableSizeIs(|e.phdrs|, e.cfg.PhdrSize());
    var needed := ExecStart(e, 0) + Space(e.cfg, rs, |rs|);
    if needed > startOffset {
      PagedIs(e.cfg, needed + e.cfg.PhdrSize() - startOffset);
    }
  }

  /**
   * What the boundary b must satisfy for an executable: its address and offset agree within the page, the
   * section headers are not before it, there are addresses below for the shift, and the file stays
   * within maxSize; and no dynamic entry misses its section.
   */
  ghost predicate BoundaryServes(s: Elf, rs: seq<Entry>, b: nat, maxSize: nat, n: nat)
    requires 1 <= b < |s.shdrs| && |s.file| >= s.cfg.EhdrSize() && ReadableBefore(s, b)
  {
    var q, h := StageUpTo(s, rs, b), s.shdrs[b];
    var shift := ShiftNeeded(s, q, h.offset);
    && h.addr % PageOf(s.cfg) == h.offset % PageOf(s.cfg) && h.offset <= Hdr(s).shoff
    && shift <= h.addr - h.offset && |s.file| + shift <= maxSize
    && NothingMissing(s, q, n)
  }

  lemma {:induction false} BoundaryUnique(names: seq<Byte>, shdrs: seq<Shdr>, i: nat, last: nat, b: nat)
    requires 1 <= i <= b <= last + 1 && last < |shdrs|
    requires forall j :: i <= j < b ==> !StopsAt(names, shdrs, j)
    requires b == last + 1 || StopsAt(names, shdrs, b)
    ensures Boundary(names, shdrs, i, last) == b
    decreases b - i
  {
    if i < b {
      BoundaryUnique(names, shdrs, i + 1, last, b);
    }
  }

  /** The scan ends at one section only. */
  lemma EndsScanIs(s: Elf, rs: seq<Entry>, b: nat)
    requires EndsScan(s, rs, b)
    ensures var last := LastStaged(s.names, s.shdrs, rs, |s.shdrs|);
            1 <= b < |s.shdrs| && b <= last + 1 && Boundary(s.names, s.shdrs, 1, last) == b
  {
    hide LastStaged, Boundary, NameOf;
    var last := LastStaged(s.names, s.shdrs, rs, |s.shdrs|);
    BoundaryUnique(s.names, s.shdrs, 1, last, b);
  }

  /**
   * An executable's rewrite succeeds if something is staged, but not the last section, and the boundary
   * where the scan ends serves.
   */
  lemma ExecSucceeds(s: Elf, rs: seq<Entry>, maxSize: nat, n: nat, b: nat)
    requires |s.file| >= s.cfg.EhdrSize() && EndsScan(s, rs, b) && ReadableBefore(s, b)
    ensures ExecFits(s, rs, maxSize, n) <==>
      && !Has(rs, NameOf(s.names, s.shdrs[|s.shdrs| - 1]))
      && (exists j :: 1 <= j < |s.shdrs| && Has(rs, NameOf(s.names, s.shdrs[j])))
      && BoundaryServes(s, rs, b, maxSize, n)
  {
    hide LastStaged, Boundary, NothingMissing, StateResolves, ShiftFor, ShiftNeeded, EndsScan, StageUpTo, NameOf,
         ReadableBefore;
    EndsScanIs(s, rs, b);
    var q := StageUpTo(s, rs, b);
    NothingMissingIs(s, q, n);
    ShiftNeededIs(s, q, s.shdrs[b].offset);
  }
}
