/**
 * The rewritten file field by field: what every section header, segment and ELF header field holds once
 * rewriteSections is done, for both layouts, written out in numbers and names.
 */
module Fields {
  import opened Bytes
  import opened ElfTypes
  import opened Rounding
  import opened Staging
  import opened Sorting
  import opened Elf
  import opened Links
  import opened Placement
  import opened Steps
  import opened Relayout
  import opened Layout
  import opened Memory
  import opened Agreement
  import opened Loading
  import opened Reparse
  import opened Outcomes

  // ----- a run as a rewrite -----

  /** The sections that a run stages: the caller's, and for executables those the scan adds. */
  ghost function RunStaged(rs: seq<Entry>, o: Outcome): seq<Entry> {
    if o.Executable? then o.r.x.rs else rs
  }

  /** How far a run moves the old file. */
  ghost function RunShift(o: Outcome): nat {
    if o.Executable? then o.r.x.shift else 0
  }

  /** A run that rewrites the file is a rewrite of the state it was given or, for executables, of that state sorted. */
  lemma RunIsRewrite(e: Elf, rs: seq<Entry>, f: Elf, n: nat, o: Outcome)
    returns (b: Elf, m: Move, mid: Elf, addr: nat, t: HeaderTrace)
    requires Rewritten(e, rs, f, n, o) && o != Untouched
    ensures Rewrite(b, m, mid, f, addr, n, t) && m.p.rs == RunStaged(rs, o) && m.d == RunShift(o)
    ensures mid == o.mid && t == o.t
    ensures b.cfg == e.cfg && b.names == e.names && b.phdrs == e.phdrs
    ensures o.Library? ==> b == e && addr == StartPage(e) && m == LibraryMove(e, rs, StartOffset(e), StartPage(e))
    ensures o.Executable? ==>
      && b == o.r.sorted && WellFormed(e) && SortStep(e, b, o.r.p, o.r.inv)
      && o.r.x.FirstPage() >= 0 && addr == o.r.x.FirstPage() + e.cfg.EhdrSize() && m == ExecMove(b, o.r.x)
  {
    hide Rewrite, WellFormed, SortStep, Relaid, HeadersStep, Ready, Scanned, ExecRoom, ShiftDecided, Resolvable;
    if o.Library? {
      b, mid, addr, t := e, o.mid, StartPage(e), o.t;
      m := LibraryMove(e, rs, StartOffset(e), StartPage(e));
      LibraryIsRewrite(e, rs, f, n, mid, t);
    } else {
      b, mid, t := o.r.sorted, o.mid, o.t;
      ExecIsRewrite(e, rs, f, n, o.r, mid, t);
      ExecSameSegments(e, rs, f, n, o.r, mid, t);
      SortCfg(e, b, o.r.p, o.r.inv);
      m, addr := ExecMove(b, o.r.x), o.r.x.FirstPage() + e.cfg.EhdrSize();
    }
  }

  /** A section of the state the layout starts from has all the fields it had, links apart. */
  predicate SameButLinks(s: Shdr, q: Shdr) {
    q.(link := s.link, info := s.info) == s
  }

  lemma BaseSection(e: Elf, rs: seq<Entry>, f: Elf, n: nat, o: Outcome, b: Elf, name: Name)
    requires Rewritten(e, rs, f, n, o) && o != Untouched
    requires if o.Library? then b == e else b == o.r.sorted && SortStep(e, b, o.r.p, o.r.inv) && WellFormed(e)
    ensures var i, j := Find(e.names, e.shdrs, name), Find(b.names, b.shdrs, name);
            (i == 0) == (j == 0) && |b.shdrs| == |e.shdrs| && (i > 0 ==> SameButLinks(e.shdrs[i], b.shdrs[j]))
  {
    hide LibraryRewritten, ExecRewritten, WellFormed;
    if o.Executable? {
      ResolvableOf(e);
      FoundAfterSort(e, b, o.r.p, o.r.inv, name);
    }
  }

  lemma ResolvableOf(e: Elf)
    requires WellFormed(e)
    ensures Resolvable(e)
  {
  }

  // ----- sections -----

  /** The fields of a section that no rewrite changes, and its alignment, which staging sets. */
  lemma SectionFields(e: Elf, m: Move, mid: Elf, f: Elf, addr: nat, n: nat, t: HeaderTrace, name: Name)
    requires Rewrite(e, m, mid, f, addr, n, t) && Find(e.names, e.shdrs, name) > 0
    ensures var k := Find(f.names, f.shdrs, name);
            && k > 0 && |f.shdrs| == |e.shdrs|
            && var s, q := e.shdrs[Find(e.names, e.shdrs, name)], f.shdrs[k];
            && q.name == s.name && q.stype == s.stype && q.flags == s.flags && q.entsize == s.entsize
            && if Has(m.p.rs, name) then
                 q.addralign == (if e.cfg.cls == Elf32 then 4 else 8) && q.size == |Get(m.p.rs, name)|
               else
                 && q.addralign == s.addralign && q.addr == s.addr && q.size == s.size
                 && q.offset == s.offset + m.d
  {
    hide Rewrite, WellFormed, Relaid, SortedShdrs;
    SectionAfter(e, m, mid, f, addr, n, t, name);
    SameCount(e, m, mid, f, addr, n, t);
  }

  lemma SameCount(e: Elf, m: Move, mid: Elf, f: Elf, addr: nat, n: nat, t: HeaderTrace)
    requires Rewrite(e, m, mid, f, addr, n, t)
    ensures |f.shdrs| == |e.shdrs| > 0 && f.shdrs[0] == e.shdrs[0]
    ensures forall i, j :: 0 <= i < j < |f.shdrs| ==> f.shdrs[i].offset <= f.shdrs[j].offset
  {
    hide HeadersStep, WellFormed;
    RewriteKeeps(e, m, mid, f, addr, n, t);
    Names(mid);
    NullStaysFirst(mid.shdrs, f.shdrs, t.sp, t.sinv);
    assert f.shdrs[0] == Relinked(mid.shdrs[t.sinv[0]], t.sp);
  }

  /**
   * After a run a section of any name is there as before: its name, type, flags and entry size are
   * kept; if it was staged it is aligned to an Elf_Off and has the size of its new body, and else it
   * keeps its alignment, address and size and moves with the file.
   */
  lemma SectionAfterRun(e: Elf, rs: seq<Entry>, f: Elf, n: nat, o: Outcome, name: Name)
    requires Rewritten(e, rs, f, n, o) && o != Untouched && Find(e.names, e.shdrs, name) > 0
    ensures var k := Find(f.names, f.shdrs, name);
            && k > 0 && |f.shdrs| == |e.shdrs|
            && var s, q := e.shdrs[Find(e.names, e.shdrs, name)], f.shdrs[k];
            && q.name == s.name && q.stype == s.stype && q.flags == s.flags && q.entsize == s.entsize
            && if Has(RunStaged(rs, o), name) then
                 q.addralign == (if e.cfg.cls == Elf32 then 4 else 8) && q.size == |Get(RunStaged(rs, o), name)|
               else
                 && q.addralign == s.addralign && q.addr == s.addr && q.size == s.size
                 && q.offset == s.offset + RunShift(o)
  {
    hide Rewritten, Rewrite, WellFormed, SortStep;
    var b, m, mid, addr, t := RunIsRewrite(e, rs, f, n, o);
    BaseSection(e, rs, f, n, o, b, name);
    SectionFields(b, m, mid, f, addr, n, t, name);
  }

  /** The section headers end in order of offset, the null section first and as it was. */
  lemma SectionsInOrder(e: Elf, rs: seq<Entry>, f: Elf, n: nat, o: Outcome)
    requires Rewritten(e, rs, f, n, o) && o != Untouched
    ensures |f.shdrs| == |e.shdrs| > 0 && f.shdrs[0] == e.shdrs[0]
    ensures forall i, j :: 0 <= i < j < |f.shdrs| ==> f.shdrs[i].offset <= f.shdrs[j].offset
  {
    hide Rewritten, Rewrite, WellFormed;
    var b, m, mid, addr, t := RunIsRewrite(e, rs, f, n, o);
    SameCount(b, m, mid, f, addr, n, t);
    if o.Executable? {
      SortedNull(e, b, o.r.p, o.r.inv);
    }
  }

  lemma SortedNull(e: Elf, b: Elf, p: seq<nat>, inv: seq<nat>)
    requires WellFormed(e) && SortStep(e, b, p, inv)
    ensures |b.shdrs| == |e.shdrs| > 0 && b.shdrs[0] == e.shdrs[0]
  {
    NullStaysFirst(e.shdrs, b.shdrs, p, inv);
    assert b.shdrs[0] == Relinked(e.shdrs[inv[0]], p);
  }

  // ----- links -----

  /** Section j of b is section i of a: same name, linked to the same section, and relocating the same one. */
  ghost predicate SameLinks(names: seq<Byte>, a: seq<Shdr>, i: nat, b: seq<Shdr>, j: nat) {
    && i < |a| && j < |b| && a[i].link < |a| && b[j].link < |b|
    && NameOf(names, a[i]) == NameOf(names, b[j]) && a[i].stype == b[j].stype
    && (a[i].link == 0 <==> b[j].link == 0) && NameOf(names, a[a[i].link]) == NameOf(names, b[b[j].link])
    && (if a[i].stype == 9 || a[i].stype == 4 then
          a[i].info < |a| && b[j].info < |b| && NameOf(names, a[a[i].info]) == NameOf(names, b[b[j].info])
        else a[i].info == b[j].info)
  }

  lemma SortedLinks(names: seq<Byte>, a: seq<Shdr>, b: seq<Shdr>, p: seq<nat>, inv: seq<nat>, i: nat)
    requires SortedShdrs(a, b, p, inv) && NullFirst(a) && DistinctNames(names, a) && i < |a|
    ensures i < |p| && SameLinks(names, a, i, b, p[i])
  {
    LinksFollowSections(names, a, b, p, inv, i);
    assert b[p[i]] == Relinked(a[i], p);
  }

  lemma RelaidLinks(e: Elf, mid: Elf, m: Move, i: nat)
    requires WellFormed(e) && Relaid(e, mid, m) && i < |e.shdrs|
    ensures SameLinks(e.names, e.shdrs, i, mid.shdrs, i)
  {
    hide BodiesInFile, BodiesDisjoint, Counts, TablesApart, DistinctNames, PhdrsRelaid, HeadersFit, Carried, Laid,
         AreaClear;
    RelaidName(e, mid, m, i);
    RelaidName(e, mid, m, e.shdrs[i].link);
    if e.shdrs[i].stype == 9 || e.shdrs[i].stype == 4 {
      RelaidName(e, mid, m, e.shdrs[i].info);
    }
  }

  lemma RelaidName(e: Elf, mid: Elf, m: Move, i: nat)
    requires Relaid(e, mid, m) && i < |e.shdrs|
    ensures |mid.shdrs| == |e.shdrs| && NameOf(e.names, mid.shdrs[i]) == NameOf(e.names, e.shdrs[i])
    ensures mid.shdrs[i].link == e.shdrs[i].link && mid.shdrs[i].info == e.shdrs[i].info
    ensures mid.shdrs[i].stype == e.shdrs[i].stype
  {
    hide PhdrsRelaid, HeadersFit, Carried, Laid, AreaClear;
    assert mid.shdrs[i] == RelaidShdr(e, m, i);
  }

  /** Through all the sorting of a run every section stays linked to the section it was linked to. */
  lemma LinksAfterRun(e: Elf, rs: seq<Entry>, f: Elf, n: nat, o: Outcome, i: nat) returns (k: nat)
    requires Rewritten(e, rs, f, n, o) && o != Untouched && i < |e.shdrs|
    ensures f.names == e.names && SameLinks(e.names, e.shdrs, i, f.shdrs, k)
  {
    hide Rewritten, Rewrite, WellFormed, SortStep, SortedShdrs, SameLinks, Relaid;
    var b, m, mid, addr, t := RunIsRewrite(e, rs, f, n, o);
    RewriteKeeps(b, m, mid, f, addr, n, t);
    RewriteRelaid(b, m, mid, f, addr, n, t);
    MidCfg(b, m, mid);
    Names(mid);
    var j := i;
    if o.Executable? {
      j := LinksAfterSort(e, b, o.r.p, o.r.inv, i);
    } else {
      LinksRefl(e, i);
    }
    LinkedIndex(e.names, e.shdrs, i, b.shdrs, j);
    RelaidLinks(b, mid, m, j);
    LinkedIndex(e.names, b.shdrs, j, mid.shdrs, j);
    SortedLinks(mid.names, mid.shdrs, f.shdrs, t.sp, t.sinv, j);
    k := t.sp[j];
    LinksChain(e.names, e.shdrs, i, b.shdrs, j, mid.shdrs, j);
    LinksChain(e.names, e.shdrs, i, mid.shdrs, j, f.shdrs, k);
  }

  lemma LinksAfterSort(e: Elf, b: Elf, p: seq<nat>, inv: seq<nat>, i: nat) returns (j: nat)
    requires WellFormed(e) && SortStep(e, b, p, inv) && i < |e.shdrs|
    ensures SameLinks(e.names, e.shdrs, i, b.shdrs, j)
  {
    SortedLinks(e.names, e.shdrs, b.shdrs, p, inv, i);
    j := p[i];
  }

  lemma LinksRefl(e: Elf, i: nat)
    requires WellFormed(e) && i < |e.shdrs|
    ensures SameLinks(e.names, e.shdrs, i, e.shdrs, i)
  {
  }

  lemma LinkedIndex(names: seq<Byte>, a: seq<Shdr>, i: nat, b: seq<Shdr>, j: nat)
    requires SameLinks(names, a, i, b, j)
    ensures i < |a| && j < |b|
  {
  }

  lemma LinksChain(names: seq<Byte>, a: seq<Shdr>, i: nat, b: seq<Shdr>, j: nat, c: seq<Shdr>, k: nat)
    requires SameLinks(names, a, i, b, j) && SameLinks(names, b, j, c, k)
    ensures SameLinks(names, a, i, c, k)
  {
  }

  // ----- segments -----

  function PageOf(c: Config): nat {
    if c.mipsel then 16384 else 4096
  }

  /**
   * The alignment after a shift by d: a page if the unsigned difference of address and new offset is
   * no multiple of the old alignment.
   */
  function AlignAfter(c: Config, h: Phdr, d: nat): nat {
    var limit := if c.cls == Elf32 then 0x1_0000_0000 else 0x1_0000_0000_0000_0000;
    if d > 0 && h.align != 0 && (h.vaddr - (h.offset + d)) % limit % h.align != 0 then PageOf(c) else h.align
  }

  /** Shifting a segment changes its offset and at most its alignment. */
  lemma ShiftFields(c: Config, h: Phdr, d: nat)
    requires d > 0
    ensures ShiftPhdr(c, h, d)
         == Phdr(h.ptype, h.flags, h.offset + d, h.vaddr, h.paddr, h.filesz, h.memsz, AlignAfter(c, h, d))
  {
    if h.align != 0 {
      RemainderIs(AddrMinus(c, h.vaddr, h.offset + d), h.align);
    }
  }

  /** The segment describes the section of this name. */
  ghost predicate Follows(f: Elf, name: Name, g: Phdr) {
    var k := Find(f.names, f.shdrs, name);
    && k > 0 && g.offset == f.shdrs[k].offset && g.vaddr == g.paddr == f.shdrs[k].addr
    && g.filesz == g.memsz == f.shdrs[k].size
  }

  /**
   * What becomes of segment i: PT_PHDR in front describes the table, PT_INTERP and PT_DYNAMIC the
   * section they follow if it was staged, and any other keeps its addresses and sizes and moves with
   * the file; type and flags are always kept.
   */
  ghost predicate SegmentKept(e: Elf, staged: seq<Entry>, d: nat, table: nat, f: Elf, i: nat, g: Phdr)
    requires i < |e.phdrs| && |f.file| >= f.cfg.EhdrSize()
  {
    var h := e.phdrs[i];
    && g.ptype == h.ptype && g.flags == h.flags && g.align == AlignAfter(e.cfg, h, d)
    && (if h.ptype == 6 && i == 0 then
          && g.offset == Hdr(f).phoff && g.vaddr == g.paddr == table
          && g.filesz == g.memsz == |f.phdrs| * (if e.cfg.cls == Elf32 then 32 else 56)
        else if h.ptype == 3 && Has(staged, ".interp") then Follows(f, ".interp", g)
        else if h.ptype == 2 && Has(staged, ".dynamic") then Follows(f, ".dynamic", g)
        else
          && g.offset == h.offset + d && g.vaddr == h.vaddr && g.paddr == h.paddr
          && g.filesz == h.filesz && g.memsz == h.memsz)
  }

  lemma RelaidFields(c: Config, m: Move, h: Phdr)
    ensures var g := RelaidPhdr(c, m, h);
            && g.ptype == h.ptype && g.flags == h.flags && g.align == AlignAfter(c, h, m.d)
            && (if h.ptype == 3 && Has(m.p.rs, ".interp") then
                  g == SyncWith(g, NewSpot(c, m.p, IndexOf(m.p.rs, ".interp")))
                else if h.ptype == 2 && Has(m.p.rs, ".dynamic") then
                  g == SyncWith(g, NewSpot(c, m.p, IndexOf(m.p.rs, ".dynamic")))
                else g == h.(offset := h.offset + m.d, align := AlignAfter(c, h, m.d)))
  {
    if m.d > 0 {
      ShiftFields(c, h, m.d);
    }
  }

  lemma FollowsStaged(e: Elf, m: Move, mid: Elf, f: Elf, addr: nat, n: nat, t: HeaderTrace, name: Name, g: Phdr)
    requires Rewrite(e, m, mid, f, addr, n, t) && Has(m.p.rs, name)
    requires g == SyncWith(g, NewSpot(e.cfg, m.p, IndexOf(m.p.rs, name)))
    ensures Follows(f, name, g)
  {
    hide Rewrite, NewSpot;
    StagedRecorded(e, m, mid, f, addr, n, t, IndexOf(m.p.rs, name));
  }

  lemma SegmentFields(e: Elf, m: Move, mid: Elf, f: Elf, addr: nat, n: nat, t: HeaderTrace, i: nat)
    requires Rewrite(e, m, mid, f, addr, n, t) && i < |e.phdrs|
    ensures |f.file| >= f.cfg.EhdrSize() && |f.phdrs| == |e.phdrs| + |m.extra| && Bijection(t.p, t.inv, |f.phdrs|)
    ensures SegmentKept(e, m.p.rs, m.d, addr, f, i, f.phdrs[t.p[i]])
  {
    hide Rewrite, WellFormed, Relaid, SortedShdrs, PhdrsStored, ShdrsStored, OnlyHeaders, DynamicEdited, NullStored,
         DynamicReady, Follows, RelaidPhdr, NewSpot, SortedPhdrs, SegmentKept, Has, TableSize, DecodeEhdr, IndexOf;
    MidReady(e, m, mid, f, addr, n, t);
    RewriteKeeps(e, m, mid, f, addr, n, t);
    RewriteRelaid(e, m, mid, f, addr, n, t);
    CountsAre(f);
    CountsAre(mid);
    SegmentSorted(e, m, mid, f, addr, t.p, t.inv, i);
    MidCfg(e, m, mid);
    RelaidFields(e.cfg, m, e.phdrs[i]);
    PlacesInRange(t.p, t.inv, |f.phdrs|, i);
    var g := f.phdrs[t.p[i]];
    if e.phdrs[i].ptype == 3 && Has(m.p.rs, ".interp") {
      FollowsStaged(e, m, mid, f, addr, n, t, ".interp", g);
    } else if e.phdrs[i].ptype == 2 && Has(m.p.rs, ".dynamic") {
      FollowsStaged(e, m, mid, f, addr, n, t, ".dynamic", g);
    }
    KeptIs(e, m, f, Hdr(mid).phoff, addr, i, g);
  }

  lemma KeptIs(e: Elf, m: Move, f: Elf, phoff: nat, addr: nat, i: nat, g: Phdr)
    requires i < |e.phdrs| && |f.file| >= f.cfg.EhdrSize() && Hdr(f).phoff == phoff
    requires var h := RelaidPhdr(e.cfg, m, e.phdrs[i]);
             g == if h.ptype == 6 && i == 0 then
                    var size := TableSize(|f.phdrs|, e.cfg.PhdrSize());
                    h.(offset := phoff, vaddr := addr, paddr := addr, filesz := size, memsz := size)
                  else h
    requires e.phdrs[i].ptype == 3 && Has(m.p.rs, ".interp") ==> Follows(f, ".interp", g)
    requires e.phdrs[i].ptype == 2 && Has(m.p.rs, ".dynamic") ==> Follows(f, ".dynamic", g)
    ensures SegmentKept(e, m.p.rs, m.d, addr, f, i, g)
  {
    hide RelaidPhdr, Follows, Has, AlignAfter, TableSize, HdrAt, NewSpot, IndexOf;
    RelaidFields(e.cfg, m, e.phdrs[i]);
    TableSizeIs(|f.phdrs|, e.cfg.PhdrSize());
  }

  lemma SegmentSorted(e: Elf, m: Move, mid: Elf, f: Elf, addr: nat, p: seq<nat>, inv: seq<nat>, i: nat)
    requires Relaid(e, mid, m) && i < |e.phdrs| && |mid.file| >= mid.cfg.EhdrSize()
    requires SortedPhdrs(WithPhdrEntry(mid.cfg, mid.phdrs, Hdr(mid).phoff, addr), f.phdrs, p, inv)
    ensures |f.phdrs| == |e.phdrs| + |m.extra| && Bijection(p, inv, |f.phdrs|)
    ensures var h := RelaidPhdr(e.cfg, m, e.phdrs[i]);
            f.phdrs[p[i]] == if h.ptype == 6 && i == 0 then
                               var size := TableSize(|f.phdrs|, e.cfg.PhdrSize());
                               h.(offset := Hdr(mid).phoff, vaddr := addr, paddr := addr, filesz := size, memsz := size)
                             else h
  {
    hide HeadersFit, Carried, Laid, AreaClear, RelaidPhdr, TableSize;
    assert mid.phdrs[i] == RelaidPhdr(e.cfg, m, e.phdrs[i]);
  }

  /** The address that the program header table is given. */
  ghost function RunTable(e: Elf, o: Outcome): int {
    if o.Executable? then o.r.x.startAddr - o.r.x.startOffset - o.r.x.shift + (if e.cfg.cls == Elf32 then 52 else 64)
    else StartPage(e)
  }

  /**
   * The segment a run adds, readable and writable (4 and 2): for libraries it maps the new area, for
   * executables, if they are shifted, the new pages at the front of the file.
   */
  ghost function RunAdded(e: Elf, rs: seq<Entry>, o: Outcome): seq<Phdr>
    requires o.Executable? ==> o.r.x.startAddr - o.r.x.startOffset - o.r.x.shift >= 0
  {
    if o.Executable? then
      var first, shift := o.r.x.startAddr - o.r.x.startOffset - o.r.x.shift, o.r.x.shift;
      if shift > 0 then [Phdr(1, 4 + 2, 0, first, first, shift, shift, PageOf(e.cfg))] else []
    else
      var space := LibrarySpace(e, rs);
      [Phdr(1, 4 + 2, StartOffset(e), StartPage(e), StartPage(e), space, space, PageOf(e.cfg))]
  }

  /** The segments of f are those of e, each as it is kept, and those added, in the order p. */
  ghost predicate SegmentsKept(e: Elf, staged: seq<Entry>, d: nat, table: int, added: seq<Phdr>, f: Elf, p: seq<nat>,
                               inv: seq<nat>) {
    && table >= 0 && |f.file| >= f.cfg.EhdrSize() && |f.phdrs| == |e.phdrs| + |added| && Bijection(p, inv, |f.phdrs|)
    && (forall i :: 0 <= i < |e.phdrs| ==> SegmentKept(e, staged, d, table, f, i, f.phdrs[p[i]]))
    && (forall x :: 0 <= x < |added| ==> f.phdrs[p[|e.phdrs| + x]] == added[x])
  }

  /** All segments after a run: each old one, as it is kept, and the one added. */
  lemma SegmentsAfterRun(e: Elf, rs: seq<Entry>, f: Elf, n: nat, o: Outcome) returns (p: seq<nat>, inv: seq<nat>)
    requires Rewritten(e, rs, f, n, o) && o != Untouched
    ensures o.Executable? ==> o.r.x.startAddr - o.r.x.startOffset - o.r.x.shift >= 0
    ensures SegmentsKept(e, RunStaged(rs, o), RunShift(o), RunTable(e, o), RunAdded(e, rs, o), f, p, inv)
  {
    hide Rewritten, Rewrite, WellFormed, SortStep, SegmentKept, LibrarySpace, LastPage, Padded, Bijection;
    var b, m, mid, addr, t := RunIsRewrite(e, rs, f, n, o);
    p, inv := t.p, t.inv;
    assert m.extra == RunAdded(e, rs, o);
    AddedSegments(b, m, mid, f, addr, n, t);
    forall i | 0 <= i < |e.phdrs|
      ensures i < |p| && p[i] < |f.phdrs|
      ensures SegmentKept(e, RunStaged(rs, o), RunShift(o), RunTable(e, o), f, i, f.phdrs[p[i]])
    {
      SegmentFields(b, m, mid, f, addr, n, t, i);
      PlacesInRange(p, inv, |f.phdrs|, i);
      KeptOfBase(e, b, m.p.rs, m.d, addr, f, i, f.phdrs[p[i]]);
    }
  }

  lemma PlacesInRange(p: seq<nat>, inv: seq<nat>, n: nat, i: nat)
    requires Bijection(p, inv, n) && i < n
    ensures |p| == |inv| == n && p[i] < n && inv[i] < n
  {
  }

  lemma KeptOfBase(e: Elf, b: Elf, staged: seq<Entry>, d: nat, table: nat, f: Elf, i: nat, g: Phdr)
    requires b.phdrs == e.phdrs && b.cfg == e.cfg && i < |e.phdrs| && |f.file| >= f.cfg.EhdrSize()
    requires SegmentKept(b, staged, d, table, f, i, g)
    ensures SegmentKept(e, staged, d, table, f, i, g)
  {
    hide Follows, AlignAfter, Has, Hdr;
  }

  lemma AddedSegments(e: Elf, m: Move, mid: Elf, f: Elf, addr: nat, n: nat, t: HeaderTrace)
    requires Rewrite(e, m, mid, f, addr, n, t)
    ensures |f.file| >= f.cfg.EhdrSize() && |f.phdrs| == |e.phdrs| + |m.extra| && Bijection(t.p, t.inv, |f.phdrs|)
    ensures forall x :: 0 <= x < |m.extra| ==> f.phdrs[t.p[|e.phdrs| + x]] == m.extra[x]
  {
    hide Rewrite, WellFormed, Relaid, SortedShdrs, PhdrsStored, ShdrsStored, OnlyHeaders, DynamicEdited, NullStored,
         DynamicReady, SortedPhdrs;
    MidReady(e, m, mid, f, addr, n, t);
    RewriteKeeps(e, m, mid, f, addr, n, t);
    RewriteRelaid(e, m, mid, f, addr, n, t);
    CountsAre(f);
    CountsAre(mid);
    AddedSorted(e, m, mid, f, addr, t.p, t.inv);
  }

  lemma AddedSorted(e: Elf, m: Move, mid: Elf, f: Elf, addr: nat, p: seq<nat>, inv: seq<nat>)
    requires Relaid(e, mid, m) && |mid.file| >= mid.cfg.EhdrSize()
    requires SortedPhdrs(WithPhdrEntry(mid.cfg, mid.phdrs, Hdr(mid).phoff, addr), f.phdrs, p, inv)
    ensures |f.phdrs| == |e.phdrs| + |m.extra| && Bijection(p, inv, |f.phdrs|)
    ensures forall x :: 0 <= x < |m.extra| ==> f.phdrs[p[|e.phdrs| + x]] == m.extra[x]
  {
    hide HeadersFit, Carried, Laid, AreaClear, TableSize;
    forall x | 0 <= x < |m.extra| ensures f.phdrs[p[|e.phdrs| + x]] == m.extra[x] {
      assert mid.phdrs[|e.phdrs|..][x] == mid.phdrs[|e.phdrs| + x];
    }
  }

  // ----- the order of the segments -----

  /** PT_PHDR (6) comes first, and all other segments in order of physical address. */
  ghost predicate InAddressOrder(phdrs: seq<Phdr>) {
    forall i, j :: 0 <= i < j < |phdrs| && phdrs[j].ptype != 6 ==>
      phdrs[i].ptype == 6 || phdrs[i].paddr <= phdrs[j].paddr
  }

  lemma SegmentsInOrder(e: Elf, rs: seq<Entry>, f: Elf, n: nat, o: Outcome)
    requires Rewritten(e, rs, f, n, o) && o != Untouched
    ensures forall i, j :: 0 <= i < j < |f.phdrs| && f.phdrs[j].ptype == 6 ==> f.phdrs[i].ptype == 6
    ensures InAddressOrder(f.phdrs)
  {
    hide Rewritten, Rewrite, WellFormed, NullStored, DynamicReady, OnlyHeaders, DynamicEdited, WithPhdrEntry;
    var b, m, mid, addr, t := RunIsRewrite(e, rs, f, n, o);
    MidReady(b, m, mid, f, addr, n, t);
  }

  /**
   * If the loadable segments (1) had equal physical and virtual addresses, they end in order of
   * address, the added one included.
   */
  lemma LoadsInOrder(e: Elf, rs: seq<Entry>, f: Elf, n: nat, o: Outcome)
    requires Rewritten(e, rs, f, n, o) && o != Untouched
    requires forall i :: 0 <= i < |e.phdrs| && e.phdrs[i].ptype == 1 ==> e.phdrs[i].vaddr == e.phdrs[i].paddr
    ensures forall i, j :: 0 <= i < j < |f.phdrs| && f.phdrs[i].ptype == 1 && f.phdrs[j].ptype == 1 ==>
      f.phdrs[i].vaddr <= f.phdrs[j].vaddr
  {
    hide Rewritten, Bijection, LibrarySpace, StartPage, StartOffset, AlignAfter, Has, Find, Follows;
    SegmentsInOrder(e, rs, f, n, o);
    var p, inv := SegmentsAfterRun(e, rs, f, n, o);
    forall j | 0 <= j < |f.phdrs| && f.phdrs[j].ptype == 1 ensures f.phdrs[j].vaddr == f.phdrs[j].paddr {
      PlacesInRange(p, inv, |f.phdrs|, j);
      PlaceBack(p, inv, |f.phdrs|, j);
      var i := inv[j];
      if i < |e.phdrs| {
        assert SegmentKept(e, RunStaged(rs, o), RunShift(o), RunTable(e, o), f, i, f.phdrs[p[i]]);
      } else {
        var x := i - |e.phdrs|;
        assert f.phdrs[p[|e.phdrs| + x]] == RunAdded(e, rs, o)[x];
      }
    }
  }

  lemma PlaceBack(p: seq<nat>, inv: seq<nat>, n: nat, j: nat)
    requires Bijection(p, inv, n) && j < n
    ensures |p| == |inv| == n && inv[j] < n && p[inv[j]] == j
  {
  }

  // ----- the ELF header -----

  /** The fields of the ELF header that no rewrite changes, and the section-name table by its name. */
  ghost predicate SameHeader(e: Elf, f: Elf) {
    && |e.file| >= e.cfg.EhdrSize() && |f.file| >= f.cfg.EhdrSize() && f.cfg == e.cfg && f.names == e.names
    && var g, h := Hdr(f), Hdr(e);
    && g.ident == h.ident && g.etype == h.etype && g.machine == h.machine && g.version == h.version
    && g.entry == h.entry && g.flags == h.flags && g.ehsize == h.ehsize && g.phentsize == h.phentsize
    && g.shentsize == h.shentsize && g.shnum == h.shnum
    && h.shstrndx < |e.shdrs| && g.shstrndx < |f.shdrs|
    && NameOf(f.names, f.shdrs[g.shstrndx]) == NameOf(e.names, e.shdrs[h.shstrndx])
  }

  lemma SortedHeader(e: Elf, b: Elf, p: seq<nat>, inv: seq<nat>)
    requires WellFormed(e) && SortStep(e, b, p, inv)
    ensures SameHeader(e, b) && Hdr(b).shoff == Hdr(e).shoff
  {
    hide BodiesInFile, BodiesDisjoint, TablesApart, DistinctNames, DecodeEhdr, EncodeEhdr;
    var k := Hdr(e).shstrndx;
    SortKeepsWellFormed(e, b, p, inv);
    assert b.shdrs[p[k]] == Relinked(e.shdrs[k], p);
  }

  lemma RewrittenHeader(e: Elf, m: Move, mid: Elf, f: Elf, addr: nat, n: nat, t: HeaderTrace)
    requires Rewrite(e, m, mid, f, addr, n, t)
    ensures SameHeader(e, f) && |mid.file| >= mid.cfg.EhdrSize()
    ensures Hdr(f).shoff == Hdr(e).shoff + m.d && Hdr(f).phoff == Hdr(mid).phoff && Hdr(f).phnum == |f.phdrs|
  {
    hide Rewrite, WellFormed, PhdrsStored, ShdrsStored, PhdrsRelaid, HeadersFit, Carried, Laid, AreaClear, RelaidShdr,
         NullStored, DynamicReady, OnlyHeaders, DynamicEdited, SortedPhdrs, DecodeEhdr;
    RewriteKeeps(e, m, mid, f, addr, n, t);
    RewriteRelaid(e, m, mid, f, addr, n, t);
    CountsAre(f);
    IndexInRange(e);
    IndexInRange(f);
    var k := Hdr(e).shstrndx;
    RelaidName(e, mid, m, k);
    assert f.shdrs[t.sp[k]] == Relinked(mid.shdrs[k], t.sp);
  }

  lemma HeaderChain(e: Elf, b: Elf, f: Elf)
    requires SameHeader(e, b) && SameHeader(b, f)
    ensures SameHeader(e, f)
  {
    hide DecodeEhdr;
  }

  lemma TablePlace(e: Elf, rs: seq<Entry>, f: Elf, n: nat, o: Outcome)
    requires Rewritten(e, rs, f, n, o) && o != Untouched
    ensures o.mid.cfg == e.cfg && |o.mid.file| >= o.mid.cfg.EhdrSize()
    ensures Hdr(o.mid).phoff == if o.Library? then StartOffset(e) else if e.cfg.cls == Elf32 then 52 else 64
  {
    hide HeadersStep, Ready, WellFormed, SortStep, Scanned, DecodeEhdr, ShiftDecided, ExecRoom, Resolvable, PhdrsRelaid,
         HeadersFit, Carried, Laid, AreaClear, RelaidShdr, Padded, LastPage, LibrarySpace;
    if o.Executable? {
      SortCfg(e, o.r.sorted, o.r.p, o.r.inv);
    }
  }

  /**
   * The ELF header keeps all but the places and counts of the tables and the index of the section-name
   * table, which still names the same section.
   */
  lemma HeaderAfterRun(e: Elf, rs: seq<Entry>, f: Elf, n: nat, o: Outcome)
    requires Rewritten(e, rs, f, n, o) && o != Untouched
    ensures SameHeader(e, f)
    ensures var g, h := Hdr(f), Hdr(e);
            && g.phnum == |f.phdrs| && g.shoff == h.shoff + RunShift(o)
            && g.phoff == if o.Library? then StartOffset(e) else if e.cfg.cls == Elf32 then 52 else 64
  {
    hide Rewritten, Rewrite, WellFormed, SortStep, SameHeader, DecodeEhdr, StartOffset;
    var b, m, mid, addr, t := RunIsRewrite(e, rs, f, n, o);
    RewrittenHeader(b, m, mid, f, addr, n, t);
    TablePlace(e, rs, f, n, o);
    if o.Executable? {
      SortedHeader(e, b, o.r.p, o.r.inv);
      HeaderChain(e, b, f);
    }
    HeaderSizes(e, f);
  }

  lemma HeaderSizes(e: Elf, f: Elf)
    requires SameHeader(e, f)
    ensures |e.file| >= e.cfg.EhdrSize() && |f.file| >= f.cfg.EhdrSize() && f.cfg == e.cfg
  {
  }
}
