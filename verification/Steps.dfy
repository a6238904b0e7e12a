/** The steps of a rewrite, each as a function or relation on states (patchelf.cc). */
module Steps {
  import opened Bytes
  import opened Codec
  import opened ElfTypes
  import opened Rounding
  import opened Staging
  import opened Sorting
  import opened Elf
  import opened Links
  import opened Placement
  import opened Tables

  /** x - y in the unsigned Elf_Addr type. */
  function AddrMinus(c: Config, x: nat, y: nat): nat {
    if c.cls == Elf32 then (x - y) % WORD else (x - y) % 0x1_0000_0000_0000_0000
  }

  /** A segment mapping `size` bytes of the file at `offset` to `addr`. */
  function LoadSegment(c: Config, offset: nat, addr: nat, size: nat): Phdr {
    Phdr(PT_LOAD, PF_RW, offset, addr, addr, size, size, c.PageSize())
  }

  // ----- shiftFile -----

  function ShiftPhdr(c: Config, h: Phdr, shift: nat): Phdr {
    var q := h.(offset := h.offset + shift);
    if q.align != 0 && Remainder(AddrMinus(c, q.vaddr, q.offset), q.align) != 0 then q.(align := c.PageSize()) else q
  }

  /** No field that shiftFile increases overflows. */
  ghost predicate ShiftFits(e: Elf, shift: nat) {
    && Counts(e) && e.cfg.EhdrSize() <= shift
    && Hdr(e).shoff + shift < e.cfg.Limit() && Hdr(e).phnum + 1 < HALF && shift < e.cfg.Limit()
    && (forall i :: 0 <= i < |e.phdrs| ==> e.phdrs[i].offset + shift < e.cfg.Limit())
    && (forall i :: 0 <= i < |e.shdrs| ==> e.shdrs[i].offset + shift < e.cfg.Limit())
  }

  function ShiftedPhdrs(c: Config, phdrs: seq<Phdr>, shift: nat): seq<Phdr> {
    seq(|phdrs|, i requires 0 <= i < |phdrs| => ShiftPhdr(c, phdrs[i], shift))
  }

  function ShiftedShdrs(shdrs: seq<Shdr>, shift: nat): seq<Shdr> {
    seq(|shdrs|, i requires 0 <= i < |shdrs| =>
      if i == 0 then shdrs[0] else shdrs[i].(offset := shdrs[i].offset + shift))
  }

  function ShiftedHdr(c: Config, h: Ehdr, shift: nat): Ehdr {
    h.(phoff := c.EhdrSize(), shoff := h.shoff + shift, phnum := h.phnum + 1)
  }

  /** The whole file moved up, and the gap cleared behind the ELF header, which stays where it was. */
  function MovedUp(c: Config, file: seq<Byte>, shift: nat): (f: seq<Byte>)
    requires c.EhdrSize() <= |file| && c.EhdrSize() <= shift
    ensures |f| == |file| + shift
  {
    file[..c.EhdrSize()] + Fill(shift - c.EhdrSize(), '\0') + file
  }

  /** The two stores that move a file up within the space it has been given. */
  lemma MovedIs(c: Config, space: seq<Byte>, file: seq<Byte>, shift: nat)
    requires c.EhdrSize() <= |file| && c.EhdrSize() <= shift && |space| == |file| + shift && space[..|file|] == file
    ensures Splice(Splice(space, shift, file), c.EhdrSize(), Fill(shift - c.EhdrSize(), '\0'))
         == MovedUp(c, file, shift)
  {
    var r := Splice(Splice(space, shift, file), c.EhdrSize(), Fill(shift - c.EhdrSize(), '\0'));
    forall k | 0 <= k < |r| ensures r[k] == MovedUp(c, file, shift)[k] {
      assert k < c.EhdrSize() ==> space[k] == file[k];
    }
  }

  function Shifted(e: Elf, shift: nat, startPage: nat): Elf
    requires ShiftFits(e, shift)
  {
    e.(file := WithHdr(e.cfg, MovedUp(e.cfg, e.file, shift), ShiftedHdr(e.cfg, Hdr(e), shift)),
       phdrs := ShiftedPhdrs(e.cfg, e.phdrs, shift) + [LoadSegment(e.cfg, 0, startPage, shift)],
       shdrs := ShiftedShdrs(e.shdrs, shift))
  }

  lemma ShiftedFile(e: Elf, shift: nat, startPage: nat)
    requires ShiftFits(e, shift)
    ensures var f := Shifted(e, shift, startPage);
            && |f.file| == |e.file| + shift && Hdr(f) == ShiftedHdr(e.cfg, Hdr(e), shift)
            && (forall k :: 0 <= k < |e.file| ==> f.file[k + shift] == e.file[k])
            && (forall k :: e.cfg.EhdrSize() <= k < shift ==> f.file[k] == '\0')
  {
  }

  // ----- rewriteHeaders -----

  /** PT_PHDR describes the program header table; it must be the first entry. */
  function WithPhdrEntry(c: Config, phdrs: seq<Phdr>, phoff: nat, addr: nat): (r: seq<Phdr>)
    ensures |r| == |phdrs|
  {
    if phdrs != [] && phdrs[0].ptype == PT_PHDR then
      var size := TableSize(|phdrs|, c.PhdrSize());
      phdrs[0 := phdrs[0].(offset := phoff, vaddr := addr, paddr := addr, filesz := size, memsz := size)]
    else phdrs
  }

  /** CompPhdr: PT_PHDR before everything, then by physical address. */
  function PhdrKey(h: Phdr): int {
    if h.ptype == PT_PHDR then -1 else h.paddr
  }

  function PhdrKeys(phdrs: seq<Phdr>): (k: seq<int>)
    ensures |k| == |phdrs| && forall i :: 0 <= i < |k| ==> k[i] == PhdrKey(phdrs[i])
  {
    seq(|phdrs|, i requires 0 <= i < |phdrs| => PhdrKey(phdrs[i]))
  }

  /** A sorted rearrangement of the program headers. */
  ghost predicate SortedPhdrs(a: seq<Phdr>, b: seq<Phdr>, p: seq<nat>, inv: seq<nat>) {
    Rearranged(a, b, p, inv) && forall i, j :: 0 <= i < j < |b| ==> PhdrKey(b[i]) <= PhdrKey(b[j])
  }

  /** The states that rewriteHeaders goes through, and the permutations its two sorts chose. */
  datatype HeaderTrace = HeaderTrace(tabled: Elf, sorted: Elf, p: seq<nat>, inv: seq<nat>, sp: seq<nat>, sinv: seq<nat>)

  /** .dynamic, if there is one, is a file-backed section whose table ends within its body at entry n. */
  ghost predicate DynamicReady(e: Elf, n: nat) {
    var d := Find(e.names, e.shdrs, DYNAMIC);
    d > 0 ==> e.shdrs[d].stype != SHT_NOBITS && Terminated(e.cfg, e.file, e.shdrs[d].offset, n)
              && TableSize(n + 1, e.cfg.DynSize()) <= e.shdrs[d].size
  }

  function WithDynamic(e: Elf, n: nat): Elf
    requires var d := Find(e.names, e.shdrs, DYNAMIC);
             d > 0 ==> e.shdrs[d].offset + TableSize(n, e.cfg.DynSize()) <= |e.file|
  {
    var d := Find(e.names, e.shdrs, DYNAMIC);
    if d == 0 then e
    else e.(file := EditDyns(e.cfg, e.names, e.shdrs, e.file, e.shdrs[d].offset, n))
  }

  function StoredShdrs(e: Elf): Elf
    requires |e.file| >= e.cfg.EhdrSize() && ShEnd(e) <= |e.file| && |e.shdrs| > 0
  {
    e.(file := WriteShdrs(e.cfg, e.file, Hdr(e).shoff, e.shdrs, |e.shdrs|))
  }

  /** The program headers updated, sorted and stored. */
  ghost predicate PhdrStep(e: Elf, f: Elf, addr: nat, p: seq<nat>, inv: seq<nat>) {
    && |e.file| >= e.cfg.EhdrSize() && Hdr(e).phoff + TableSize(|f.phdrs|, e.cfg.PhdrSize()) <= |e.file|
    && SortedPhdrs(WithPhdrEntry(e.cfg, e.phdrs, Hdr(e).phoff, addr), f.phdrs, p, inv)
    && f == e.(phdrs := f.phdrs, file := WritePhdrs(e.cfg, e.file, Hdr(e).phoff, f.phdrs, |f.phdrs|))
  }

  /** rewriteHeaders as a whole: program headers, sorted section headers, dynamic table. */
  ghost predicate HeadersStep(e: Elf, f: Elf, addr: nat, n: nat, t: HeaderTrace) {
    && PhdrStep(e, t.tabled, addr, t.p, t.inv)
    && SortStep(t.tabled, t.sorted, t.sp, t.sinv)
    && |t.sorted.file| >= e.cfg.EhdrSize() && ShEnd(t.sorted) <= |t.sorted.file|
    && (var d := Find(e.names, t.sorted.shdrs, DYNAMIC);
        d > 0 ==> t.sorted.shdrs[d].offset + TableSize(n, e.cfg.DynSize()) <= |t.sorted.file|)
    && f == WithDynamic(StoredShdrs(t.sorted), n)
  }

  // ----- the steps keep the state well formed -----

  /** Well-formedness looks at the file only through its length and its ELF header. */
  lemma FileReplaced(e: Elf, f: Elf)
    requires WellFormed(e) && f == e.(file := f.file)
    requires |f.file| == |e.file| && HdrAt(e.cfg, f.file) == HdrAt(e.cfg, e.file)
    ensures WellFormed(f)
  {
    assert Hdr(f) == Hdr(e);
    assert PhEnd(f) == PhEnd(e) && ShEnd(f) == ShEnd(e);
    forall i, k | 0 <= i < |f.shdrs| && InBody(f.shdrs[i], k)
      ensures f.cfg.EhdrSize() <= k < |f.file|
      ensures !(Hdr(f).phoff <= k < PhEnd(f)) && !(Hdr(f).shoff <= k < ShEnd(f))
    {
      assert InBody(e.shdrs[i], k);
    }
  }

  lemma HdrKept(c: Config, f: seq<Byte>, g: seq<Byte>, lo: int, hi: int)
    requires c.EhdrSize() <= |f| && c.EhdrSize() <= lo && SameOutside(f, g, lo, hi)
    ensures HdrAt(c, f) == HdrAt(c, g)
  {
    SameSlice(f, g, lo, hi, 0, c.EhdrSize());
    assert f[0..c.EhdrSize()] == f[..c.EhdrSize()] && g[0..c.EhdrSize()] == g[..c.EhdrSize()];
  }

  lemma PhdrEntryFits(c: Config, phdrs: seq<Phdr>, phoff: nat, addr: nat)
    requires forall i :: 0 <= i < |phdrs| ==> PhdrOk(c, phdrs[i])
    requires phoff < c.Limit() && addr < c.Limit() && |phdrs| < HALF
    ensures var r := WithPhdrEntry(c, phdrs, phoff, addr); forall i :: 0 <= i < |r| ==> PhdrOk(c, r[i])
  {
    TableSizeIs(|phdrs|, c.PhdrSize());
    assert |phdrs| * c.PhdrSize() <= HALF * 56;
  }

  lemma PhdrStepKeeps(e: Elf, f: Elf, addr: nat, p: seq<nat>, inv: seq<nat>)
    requires WellFormed(e) && PhdrStep(e, f, addr, p, inv) && addr < e.cfg.Limit()
    ensures WellFormed(f) && Hdr(f) == Hdr(e) && SameOutside(f.file, e.file, Hdr(e).phoff, PhEnd(e))
    ensures HoldsPhdrs(e.cfg, f.file, Hdr(e).phoff, f.phdrs, |f.phdrs|)
  {
    hide DecodeEhdr, DistinctNames, LinksInRange, BodiesDisjoint;
    PhdrEntryFits(e.cfg, e.phdrs, Hdr(e).phoff, addr);
    forall j | 0 <= j < |f.phdrs| ensures PhdrOk(e.cfg, f.phdrs[j]) {
      assert f.phdrs[j] == WithPhdrEntry(e.cfg, e.phdrs, Hdr(e).phoff, addr)[inv[j]];
    }
    WritePhdrsReads(e.cfg, e.file, Hdr(e).phoff, f.phdrs, |f.phdrs|);
    HdrKept(e.cfg, f.file, e.file, Hdr(e).phoff, PhEnd(e));
    FileReplaced(e, e.(file := f.file));
    assert PhEnd(f) == PhEnd(e) && ShEnd(f) == ShEnd(e);
  }

  lemma StoredShdrsKeeps(e: Elf)
    requires WellFormed(e) && HoldsShdr(e.cfg, e.file, Hdr(e).shoff, e.shdrs, 0)
    ensures var f := StoredShdrs(e);
            WellFormed(f) && Hdr(f) == Hdr(e) && SameOutside(f.file, e.file, Hdr(e).shoff + e.cfg.ShdrSize(), ShEnd(e))
            && HoldsShdrs(e.cfg, f.file, Hdr(e).shoff, f.shdrs, |f.shdrs|)
  {
    hide DecodeEhdr, DistinctNames, LinksInRange, BodiesDisjoint, HoldsShdrs, WriteShdrs, TableSize;
    var f := StoredShdrs(e);
    WriteShdrsReads(e.cfg, e.file, Hdr(e).shoff, e.shdrs, |e.shdrs|);
    HdrKept(e.cfg, f.file, e.file, Hdr(e).shoff + e.cfg.ShdrSize(), ShEnd(e));
    FileReplaced(e, f);
  }

  /** Changes outside the body of .dynamic leave its table alone. */
  lemma DynamicKept(e: Elf, f: Elf, n: nat)
    requires f.cfg == e.cfg && f.names == e.names && f.shdrs == e.shdrs && |f.file| == |e.file|
    requires DynamicReady(e, n)
    requires forall k :: 0 <= k < |e.file| && InDynamic(e, k) ==> f.file[k] == e.file[k]
    ensures DynamicReady(f, n) && SameDynamic(e, f, n)
  {
    var d := Find(e.names, e.shdrs, DYNAMIC);
    if d > 0 {
      forall k | e.shdrs[d].offset <= k < e.shdrs[d].offset + TableSize(n + 1, e.cfg.DynSize()) && k < |e.file|
        ensures e.file[k] == f.file[k]
      {
        assert InDynamic(e, k);
      }
      TerminatedFrame(e.cfg, e.file, f.file, e.shdrs[d].offset, n);
    }
  }

  ghost predicate InDynamic(e: Elf, k: int) {
    var d := Find(e.names, e.shdrs, DYNAMIC);
    d > 0 && InBody(e.shdrs[d], k)
  }

  ghost predicate SameDynamic(e: Elf, f: Elf, n: nat) {
    var d := Find(e.names, e.shdrs, DYNAMIC);
    d > 0 ==> SameEntries(e.cfg, e.file, f.file, e.shdrs[d].offset, n)
  }

  ghost predicate SameEntries(c: Config, f: seq<Byte>, g: seq<Byte>, off: nat, n: nat) {
    forall i :: 0 <= i <= n ==> SameEntry(c, f, g, off, i)
  }

  // ----- what a run of rewriteHeaders leaves -----

  /** A byte of the ELF header or of either header table. */
  ghost predicate InHeaders(e: Elf, k: int)
    requires |e.file| >= e.cfg.EhdrSize()
  {
    0 <= k < e.cfg.EhdrSize() || Hdr(e).phoff <= k < PhEnd(e) || Hdr(e).shoff <= k < ShEnd(e)
  }

  /** g agrees with f outside the headers. */
  ghost predicate SameBodies(f: Elf, g: Elf)
    requires |f.file| >= f.cfg.EhdrSize()
  {
    |g.file| == |f.file| && forall k :: 0 <= k < |f.file| && !InHeaders(f, k) ==> g.file[k] == f.file[k]
  }

  ghost predicate SameTables(f: Elf, g: Elf)
    requires |f.file| >= f.cfg.EhdrSize() && |g.file| >= g.cfg.EhdrSize()
  {
    g.cfg == f.cfg && Hdr(g).phoff == Hdr(f).phoff && PhEnd(g) == PhEnd(f)
    && Hdr(g).shoff == Hdr(f).shoff && ShEnd(g) == ShEnd(f)
  }

  ghost predicate NullStored(e: Elf)
    requires |e.file| >= e.cfg.EhdrSize() && |e.shdrs| > 0
  {
    HoldsShdr(e.cfg, e.file, Hdr(e).shoff, e.shdrs, 0)
  }

  ghost predicate PhdrsStored(e: Elf)
    requires |e.file| >= e.cfg.EhdrSize()
  {
    HoldsPhdrs(e.cfg, e.file, Hdr(e).phoff, e.phdrs, |e.phdrs|)
  }

  ghost predicate ShdrsStored(e: Elf)
    requires |e.file| >= e.cfg.EhdrSize()
  {
    HoldsShdrs(e.cfg, e.file, Hdr(e).shoff, e.shdrs, |e.shdrs|)
  }

  /** Bytes of bodies are never header bytes, so .dynamic is untouched by the tables. */
  lemma TablesKeepDynamic(e: Elf, f: Elf, n: nat)
    requires WellFormed(e) && DynamicReady(e, n) && SameBodies(e, f)
    requires f.cfg == e.cfg && f.names == e.names && f.shdrs == e.shdrs
    ensures DynamicReady(f, n) && SameDynamic(e, f, n)
  {
    forall k | 0 <= k < |e.file| && InDynamic(e, k) ensures f.file[k] == e.file[k] {
      assert InBody(e.shdrs[Find(e.names, e.shdrs, DYNAMIC)], k);
    }
    DynamicKept(e, f, n);
  }

  lemma TabledFacts(e: Elf, f: Elf, addr: nat, n: nat, p: seq<nat>, inv: seq<nat>)
    requires WellFormed(e) && DynamicReady(e, n) && NullStored(e) && addr < e.cfg.Limit()
    requires PhdrStep(e, f, addr, p, inv)
    ensures WellFormed(f) && DynamicReady(f, n) && NullStored(f) && PhdrsStored(f)
    ensures Hdr(f) == Hdr(e) && SameTables(e, f) && SameBodies(e, f) && SameDynamic(e, f, n)
  {
    hide DecodeEhdr, SortedPhdrs, WritePhdrs, WithPhdrEntry, Terminated, DistinctNames, LinksInRange, BodiesDisjoint,
         Find;
    PhdrStepKeeps(e, f, addr, p, inv);
    assert PhEnd(f) == PhEnd(e) && ShEnd(f) == ShEnd(e);
    TablesKeepDynamic(e, f, n);
    SlotInside(Hdr(e).shoff, 0, |e.shdrs|, e.cfg.ShdrSize());
    SameSlice(f.file, e.file, Hdr(e).phoff, PhEnd(e), Hdr(e).shoff, Hdr(e).shoff + e.cfg.ShdrSize());
  }

  lemma SortedFacts(e: Elf, f: Elf, n: nat, p: seq<nat>, inv: seq<nat>)
    requires WellFormed(e) && DynamicReady(e, n) && NullStored(e) && PhdrsStored(e) && SortStep(e, f, p, inv)
    ensures WellFormed(f) && DynamicReady(f, n) && NullStored(f) && PhdrsStored(f)
    ensures Hdr(f) == Hdr(e).(shstrndx := p[Hdr(e).shstrndx]) && SameTables(e, f) && SameBodies(e, f)
    ensures DynamicPlace(e) == DynamicPlace(f)
    ensures forall k :: InDynamic(e, k) <==> InDynamic(f, k)
    ensures Find(e.names, e.shdrs, DYNAMIC) > 0 ==> SameEntries(e.cfg, e.file, f.file, DynamicPlace(e), n)
  {
    hide DecodeEhdr, EncodeEhdr, Terminated, BodiesDisjoint, LinksInRange, DistinctNames, HoldsPhdrs, HoldsShdr,
         SameEntry;
    SortKeepsWellFormed(e, f, p, inv);
    assert PhEnd(f) == PhEnd(e) && ShEnd(f) == ShEnd(e);
    FoundAfterSort(e, f, p, inv, DYNAMIC);
    var g := e.(file := f.file);
    TablesKeepDynamic(e, g, n);
    HoldsPhdrsFrame(e.cfg, e.file, f.file, Hdr(e).phoff, e.phdrs, |e.phdrs|);
    SortKeepsNull(e, f, p, inv);
  }

  lemma SortKeepsNull(e: Elf, f: Elf, p: seq<nat>, inv: seq<nat>)
    requires Resolvable(e) && NullStored(e) && SortStep(e, f, p, inv) && e.cfg.EhdrSize() <= Hdr(e).shoff
    requires Hdr(f).shoff == Hdr(e).shoff
    ensures NullStored(f)
  {
    NullStaysFirst(e.shdrs, f.shdrs, p, inv);
    assert f.shdrs[0] == Relinked(e.shdrs[inv[0]], p) == e.shdrs[0];
    var at := Slot(Hdr(e).shoff, 0, e.cfg.ShdrSize());
    assert e.file[at..at + e.cfg.ShdrSize()] == f.file[at..at + e.cfg.ShdrSize()];
  }

  /** Offset of the dynamic table, or 0. */
  ghost function DynamicPlace(e: Elf): nat {
    var d := Find(e.names, e.shdrs, DYNAMIC);
    if d == 0 then 0 else e.shdrs[d].offset
  }

  lemma StoredFacts(e: Elf, n: nat)
    requires WellFormed(e) && DynamicReady(e, n) && NullStored(e) && PhdrsStored(e)
    ensures var f := StoredShdrs(e);
            && WellFormed(f) && DynamicReady(f, n) && ShdrsStored(f) && PhdrsStored(f)
            && Hdr(f) == Hdr(e) && SameTables(e, f) && SameBodies(e, f) && SameDynamic(e, f, n)
  {
    var f := StoredShdrs(e);
    StoredShdrsKeeps(e);
    assert PhEnd(f) == PhEnd(e) && ShEnd(f) == ShEnd(e);
    TablesKeepDynamic(e, f, n);
    HoldsPhdrsFrame(e.cfg, e.file, f.file, Hdr(e).phoff, e.phdrs, |e.phdrs|);
  }

  lemma EditedReads(e: Elf, n: nat)
    requires WellFormed(e) && DynamicReady(e, n) && Find(e.names, e.shdrs, DYNAMIC) > 0
    ensures var f, off := WithDynamic(e, n), DynamicPlace(e);
            && DynsEdited(e.cfg, e.names, e.shdrs, e.file, f.file, off, n)
            && SameOutside(f.file, e.file, off, off + TableSize(n, e.cfg.DynSize()))
  {
    hide DecodeEhdr, DistinctNames, LinksInRange, BodiesInFile, BodiesDisjoint, TablesApart, DynsEdited, EditDyns,
         EndsOnlyAt;
    EditDynsReads(e.cfg, e.names, e.shdrs, e.file, DynamicPlace(e), n);
  }

  lemma EditedKeeps(e: Elf, n: nat)
    requires WellFormed(e) && DynamicReady(e, n) && ShdrsStored(e) && PhdrsStored(e)
    ensures var f := WithDynamic(e, n);
            WellFormed(f) && ShdrsStored(f) && PhdrsStored(f) && Hdr(f) == Hdr(e)
  {
    hide WellFormed, ShdrsStored, PhdrsStored, EditDyns, Hdr, InBody, DynsEdited;
    var d := Find(e.names, e.shdrs, DYNAMIC);
    if d > 0 {
      EditedReads(e, n);
      DynamicTableInBody(e, n);
      SameAroundBody(e, WithDynamic(e, n), d, DynamicPlace(e), DynamicPlace(e) + TableSize(n, e.cfg.DynSize()));
    }
  }

  lemma DynamicTableInBody(e: Elf, n: nat)
    requires DynamicReady(e, n) && Find(e.names, e.shdrs, DYNAMIC) > 0
    ensures var d := Find(e.names, e.shdrs, DYNAMIC);
            forall k :: e.shdrs[d].offset <= k < e.shdrs[d].offset + TableSize(n, e.cfg.DynSize()) ==>
              InBody(e.shdrs[d], k)
  {
    assert TableSize(n, e.cfg.DynSize()) <= TableSize(n + 1, e.cfg.DynSize());
  }

  /** A change inside one body leaves the headers as they were. */
  lemma SameAroundBody(e: Elf, f: Elf, d: nat, off: nat, end: nat)
    requires WellFormed(e) && f == e.(file := f.file) && SameOutside(f.file, e.file, off, end)
    requires d < |e.shdrs| && forall k :: off <= k < end ==> InBody(e.shdrs[d], k)
    requires ShdrsStored(e) && PhdrsStored(e)
    ensures WellFormed(f) && ShdrsStored(f) && PhdrsStored(f) && Hdr(f) == Hdr(e)
  {
    forall k | 0 <= k < |e.file| && InHeaders(e, k) ensures f.file[k] == e.file[k] {
      var inBody := InBody(e.shdrs[d], k);
      assert !inBody;
    }
    assert f.file[..e.cfg.EhdrSize()] == e.file[..e.cfg.EhdrSize()];
    FileReplaced(e, f);
    HoldsPhdrsFrame(e.cfg, e.file, f.file, Hdr(e).phoff, e.phdrs, |e.phdrs|);
    HoldsShdrsFrame(e.cfg, e.file, f.file, Hdr(e).shoff, e.shdrs, |e.shdrs|);
  }

  /** A byte of one of the first n entries of the dynamic table. */
  ghost predicate InDynEntries(e: Elf, n: nat, k: int) {
    Find(e.names, e.shdrs, DYNAMIC) > 0 && DynamicPlace(e) <= k < DynamicPlace(e) + TableSize(n, e.cfg.DynSize())
  }

  /** Each entry before DT_NULL has become what its tag and the final section headers call for. */
  ghost predicate DynamicEdited(e: Elf, f: Elf, n: nat) {
    && (Find(e.names, e.shdrs, DYNAMIC) > 0 <==> Find(f.names, f.shdrs, DYNAMIC) > 0)
    && DynamicPlace(f) == DynamicPlace(e)
    && (Find(e.names, e.shdrs, DYNAMIC) > 0 ==>
          DynsEdited(e.cfg, e.names, f.shdrs, e.file, f.file, DynamicPlace(e), n))
  }

  /** Outside the headers and the edited entries nothing changes. */
  ghost predicate OnlyHeaders(e: Elf, f: Elf, n: nat)
    requires |e.file| >= e.cfg.EhdrSize()
  {
    && |f.file| == |e.file|
    && forall k :: 0 <= k < |e.file| && !InHeaders(e, k) && !InDynEntries(e, n, k) ==> f.file[k] == e.file[k]
  }

  /** After rewriteHeaders the file is well formed again and both tables in it are the ones in memory. */
  lemma HeadersKeep(e: Elf, f: Elf, addr: nat, n: nat, t: HeaderTrace)
    requires WellFormed(e) && DynamicReady(e, n) && NullStored(e) && addr < e.cfg.Limit()
    requires HeadersStep(e, f, addr, n, t)
    ensures WellFormed(f) && PhdrsStored(f) && ShdrsStored(f)
    ensures SortedPhdrs(WithPhdrEntry(e.cfg, e.phdrs, Hdr(e).phoff, addr), f.phdrs, t.p, t.inv)
    ensures SortedShdrs(e.shdrs, f.shdrs, t.sp, t.sinv)
    ensures Hdr(f) == Hdr(e).(shstrndx := t.sp[Hdr(e).shstrndx])
  {
    hide WellFormed, DynamicReady, NullStored, ShdrsStored, PhdrsStored, SameEntries, SameBodies, SameTables,
         DynamicPlace, SameDynamic, InDynamic, DecodeEhdr, SortedPhdrs, SortedShdrs, EditDyns, WriteShdrs, Resolvable;
    TabledFacts(e, t.tabled, addr, n, t.p, t.inv);
    SortedFacts(t.tabled, t.sorted, n, t.sp, t.sinv);
    Shape(t.sorted);
    StoredFacts(t.sorted, n);
    EditedKeeps(StoredShdrs(t.sorted), n);
  }

  /** And nothing but the headers and the entries of the dynamic table has changed. */
  lemma HeadersBytes(e: Elf, f: Elf, addr: nat, n: nat, t: HeaderTrace)
    requires WellFormed(e) && DynamicReady(e, n) && NullStored(e) && addr < e.cfg.Limit()
    requires HeadersStep(e, f, addr, n, t)
    ensures OnlyHeaders(e, f, n) && DynamicEdited(e, f, n)
  {
    hide WellFormed, DynamicReady, NullStored, ShdrsStored, PhdrsStored, PhdrStep, SortStep, DynsEdited, SameEntries,
         InHeaders, SameBodies, SameTables, DynamicPlace, InDynEntries, SameDynamic, StoredShdrs, WithDynamic,
         Resolvable;
    TabledFacts(e, t.tabled, addr, n, t.p, t.inv);
    SortedFacts(t.tabled, t.sorted, n, t.sp, t.sinv);
    StoredFacts(t.sorted, n);
    Shape(e);
    Shape(t.tabled);
    Shape(t.sorted);
    var s := StoredShdrs(t.sorted);
    Shape(s);
    StepFields(e, f, addr, n, t);
    SameBodiesChain(e, t.tabled, t.sorted);
    SameBodiesChain(e, t.sorted, s);
    if Find(s.names, s.shdrs, DYNAMIC) > 0 {
      EditedReads(s, n);
      DynamicEditedThrough(e, t.tabled, t.sorted, s, f, n);
    }
    LastStep(e, s, f, n);
  }

  lemma Shape(e: Elf)
    requires WellFormed(e)
    ensures Resolvable(e) && |e.shdrs| > 0 && |e.file| >= e.cfg.EhdrSize() && ShEnd(e) <= |e.file|
  {
  }

  /** Which fields the steps of rewriteHeaders leave alone, and that .dynamic stays where it is. */
  lemma StepFields(e: Elf, f: Elf, addr: nat, n: nat, t: HeaderTrace)
    requires HeadersStep(e, f, addr, n, t) && DynamicPlace(t.tabled) == DynamicPlace(t.sorted)
    requires |t.sorted.shdrs| > 0 && Resolvable(t.tabled)
    ensures t.tabled.cfg == t.sorted.cfg == f.cfg == e.cfg && t.tabled.names == t.sorted.names == f.names == e.names
    ensures t.tabled.shdrs == e.shdrs && t.sorted.shdrs == f.shdrs
    ensures var s := StoredShdrs(t.sorted);
            s.cfg == e.cfg && s.names == e.names && s.shdrs == f.shdrs
            && DynamicPlace(e) == DynamicPlace(t.sorted) == DynamicPlace(s)
            && (Find(e.names, e.shdrs, DYNAMIC) > 0 <==> Find(s.names, s.shdrs, DYNAMIC) > 0)
            && (Find(s.names, s.shdrs, DYNAMIC) == 0 ==> f == s)
  {
    FoundAfterSort(t.tabled, t.sorted, t.sp, t.sinv, DYNAMIC);
  }

  lemma SameBodiesChain(e: Elf, f: Elf, g: Elf)
    requires |e.file| >= e.cfg.EhdrSize() && |f.file| >= f.cfg.EhdrSize() && |g.file| >= g.cfg.EhdrSize()
    requires SameTables(e, f) && SameTables(f, g) && SameBodies(e, f) && SameBodies(f, g)
    ensures SameTables(e, g) && SameBodies(e, g)
  {
    forall k ensures InHeaders(e, k) <==> InHeaders(f, k) {
    }
  }

  /** The last step changes only the entries of the dynamic table. */
  lemma LastStep(e: Elf, s: Elf, f: Elf, n: nat)
    requires |e.file| >= e.cfg.EhdrSize() && SameBodies(e, s) && e.cfg == s.cfg && f.shdrs == s.shdrs
    requires f.names == s.names == e.names && DynamicPlace(e) == DynamicPlace(s)
    requires Find(e.names, e.shdrs, DYNAMIC) > 0 <==> Find(s.names, s.shdrs, DYNAMIC) > 0
    requires var off := DynamicPlace(s);
             if Find(s.names, s.shdrs, DYNAMIC) == 0 then f == s
             else SameOutside(f.file, s.file, off, off + TableSize(n, e.cfg.DynSize()))
                  && DynsEdited(e.cfg, e.names, f.shdrs, e.file, f.file, off, n)
    ensures OnlyHeaders(e, f, n) && DynamicEdited(e, f, n)
  {
    hide InHeaders, DynsEdited, Find, DecodeEhdr, NameOf, TableSize;
  }

  lemma DynamicEditedThrough(e: Elf, a: Elf, b: Elf, s: Elf, f: Elf, n: nat)
    requires e.cfg == a.cfg == b.cfg == s.cfg && e.names == a.names == b.names == s.names
    requires a.shdrs == e.shdrs && s.shdrs == b.shdrs && Find(s.names, s.shdrs, DYNAMIC) > 0
    requires Find(e.names, e.shdrs, DYNAMIC) > 0 && DynamicPlace(e) == DynamicPlace(b)
    requires SameDynamic(e, a, n) && SameDynamic(b, s, n)
    requires SameEntries(e.cfg, a.file, b.file, DynamicPlace(e), n)
    requires DynsEdited(s.cfg, s.names, s.shdrs, s.file, f.file, DynamicPlace(s), n)
    ensures DynsEdited(e.cfg, e.names, s.shdrs, e.file, f.file, DynamicPlace(e), n)
  {
    var off := DynamicPlace(e);
    forall i | 0 <= i < n ensures DynEdited(e.cfg, e.names, s.shdrs, e.file, f.file, off, i) {
      assert SameEntry(e.cfg, e.file, a.file, off, i);
      assert SameEntry(e.cfg, a.file, b.file, off, i);
      assert SameEntry(e.cfg, b.file, s.file, off, i);
      assert DynEdited(e.cfg, e.names, s.shdrs, s.file, f.file, off, i);
    }
  }

  lemma SortedByKey(a: seq<Phdr>, t: seq<Phdr>, p: seq<nat>, inv: seq<nat>)
    requires Rearranged(a, t, p, inv) && Ascending(PhdrKeys(a), inv)
    ensures SortedPhdrs(a, t, p, inv)
  {
    forall i, j | 0 <= i < j < |t| ensures PhdrKey(t[i]) <= PhdrKey(t[j]) {
      assert PhdrKeys(a)[inv[i]] <= PhdrKeys(a)[inv[j]];
    }
  }

  // ----- the loop over the dynamic table -----

  /** Every entry before DT_NULL that names a section finds one. */
  ghost predicate DynamicResolves(e: Elf, n: nat)
    requires DynamicReady(e, n)
  {
    var d := Find(e.names, e.shdrs, DYNAMIC);
    d > 0 ==> forall i :: 0 <= i < n ==> EntryResolves(e, e.shdrs[d].offset, i)
  }

  ghost predicate EntryResolves(e: Elf, off: nat, i: nat) {
    Slot(off, i, e.cfg.DynSize()) + e.cfg.DynSize() <= |e.file|
    && !EditFor(e.names, e.shdrs, DynEntry(e.cfg, e.file, off, i).tag).Missing?
  }

  /** The loop has edited i entries, all of which resolved, and has not passed DT_NULL. */
  ghost predicate DynamicScan(e: Elf, f: seq<Byte>, n: nat, i: nat)
    requires DynamicReady(e, n) && Find(e.names, e.shdrs, DYNAMIC) > 0
  {
    var off := e.shdrs[Find(e.names, e.shdrs, DYNAMIC)].offset;
    && i <= n && |f| == |e.file|
    && off + TableSize(i, e.cfg.DynSize()) <= |f| && f == EditDyns(e.cfg, e.names, e.shdrs, e.file, off, i)
    && (forall j :: 0 <= j < i ==> EntryResolves(e, off, j))
    && SameEntry(e.cfg, e.file, f, off, i)
  }

  lemma DynamicScanStart(e: Elf, n: nat)
    requires DynamicReady(e, n) && Find(e.names, e.shdrs, DYNAMIC) > 0
    ensures DynamicScan(e, e.file, n, 0)
  {
    var off := e.shdrs[Find(e.names, e.shdrs, DYNAMIC)].offset;
    assert EndsOnlyAt(e.cfg, e.file, off, 0, n);
  }

  lemma DynamicScanStep(e: Elf, f: seq<Byte>, n: nat, i: nat)
    requires DynamicReady(e, n) && Find(e.names, e.shdrs, DYNAMIC) > 0 && DynamicScan(e, f, n, i)
    requires forall j :: 0 <= j < |e.shdrs| ==> ShdrOk(e.cfg, e.shdrs[j])
    ensures var off := e.shdrs[Find(e.names, e.shdrs, DYNAMIC)].offset;
            EndsAt(e.cfg, f, off, i) <==> i == n
    ensures var off := e.shdrs[Find(e.names, e.shdrs, DYNAMIC)].offset;
            var edit := EditFor(e.names, e.shdrs, DynEntry(e.cfg, f, off, i).tag);
            i < n ==> (edit.Missing? ==> !DynamicResolves(e, n))
                      && (!edit.Missing? ==> DynamicScan(e, EditDyn(e.cfg, e.names, e.shdrs, f, off, i), n, i + 1))
  {
    hide EditFor, Find, DecodeDyn;
    var off := e.shdrs[Find(e.names, e.shdrs, DYNAMIC)].offset;
    assert EndsOnlyAt(e.cfg, e.file, off, i, n);
    if i < n {
      if EditFor(e.names, e.shdrs, DynEntry(e.cfg, f, off, i).tag).Missing? {
        assert !EntryResolves(e, off, i);
      } else {
        assert EndsOnlyAt(e.cfg, e.file, off, i + 1, n);
        ScanPasses(e.cfg, e.names, e.shdrs, e.file, off, i);
      }
    }
  }

  /** Editing the first i + 1 entries leaves the next one as it was. */
  lemma ScanPasses(c: Config, names: seq<Byte>, shdrs: seq<Shdr>, file: seq<Byte>, off: nat, i: nat)
    requires forall j :: 0 <= j < |shdrs| ==> ShdrOk(c, shdrs[j])
    requires Slot(off, i + 1, c.DynSize()) + c.DynSize() <= |file|
    ensures off + TableSize(i + 1, c.DynSize()) <= |file|
    ensures SameEntry(c, file, EditDyns(c, names, shdrs, file, off, i + 1), off, i + 1)
  {
    EditDynsReads(c, names, shdrs, file, off, i + 1);
    SameEntryFrame(c, file, EditDyns(c, names, shdrs, file, off, i + 1), off, i + 1);
  }

  // ----- when the loop succeeds -----

  /** The same names are found in both. */
  ghost predicate SameFound(names: seq<Byte>, a: seq<Shdr>, b: seq<Shdr>) {
    forall name :: (Find(names, a, name) == 0) == (Find(names, b, name) == 0)
  }

  lemma {:induction false} FirstSame(names: seq<Byte>, a: seq<Shdr>, b: seq<Shdr>, candidates: seq<Name>)
    requires SameFound(names, a, b)
    ensures (FindFirst(names, a, candidates) == 0) == (FindFirst(names, b, candidates) == 0)
  {
    if candidates != [] {
      assert (Find(names, a, candidates[0]) == 0) == (Find(names, b, candidates[0]) == 0);
      FirstSame(names, a, b, candidates[1..]);
    }
  }

  lemma {:induction false} MissingSameBy(rules: seq<Rule>, names: seq<Byte>, a: seq<Shdr>, b: seq<Shdr>, tag: nat)
    requires SameFound(names, a, b)
    ensures EditBy(rules, names, a, tag).Missing? == EditBy(rules, names, b, tag).Missing?
  {
    hide SameFound;
    if rules != [] {
      FirstSame(names, a, b, rules[0].sections);
      MissingSameBy(rules[1..], names, a, b, tag);
    }
  }

  /** Whether a tag finds its section depends only on which names exist. */
  lemma MissingSame(names: seq<Byte>, a: seq<Shdr>, b: seq<Shdr>, tag: nat)
    requires SameFound(names, a, b)
    ensures EditFor(names, a, tag).Missing? == EditFor(names, b, tag).Missing?
  {
    MissingSameBy(RULES, names, a, b, tag % WORD);
  }

  /** Every entry before DT_NULL of the table at x in a finds the section it calls for. */
  ghost predicate TableResolves(c: Config, names: seq<Byte>, shdrs: seq<Shdr>, a: seq<Byte>, x: nat, n: nat) {
    forall i :: 0 <= i < n ==> EntryFinds(c, names, shdrs, a, x, i)
  }

  ghost predicate EntryFinds(c: Config, names: seq<Byte>, shdrs: seq<Shdr>, a: seq<Byte>, x: nat, i: nat) {
    Slot(x, i, c.DynSize()) + c.DynSize() <= |a| && !EditFor(names, shdrs, DynEntry(c, a, x, i).tag).Missing?
  }

  /** Tables with the same entries resolve alike. */
  lemma ResolvesAlike(c: Config, names: seq<Byte>, s: seq<Shdr>, t: seq<Shdr>, a: seq<Byte>, x: nat, b: seq<Byte>,
                      y: nat, n: nat)
    requires SameFound(names, s, t)
    requires forall i :: 0 <= i < n ==> EqualEntries(c, a, x, b, y, i)
    ensures TableResolves(c, names, s, a, x, n) <==> TableResolves(c, names, t, b, y, n)
  {
    hide SameFound, EditFor, DynEntry;
    forall i | 0 <= i < n ensures EntryFinds(c, names, s, a, x, i) <==> EntryFinds(c, names, t, b, y, i) {
      assert EqualEntries(c, a, x, b, y, i);
      MissingSame(names, s, t, DynEntry(c, a, x, i).tag);
    }
  }

  ghost predicate EqualEntries(c: Config, a: seq<Byte>, x: nat, b: seq<Byte>, y: nat, i: nat) {
    && Slot(x, i, c.DynSize()) + c.DynSize() <= |a| && Slot(y, i, c.DynSize()) + c.DynSize() <= |b|
    && DynEntry(c, a, x, i) == DynEntry(c, b, y, i)
  }

  lemma ResolvesIs(e: Elf, n: nat)
    requires DynamicReady(e, n)
    ensures DynamicResolves(e, n) <==>
      (Find(e.names, e.shdrs, DYNAMIC) > 0 ==> TableResolves(e.cfg, e.names, e.shdrs, e.file, DynamicPlace(e), n))
  {
    hide EditFor, DynEntry, Terminated;
    if Find(e.names, e.shdrs, DYNAMIC) > 0 {
      forall i | 0 <= i < n ensures EntryResolves(e, DynamicPlace(e), i)
        <==> EntryFinds(e.cfg, e.names, e.shdrs, e.file, DynamicPlace(e), i) {
      }
    }
  }

  lemma SortedFound(names: seq<Byte>, a: seq<Shdr>, b: seq<Shdr>, p: seq<nat>, inv: seq<nat>)
    requires SortedShdrs(a, b, p, inv) && NullFirst(a) && DistinctNames(names, a)
    ensures SameFound(names, a, b)
  {
    hide SortedShdrs;
    forall name ensures (Find(names, a, name) == 0) == (Find(names, b, name) == 0) {
      FoundSorted(names, a, b, p, inv, name);
    }
  }

  /** rewriteHeaders fails exactly when an entry of the table it was given calls for a missing section. */
  lemma HeadersResolve(e: Elf, t: HeaderTrace, n: nat, addr: nat)
    requires WellFormed(e) && DynamicReady(e, n) && NullStored(e) && addr < e.cfg.Limit()
    requires PhdrStep(e, t.tabled, addr, t.p, t.inv) && SortStep(t.tabled, t.sorted, t.sp, t.sinv)
    ensures WellFormed(t.sorted) && DynamicReady(StoredShdrs(t.sorted), n)
    ensures DynamicResolves(StoredShdrs(t.sorted), n) <==> DynamicResolves(e, n)
  {
    hide WellFormed, DynamicReady, NullStored, ShdrsStored, PhdrsStored, PhdrStep, SortStep, SameEntries,
         DynamicResolves, InHeaders, SameBodies, SameTables, DynamicPlace, SameDynamic, StoredShdrs, Resolvable,
         TableResolves, SameFound;
    TabledFacts(e, t.tabled, addr, n, t.p, t.inv);
    SortedFacts(t.tabled, t.sorted, n, t.sp, t.sinv);
    StoredFacts(t.sorted, n);
    Shape(t.tabled);
    Shape(t.sorted);
    var s := StoredShdrs(t.sorted);
    ThroughSteps(e, t.tabled, t.sorted, s, addr, n, t.p, t.inv, t.sp, t.sinv);
    ResolvesIs(e, n);
    ResolvesIs(s, n);
    if Find(e.names, e.shdrs, DYNAMIC) > 0 {
      EntriesThrough(e.cfg, e.file, t.tabled.file, t.sorted.file, s.file, DynamicPlace(e), n);
      ResolvesAlike(e.cfg, e.names, e.shdrs, s.shdrs, e.file, DynamicPlace(e), s.file, DynamicPlace(s), n);
    }
  }

  lemma ThroughSteps(e: Elf, a: Elf, b: Elf, s: Elf, addr: nat, n: nat, p: seq<nat>, inv: seq<nat>, sp: seq<nat>,
                     sinv: seq<nat>)
    requires PhdrStep(e, a, addr, p, inv) && SortStep(a, b, sp, sinv) && Resolvable(a)
    requires |b.file| >= b.cfg.EhdrSize() && ShEnd(b) <= |b.file| && |b.shdrs| > 0 && s == StoredShdrs(b)
    requires SameDynamic(e, a, n) && SameDynamic(b, s, n)
    requires DynamicPlace(a) == DynamicPlace(b)
    ensures s.cfg == e.cfg == a.cfg == b.cfg && s.names == e.names && SameFound(e.names, e.shdrs, s.shdrs)
    ensures DynamicPlace(e) == DynamicPlace(s)
    ensures (Find(e.names, e.shdrs, DYNAMIC) > 0) == (Find(s.names, s.shdrs, DYNAMIC) > 0)
    ensures (Find(e.names, e.shdrs, DYNAMIC) > 0) == (Find(a.names, a.shdrs, DYNAMIC) > 0)
    ensures Find(e.names, e.shdrs, DYNAMIC) > 0 ==>
      SameEntries(e.cfg, e.file, a.file, DynamicPlace(e), n) && SameEntries(e.cfg, b.file, s.file, DynamicPlace(e), n)
    ensures DynamicPlace(e) == DynamicPlace(a)
  {
    hide SameEntries, SortedShdrs, Counts;
    SortedFound(a.names, a.shdrs, b.shdrs, sp, sinv);
    assert (Find(a.names, a.shdrs, DYNAMIC) == 0) == (Find(a.names, b.shdrs, DYNAMIC) == 0);
  }

  lemma EntriesThrough(c: Config, f: seq<Byte>, g: seq<Byte>, h: seq<Byte>, k: seq<Byte>, off: nat, n: nat)
    requires SameEntries(c, f, g, off, n) && SameEntries(c, g, h, off, n) && SameEntries(c, h, k, off, n)
    ensures forall i :: 0 <= i < n ==> EqualEntries(c, f, off, k, off, i)
  {
    hide DynEntry;
    forall i | 0 <= i < n ensures EqualEntries(c, f, off, k, off, i) {
      assert SameEntry(c, f, g, off, i) && SameEntry(c, g, h, off, i) && SameEntry(c, h, k, off, i);
    }
  }
}
