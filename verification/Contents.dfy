/** The rewritten file byte by byte: where the staged sections go, and what every other byte is. */
module Contents {
  import opened ElfTypes
  import opened Rounding
  import opened Staging
  import opened Elf
  import opened Links
  import opened Placement
  import opened Tables
  import opened Steps
  import opened Relayout
  import opened Layout
  import opened Memory
  import opened Agreement
  import opened Loading
  import opened Reparse
  import opened Outcomes
  import opened RPathRun
  import opened Fields

  // ----- every byte -----

  /** Byte k lies where a staged section finally is. */
  ghost predicate InNewPlace(f: Elf, staged: seq<Entry>, k: int) {
    exists j :: 0 <= j < |staged| && InPlaceOf(f, staged[j].name, k)
  }

  /** Byte k lies where a section that is staged was. */
  ghost predicate InOldPlace(e: Elf, staged: seq<Entry>, k: int) {
    exists j :: 0 <= j < |staged| && InPlaceOf(e, staged[j].name, k)
  }

  ghost predicate InPlaceOf(e: Elf, name: Name, k: int) {
    var i := Find(e.names, e.shdrs, name);
    i > 0 && e.shdrs[i].offset <= k < e.shdrs[i].offset + e.shdrs[i].size
  }

  /** Byte k of the file holds a header or an entry of the dynamic table before DT_NULL. */
  ghost predicate InTables(f: Elf, n: nat, k: int)
    requires |f.file| >= f.cfg.EhdrSize()
  {
    InHeaders(f, k) || InDynEntries(f, n, k)
  }

  /** The first byte of the old file that is kept: what lies before it is laid out anew. */
  ghost function RunCut(e: Elf, o: Outcome): nat {
    if o.Executable? then o.r.x.startOffset else if e.cfg.cls == Elf32 then 52 else 64
  }

  lemma NewPlaceIs(e: Elf, m: Move, mid: Elf, f: Elf, addr: nat, n: nat, t: HeaderTrace, k: int)
    requires Rewrite(e, m, mid, f, addr, n, t)
    ensures InNewPlace(f, m.p.rs, k) <==> InAnyNew(e.cfg, m.p.rs, m.p.cur, |m.p.rs|, k)
  {
    hide Rewrite, Find, Space;
    forall j | 0 <= j < |m.p.rs|
      ensures InPlaceOf(f, m.p.rs[j].name, k) <==> InNew(e.cfg, m.p.rs, m.p.cur, j, k)
    {
      StagedRecorded(e, m, mid, f, addr, n, t, j);
    }
  }

  lemma OldPlaceIs(e: Elf, rs: seq<Entry>, k: int)
    requires WellFormed(e) && StagedOk(e, rs)
    ensures InOldPlace(e, rs, k) <==> InStagedBody(e, rs, k)
  {
    hide BodiesInFile, BodiesDisjoint, LinksInRange, Counts, TablesApart;
    if InOldPlace(e, rs, k) {
      var j :| 0 <= j < |rs| && InPlaceOf(e, rs[j].name, k);
      var i := Find(e.names, e.shdrs, rs[j].name);
      SortedDistinct(rs);
      IndexUnique(rs, j);
      assert IsStaged(e, rs, i) && InBody(e.shdrs[i], k);
    }
    if InStagedBody(e, rs, k) {
      var i :| 0 <= i < |e.shdrs| && IsStaged(e, rs, i) && InBody(e.shdrs[i], k);
      FindUnique(e.names, e.shdrs, i);
      assert InPlaceOf(e, rs[IndexOf(rs, NameOf(e.names, e.shdrs[i]))].name, k);
    }
  }

  lemma RewrittenByte(e: Elf, m: Move, mid: Elf, f: Elf, addr: nat, n: nat, t: HeaderTrace, from: nat, k: nat)
    requires Rewrite(e, m, mid, f, addr, n, t) && Refilled(e, m, from, mid.file) && from <= k < |f.file|
    ensures |f.file| >= f.cfg.EhdrSize()
    ensures !InTables(f, n, k) && !InNewPlace(f, m.p.rs, k) ==>
      f.file[k] == if InOldPlace(e, m.p.rs, k - m.d) then 'X'
                   else if m.cut <= k - m.d < |e.file| then e.file[k - m.d] else '\0'
  {
    hide Rewrite, WellFormed, Relaid, SortedShdrs, PhdrsStored, ShdrsStored, NullStored, DynamicReady, SortedPhdrs,
         InNewPlace, InOldPlace, InAnyNew, InStagedBody, StagedOk;
    MidReady(e, m, mid, f, addr, n, t);
    RewriteKeeps(e, m, mid, f, addr, n, t);
    RewriteRelaid(e, m, mid, f, addr, n, t);
    CountsAre(f);
    CountsAre(mid);
    StagedIsOk(e, m, mid, f, addr, n, t);
    NewPlaceIs(e, m, mid, f, addr, n, t, k);
    OldPlaceIs(e, m.p.rs, k - m.d);
    SameTablePlaces(mid, f, n, k);
    MidCfg(e, m, mid);
    if !InTables(f, n, k) {
      OnlyHeadersByte(mid, f, n, k);
    }
  }

  lemma StagedIsOk(e: Elf, m: Move, mid: Elf, f: Elf, addr: nat, n: nat, t: HeaderTrace)
    requires Rewrite(e, m, mid, f, addr, n, t)
    ensures StagedOk(e, m.p.rs)
  {
    hide WellFormed, HeadersStep, Relaid;
  }

  lemma SameTablePlaces(mid: Elf, f: Elf, n: nat, k: int)
    requires WellFormed(mid) && WellFormed(f) && f.cfg == mid.cfg && f.names == mid.names
    requires |mid.file| >= mid.cfg.EhdrSize() && |f.file| >= f.cfg.EhdrSize()
    requires Hdr(f) == Hdr(mid).(shstrndx := Hdr(f).shstrndx)
    requires OnlyHeaders(mid, f, n) && DynamicEdited(mid, f, n)
    ensures |f.file| == |mid.file| && (InTables(f, n, k) <==> InHeaders(mid, k) || InDynEntries(mid, n, k))
  {
    hide BodiesInFile, BodiesDisjoint, LinksInRange, TablesApart, DistinctNames, DecodeEhdr, DynsEdited;
  }

  /** The state the layout starts from has its sections' places, and its bytes behind the header, in common with e. */
  lemma SamePlaces(e: Elf, rs: seq<Entry>, f: Elf, n: nat, o: Outcome, b: Elf, k: int)
    requires Rewritten(e, rs, f, n, o) && o != Untouched
    requires if o.Library? then b == e else b == o.r.sorted && SortStep(e, b, o.r.p, o.r.inv) && WellFormed(e)
    ensures InOldPlace(b, RunStaged(rs, o), k) <==> InOldPlace(e, RunStaged(rs, o), k)
    ensures |b.file| == |e.file|
    ensures forall x :: e.cfg.EhdrSize() <= x < |e.file| ==> b.file[x] == e.file[x]
  {
    hide Rewritten, WellFormed, SortStep, Find;
    forall name ensures InPlaceOf(b, name, k) <==> InPlaceOf(e, name, k) {
      BaseSection(e, rs, f, n, o, b, name);
    }
    if o.Executable? {
      SortSame(e, b, o.r.p, o.r.inv);
    }
  }

  /** What each layout says of the bytes of the file before the headers are rewritten. */
  lemma RunRefilled(e: Elf, rs: seq<Entry>, f: Elf, n: nat, o: Outcome, b: Elf, m: Move)
    requires Rewritten(e, rs, f, n, o) && o != Untouched
    requires o.Library? ==> b == e && m == LibraryMove(e, rs, StartOffset(e), StartPage(e))
    requires o.Executable? ==> b == o.r.sorted && o.r.x.FirstPage() >= 0 && m == ExecMove(b, o.r.x) && b.cfg == e.cfg
    ensures m.cut == RunCut(e, o) && e.cfg.EhdrSize() <= m.cut + m.d
    ensures Refilled(b, m, if o.Executable? then ExecStart(b, m.d) else e.cfg.EhdrSize(), o.mid.file)
    ensures o.Executable? ==> |o.mid.file| >= o.mid.cfg.EhdrSize() && PhEnd(o.mid) == ExecStart(b, m.d)
                              && Hdr(o.mid).phoff == e.cfg.EhdrSize()
  {
    hide HeadersStep, Ready, WellFormed, SortStep, Scanned, DecodeEhdr, ShiftDecided, Resolvable, HeadersFit, Carried,
         Laid, RelaidShdr, Padded, LastPage, LibrarySpace, Refilled, StateResolves, StagedOk, KeptFrom, TableSize;
    if o.Executable? {
      FrontEnds(b, o.r.x, o.mid);
    }
  }

  lemma FrontEnds(b: Elf, x: ExecLayout, mid: Elf)
    requires ExecLaidOut(b, x, mid)
    ensures |mid.file| >= mid.cfg.EhdrSize() && PhEnd(mid) == ExecStart(b, x.shift)
    ensures Hdr(mid).phoff == mid.cfg.EhdrSize() && mid.cfg == b.cfg
    ensures b.cfg.EhdrSize() <= x.startOffset + x.shift
  {
    hide WellFormed, StagedOk, KeptFrom, DecodeEhdr, HeadersFit, Carried, Laid, RelaidShdr, AreaClear, TableSize,
         ShiftDecided, Refilled;
  }

  /**
   * Every byte of the file behind the ELF header, after a run: outside the tables and the new places
   * of the staged sections, whose bytes their own theorems give, it is 'X' where a staged section
   * was, the old byte from the cut on, and zero anywhere else.  (A copy of the old ELF header, should
   * the cut lie inside it, is left out: sorting may have changed its e_shstrndx.)
   */
  lemma ByteAfterRun(e: Elf, rs: seq<Entry>, f: Elf, n: nat, o: Outcome, k: nat)
    requires Rewritten(e, rs, f, n, o) && o != Untouched && k < |f.file|
    ensures |f.file| >= f.cfg.EhdrSize()
    ensures !InTables(f, n, k) && !InNewPlace(f, RunStaged(rs, o), k)
            && (RunCut(e, o) <= k - RunShift(o) ==> e.cfg.EhdrSize() <= k - RunShift(o)) ==>
      f.file[k] == if InOldPlace(e, RunStaged(rs, o), k - RunShift(o)) then 'X'
                   else if RunCut(e, o) <= k - RunShift(o) < |e.file| then e.file[k - RunShift(o)] else '\0'
  {
    hide Rewritten, Rewrite, WellFormed, SortStep, InNewPlace, InOldPlace, InDynEntries, Refilled, DecodeEhdr,
         TableSize;
    var b, m, mid, addr, t := RunIsRewrite(e, rs, f, n, o);
    var from := if o.Executable? then ExecStart(b, m.d) else e.cfg.EhdrSize();
    RunRefilled(e, rs, f, n, o, b, m);
    RewrittenHeader(b, m, mid, f, addr, n, t);
    SamePlaces(e, rs, f, n, o, b, k - m.d);
    HeadersBefore(b, m, mid, f, addr, n, t);
    if from <= k {
      RewrittenByte(b, m, mid, f, addr, n, t, from, k);
    }
  }

  lemma HeadersBefore(e: Elf, m: Move, mid: Elf, f: Elf, addr: nat, n: nat, t: HeaderTrace)
    requires Rewrite(e, m, mid, f, addr, n, t)
    ensures |mid.file| >= mid.cfg.EhdrSize() && |f.file| >= f.cfg.EhdrSize() && PhEnd(f) == PhEnd(mid)
    ensures f.cfg == e.cfg && Hdr(f).phoff == Hdr(mid).phoff
  {
    hide Rewrite, WellFormed, Relaid, PhdrsStored, ShdrsStored, DecodeEhdr;
    RewriteKeeps(e, m, mid, f, addr, n, t);
    RewriteRelaid(e, m, mid, f, addr, n, t);
    MidCfg(e, m, mid);
    CountsAre(f);
    CountsAre(mid);
  }

  // ----- where the staged sections go -----

  /** A size rounded up to 4 or 8 bytes. */
  function Rounded(n: nat, a: nat): nat
    requires a == 4 || a == 8
  {
    (n + a - 1) / a * a
  }

  lemma PaddedIs(n: nat, a: nat)
    requires a == 4 || a == 8
    ensures Padded(n, a) == Rounded(n, a)
  {
    PaddedMultiple(n, a);
    var q: nat :| Padded(n, a) == q * a;
    assert q == (n + a - 1) / a;
  }

  /** Where staged section j is, by its header in the final file. */
  ghost function PlaceOf(f: Elf, staged: seq<Entry>, j: nat): Spot
    requires j < |staged|
  {
    var k := Find(f.names, f.shdrs, staged[j].name);
    if k == 0 then Spot(0, 0, 0) else Spot(f.shdrs[k].offset, f.shdrs[k].addr, f.shdrs[k].size)
  }

  lemma PlacedAt(e: Elf, m: Move, mid: Elf, f: Elf, addr: nat, n: nat, t: HeaderTrace, j: nat)
    requires Rewrite(e, m, mid, f, addr, n, t) && j < |m.p.rs|
    ensures PlaceOf(f, m.p.rs, j) == NewSpot(e.cfg, m.p, j)
    ensures j == 0 ==> PlaceOf(f, m.p.rs, j).offset == m.p.cur
    ensures j > 0 ==>
      var q := PlaceOf(f, m.p.rs, j - 1);
      PlaceOf(f, m.p.rs, j).offset == q.offset + Rounded(q.size, if e.cfg.cls == Elf32 then 4 else 8)
  {
    hide Rewrite, Padded;
    StagedRecorded(e, m, mid, f, addr, n, t, j);
    if j > 0 {
      StagedRecorded(e, m, mid, f, addr, n, t, j - 1);
      PaddedIs(|m.p.rs[j - 1].data|, e.cfg.SectionAlignment());
    }
  }

  lemma PlanOf(e: Elf, rs: seq<Entry>, f: Elf, n: nat, o: Outcome, b: Elf, m: Move)
    requires Rewritten(e, rs, f, n, o) && o != Untouched
    requires o.Library? ==> b == e && m == LibraryMove(e, rs, StartOffset(e), StartPage(e))
    requires o.Executable? ==> b == o.r.sorted && o.r.x.FirstPage() >= 0 && m == ExecMove(b, o.r.x) && b.cfg == e.cfg
    ensures |o.mid.file| >= o.mid.cfg.EhdrSize() && PhEnd(o.mid) == m.p.cur
    ensures m.p.startAddr - m.p.startOffset + Hdr(o.mid).phoff == RunTable(e, o)
  {
    hide HeadersStep, Ready, WellFormed, SortStep, Scanned, DecodeEhdr, ShiftDecided, Resolvable, HeadersFit, Carried,
         Laid, RelaidShdr, Padded, LastPage, Space, Refilled, StateResolves, StagedOk, KeptFrom, TableSize, AreaClear;
    if o.Executable? {
      FrontEnds(b, o.r.x, o.mid);
    }
  }

  /**
   * Staged section j lies where the one before it ends, rounded up to the size of an Elf_Off, the first
   * at the end of the program header table; and its address is as far from its offset as `table`, the
   * table's address, is from the table's offset.
   */
  ghost predicate PlacedBehind(f: Elf, staged: seq<Entry>, table: int, j: nat)
    requires j < |staged| && |f.file| >= f.cfg.EhdrSize()
  {
    var q := PlaceOf(f, staged, j);
    && Find(f.names, f.shdrs, staged[j].name) > 0 && q.size == |staged[j].data|
    && q.addr - q.offset == table - Hdr(f).phoff
    && (if j == 0 then q.offset == PhEnd(f)
        else var w := PlaceOf(f, staged, j - 1);
             q.offset == w.offset + Rounded(w.size, if f.cfg.cls == Elf32 then 4 else 8))
  }

  /** The staged sections lie one behind the other, in the order of their names. */
  lemma StagedInOrder(e: Elf, rs: seq<Entry>, f: Elf, n: nat, o: Outcome, j: nat)
    requires Rewritten(e, rs, f, n, o) && o != Untouched && j < |RunStaged(rs, o)|
    ensures Sorted(RunStaged(rs, o)) && |f.file| >= f.cfg.EhdrSize()
    ensures PlacedBehind(f, RunStaged(rs, o), RunTable(e, o), j)
  {
    hide Rewritten, Rewrite, WellFormed, SortStep, Rounded, Space, DecodeEhdr;
    var b, m, mid, addr, t := RunIsRewrite(e, rs, f, n, o);
    PlacedAt(b, m, mid, f, addr, n, t, j);
    StagedRecorded(b, m, mid, f, addr, n, t, j);
    HeadersBefore(b, m, mid, f, addr, n, t);
    PlanOf(e, rs, f, n, o, b, m);
    StagedIsOk(b, m, mid, f, addr, n, t);
  }

  // ----- how much the file grows -----

  /** Where the last staged section ends, rounded up, or the program header table if nothing is staged. */
  ghost function StagedEnd(f: Elf, staged: seq<Entry>): nat
    requires |f.file| >= f.cfg.EhdrSize()
  {
    if staged == [] then PhEnd(f)
    else var w := PlaceOf(f, staged, |staged| - 1); w.offset + Rounded(w.size, if f.cfg.cls == Elf32 then 4 else 8)
  }

  lemma StagedEndIs(e: Elf, m: Move, mid: Elf, f: Elf, addr: nat, n: nat, t: HeaderTrace)
    requires Rewrite(e, m, mid, f, addr, n, t) && |mid.file| >= mid.cfg.EhdrSize() && PhEnd(mid) == m.p.cur
    ensures |f.file| >= f.cfg.EhdrSize() && |f.file| == |mid.file|
    ensures StagedEnd(f, m.p.rs) == m.p.cur + Space(e.cfg, m.p.rs, |m.p.rs|)
  {
    hide Rewrite, Padded, DecodeEhdr, WellFormed, NullStored, DynamicReady, DynamicEdited, SortedPhdrs;
    HeadersBefore(e, m, mid, f, addr, n, t);
    MidReady(e, m, mid, f, addr, n, t);
    if m.p.rs != [] {
      var j := |m.p.rs| - 1;
      PlacedAt(e, m, mid, f, addr, n, t, j);
      PaddedIs(|m.p.rs[j].data|, e.cfg.SectionAlignment());
    }
  }

  /**
   * A library grows from the first page boundary behind its old end to the end of the last staged
   * section, and the segment added maps exactly that.
   */
  lemma LibraryGrows(e: Elf, rs: seq<Entry>, f: Elf, n: nat, o: Outcome)
    requires Rewritten(e, rs, f, n, o) && o.Library?
    ensures |f.file| >= f.cfg.EhdrSize() && |f.file| == StagedEnd(f, rs) == StartOffset(e) + LibrarySpace(e, rs)
    ensures StartOffset(e) % PageOf(e.cfg) == 0 && |e.file| <= StartOffset(e) < |e.file| + PageOf(e.cfg)
  {
    hide Rewritten, Rewrite, WellFormed, Space, DecodeEhdr, StagedEnd, Padded;
    var b, m, mid, addr, t := RunIsRewrite(e, rs, f, n, o);
    PlanOf(e, rs, f, n, o, b, m);
    StagedEndIs(b, m, mid, f, addr, n, t);
    LibrarySizes(e, rs, f, n, o);
  }

  lemma LibrarySizes(e: Elf, rs: seq<Entry>, f: Elf, n: nat, o: Outcome)
    requires Rewritten(e, rs, f, n, o) && o.Library?
    ensures |o.mid.file| == StartOffset(e) + LibrarySpace(e, rs)
    ensures StartOffset(e) % PageOf(e.cfg) == 0
  {
    hide HeadersStep, Relaid, Refilled, WellFormed, StateResolves, Padded, LastPage, Ready, LibraryMove, LibrarySpace;
    WholePages(e.cfg, |e.file|);
  }

  lemma WholePages(c: Config, n: nat)
    ensures Padded(n, c.PageSize()) % PageOf(c) == 0
  {
    PaddedMultiple(n, c.PageSize());
    var q: nat :| Padded(n, c.PageSize()) == q * c.PageSize();
    DivUnique(q * c.PageSize(), c.PageSize(), q, 0);
  }

  /**
   * An executable grows by whole pages: none if the staged sections end before the boundary, and else
   * the fewest after which, with one more program header in front of them, they do.
   */
  lemma ExecGrows(e: Elf, rs: seq<Entry>, f: Elf, n: nat, o: Outcome)
    requires Rewritten(e, rs, f, n, o) && o.Executable?
    ensures |f.file| >= f.cfg.EhdrSize() && |f.file| == |e.file| + o.r.x.shift && o.r.x.shift % PageOf(e.cfg) == 0
    ensures StagedEnd(f, RunStaged(rs, o)) <= o.r.x.startOffset + o.r.x.shift
    ensures o.r.x.shift > 0 ==>
      && StagedEnd(f, RunStaged(rs, o)) - (if e.cfg.cls == Elf32 then 32 else 56) > o.r.x.startOffset
      && o.r.x.startOffset + o.r.x.shift < StagedEnd(f, RunStaged(rs, o)) + PageOf(e.cfg)
  {
    hide Rewritten, Rewrite, WellFormed, Space, DecodeEhdr, StagedEnd, SortStep;
    var b, m, mid, addr, t := RunIsRewrite(e, rs, f, n, o);
    PlanOf(e, rs, f, n, o, b, m);
    StagedEndIs(b, m, mid, f, addr, n, t);
    ExecSizes(e, rs, f, n, o);
    SortSame(e, b, o.r.p, o.r.inv);
  }

  lemma ExecSizes(e: Elf, rs: seq<Entry>, f: Elf, n: nat, o: Outcome)
    requires Rewritten(e, rs, f, n, o) && o.Executable?
    ensures var s, x := o.r.sorted, o.r.x;
            var end := ExecStart(s, x.shift) + Space(s.cfg, x.rs, |x.rs|);
            && |o.mid.file| == |s.file| + x.shift && x.shift % PageOf(e.cfg) == 0 && end <= x.startOffset + x.shift
            && (x.shift > 0 ==>
                  end - s.cfg.PhdrSize() > x.startOffset && x.startOffset + x.shift < end + PageOf(e.cfg))
            && s.cfg == e.cfg
  {
    hide HeadersStep, Relaid, Refilled, WellFormed, StateResolves, Padded, Scanned, SortStep, Resolvable, StagedOk,
         KeptFrom, Ready, ShiftFits, Space, TableSize, ShiftDecided, ExecMove, ExecStart;
    var s, x := o.r.sorted, o.r.x;
    SortCfg(e, s, o.r.p, o.r.inv);
    ShiftSizes(s, x);
  }

  lemma ShiftSizes(s: Elf, x: ExecLayout)
    requires ShiftDecided(s, x)
    ensures var end := ExecStart(s, x.shift) + Space(s.cfg, x.rs, |x.rs|);
            && x.shift % PageOf(s.cfg) == 0
            && (x.shift > 0 ==>
                  end - s.cfg.PhdrSize() > x.startOffset && x.startOffset + x.shift < end + PageOf(s.cfg))
  {
    hide Padded, Space, TableSize, ExecStart;
    if x.shift > 0 {
      var needed := ExecStart(s, 0) + Space(s.cfg, x.rs, |x.rs|) + s.cfg.PhdrSize() - x.startOffset;
      PaddedMultiple(needed, s.cfg.PageSize());
      var q: nat :| Padded(needed, s.cfg.PageSize()) == q * s.cfg.PageSize();
      OneMore(s, x.shift);
    }
  }

  lemma OneMore(s: Elf, shift: nat)
    requires shift > 0
    ensures ExecStart(s, shift) == ExecStart(s, 0) + s.cfg.PhdrSize()
  {
  }

  // ----- bodies -----

  /**
   * A section with file contents (not SHT_NOBITS, 8) that the caller did not stage has the body it had,
   * wherever it is now; of .dynamic that holds behind its entries.
   */
  lemma BodyAfterRun(e: Elf, rs: seq<Entry>, f: Elf, n: nat, o: Outcome, name: Name)
    requires Rewritten(e, rs, f, n, o) && o != Untouched && Find(e.names, e.shdrs, name) > 0 && !Has(rs, name)
    requires e.shdrs[Find(e.names, e.shdrs, name)].stype != 8 && name != ".dynamic"
    ensures var s := e.shdrs[Find(e.names, e.shdrs, name)];
            Readable(e.file, s) && ReadsAs(f, name, BodyOf(e.file, s))
  {
    hide Rewrite, LibraryRewritten, ExecRewritten, WellFormed, SortStep, StateResolves, SectionMoved;
    var b, m, mid, addr, t := RunIsRewrite(e, rs, f, n, o);
    StartsWellFormed(e, rs, f, n, o, b, m, mid, addr, t);
    BodyReadable(e, Find(e.names, e.shdrs, name));
    if o.Executable? {
      ScannedCurrent(e, rs, f, n, o, name);
    }
    SectionBodyAfter(b, m, mid, f, addr, n, t, name);
  }

  lemma StartsWellFormed(e: Elf, rs: seq<Entry>, f: Elf, n: nat, o: Outcome, b: Elf, m: Move, mid: Elf, addr: nat,
                         t: HeaderTrace)
    requires Rewritten(e, rs, f, n, o) && o != Untouched && Rewrite(b, m, mid, f, addr, n, t)
    requires o.Library? ==> b == e
    ensures WellFormed(e)
  {
    hide LibraryRewritten, ExecRewritten, HeadersStep, Relaid;
  }

  lemma ScannedCurrent(e: Elf, rs: seq<Entry>, f: Elf, n: nat, o: Outcome, name: Name)
    requires Rewritten(e, rs, f, n, o) && o.Executable? && HasCurrent(e, rs, name)
    ensures HasCurrent(o.r.sorted, o.r.x.rs, name)
    ensures CurrentBody(o.r.sorted, o.r.x.rs, name) == CurrentBody(e, rs, name)
  {
    hide Relaid, HeadersStep, Ready, SortStep, Resolvable, ExecLaidOut, Scanned, WellFormed, CurrentBody, HasCurrent,
         StateResolves;
    CurrentAfterScan(e, rs, o.r, name);
  }
}
