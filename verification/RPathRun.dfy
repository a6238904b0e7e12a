/** The search path through a whole run: what modifyRPath stored is what is read from the rewritten file. */
module RPathRun {
  import opened Bytes
  import opened Options
  import opened Codec
  import opened ElfTypes
  import opened Rounding
  import opened Staging
  import opened Sorting
  import opened Elf
  import opened Links
  import opened Placement
  import opened Tables
  import opened Steps
  import opened Relayout
  import opened Layout
  import opened Memory
  import opened Agreement
  import opened Loading
  import opened Parsing
  import opened Reparse
  import opened Outcomes
  import opened RPath
  import opened RPathSteps
  import opened Shrink

  // ----- what a state says about the path -----

  /** Table and strings, staged or in the file, of the two sections. */
  ghost predicate PathTables(e: Elf, rs: seq<Entry>, es: seq<Dyn>, str: seq<Byte>) {
    && HasBoth(e, rs)
    && HoldsTable(e.cfg, CurrentBody(e, rs, DYNAMIC), es) && CurrentBody(e, rs, DYNSTR) == str
  }

  ghost predicate HasBoth(e: Elf, rs: seq<Entry>) {
    && HasCurrent(e, rs, DYNAMIC) && HasCurrent(e, rs, DYNSTR)
  }

  /** The section exists, has file contents, and has a current body. */
  ghost predicate HasCurrent(e: Elf, rs: seq<Entry>, name: Name) {
    var i := Find(e.names, e.shdrs, name);
    i > 0 && e.shdrs[i].stype != SHT_NOBITS && Readable(e.file, e.shdrs[i])
  }

  /** Tags are kept, and so are whole entries that no section address goes into. */
  ghost predicate SamePaths(es: seq<Dyn>, ts: seq<Dyn>) {
    |ts| == |es| && forall i :: 0 <= i < |es| ==>
      ts[i].tag == es[i].tag && (IsPathTag(es[i].tag) || es[i].tag == DT_NEEDED ==> ts[i] == es[i])
  }

  /** Both tables give the same path and need the same libraries. */
  lemma SamePathsAgree(es: seq<Dyn>, ts: seq<Dyn>, str: seq<Byte>)
    requires SamePaths(es, ts)
    ensures PathOf(ts, str) == PathOf(es, str) && Needed(ts, str, |ts|) == Needed(es, str, |es|)
  {
    LastTagSame(ts, es, DT_RPATH, |es|);
    LastTagSame(ts, es, DT_RUNPATH, |es|);
    NeededSame(es, ts, str, |es|);
  }

  lemma {:induction false} NeededSame(es: seq<Dyn>, ts: seq<Dyn>, str: seq<Byte>, n: nat)
    requires SamePaths(es, ts) && n <= |es|
    ensures Needed(ts, str, n) == Needed(es, str, n)
    decreases n
  {
    if n > 0 {
      NeededSame(es, ts, str, n - 1);
    }
  }

  /** Tags are small enough for the unsigned int that the rewrite reads them into. */
  ghost predicate SmallTags(es: seq<Dyn>) {
    forall i :: 0 <= i < |es| ==> es[i].tag < WORD
  }

  // ----- the same tables seen from the sorted, scanned state -----

  /** Sorting the sections and staging those in the way leaves every current body as it is. */
  lemma CurrentAfterScan(e: Elf, rs: seq<Entry>, r: ExecTrace, name: Name)
    requires WellFormed(e) && SortStep(e, r.sorted, r.p, r.inv) && Sorted(rs)
    requires Scanned(r.sorted, rs, r.boundary, r.x.rs, r.x.startOffset, r.x.startAddr)
    requires HasCurrent(e, rs, name)
    ensures HasCurrent(r.sorted, r.x.rs, name)
    ensures CurrentBody(r.sorted, r.x.rs, name) == CurrentBody(e, rs, name)
  {
    hide WellFormed, SortStep, StagedBefore, Scanned;
    var s, i, j := r.sorted, Find(e.names, e.shdrs, name), Find(r.sorted.names, r.sorted.shdrs, name);
    SortedBody(e, s, r.p, r.inv, name);
    ScanStages(s, rs, r.boundary, r.x.rs, r.x.startOffset, r.x.startAddr, name);
    if Has(r.x.rs, name) && !Has(rs, name) {
      var x :| 0 <= x < |s.shdrs| && HasBody(s, x, name, Get(r.x.rs, name));
      SortKeepsWellFormed(e, s, r.p, r.inv);
      Names(s);
      FindUnique(s.names, s.shdrs, x);
    }
  }

  lemma ScanStages(s: Elf, rs: seq<Entry>, b: nat, q: seq<Entry>, startOffset: nat, startAddr: nat, name: Name)
    requires Scanned(s, rs, b, q, startOffset, startAddr) && Sorted(rs)
    ensures Has(rs, name) ==> Has(q, name) && Get(q, name) == Get(rs, name)
    ensures Has(q, name) && !Has(rs, name) ==> exists x :: 0 <= x < |s.shdrs| && HasBody(s, x, name, Get(q, name))
  {
    hide StagedBefore;
    StageUpToAdds(s, rs, b);
    StagedBeforeIs(s, rs, b, q, name);
  }

  lemma SortedBody(e: Elf, s: Elf, p: seq<nat>, inv: seq<nat>, name: Name)
    requires WellFormed(e) && SortStep(e, s, p, inv)
    requires HasCurrent(e, [], name)
    ensures HasCurrent(s, [], name)
    ensures BodyOf(s.file, s.shdrs[Find(s.names, s.shdrs, name)])
         == BodyOf(e.file, e.shdrs[Find(e.names, e.shdrs, name)])
  {
    hide WellFormed, SortStep, Resolvable;
    ResolvableIs(e);
    FoundAfterSort(e, s, p, inv, name);
    SortSame(e, s, p, inv);
    var i := Find(e.names, e.shdrs, name);
    var a := e.shdrs[i];
    forall k | a.offset <= k < BodyEnd(a) ensures s.file[k] == e.file[k] {
      BodyInFile(e, i, k);
    }
    assert a.size > 0 ==> s.file[a.offset..BodyEnd(a)] == e.file[a.offset..BodyEnd(a)];
  }

  lemma ResolvableIs(e: Elf)
    requires WellFormed(e)
    ensures Resolvable(e)
  {
  }

  // ----- through a rewrite -----

  /** The table in a body, and the table in the file, are the same table. */
  lemma TableInFile(c: Config, f: seq<Byte>, s: Shdr, es: seq<Dyn>, i: nat)
    requires Readable(f, s) && HoldsTable(c, BodyOf(f, s), es) && i <= |es|
    ensures Slot(s.offset, i, c.DynSize()) + c.DynSize() <= |f| && Slot(0, i, c.DynSize()) + c.DynSize() <= s.size
    ensures DynEntry(c, f, s.offset, i) == DynEntry(c, BodyOf(f, s), 0, i)
  {
    EntryIs(c, BodyOf(f, s), es, i);
    SliceOfSlice(f, s.offset, s.size, TableSize(i, c.DynSize()), c.DynSize());
  }

  /** The table that the rewrite starts from. */
  ghost predicate TableAt(c: Config, a: seq<Byte>, x: nat, es: seq<Dyn>) {
    && (forall i :: 0 <= i < |es| ==> EntryAt(c, a, x, i, es[i]) && es[i].tag != DT_NULL)
    && Slot(x, |es|, c.DynSize()) + c.DynSize() <= |a| && DynEntry(c, a, x, |es|).tag == DT_NULL
  }

  ghost predicate EntryAt(c: Config, a: seq<Byte>, x: nat, i: nat, d: Dyn) {
    Slot(x, i, c.DynSize()) + c.DynSize() <= |a| && DynEntry(c, a, x, i) == d
  }

  lemma OldTableIs(e: Elf, rs: seq<Entry>, es: seq<Dyn>, str: seq<Byte>)
    requires PathTables(e, rs, es, str)
    ensures TableAt(e.cfg, OldTable(e, rs).0, OldTable(e, rs).1, es)
  {
    hide HoldsTable;
    var a, x := OldTable(e, rs).0, OldTable(e, rs).1;
    var body := CurrentBody(e, rs, DYNAMIC);
    forall i | 0 <= i <= |es|
      ensures Slot(x, i, e.cfg.DynSize()) + e.cfg.DynSize() <= |a|
      ensures Slot(0, i, e.cfg.DynSize()) + e.cfg.DynSize() <= |body|
      ensures DynEntry(e.cfg, a, x, i) == DynEntry(e.cfg, body, 0, i)
      ensures i < |es| ==> EntryAt(e.cfg, a, x, i, es[i]) && es[i].tag != DT_NULL
      ensures i == |es| ==> DynEntry(e.cfg, a, x, i).tag == DT_NULL
    {
      EntryIs(e.cfg, body, es, i);
      if !Has(rs, DYNAMIC) {
        TableInFile(e.cfg, e.file, e.shdrs[Find(e.names, e.shdrs, DYNAMIC)], es, i);
      }
    }
  }

  /** The rewrite's loop stops at the same entry, as long as tags fit an unsigned int. */
  lemma SameEnd(c: Config, a: seq<Byte>, x: nat, es: seq<Dyn>, n: nat)
    requires TableAt(c, a, x, es) && SmallTags(es) && Terminated(c, a, x, n)
    ensures n == |es|
  {
    hide Terminated;
    assert n < |es| ==> EntryAt(c, a, x, n, es[n]);
    if n < |es| {
      EndsOnly(c, a, x, n, n);
    } else if n > |es| {
      EndsOnly(c, a, x, |es|, n);
    }
  }

  lemma EndsOnly(c: Config, a: seq<Byte>, x: nat, i: nat, n: nat)
    requires Terminated(c, a, x, n) && i <= n
    ensures Slot(x, i, c.DynSize()) + c.DynSize() <= |a| && (EndsAt(c, a, x, i) <==> i == n)
  {
    assert EndsOnlyAt(c, a, x, i, n);
  }

  lemma OldTableEnds(e: Elf, rs: seq<Entry>, n: nat)
    requires DynamicStaged(e, rs, n) && Find(e.names, e.shdrs, DYNAMIC) > 0
    ensures Terminated(e.cfg, OldTable(e, rs).0, OldTable(e, rs).1, n)
  {
  }

  /** No rule touches the path entries. */
  lemma PathEntryEdited(names: seq<Byte>, shdrs: seq<Shdr>, d: Dyn)
    requires d.tag < WORD && (IsPathTag(d.tag) || d.tag == DT_NEEDED)
    ensures Edited(names, shdrs, d) == d
  {
    EditForTag(names, shdrs, d.tag, |RULES|);
  }

  /** The entries as the rewrite leaves them. */
  ghost function EditedAll(names: seq<Byte>, shdrs: seq<Shdr>, es: seq<Dyn>): (ts: seq<Dyn>)
    ensures |ts| == |es| && forall i :: 0 <= i < |es| ==> ts[i] == Edited(names, shdrs, es[i])
  {
    seq(|es|, i requires 0 <= i < |es| => Edited(names, shdrs, es[i]))
  }

  lemma EditedSamePaths(names: seq<Byte>, shdrs: seq<Shdr>, es: seq<Dyn>)
    requires SmallTags(es)
    ensures SamePaths(es, EditedAll(names, shdrs, es))
  {
    hide Edited;
    var ts := EditedAll(names, shdrs, es);
    forall i | 0 <= i < |es|
      ensures ts[i].tag == es[i].tag && (IsPathTag(es[i].tag) || es[i].tag == DT_NEEDED ==> ts[i] == es[i])
    {
      EditedKeepsTag(names, shdrs, es[i]);
      if IsPathTag(es[i].tag) || es[i].tag == DT_NEEDED {
        PathEntryEdited(names, shdrs, es[i]);
      }
    }
  }

  /** After a rewrite the file itself has the strings as they were and the entries edited. */
  lemma RewriteKeepsTables(e: Elf, m: Move, mid: Elf, f: Elf, addr: nat, n: nat, t: HeaderTrace, es: seq<Dyn>,
                           str: seq<Byte>)
    requires Rewrite(e, m, mid, f, addr, n, t) && PathTables(e, m.p.rs, es, str) && SmallTags(es)
    ensures PathTables(f, [], EditedAll(f.names, f.shdrs, es), str)
  {
    hide Rewrite, HoldsTable, DynamicReady, WellFormed;
    TableAfter(e, m, mid, f, addr, n, t, es, str);
    StringsAfter(e, m, mid, f, addr, n, t, es, str);
  }

  lemma StringsAfter(e: Elf, m: Move, mid: Elf, f: Elf, addr: nat, n: nat, t: HeaderTrace, es: seq<Dyn>, str: seq<Byte>)
    requires Rewrite(e, m, mid, f, addr, n, t) && PathTables(e, m.p.rs, es, str)
    ensures HasCurrent(f, [], DYNSTR) && CurrentBody(f, [], DYNSTR) == str
  {
    hide Rewrite, HoldsTable, SectionMoved;
    DynstrIsNotDynamic();
    SectionBodyAfter(e, m, mid, f, addr, n, t, DYNSTR);
    SectionAfter(e, m, mid, f, addr, n, t, DYNSTR);
    SectionPlace(e, m, f, DYNSTR);
  }

  lemma TableAfter(e: Elf, m: Move, mid: Elf, f: Elf, addr: nat, n: nat, t: HeaderTrace, es: seq<Dyn>, str: seq<Byte>)
    requires Rewrite(e, m, mid, f, addr, n, t) && PathTables(e, m.p.rs, es, str) && SmallTags(es)
    ensures HasCurrent(f, [], DYNAMIC)
    ensures HoldsTable(f.cfg, CurrentBody(f, [], DYNAMIC), EditedAll(f.names, f.shdrs, es))
  {
    hide Rewrite, HoldsTable, SectionMoved, TableAt, Terminated, EntryAfter, EndAfter, PathTables, DynamicReady,
         WellFormed, PhdrsStored, ShdrsStored, SortedShdrs, SmallTags;
    BothAre(e, m.p.rs, es, str);
    OldTableIs(e, m.p.rs, es, str);
    RewriteStaged(e, m, mid, f, addr, n, t);
    OldTableEnds(e, m.p.rs, n);
    SameEnd(e.cfg, OldTable(e, m.p.rs).0, OldTable(e, m.p.rs).1, es, n);
    DynamicAfter(e, m, mid, f, addr, n, t);
    SectionAfter(e, m, mid, f, addr, n, t, DYNAMIC);
    SectionPlace(e, m, f, DYNAMIC);
    RewriteKeeps(e, m, mid, f, addr, n, t);
    DynamicStillReady(e, m, mid, f, addr, n, t);
    FinalTable(f, OldTable(e, m.p.rs).0, OldTable(e, m.p.rs).1, es);
  }

  lemma BothAre(e: Elf, rs: seq<Entry>, es: seq<Dyn>, str: seq<Byte>)
    requires PathTables(e, rs, es, str)
    ensures Find(e.names, e.shdrs, DYNAMIC) > 0 && e.shdrs[Find(e.names, e.shdrs, DYNAMIC)].stype != SHT_NOBITS
  {
  }

  lemma RewriteStaged(e: Elf, m: Move, mid: Elf, f: Elf, addr: nat, n: nat, t: HeaderTrace)
    requires Rewrite(e, m, mid, f, addr, n, t)
    ensures DynamicStaged(e, m.p.rs, n)
  {
  }

  /** The final file's table, read from its section's body. */
  lemma FinalTable(f: Elf, a: seq<Byte>, x: nat, es: seq<Dyn>)
    requires WellFormed(f) && DynamicReady(f, |es|) && Find(f.names, f.shdrs, DYNAMIC) > 0 && TableAt(f.cfg, a, x, es)
    requires forall i :: 0 <= i < |es| ==> EntryAfter(f, a, x, i)
    requires EndAfter(f, a, x, |es|)
    ensures HasCurrent(f, [], DYNAMIC)
    ensures HoldsTable(f.cfg, CurrentBody(f, [], DYNAMIC), EditedAll(f.names, f.shdrs, es))
  {
    hide WellFormed, Edited, DynEntry;
    var k := Find(f.names, f.shdrs, DYNAMIC);
    var s, c, ts := f.shdrs[k], f.cfg, EditedAll(f.names, f.shdrs, es);
    BodyReadable(f, k);
    var body := BodyOf(f.file, s);
    forall i | 0 <= i <= |es|
      ensures Slot(0, i, c.DynSize()) + c.DynSize() <= |body|
      ensures Slot(s.offset, i, c.DynSize()) + c.DynSize() <= |f.file|
      ensures DynEntry(c, body, 0, i) == DynEntry(c, f.file, s.offset, i)
    {
      SlotInside(0, i, |es| + 1, c.DynSize());
      EntryInBody(c, f.file, s, i);
    }
    forall i | 0 <= i < |es| ensures HoldsEntry(c, body, i, ts[i]) && ts[i].tag != DT_NULL {
      assert EntryAt(c, a, x, i, es[i]) && EntryAfter(f, a, x, i);
      assert DynEntry(c, body, 0, i) == DynEntry(c, f.file, s.offset, i);
      EditedKeepsTag(f.names, f.shdrs, es[i]);
    }
    assert DynEntry(c, body, 0, |es|) == DynEntry(c, f.file, s.offset, |es|);
  }

  lemma EntryInBody(c: Config, f: seq<Byte>, s: Shdr, i: nat)
    requires Readable(f, s) && Slot(0, i, c.DynSize()) + c.DynSize() <= s.size
    ensures Slot(s.offset, i, c.DynSize()) + c.DynSize() <= |f|
    ensures DynEntry(c, BodyOf(f, s), 0, i) == DynEntry(c, f, s.offset, i)
  {
    SliceOfSlice(f, s.offset, s.size, TableSize(i, c.DynSize()), c.DynSize());
  }

  // ----- through a whole run -----

  /**
   * Whatever path a state with its staged bodies gives, the file that rewriteSections leaves gives
   * the same, and needs the same libraries.
   */
  lemma RunKeepsPath(e: Elf, rs: seq<Entry>, f: Elf, n: nat, o: Outcome, es: seq<Dyn>, str: seq<Byte>)
    returns (ts: seq<Dyn>)
    requires Rewritten(e, rs, f, n, o) && PathTables(e, rs, es, str) && (o != Untouched ==> SmallTags(es))
    ensures PathTables(f, [], ts, str) && SamePaths(es, ts)
    ensures PathOf(ts, str) == PathOf(es, str) && Needed(ts, str, |ts|) == Needed(es, str, |es|)
  {
    hide LibraryRewritten, ExecRewritten, Rewrite, PathTables, SamePaths, SmallTags;
    match o {
      case Untouched =>
        ts := es;
        SamePathsRefl(es);
      case Library(mid, t) =>
        ts := EditedAll(f.names, f.shdrs, es);
        LibraryIsRewrite(e, rs, f, n, mid, t);
        RewriteKeepsTables(e, LibraryMove(e, rs, StartOffset(e), StartPage(e)), mid, f, StartPage(e), n, t, es, str);
        EditedSamePaths(f.names, f.shdrs, es);
      case Executable(r, mid, t) =>
        ts := EditedAll(f.names, f.shdrs, es);
        ExecIsRewrite(e, rs, f, n, r, mid, t);
        TablesAfterScan(e, rs, f, n, r, mid, t, es, str);
        var addr := r.x.FirstPage() + e.cfg.EhdrSize();
        RewriteKeepsTables(r.sorted, ExecMove(r.sorted, r.x), mid, f, addr, n, t, es, str);
        EditedSamePaths(f.names, f.shdrs, es);
    }
    SamePathsAgree(es, ts, str);
  }

  lemma SamePathsRefl(es: seq<Dyn>)
    ensures SamePaths(es, es)
  {
  }

  lemma TablesAfterScan(e: Elf, rs: seq<Entry>, f: Elf, n: nat, r: ExecTrace, mid: Elf, t: HeaderTrace, es: seq<Dyn>,
                        str: seq<Byte>)
    requires WellFormed(e) && Sorted(rs) && ExecRewritten(e, rs, f, n, r, mid, t) && PathTables(e, rs, es, str)
    ensures PathTables(r.sorted, r.x.rs, es, str)
  {
    hide HoldsTable, Relaid, HeadersStep, Ready, SortStep, Resolvable, ExecLaidOut, Scanned, WellFormed, CurrentBody;
    CurrentAfterScan(e, rs, r, DYNAMIC);
    CurrentAfterScan(e, rs, r, DYNSTR);
    SortCfg(e, r.sorted, r.p, r.inv);
  }

  /**
   * A whole run edits the entries of .dynamic before DT_NULL and no other byte of its body, whether
   * it had been staged, is staged by the scan, or stays.
   */
  lemma RunKeepsDynamicBody(e: Elf, rs: seq<Entry>, f: Elf, n: nat, o: Outcome)
    requires Rewritten(e, rs, f, n, o) && o != Untouched && HasCurrent(e, rs, DYNAMIC)
    ensures HasCurrent(f, [], DYNAMIC)
    ensures SameBehindEntries(f.cfg, CurrentBody(e, rs, DYNAMIC), CurrentBody(f, [], DYNAMIC), n)
  {
    hide LibraryRewritten, ExecRewritten, Rewrite, HasCurrent, CurrentBody, SameBehindEntries;
    match o {
      case Library(mid, t) =>
        LibraryIsRewrite(e, rs, f, n, mid, t);
        RewriteKeepsDynamicBody(e, LibraryMove(e, rs, StartOffset(e), StartPage(e)), mid, f, StartPage(e), n, t);
      case Executable(r, mid, t) =>
        ExecIsRewrite(e, rs, f, n, r, mid, t);
        DynamicAfterScan(e, rs, f, n, r, mid, t);
        var addr := r.x.FirstPage() + e.cfg.EhdrSize();
        RewriteKeepsDynamicBody(r.sorted, ExecMove(r.sorted, r.x), mid, f, addr, n, t);
    }
  }

  lemma DynamicAfterScan(e: Elf, rs: seq<Entry>, f: Elf, n: nat, r: ExecTrace, mid: Elf, t: HeaderTrace)
    requires WellFormed(e) && Sorted(rs) && ExecRewritten(e, rs, f, n, r, mid, t) && HasCurrent(e, rs, DYNAMIC)
    ensures HasCurrent(r.sorted, r.x.rs, DYNAMIC)
    ensures CurrentBody(r.sorted, r.x.rs, DYNAMIC) == CurrentBody(e, rs, DYNAMIC)
  {
    hide Relaid, HeadersStep, Ready, SortStep, Resolvable, ExecLaidOut, Scanned, WellFormed, CurrentBody, HasCurrent;
    CurrentAfterScan(e, rs, r, DYNAMIC);
  }

  lemma RewriteKeepsDynamicBody(e: Elf, m: Move, mid: Elf, f: Elf, addr: nat, n: nat, t: HeaderTrace)
    requires Rewrite(e, m, mid, f, addr, n, t) && HasCurrent(e, m.p.rs, DYNAMIC)
    ensures HasCurrent(f, [], DYNAMIC)
    ensures SameBehindEntries(f.cfg, CurrentBody(e, m.p.rs, DYNAMIC), CurrentBody(f, [], DYNAMIC), n)
  {
    hide Rewrite, SectionMoved, SameBehindEntries;
    DynamicSectionAfter(e, m, mid, f, addr, n, t);
    SectionAfter(e, m, mid, f, addr, n, t, DYNAMIC);
    SectionPlace(e, m, f, DYNAMIC);
  }

  /** What modifyRPath leaves are tables of that kind. */
  lemma StoredTables(e: Elf, rs: seq<Entry>, f: Elf, qs: seq<Entry>, es: seq<Dyn>, r: Edit)
    requires PathReady(e, rs, es) && PathStored(e, rs, f, qs, r)
    ensures PathTables(f, qs, r.es, r.str)
  {
    hide HoldsTable, WellFormed;
  }

  /** The path that is to be in force afterwards: the one asked for, or the one there is. */
  function PathWanted(op: PathOp, was: Option<seq<Byte>>, needed: seq<seq<Byte>>, holds: Oracle): seq<Byte> {
    var asked := NewPath(op, was, needed, holds);
    if asked == None then Text(was) else asked.value
  }

  /** A path given by the user is a C string. */
  predicate OpOk(op: PathOp) {
    op.RpSet? ==> '\0' !in op.path
  }

  lemma WantedIsString(op: PathOp, es: seq<Dyn>, str: seq<Byte>, needed: seq<seq<Byte>>, holds: Oracle)
    requires OpOk(op)
    ensures '\0' !in PathWanted(op, PathOf(es, str), needed, holds)
  {
    hide CString, Chosen;
    var was := PathOf(es, str);
    if op == RpShrink && was != None {
      ShrunkFrom(was.value, needed, holds, '\0');
    }
  }

  /** An operation that changes nothing leaves what setting the path in force again would. */
  lemma ModifiedTables(e: Elf, rs: seq<Entry>, f: Elf, qs: seq<Entry>, es: seq<Dyn>, op: PathOp,
                       needed: seq<seq<Byte>>, force: bool, holds: Oracle)
    requires PathReady(e, rs, es)
    requires Chosen(es) >= 0 ==> Ends(StringsOf(e), es[Chosen(es)].val)
    requires PathModified(e, rs, f, qs, es, StringsOf(e), op, needed, force, holds)
    ensures var r := SetPath(es, StringsOf(e), PathWanted(op, PathOf(es, StringsOf(e)), needed, holds), force);
            PathStored(e, rs, f, qs, r)
  {
    hide HoldsTable, WellFormed, CString, Chosen, NewPath;
  }

  // ----- the needed libraries -----

  /** Every needed library's name still reads the same once the path has been written. */
  predicate NeededKept(es: seq<Dyn>, str: seq<Byte>, path: seq<Byte>) {
    path != Text(PathOf(es, str)) && Chosen(es) >= 0 ==>
      forall i :: 0 <= i < |es| && es[i].tag == DT_NEEDED ==>
        Leftover(str, es[Chosen(es)].val, es[i].val, path) == CString(str, es[i].val)
  }

  /** Which holds if no library's name shares a byte with the path in force. */
  lemma ApartIsKept(es: seq<Dyn>, str: seq<Byte>, path: seq<Byte>)
    requires Chosen(es) >= 0 ==> forall i :: 0 <= i < |es| && es[i].tag == DT_NEEDED ==>
      StringsApart(str, es[Chosen(es)].val, es[i].val)
    ensures NeededKept(es, str, path)
  {
    hide CString, Chosen;
  }

  lemma {:induction false} NeededBehind(d: Dyn, es: seq<Dyn>, str: seq<Byte>, n: nat)
    requires n <= |es| && d.tag != DT_NEEDED
    ensures Needed([d] + es, str, n + 1) == Needed(es, str, n)
    decreases n
  {
    hide CString;
    var t := [d] + es;
    if n > 0 {
      NeededBehind(d, es, str, n - 1);
      assert t[n] == es[n - 1];
    }
  }

  /** The same entries for libraries. */
  ghost predicate SameNeeded(es: seq<Dyn>, ts: seq<Dyn>) {
    |ts| == |es| && forall i :: 0 <= i < |es| ==> (ts[i].tag == DT_NEEDED <==> es[i].tag == DT_NEEDED)
  }

  predicate SameString(es: seq<Dyn>, str: seq<Byte>, ts: seq<Dyn>, s: seq<Byte>, i: nat)
    requires i < |es| && i < |ts|
  {
    es[i].tag == DT_NEEDED ==> CString(s, ts[i].val) == CString(str, es[i].val)
  }

  ghost predicate SameStrings(es: seq<Dyn>, str: seq<Byte>, ts: seq<Dyn>, s: seq<Byte>, n: nat)
    requires n <= |es| && n <= |ts|
  {
    forall i :: 0 <= i < n ==> SameString(es, str, ts, s, i)
  }

  /** The same libraries are needed exactly if each entry has the same string. */
  lemma {:induction false} NeededAlike(es: seq<Dyn>, str: seq<Byte>, ts: seq<Dyn>, s: seq<Byte>, n: nat)
    requires SameNeeded(es, ts) && n <= |es|
    ensures |Needed(ts, s, n)| == |Needed(es, str, n)|
    ensures Needed(ts, s, n) == Needed(es, str, n) <==> SameStrings(es, str, ts, s, n)
    decreases n
  {
    if n > 0 {
      NeededAlike(es, str, ts, s, n - 1);
      hide CString, SameStrings;
      StringsSplit(es, str, ts, s, n - 1);
      if es[n - 1].tag == DT_NEEDED {
        SameSnoc(Needed(ts, s, n - 1), Needed(es, str, n - 1), CString(s, ts[n - 1].val), CString(str, es[n - 1].val));
      } else {
        NeededSkip(es, str, n - 1);
        NeededSkip(ts, s, n - 1);
      }
    }
  }

  lemma StringsSplit(es: seq<Dyn>, str: seq<Byte>, ts: seq<Dyn>, s: seq<Byte>, n: nat)
    requires n < |es| == |ts|
    ensures SameStrings(es, str, ts, s, n + 1) <==> SameStrings(es, str, ts, s, n) && SameString(es, str, ts, s, n)
  {
    hide SameString;
  }

  lemma NeededSkip(es: seq<Dyn>, str: seq<Byte>, n: nat)
    requires n < |es| && es[n].tag != DT_NEEDED
    ensures Needed(es, str, n + 1) == Needed(es, str, n)
  {
    hide CString;
  }

  lemma SameSnoc<T>(a: seq<T>, b: seq<T>, x: T, y: T)
    requires |a| == |b|
    ensures a + [x] == b + [y] <==> a == b && x == y
  {
    if a + [x] == b + [y] {
      assert (a + [x])[..|a|] == a && (b + [y])[..|b|] == b;
      assert (a + [x])[|a|] == (b + [y])[|b|];
    }
  }

  /** Setting a path changes no needed library, exactly if no name lies in the way. */
  lemma SetKeepsNeeded(es: seq<Dyn>, str: seq<Byte>, path: seq<Byte>, force: bool)
    requires (Chosen(es) >= 0 ==> Ends(str, es[Chosen(es)].val)) && '\0' !in path
    requires forall i :: 0 <= i < |es| && es[i].tag == DT_NEEDED ==> Ends(str, es[i].val)
    ensures var r := SetPath(es, str, path, force);
            Needed(r.es, r.str, |r.es|) == Needed(es, str, |es|) <==> NeededKept(es, str, path)
  {
    hide CString, SetPath, Chosen, Ends, PathOf, Leftover;
    var r := SetPath(es, str, path, force);
    SetSize(es, str, path, force);
    var ts := if r.added then r.es[1..] else r.es;
    forall i | 0 <= i < |es|
      ensures ts[i].tag == DT_NEEDED <==> es[i].tag == DT_NEEDED
      ensures es[i].tag == DT_NEEDED ==>
        CString(r.str, ts[i].val)
        == if path == Text(PathOf(es, str)) || Chosen(es) < 0 then CString(str, es[i].val)
           else Leftover(str, es[Chosen(es)].val, es[i].val, path)
    {
      SetKeepsEntries(es, str, path, force, i);
      if es[i].tag == DT_NEEDED {
        SetStringsRead(es, str, path, force, es[i].val);
      }
    }
    NeededAlike(es, str, ts, r.str, |es|);
    KeptIsSame(es, str, ts, r.str, path);
    if r.added {
      NewEntryTag(es, str, path, force);
      assert r.es == [r.es[0]] + ts;
      NeededBehind(r.es[0], ts, r.str, |es|);
    }
  }

  lemma KeptIsSame(es: seq<Dyn>, str: seq<Byte>, ts: seq<Dyn>, s: seq<Byte>, path: seq<Byte>)
    requires |ts| == |es|
    requires forall i :: 0 <= i < |es| && es[i].tag == DT_NEEDED ==>
      CString(s, ts[i].val)
      == if path == Text(PathOf(es, str)) || Chosen(es) < 0 then CString(str, es[i].val)
         else Leftover(str, es[Chosen(es)].val, es[i].val, path)
    ensures NeededKept(es, str, path) <==> SameStrings(es, str, ts, s, |es|)
  {
    hide CString, Chosen, PathOf, Leftover;
    if SameStrings(es, str, ts, s, |es|) {
      forall i | 0 <= i < |es| && es[i].tag == DT_NEEDED && path != Text(PathOf(es, str)) && Chosen(es) >= 0
        ensures Leftover(str, es[Chosen(es)].val, es[i].val, path) == CString(str, es[i].val)
      {
        assert SameString(es, str, ts, s, i);
      }
    }
  }

  /**
   * Setting a path and rewriting the file: the path read from the result is the new one, exactly
   * unless it was misdirected, and the same libraries are needed, exactly if no name was in the way.
   */
  lemma SetPathSurvives(e: Elf, rs: seq<Entry>, f: Elf, qs: seq<Entry>, g: Elf, n: nat, o: Outcome,
                        es: seq<Dyn>, path: seq<Byte>, force: bool) returns (ts: seq<Dyn>, str: seq<Byte>)
    requires PathReady(e, rs, es) && '\0' !in path
    requires PathStored(e, rs, f, qs, SetPath(es, StringsOf(e), path, force))
    requires Rewritten(f, qs, g, n, o) && (o != Untouched ==> SmallTags(es))
    ensures PathTables(g, [], ts, str) && SamePaths(SetPath(es, StringsOf(e), path, force).es, ts)
    ensures Text(PathOf(ts, str)) == path <==> !Misdirected(es, StringsOf(e), path, force)
    ensures Needed(ts, str, |ts|) == Needed(es, StringsOf(e), |es|) <==> NeededKept(es, StringsOf(e), path)
  {
    hide PathReady, PathStored, Rewritten, PathTables, SmallTags, SetPath, PathStrings, Misdirected, NeededKept,
         Ends, Chosen;
    PathStringsEnd(e, rs, es);
    var r := SetPath(es, StringsOf(e), path, force);
    StoredTables(e, rs, f, qs, es, r);
    if o != Untouched {
      SetKeepsTags(es, StringsOf(e), path, force);
    }
    ts := RunKeepsPath(f, qs, g, n, o, r.es, r.str);
    str := r.str;
    SetReadsBack(es, StringsOf(e), path, force);
    SetKeepsNeeded(es, StringsOf(e), path, force);
  }

  /** The same for whatever the operation wants: printing, shrinking or setting. */
  lemma PathSurvives(e: Elf, rs: seq<Entry>, f: Elf, qs: seq<Entry>, g: Elf, n: nat, o: Outcome, es: seq<Dyn>,
                     op: PathOp, needed: seq<seq<Byte>>, force: bool, holds: Oracle)
    returns (ts: seq<Dyn>, str: seq<Byte>)
    requires PathReady(e, rs, es) && OpOk(op)
    requires Chosen(es) >= 0 ==> Ends(StringsOf(e), es[Chosen(es)].val)
    requires PathModified(e, rs, f, qs, es, StringsOf(e), op, needed, force, holds)
    requires Rewritten(f, qs, g, n, o) && (o != Untouched ==> SmallTags(es))
    ensures PathTables(g, [], ts, str)
    ensures var wanted := PathWanted(op, PathOf(es, StringsOf(e)), needed, holds);
            SamePaths(SetPath(es, StringsOf(e), wanted, force).es, ts)
    ensures var wanted := PathWanted(op, PathOf(es, StringsOf(e)), needed, holds);
            (Text(PathOf(ts, str)) == wanted <==> !Misdirected(es, StringsOf(e), wanted, force))
            && (Needed(ts, str, |ts|) == Needed(es, StringsOf(e), |es|) <==> NeededKept(es, StringsOf(e), wanted))
  {
    hide PathReady, PathStored, PathModified, Rewritten, PathTables, SmallTags, SetPath, PathStrings, Misdirected,
         PathWanted, NeededKept, Ends, Chosen;
    var wanted := PathWanted(op, PathOf(es, StringsOf(e)), needed, holds);
    WantedIsString(op, es, StringsOf(e), needed, holds);
    ModifiedTables(e, rs, f, qs, es, op, needed, force, holds);
    ts, str := SetPathSurvives(e, rs, f, qs, g, n, o, es, wanted, force);
  }

  /**
   * Shrinking the path and rewriting the file: as long as the shrunk path is the one in force, each
   * needed library is first found in the file that is left where it was found before, if and only
   * if that was not an empty entry of which none survives.
   */
  lemma ShrinkSurvives(e: Elf, rs: seq<Entry>, f: Elf, qs: seq<Entry>, g: Elf, n: nat, o: Outcome, es: seq<Dyn>,
                       needed: seq<seq<Byte>>, force: bool, holds: Oracle)
    returns (ts: seq<Dyn>, str: seq<Byte>)
    requires PathReady(e, rs, es)
    requires NeededKept(es, StringsOf(e), PathWanted(RpShrink, PathOf(es, StringsOf(e)), needed, holds))
    requires Chosen(es) >= 0 ==> Ends(StringsOf(e), es[Chosen(es)].val)
    requires forall lib :: lib in Needed(es, StringsOf(e), |es|) ==> lib in needed
    requires PathModified(e, rs, f, qs, es, StringsOf(e), RpShrink, needed, force, holds)
    requires !Misdirected(es, StringsOf(e), PathWanted(RpShrink, PathOf(es, StringsOf(e)), needed, holds), force)
    requires Rewritten(f, qs, g, n, o) && (o != Untouched ==> SmallTags(es))
    ensures PathTables(g, [], ts, str) && Needed(ts, str, |ts|) == Needed(es, StringsOf(e), |es|)
    ensures forall lib :: lib in Needed(ts, str, |ts|) ==>
      (FirstHolder(Tokens(Text(PathOf(ts, str))), lib, holds)
         == FirstHolder(Tokens(Text(PathOf(es, StringsOf(e)))), lib, holds)
       <==> LookupSurvives(Text(PathOf(es, StringsOf(e))), needed, holds, lib))
  {
    hide PathReady, PathModified, Rewritten, PathTables, SmallTags, PathStrings, Misdirected, NeededKept, PathOf,
         Needed, Tokens, FirstHolder, Shrunk, Ends, Chosen;
    var was := PathOf(es, StringsOf(e));
    ts, str := PathSurvives(e, rs, f, qs, g, n, o, es, RpShrink, needed, force, holds);
    forall lib | lib in Needed(ts, str, |ts|)
      ensures FirstHolder(Tokens(Text(PathOf(ts, str))), lib, holds) == FirstHolder(Tokens(Text(was)), lib, holds)
         <==> LookupSurvives(Text(was), needed, holds, lib)
    {
      if was == None {
        NothingHeld(needed, holds, lib);
      } else {
        ShrunkKeepsLookup(was.value, needed, holds, lib);
      }
    }
  }

  lemma NothingHeld(needed: seq<seq<Byte>>, holds: Oracle, lib: seq<Byte>)
    ensures LookupSurvives([], needed, holds, lib)
  {
  }

  lemma PathStringsEnd(e: Elf, rs: seq<Entry>, es: seq<Dyn>)
    requires PathReady(e, rs, es)
    ensures PathStrings(es, StringsOf(e)) && (Chosen(es) >= 0 ==> Ends(StringsOf(e), es[Chosen(es)].val))
    ensures forall i :: 0 <= i < |es| && es[i].tag == DT_NEEDED ==> Ends(StringsOf(e), es[i].val)
  {
    hide HoldsTable, WellFormed, CString;
  }

  // ----- a state with a new path is still fit for rewriting -----

  lemma BodiesKeepHdr(e: Elf, f: Elf, d: nat, s: nat)
    requires WellFormed(e) && OnlyBodies(e, f, d, s)
    ensures |e.file| >= e.cfg.EhdrSize() && HdrAt(e.cfg, f.file) == HdrAt(e.cfg, e.file)
    ensures forall k :: 0 <= k < |e.file| && InHeaders(e, k) ==> f.file[k] == e.file[k]
  {
    forall k | 0 <= k < |e.file| && InHeaders(e, k) ensures f.file[k] == e.file[k] {
      assert !InBody(e.shdrs[d], k) && !InBody(e.shdrs[s], k);
    }
    assert f.file[..e.cfg.EhdrSize()] == e.file[..e.cfg.EhdrSize()];
  }

  /** Writes inside two bodies keep the file well formed, its header tables stored, and its names readable. */
  lemma PathKeepsReady(e: Elf, f: Elf, d: nat, s: nat)
    requires WellFormed(e) && NullStored(e) && OnlyBodies(e, f, d, s)
    ensures WellFormed(f) && NullStored(f)
    ensures (PhdrsStored(e) ==> PhdrsStored(f)) && (ShdrsStored(e) ==> ShdrsStored(f))
    ensures SelfDescribing(e) && Hdr(e).shstrndx != d && Hdr(e).shstrndx != s ==> SelfDescribing(f)
  {
    hide InBody;
    BodiesKeepHdr(e, f, d, s);
    FileReplaced(e, f);
    HeadersStillStored(e, f);
    if SelfDescribing(e) && Hdr(e).shstrndx != d && Hdr(e).shstrndx != s {
      NamesStillStored(e, f, d, s);
    }
  }

  lemma HeadersStillStored(e: Elf, f: Elf)
    requires WellFormed(e) && NullStored(e) && f == e.(file := f.file) && |f.file| == |e.file|
    requires HdrAt(e.cfg, f.file) == HdrAt(e.cfg, e.file)
    requires forall k :: 0 <= k < |e.file| && InHeaders(e, k) ==> f.file[k] == e.file[k]
    ensures NullStored(f) && (PhdrsStored(e) ==> PhdrsStored(f)) && (ShdrsStored(e) ==> ShdrsStored(f))
  {
    hide HoldsPhdrs, HoldsShdrs, DecodeEhdr, DecodeShdr, TableSize, BodiesInFile, BodiesDisjoint, LinksInRange;
    if PhdrsStored(e) {
      HoldsPhdrsFrame(e.cfg, e.file, f.file, Hdr(e).phoff, e.phdrs, |e.phdrs|);
    }
    if ShdrsStored(e) {
      HoldsShdrsFrame(e.cfg, e.file, f.file, Hdr(e).shoff, e.shdrs, |e.shdrs|);
    }
    var at, sz := Slot(Hdr(e).shoff, 0, e.cfg.ShdrSize()), e.cfg.ShdrSize();
    SlotInside(Hdr(e).shoff, 0, |e.shdrs|, sz);
    forall k | at <= k < at + sz ensures f.file[k] == e.file[k] {
      assert InHeaders(e, k);
    }
    assert f.file[at..at + sz] == e.file[at..at + sz];
  }

  lemma NamesStillStored(e: Elf, f: Elf, d: nat, s: nat)
    requires WellFormed(e) && SelfDescribing(e) && OnlyBodies(e, f, d, s)
    requires HdrAt(e.cfg, f.file) == HdrAt(e.cfg, e.file) && Hdr(e).shstrndx != d && Hdr(e).shstrndx != s
    ensures SelfDescribing(f)
  {
    hide WellFormed, ConfigOf;
    var i := Hdr(e).shstrndx;
    var a := e.shdrs[i];
    forall k | a.offset <= k < BodyEnd(a) ensures f.file[k] == e.file[k] {
      assert InBody(a, k);
      OtherBody(e, i, d, k);
      OtherBody(e, i, s, k);
    }
    assert f.file[a.offset..BodyEnd(a)] == e.file[a.offset..BodyEnd(a)];
  }

  lemma OtherBody(e: Elf, i: nat, d: nat, k: int)
    requires WellFormed(e) && i < |e.shdrs| && d < |e.shdrs| && i != d && InBody(e.shdrs[i], k)
    ensures !InBody(e.shdrs[d], k)
  {
    hide WellFormed, InBody;
    if InBody(e.shdrs[d], k) {
      OwnBodies(e, i, d, k);
    }
  }

  /** A table with small tags ends where the rewrite's loop stops. */
  lemma TableTerminates(c: Config, b: seq<Byte>, es: seq<Dyn>)
    requires HoldsTable(c, b, es) && SmallTags(es)
    ensures Terminated(c, b, 0, |es|)
  {
    hide DynEntry;
    forall i | 0 <= i <= |es| ensures EndsOnlyAt(c, b, 0, i, |es|) {
      if i < |es| {
        assert HoldsEntry(c, b, i, es[i]);
      }
    }
  }

  lemma TableReady(f: Elf, es: seq<Dyn>)
    requires var d := Find(f.names, f.shdrs, DYNAMIC);
             d > 0 && f.shdrs[d].stype != SHT_NOBITS && Readable(f.file, f.shdrs[d])
             && HoldsTable(f.cfg, BodyOf(f.file, f.shdrs[d]), es)
    requires SmallTags(es)
    ensures DynamicReady(f, |es|)
  {
    hide HoldsTable;
    var s := f.shdrs[Find(f.names, f.shdrs, DYNAMIC)];
    var body, len := BodyOf(f.file, s), TableSize(|es| + 1, f.cfg.DynSize());
    TableTerminates(f.cfg, body, es);
    TableFits(f.cfg, body, es);
    assert body[0..len] == f.file[s.offset..s.offset + len] by { SliceOfSlice(f.file, s.offset, s.size, 0, len); }
    TerminatedMoved(f.cfg, body, 0, f.file, s.offset, |es|);
  }

  lemma TableFits(c: Config, b: seq<Byte>, es: seq<Dyn>)
    requires HoldsTable(c, b, es)
    ensures TableSize(|es| + 1, c.DynSize()) <= |b|
  {
  }

  lemma StoredDynamic(e: Elf, rs: seq<Entry>, f: Elf, qs: seq<Entry>, es: seq<Dyn>, r: Edit)
    requires PathReady(e, rs, es) && PathStored(e, rs, f, qs, r) && SmallTags(r.es)
    ensures DynamicStaged(f, qs, |r.es|)
  {
    hide HoldsTable, WellFormed, SmallTags;
    if Has(qs, DYNAMIC) {
      TableTerminates(f.cfg, Get(qs, DYNAMIC), r.es);
    } else {
      TableReady(f, r.es);
    }
  }

  /** The bodies of the two sections, staged or not, are small enough to be placed. */
  ghost predicate SmallTables(f: Elf, qs: seq<Entry>) {
    && (Has(qs, DYNAMIC) ==> |Get(qs, DYNAMIC)| < 0x8000_0000)
    && (Has(qs, DYNSTR) ==> |Get(qs, DYNSTR)| < 0x8000_0000)
  }

  lemma StoredStaged(e: Elf, rs: seq<Entry>, f: Elf, qs: seq<Entry>, es: seq<Dyn>, r: Edit)
    requires PathReady(e, rs, es) && PathStored(e, rs, f, qs, r) && StagedOk(e, rs) && SmallTables(f, qs)
    ensures StagedOk(f, qs)
  {
    hide HoldsTable, WellFormed;
    SortedDistinct(qs);
    forall j | 0 <= j < |qs| ensures |qs[j].data| < 0x8000_0000 {
      IndexUnique(qs, j);
      StoredEntry(e, rs, f, qs, es, r, qs[j].name);
    }
    forall j {:trigger Find(f.names, f.shdrs, qs[j].name)} | 0 <= j < |qs|
      ensures Find(f.names, f.shdrs, qs[j].name) > 0
    {
      IndexUnique(qs, j);
      StoredEntry(e, rs, f, qs, es, r, qs[j].name);
    }
    StoredTypes(e, rs, f, qs, es, r);
  }

  lemma StoredTypes(e: Elf, rs: seq<Entry>, f: Elf, qs: seq<Entry>, es: seq<Dyn>, r: Edit)
    requires PathReady(e, rs, es) && PathStored(e, rs, f, qs, r) && StagedOk(e, rs)
    ensures forall i :: 0 <= i < |f.shdrs| && IsStaged(f, qs, i) ==> f.shdrs[i].stype != SHT_NOBITS
  {
    hide HoldsTable, WellFormed;
    forall i | 0 <= i < |f.shdrs| && IsStaged(f, qs, i) ensures f.shdrs[i].stype != SHT_NOBITS {
      var name := NameOf(e.names, e.shdrs[i]);
      Names(e);
      FindUnique(e.names, e.shdrs, i);
      if name != DYNAMIC && name != DYNSTR {
        assert SameStaged(rs, qs, name);
        assert IsStaged(e, rs, i);
      }
    }
  }

  lemma StoredEntry(e: Elf, rs: seq<Entry>, f: Elf, qs: seq<Entry>, es: seq<Dyn>, r: Edit, name: Name)
    requires PathReady(e, rs, es) && PathStored(e, rs, f, qs, r) && StagedOk(e, rs) && SmallTables(f, qs)
    requires Has(qs, name)
    ensures |Get(qs, name)| < 0x8000_0000 && Find(f.names, f.shdrs, name) > 0
  {
    if name != DYNAMIC && name != DYNSTR {
      assert SameStaged(rs, qs, name);
      assert Find(e.names, e.shdrs, rs[IndexOf(rs, name)].name) > 0;
    }
  }

  /** A state that was ready for rewriting is ready again once a path has been stored. */
  lemma PathKeepsRewritable(e: Elf, rs: seq<Entry>, f: Elf, qs: seq<Entry>, es: seq<Dyn>, r: Edit, n: nat)
    requires PathReady(e, rs, es) && PathStored(e, rs, f, qs, r) && Ready(e, rs, n)
    requires SmallTables(f, qs) && SmallTags(r.es)
    ensures Ready(f, qs, |r.es|) && Hdr(f) == Hdr(e) && f == e.(file := f.file) && |f.file| == |e.file|
  {
    hide HoldsTable, WellFormed, SmallTables, SmallTags, StagedOk, NullStored;
    var d, s := Find(e.names, e.shdrs, DYNAMIC), Find(e.names, e.shdrs, DYNSTR);
    PathKeepsReady(e, f, d, s);
    BodiesKeepHdr(e, f, d, s);
    StoredDynamic(e, rs, f, qs, es, r);
    StoredStaged(e, rs, f, qs, es, r);
  }

  // ----- changing a path and rewriting, in one run -----

  /** The path is no longer than the one it replaces, so nothing has to grow. */
  predicate NoLonger(es: seq<Dyn>, str: seq<Byte>, path: seq<Byte>) {
    |path| <= |Text(PathOf(es, str))|
  }

  /**
   * What a run that changes the path to this one, with rs staged already, relies on before it starts;
   * a run that leaves nothing staged relies on the path entries alone.
   */
  ghost predicate PathRunReady(e: Elf, rs: seq<Entry>, es: seq<Dyn>, path: seq<Byte>, maxSize: nat) {
    && PathReady(e, rs, es)
    && (rs != [] || !NoLonger(es, StringsOf(e), path) ==> PathGrowReady(e, rs, es, path, maxSize))
  }

  /** And if the file is laid out again. */
  ghost predicate PathGrowReady(e: Elf, rs: seq<Entry>, es: seq<Dyn>, path: seq<Byte>, maxSize: nat) {
    && SmallTags(es) && Ready(e, rs, |es|)
    && |StringsOf(e)| + |path| + 1 < 0x8000_0000 && |e.file| <= maxSize < 0x8000_0000
    && (Hdr(e).etype == ET_DYN ==> AreaAddressed(e, PathSpace(e, rs, es, path)))
    && (Hdr(e).etype == ET_EXEC ==>
          && OffsetsSmall(e) && AddressesAbove(e) && Hdr(e).phoff == e.cfg.EhdrSize()
          && (if NoLonger(es, StringsOf(e), path) then NobitsPast(e, rs) else NobitsStopped(e)))
  }

  /**
   * What a library grows by: the program header table, what is staged already, and for a longer path
   * the strings, and the dynamic table if it needs an entry.
   */
  ghost function PathSpace(e: Elf, rs: seq<Entry>, es: seq<Dyn>, path: seq<Byte>): nat {
    var a, d := e.cfg.SectionAlignment(), Find(e.names, e.shdrs, DYNAMIC);
    LibrarySpace(e, rs)
    + (if NoLonger(es, StringsOf(e), path) then 0 else Padded(|StringsOf(e)| + |path| + 1, a))
    + (if !NoLonger(es, StringsOf(e), path) && Chosen(es) < 0 && d < |e.shdrs|
       then Padded(e.shdrs[d].size + e.cfg.DynSize(), a) else 0)
  }

  /** Sections without file contents come behind .dynstr, or behind a section that cannot move. */
  ghost predicate NobitsStopped(e: Elf) {
    forall i :: 0 <= i < |e.shdrs| && e.shdrs[i].stype == SHT_NOBITS ==> StopBefore(e, i)
  }

  /** The table with the new path still has small tags. */
  lemma SetKeepsTags(es: seq<Dyn>, str: seq<Byte>, path: seq<Byte>, force: bool)
    requires (Chosen(es) >= 0 ==> Ends(str, es[Chosen(es)].val)) && SmallTags(es)
    ensures SmallTags(SetPath(es, str, path, force).es)
  {
    hide CString, SetPath;
    var r := SetPath(es, str, path, force);
    forall k | 0 <= k < |r.es| ensures r.es[k].tag < WORD {
      if r.added && k == 0 {
        NewEntryTag(es, str, path, force);
      } else {
        SetSize(es, str, path, force);
        SetKeepsEntries(es, str, path, force, if r.added then k - 1 else k);
      }
    }
  }

  lemma SetSize(es: seq<Dyn>, str: seq<Byte>, path: seq<Byte>, force: bool)
    requires Chosen(es) >= 0 ==> Ends(str, es[Chosen(es)].val)
    ensures var r := SetPath(es, str, path, force);
            && |r.es| == |es| + (if r.added then 1 else 0)
            && |r.str| == |str| + (if r.grown then |path| + 1 else 0)
            && (r.grown <==> !NoLonger(es, str, path)) && (r.added <==> r.grown && Chosen(es) < 0)
  {
    hide CString;
  }

  lemma NewEntryTag(es: seq<Dyn>, str: seq<Byte>, path: seq<Byte>, force: bool)
    requires (Chosen(es) >= 0 ==> Ends(str, es[Chosen(es)].val)) && SetPath(es, str, path, force).added
    ensures var ts := SetPath(es, str, path, force).es; ts != [] && ts[0].tag < WORD && ts[0].tag != DT_NEEDED
  {
    hide CString;
  }

  /** The space taken by a section that is staged besides. */
  lemma {:induction false} SpacePut(c: Config, rs: seq<Entry>, name: Name, data: seq<Byte>)
    requires !Has(rs, name)
    ensures var q := Put(rs, name, data);
            Space(c, q, |q|) == Space(c, rs, |rs|) + Padded(|data|, c.SectionAlignment())
  {
    hide Padded;
    if rs == [] {
      SpaceCons(c, Entry(name, data), rs, 0);
    } else {
      HasFront(rs, name);
      SpaceCons(c, rs[0], rs[1..], |rs| - 1);
      assert [rs[0]] + rs[1..] == rs;
      if Less(name, rs[0].name) {
        SpaceCons(c, Entry(name, data), rs, |rs|);
      } else {
        SpacePut(c, rs[1..], name, data);
        SpaceCons(c, rs[0], Put(rs[1..], name, data), |Put(rs[1..], name, data)|);
      }
    }
  }

  lemma HasFront(rs: seq<Entry>, name: Name)
    requires rs != [] && !Has(rs, name)
    ensures rs[0].name != name && !Has(rs[1..], name)
  {
    assert forall j :: 0 <= j < |rs[1..]| ==> rs[1..][j] == rs[j + 1];
  }

  lemma {:induction false} SpaceCons(c: Config, x: Entry, rs: seq<Entry>, n: nat)
    requires n <= |rs|
    ensures Space(c, [x] + rs, n + 1) == Padded(|x.data|, c.SectionAlignment()) + Space(c, rs, n)
    decreases n
  {
    hide Padded;
    if n > 0 {
      SpaceCons(c, x, rs, n - 1);
    }
  }

  /** After the path has been stored the file can be rewritten. */
  lemma PathRunRewrites(e: Elf, rs: seq<Entry>, f: Elf, qs: seq<Entry>, es: seq<Dyn>, path: seq<Byte>, force: bool,
                        maxSize: nat)
    requires PathRunReady(e, rs, es, path, maxSize)
    requires Chosen(es) >= 0 ==> Ends(StringsOf(e), es[Chosen(es)].val)
    requires PathStored(e, rs, f, qs, SetPath(es, StringsOf(e), path, force))
    ensures Rewritable(f, qs, maxSize, |SetPath(es, StringsOf(e), path, force).es|)
    ensures Sorted(qs) && |f.file| >= f.cfg.EhdrSize() && (qs != [] ==> SmallTags(es))
    ensures NoLonger(es, StringsOf(e), path) ==> qs == rs
  {
    hide HoldsTable, WellFormed, SmallTags, SetPath, LibraryReady, ExecReady, PathGrowReady, Ends, Chosen;
    var r := SetPath(es, StringsOf(e), path, force);
    SetSize(es, StringsOf(e), path, force);
    StoredSize(e, rs, f, qs, es, r);
    if qs != [] {
      StoredRewrites(e, rs, f, qs, es, path, force, maxSize);
    }
  }

  lemma StoredSize(e: Elf, rs: seq<Entry>, f: Elf, qs: seq<Entry>, es: seq<Dyn>, r: Edit)
    requires PathReady(e, rs, es) && PathStored(e, rs, f, qs, r)
    ensures |e.file| >= e.cfg.EhdrSize() && f == e.(file := f.file) && |f.file| == |e.file|
  {
    hide HoldsTable;
  }

  lemma StoredRewrites(e: Elf, rs: seq<Entry>, f: Elf, qs: seq<Entry>, es: seq<Dyn>, path: seq<Byte>, force: bool,
                       maxSize: nat)
    requires PathReady(e, rs, es) && PathGrowReady(e, rs, es, path, maxSize)
    requires Chosen(es) >= 0 ==> Ends(StringsOf(e), es[Chosen(es)].val)
    requires PathStored(e, rs, f, qs, SetPath(es, StringsOf(e), path, force))
    ensures Rewritable(f, qs, maxSize, |SetPath(es, StringsOf(e), path, force).es|) && SmallTags(es)
  {
    hide HoldsTable, WellFormed, SmallTags, SetPath, Ready, StagedOk, OffsetsSmall, AddressesAbove, AddressesSmall,
         NobitsPast, NobitsStopped, Ends, Chosen, PathReady, PathStored, LibrarySpace, LastPage, PathSpace, NoLonger;
    var r := SetPath(es, StringsOf(e), path, force);
    SetKeepsTags(es, StringsOf(e), path, force);
    GrownSmall(e, rs, f, qs, es, path, force, maxSize);
    PathKeepsRewritable(e, rs, f, qs, es, r, |es|);
    SameLimits(e, f);
    ReadySize(f, qs, |r.es|);
    GrownSpace(e, rs, f, qs, es, path, force);
    if NoLonger(es, StringsOf(e), path) {
      StoredInFile(e, rs, f, qs, es, path, force);
      NobitsSame(e, f, rs);
    } else if NobitsStopped(e) {
      NobitsStillPast(e, f, qs);
    }
  }

  lemma StoredInFile(e: Elf, rs: seq<Entry>, f: Elf, qs: seq<Entry>, es: seq<Dyn>, path: seq<Byte>, force: bool)
    requires PathReady(e, rs, es) && NoLonger(es, StringsOf(e), path)
    requires Chosen(es) >= 0 ==> Ends(StringsOf(e), es[Chosen(es)].val)
    requires PathStored(e, rs, f, qs, SetPath(es, StringsOf(e), path, force))
    ensures qs == rs
  {
    hide HoldsTable, SetPath, Chosen, Ends, NoLonger, WellFormed, StringsEnd;
    SetSize(es, StringsOf(e), path, force);
  }

  /** The grown bodies are small, .dynamic because it lies behind the ELF header. */
  lemma GrownSmall(e: Elf, rs: seq<Entry>, f: Elf, qs: seq<Entry>, es: seq<Dyn>, path: seq<Byte>, force: bool,
                   maxSize: nat)
    requires PathReady(e, rs, es) && PathGrowReady(e, rs, es, path, maxSize)
    requires Chosen(es) >= 0 ==> Ends(StringsOf(e), es[Chosen(es)].val)
    requires PathStored(e, rs, f, qs, SetPath(es, StringsOf(e), path, force))
    ensures SmallTables(f, qs)
  {
    hide HoldsTable, SetPath, SmallTags, Ready, Chosen, Ends, AddressesSmall, OffsetsSmall, AddressesAbove,
         NobitsStopped, NobitsPast, PathSpace, NoLonger, Put;
    var s := e.shdrs[Find(e.names, e.shdrs, DYNAMIC)];
    SetSize(es, StringsOf(e), path, force);
    if s.size > 0 {
      assert InBody(s, s.offset) && InBody(s, BodyEnd(s) - 1);
    }
  }

  lemma StoredSizes(e: Elf, rs: seq<Entry>, f: Elf, qs: seq<Entry>, r: Edit)
    requires PathStored(e, rs, f, qs, r) && (r.added ==> r.grown)
    ensures f.phdrs == e.phdrs && f.cfg == e.cfg
    ensures var d := Find(e.names, e.shdrs, DYNAMIC);
            d > 0 && Has(qs, DYNAMIC) == r.added
            && (r.added ==> |Get(qs, DYNAMIC)| == e.shdrs[d].size + e.cfg.DynSize()
                            && qs == Put(Put(rs, DYNSTR, r.str), DYNAMIC, Get(qs, DYNAMIC)))
    ensures r.grown && !r.added ==> qs == Put(rs, DYNSTR, r.str)
    ensures !r.grown ==> qs == rs
  {
    hide HoldsTable, Find, IndexOf, Sorted, Put;
  }

  /** Exactly the space reckoned beforehand. */
  lemma GrownSpace(e: Elf, rs: seq<Entry>, f: Elf, qs: seq<Entry>, es: seq<Dyn>, path: seq<Byte>, force: bool)
    requires PathReady(e, rs, es)
    requires Chosen(es) >= 0 ==> Ends(StringsOf(e), es[Chosen(es)].val)
    requires PathStored(e, rs, f, qs, SetPath(es, StringsOf(e), path, force))
    ensures LibrarySpace(f, qs) == PathSpace(e, rs, es, path)
  {
    hide PathReady, PathStored, SetPath, NoLonger, Chosen, Ends, Space, Padded, TableSize, Find, StringsOf, Has, Get,
         Put;
    var r := SetPath(es, StringsOf(e), path, force);
    SetSize(es, StringsOf(e), path, force);
    StoredSizes(e, rs, f, qs, r);
    NotStaged(e, rs, es);
    if r.grown {
      SpacePut(e.cfg, rs, DYNSTR, r.str);
      if r.added {
        DynstrIsNotDynamic();
        PutGet(rs, DYNSTR, r.str, DYNAMIC);
        SpacePut(e.cfg, Put(rs, DYNSTR, r.str), DYNAMIC, Get(qs, DYNAMIC));
      }
    }
  }

  lemma NotStaged(e: Elf, rs: seq<Entry>, es: seq<Dyn>)
    requires PathReady(e, rs, es)
    ensures Sorted(rs) && !Has(rs, DYNAMIC) && !Has(rs, DYNSTR)
  {
    hide HoldsTable, WellFormed, StringsEnd;
  }

  /** The limits on sizes and addresses look only at the headers. */
  lemma SameLimits(e: Elf, f: Elf)
    requires f == e.(file := f.file)
    ensures AddressesSmall(f.cfg, f.phdrs) == AddressesSmall(e.cfg, e.phdrs)
    ensures OffsetsSmall(f) == OffsetsSmall(e) && AddressesAbove(f) == AddressesAbove(e)
    ensures forall space :: AreaAddressed(f, space) == AreaAddressed(e, space)
  {
  }

  lemma ReadySize(f: Elf, qs: seq<Entry>, n: nat)
    requires Ready(f, qs, n)
    ensures |f.file| >= f.cfg.EhdrSize()
  {
  }

  lemma NobitsStillPast(e: Elf, f: Elf, qs: seq<Entry>)
    requires f == e.(file := f.file) && NobitsStopped(e)
    ensures NobitsPast(f, qs)
  {
    hide IsStaged;
    forall i | 0 <= i < |f.shdrs| && f.shdrs[i].stype == SHT_NOBITS ensures StopBefore(f, i) {
      var j :| 1 <= j < |e.shdrs| && StopsNear(e, j) && e.shdrs[j].offset < e.shdrs[i].offset;
      assert StopsNear(f, j);
    }
  }

  lemma NobitsSame(e: Elf, f: Elf, rs: seq<Entry>)
    requires f == e.(file := f.file)
    ensures NobitsPast(f, rs) <==> NobitsPast(e, rs)
  {
    hide IsStaged, StopsNear;
    forall i | 0 <= i < |e.shdrs|
      ensures StopBefore(f, i) == StopBefore(e, i) && StagedAllBefore(f, rs, i) == StagedAllBefore(e, rs, i)
    {
      assert forall j :: 0 <= j < |e.shdrs| ==> IsStaged(f, rs, j) == IsStaged(e, rs, j) by { SameStages(e, f, rs); }
      assert forall j :: 0 <= j < |e.shdrs| ==> StopsNear(f, j) == StopsNear(e, j) by { SameStages(e, f, rs); }
    }
  }

  lemma SameStages(e: Elf, f: Elf, rs: seq<Entry>)
    requires f == e.(file := f.file)
    ensures forall j :: 0 <= j < |e.shdrs| ==> IsStaged(f, rs, j) == IsStaged(e, rs, j)
    ensures forall j :: 0 <= j < |e.shdrs| ==> StopsNear(f, j) == StopsNear(e, j)
  {
  }

  lemma RunStarts(e: Elf, rs: seq<Entry>, es: seq<Dyn>, path: seq<Byte>, maxSize: nat)
    requires PathRunReady(e, rs, es, path, maxSize)
    ensures PathReady(e, rs, es) && WellFormed(e)
    ensures Chosen(es) >= 0 ==> Ends(StringsOf(e), es[Chosen(es)].val)
    ensures Find(e.names, e.shdrs, DYNAMIC) > 0 && Find(e.names, e.shdrs, DYNSTR) > 0 && |e.file| >= e.cfg.EhdrSize()
  {
    hide HoldsTable, PathGrowReady, CString;
  }

  // ----- the file that is left -----

  /** The file describes itself, its tables are stored, and its section names are in neither of the two sections. */
  ghost predicate ParsesAsIs(e: Elf) {
    && |e.file| >= e.cfg.EhdrSize() && SelfDescribing(e) && PhdrsStored(e) && ShdrsStored(e)
    && NamesSection(e) != DYNAMIC && NamesSection(e) != DYNSTR
  }

  /** Such a file, its section names not staged, parses after the run to the state in memory. */
  lemma PathParses(e: Elf, rs: seq<Entry>, f: Elf, qs: seq<Entry>, g: Elf, n: nat, o: Outcome, es: seq<Dyn>, r: Edit)
    requires PathReady(e, rs, es) && PathStored(e, rs, f, qs, r) && Rewritten(f, qs, g, n, o)
    requires ParsesAsIs(e) && !Has(rs, NamesSection(e)) && |g.file| < 0x8000_0000
    ensures Parse(g.cfg.mipsel, g.file) == Some(g)
  {
    hide HoldsTable, Parse, LibraryRewritten, ExecRewritten, WellFormed, HoldsPhdrs, HoldsShdrs, SelfDescribing,
         NamesSection;
    var d, s := Find(e.names, e.shdrs, DYNAMIC), Find(e.names, e.shdrs, DYNSTR);
    IndexInRange(e);
    StoredKeeps(e, f, d, s);
    if o == Untouched {
      TablesAre(f);
      ParseYields(f);
    } else {
      assert SameStaged(rs, qs, NamesSection(e));
      RunParsesBack(f, qs, g, n, o);
    }
  }

  /** What had been staged before is in the file that is left. */
  lemma StagedSurvives(e: Elf, rs: seq<Entry>, f: Elf, qs: seq<Entry>, g: Elf, n: nat, o: Outcome, es: seq<Dyn>,
                       r: Edit, name: Name)
    requires PathReady(e, rs, es) && PathStored(e, rs, f, qs, r) && Rewritten(f, qs, g, n, o) && Has(rs, name)
    ensures ReadsAs(g, name, Get(rs, name))
  {
    hide PathReady, LibraryRewritten, ExecRewritten, HoldsTable, ReadsAs;
    NotStaged(e, rs, es);
    assert SameStaged(rs, qs, name);
    StagedReadsBack(f, qs, g, n, o, name);
  }

  /**
   * A run that changes the path: the state and the staged sections once the path is stored, what
   * rewriting did with them, and the table and strings of the file that is left.
   */
  datatype PathRun = PathRun(f: Elf, qs: seq<Entry>, n: nat, o: Outcome, ts: seq<Dyn>, str: seq<Byte>)

  /**
   * What the file g that is left says of path and libraries, operation by operation.  Printing changes
   * neither.  The path that is set is the one in force, unless it was misdirected, and the same libraries
   * are needed, unless their names lay in the way.  So too with the shrunk path, and each library is
   * first found in it where it was found before, unless that was an empty entry of which none survives.
   */
  ghost predicate PathSays(e: Elf, rs: seq<Entry>, es: seq<Dyn>, op: PathOp, needed: seq<seq<Byte>>, force: bool,
                           holds: Oracle, r: PathRun)
    requires Chosen(es) >= 0 ==> Ends(StringsOf(e), es[Chosen(es)].val)
  {
    var str := StringsOf(e);
    var was, now := Text(PathOf(es, str)), Text(PathOf(r.ts, r.str));
    var libs, kept := Needed(r.ts, r.str, |r.ts|), Needed(es, str, |es|);
    match op
    case RpPrint => r.f == e && r.qs == rs && now == was && libs == kept
    case RpSet(p) =>
      && (now == p <==> !Misdirected(es, str, p, force)) && (libs == kept <==> NeededKept(es, str, p))
      && SamePaths(SetPath(es, str, p, force).es, r.ts)
    case RpShrink =>
      var p := Shrunk(was, needed, holds);
      && (now == p <==> !Misdirected(es, str, p, force)) && (libs == kept <==> NeededKept(es, str, p))
      && (!Misdirected(es, str, p, force) ==> forall lib :: lib in libs && lib in needed ==>
            (FirstHolder(Tokens(now), lib, holds) == FirstHolder(Tokens(was), lib, holds)
             <==> LookupSurvives(was, needed, holds, lib)))
  }

  /** What the file g that is left holds: path and libraries, whatever had been staged before, and its own headers. */
  ghost predicate PathPatched(e: Elf, rs: seq<Entry>, es: seq<Dyn>, op: PathOp, needed: seq<seq<Byte>>, force: bool,
                              holds: Oracle, r: PathRun, g: Elf)
    requires Chosen(es) >= 0 ==> Ends(StringsOf(e), es[Chosen(es)].val)
  {
    && Rewritten(r.f, r.qs, g, r.n, r.o) && PathTables(g, [], r.ts, r.str)
    && PathSays(e, rs, es, op, needed, force, holds, r)
    && (forall name :: Has(rs, name) ==> ReadsAs(g, name, Get(rs, name)))
    && (ParsesAsIs(e) && !Has(rs, NamesSection(e)) && |g.file| < 0x8000_0000 ==> Parse(g.cfg.mipsel, g.file) == Some(g))
  }

  /** The operation asks for no path longer than the one in force, and so nothing has to grow. */
  predicate AsksNoLonger(op: PathOp, was: seq<Byte>) {
    op.RpSet? ==> |op.path| <= |was|
  }

  /** The outcome of such a run: whether it succeeds, and what the file then says. */
  ghost predicate PathRan(e: Elf, rs: seq<Entry>, es: seq<Dyn>, op: PathOp, needed: seq<seq<Byte>>, force: bool,
                          holds: Oracle, maxSize: nat, ok: bool, r: PathRun, g: Elf)
    requires Chosen(es) >= 0 ==> Ends(StringsOf(e), es[Chosen(es)].val)
  {
    && PathDone(e, rs, r.f, r.qs, es, StringsOf(e), op, needed, force, holds)
    && |r.f.file| >= r.f.cfg.EhdrSize() && ok == Succeeds(r.f, r.qs, maxSize, r.n, r.o)
    && SortRecorded(r.f, r.qs, r.o)
    && (rs == [] && AsksNoLonger(op, Text(PathOf(es, StringsOf(e)))) ==> ok && r.o == Untouched)
    && (ok ==> PathPatched(e, rs, es, op, needed, force, holds, r, g))
  }

  /** What setInterpreter stages; an empty name leaves the interpreter alone. */
  function StagedInterpreter(newInterpreter: seq<Byte>): seq<Entry> {
    if newInterpreter == [] then [] else [Entry(INTERP, newInterpreter + ['\0'])]
  }

  /** There is an .interp if one is to be set. */
  predicate HasInterpreter(e: Elf, newInterpreter: seq<Byte>) {
    newInterpreter != [] ==> Find(e.names, e.shdrs, INTERP) > 0
  }

  lemma RunPatches(e: Elf, rs: seq<Entry>, f: Elf, qs: seq<Entry>, g: Elf, n: nat, o: Outcome, es: seq<Dyn>,
                   op: PathOp, needed: seq<seq<Byte>>, force: bool, holds: Oracle) returns (r: PathRun)
    requires PathReady(e, rs, es) && OpOk(op)
    requires Chosen(es) >= 0 ==> Ends(StringsOf(e), es[Chosen(es)].val)
    requires PathModified(e, rs, f, qs, es, StringsOf(e), op, needed, force, holds)
    requires Rewritten(f, qs, g, n, o) && (o != Untouched ==> SmallTags(es))
    ensures r.f == f && r.qs == qs && r.n == n && r.o == o
    ensures PathPatched(e, rs, es, op, needed, force, holds, r, g)
  {
    hide PathReady, PathStored, PathModified, Rewritten, PathTables, SmallTags, SetPath, PathStrings, Misdirected,
         PathWanted, NeededKept, Ends, Chosen, Parse, ReadsAs, Has, Get, HoldsPhdrs, HoldsShdrs, PathSays, PathOf,
         SamePaths;
    var wanted := PathWanted(op, PathOf(es, StringsOf(e)), needed, holds);
    var ts, str := PathSurvives(e, rs, f, qs, g, n, o, es, op, needed, force, holds);
    r := PathRun(f, qs, n, o, ts, str);
    ModifiedTables(e, rs, f, qs, es, op, needed, force, holds);
    SurvivesSays(e, rs, es, op, needed, force, holds, r);
    forall name | Has(rs, name) ensures ReadsAs(g, name, Get(rs, name)) {
      StagedSurvives(e, rs, f, qs, g, n, o, es, SetPath(es, StringsOf(e), wanted, force), name);
    }
    if ParsesAsIs(e) && !Has(rs, NamesSection(e)) && |g.file| < 0x8000_0000 {
      PathParses(e, rs, f, qs, g, n, o, es, SetPath(es, StringsOf(e), wanted, force));
    }
  }

  lemma SurvivesSays(e: Elf, rs: seq<Entry>, es: seq<Dyn>, op: PathOp, needed: seq<seq<Byte>>, force: bool,
                     holds: Oracle, r: PathRun)
    requires Chosen(es) >= 0 ==> Ends(StringsOf(e), es[Chosen(es)].val)
    requires PathModified(e, rs, r.f, r.qs, es, StringsOf(e), op, needed, force, holds)
    requires var wanted := PathWanted(op, PathOf(es, StringsOf(e)), needed, holds);
             (Text(PathOf(r.ts, r.str)) == wanted <==> !Misdirected(es, StringsOf(e), wanted, force))
             && (Needed(r.ts, r.str, |r.ts|) == Needed(es, StringsOf(e), |es|)
                 <==> NeededKept(es, StringsOf(e), wanted))
    requires var wanted := PathWanted(op, PathOf(es, StringsOf(e)), needed, holds);
             SamePaths(SetPath(es, StringsOf(e), wanted, force).es, r.ts)
    ensures PathSays(e, rs, es, op, needed, force, holds, r)
  {
    hide Chosen, Ends, SetPath, Needed, Shrunk, Leftover, FirstHolder, LookupSurvives, Tokens, PathOf, SamePaths;
    var was := PathOf(es, StringsOf(e));
    NothingShrinks(needed, holds);
    if op == RpShrink {
      var p := Shrunk(Text(was), needed, holds);
      forall lib | lib in Needed(r.ts, r.str, |r.ts|) && lib in needed && !Misdirected(es, StringsOf(e), p, force)
        ensures FirstHolder(Tokens(p), lib, holds) == FirstHolder(Tokens(Text(was)), lib, holds)
           <==> LookupSurvives(Text(was), needed, holds, lib)
      {
        ShrunkKeepsLookup(Text(was), needed, holds, lib);
      }
    }
  }

  /** The state once the operation has been carried out can be rewritten. */
  lemma ModifiedRewrites(e: Elf, rs: seq<Entry>, f: Elf, qs: seq<Entry>, es: seq<Dyn>, op: PathOp,
                         needed: seq<seq<Byte>>, force: bool, holds: Oracle, maxSize: nat) returns (n: nat)
    requires PathRunReady(e, rs, es, PathWanted(op, PathOf(es, StringsOf(e)), needed, holds), maxSize)
    requires Chosen(es) >= 0 ==> Ends(StringsOf(e), es[Chosen(es)].val)
    requires PathModified(e, rs, f, qs, es, StringsOf(e), op, needed, force, holds)
    ensures Rewritable(f, qs, maxSize, n) && Sorted(qs) && |f.file| >= f.cfg.EhdrSize() && (qs != [] ==> SmallTags(es))
    ensures NoLonger(es, StringsOf(e), PathWanted(op, PathOf(es, StringsOf(e)), needed, holds)) ==> qs == rs
  {
    hide PathReady, PathStored, PathModified, SmallTags, SetPath, PathGrowReady, PathWanted, Ends, Chosen,
         Rewritable, NoLonger;
    var wanted := PathWanted(op, PathOf(es, StringsOf(e)), needed, holds);
    ModifiedTables(e, rs, f, qs, es, op, needed, force, holds);
    PathRunRewrites(e, rs, f, qs, es, wanted, force, maxSize);
    n := |SetPath(es, StringsOf(e), wanted, force).es|;
  }

  lemma AllowedSections(e: Elf, es: seq<Dyn>)
    requires PathAllowed(e, es)
    ensures Find(e.names, e.shdrs, DYNAMIC) > 0 && Find(e.names, e.shdrs, DYNSTR) > 0
  {
  }

  /** An operation that asks for no other path leaves everything as it is. */
  lemma NothingChanged(e: Elf, rs: seq<Entry>, f: Elf, qs: seq<Entry>, es: seq<Dyn>, op: PathOp,
                       needed: seq<seq<Byte>>, force: bool, holds: Oracle)
    requires Chosen(es) >= 0 ==> Ends(StringsOf(e), es[Chosen(es)].val)
    requires PathModified(e, rs, f, qs, es, StringsOf(e), op, needed, force, holds)
    requires !PathChanges(op, PathOf(es, StringsOf(e)), needed, holds)
    ensures f == e && qs == rs
  {
  }

  /** A path that is shrunk is never longer. */
  lemma ShrinkNoLonger(es: seq<Dyn>, str: seq<Byte>, needed: seq<seq<Byte>>, holds: Oracle)
    ensures NoLonger(es, str, PathWanted(RpShrink, PathOf(es, str), needed, holds))
  {
    hide Shrunk, CString, Chosen;
    if PathOf(es, str) != None {
      ShrunkNoLonger(PathOf(es, str).value, needed, holds);
    }
  }

  lemma WantsNoLonger(op: PathOp, es: seq<Dyn>, str: seq<Byte>, needed: seq<seq<Byte>>, holds: Oracle)
    requires AsksNoLonger(op, Text(PathOf(es, str)))
    ensures NoLonger(es, str, PathWanted(op, PathOf(es, str), needed, holds))
  {
    hide Shrunk, CString, Chosen;
    if op == RpShrink {
      ShrinkNoLonger(es, str, needed, holds);
    }
  }

  lemma StoredKeeps(e: Elf, f: Elf, d: nat, s: nat)
    requires WellFormed(e) && OnlyBodies(e, f, d, s) && ParsesAsIs(e)
    requires d == Find(e.names, e.shdrs, DYNAMIC) > 0 && s == Find(e.names, e.shdrs, DYNSTR) > 0
    ensures WellFormed(f) && |f.file| >= f.cfg.EhdrSize() && SelfDescribing(f) && PhdrsStored(f) && ShdrsStored(f)
    ensures NamesSection(f) == NamesSection(e) && Hdr(f).shstrndx < |f.shdrs|
  {
    hide WellFormed, ConfigOf, HoldsPhdrs;
    IndexInRange(e);
    BodiesKeepHdr(e, f, d, s);
    NullOfAll(e);
    PathKeepsReady(e, f, d, s);
  }

  lemma NullOfAll(e: Elf)
    requires |e.file| >= e.cfg.EhdrSize() && |e.shdrs| > 0 && ShdrsStored(e)
    ensures NullStored(e)
  {
  }
}
