/** A whole run of rewriteSections, and what is read back from the file it leaves. */
module Outcomes {
  import opened Bytes
  import opened Options
  import opened Codec
  import opened ElfTypes
  import opened Rounding
  import opened Staging
  import opened Sorting
  import opened Elf
  import opened Links
  import opened Placement
  import opened Tables
  import opened Steps
  import opened Relayout
  import opened Layout
  import opened Memory
  import opened Agreement
  import opened Loading
  import opened Congruence
  import opened Parsing
  import opened Reparse

  /** What a successful run did: nothing, or one of the two layouts. */
  datatype Outcome = Untouched
                   | Library(mid: Elf, t: HeaderTrace)
                   | Executable(r: ExecTrace, mid: Elf, t: HeaderTrace)

  /**
   * rewriteSections from e, with rs staged, ended in f: the layout is the one for the file's type, and
   * every dynamic entry found the section it calls for.
   */
  ghost predicate Rewritten(e: Elf, rs: seq<Entry>, f: Elf, n: nat, o: Outcome) {
    match o
    case Untouched => rs == [] && f == e
    case Library(mid, t) =>
      && |e.file| >= e.cfg.EhdrSize() && Hdr(e).etype == ET_DYN
      && LibraryRewritten(e, rs, f, n, mid, t) && StateResolves(e, rs, n)
    case Executable(r, mid, t) =>
      && |e.file| >= e.cfg.EhdrSize() && Hdr(e).etype == ET_EXEC
      && WellFormed(e) && Sorted(rs) && ExecRewritten(e, rs, f, n, r, mid, t) && StateResolves(r.sorted, r.x.rs, n)
  }

  /**
   * When a run succeeds: with nothing staged, or when the file is of a known type and its layout
   * succeeds; for executables on the order that the sort of equal offsets happened to give.
   */
  ghost predicate Succeeds(e: Elf, rs: seq<Entry>, maxSize: nat, n: nat, o: Outcome)
    requires |e.file| >= e.cfg.EhdrSize()
  {
    || rs == []
    || (Hdr(e).etype == ET_DYN && LibraryFits(e, rs, maxSize, n))
    || (Hdr(e).etype == ET_EXEC && o.Executable? && SortStep(e, o.r.sorted, o.r.p, o.r.inv)
        && ExecFits(o.r.sorted, rs, maxSize, n))
  }

  /** For an executable with something staged the outcome names the sort's order, also when the run fails. */
  ghost predicate SortRecorded(e: Elf, rs: seq<Entry>, o: Outcome)
    requires |e.file| >= e.cfg.EhdrSize()
  {
    rs != [] && Hdr(e).etype == ET_EXEC ==> o.Executable? && SortStep(e, o.r.sorted, o.r.p, o.r.inv)
  }

  /** What rewriteSections relies on. */
  ghost predicate Rewritable(e: Elf, rs: seq<Entry>, maxSize: nat, n: nat) {
    && |e.file| >= e.cfg.EhdrSize()
    && (rs != [] && Hdr(e).etype == ET_DYN ==> LibraryReady(e, rs, maxSize, n))
    && (rs != [] && Hdr(e).etype == ET_EXEC ==> ExecReady(e, rs, maxSize, n))
  }

  /** The part of an executable's run that lays out the file, as a rewrite of the sorted state. */
  ghost predicate RewriteOf(e: Elf, m: Move, mid: Elf, f: Elf, addr: nat, n: nat, t: HeaderTrace, rs: seq<Entry>) {
    && Rewrite(e, m, mid, f, addr, n, t)
    && forall name :: Has(rs, name) ==> StagedIn(m.p.rs, rs, name)
  }

  ghost predicate StagedIn(qs: seq<Entry>, rs: seq<Entry>, name: Name)
    requires Has(rs, name)
  {
    Has(qs, name) && Get(qs, name) == Get(rs, name)
  }

  // ----- sorting the sections keeps what parsing relies on -----

  lemma SortKeepsSelf(e: Elf, s: Elf, p: seq<nat>, inv: seq<nat>)
    requires WellFormed(e) && SortStep(e, s, p, inv) && SelfDescribing(e)
    ensures WellFormed(s) && SelfDescribing(s) && NamesSection(s) == NamesSection(e) && s.names == e.names
    ensures s.cfg == e.cfg
  {
    hide WellFormed, Resolvable, SortStep, ConfigOf;
    SortKeepsWellFormed(e, s, p, inv);
    SortSame(e, s, p, inv);
    SortedSection(e, s, p, inv, Hdr(e).shstrndx);
    var a := e.shdrs[Hdr(e).shstrndx];
    forall k | a.offset <= k < BodyEnd(a) ensures s.file[k] == e.file[k] {
      BodyInFile(e, Hdr(e).shstrndx, k);
    }
    assert s.file[a.offset..BodyEnd(a)] == e.file[a.offset..BodyEnd(a)];
  }

  lemma SortedSection(e: Elf, s: Elf, p: seq<nat>, inv: seq<nat>, i: nat)
    requires SortStep(e, s, p, inv) && i < |e.shdrs|
    ensures i < |p| && p[i] < |s.shdrs| && s.shdrs[p[i]] == Relinked(e.shdrs[i], p)
  {
  }

  /** The scan stages the section-name table, if at all, as it is. */
  lemma NamesUntouchedByScan(s: Elf, rs: seq<Entry>, b: nat, r: seq<Entry>, startOffset: nat, startAddr: nat)
    requires WellFormed(s) && SelfDescribing(s) && NamesFree(s, rs) && Sorted(rs)
    requires Scanned(s, rs, b, r, startOffset, startAddr)
    ensures NamesUntouched(s, r)
  {
    hide WellFormed, StagedBefore;
    var name := NamesSection(s);
    StageUpToAdds(s, rs, b);
    StagedBeforeIs(s, rs, b, r, name);
    NamesNotNull(s);
    if Has(r, name) {
      var i :| 1 <= i < b && HasBody(s, i, name, Get(r, name));
      Names(s);
      FindUnique(s.names, s.shdrs, i);
    }
  }

  /** Each layout is a rewrite in which everything the caller staged is staged. */
  lemma LibraryOutcome(e: Elf, rs: seq<Entry>, f: Elf, n: nat, mid: Elf, t: HeaderTrace)
    requires LibraryRewritten(e, rs, f, n, mid, t)
    ensures RewriteOf(e, LibraryMove(e, rs, StartOffset(e), StartPage(e)), mid, f, StartPage(e), n, t, rs)
  {
    hide Rewrite, LibraryRewritten;
    LibraryIsRewrite(e, rs, f, n, mid, t);
  }

  lemma ExecOutcome(e: Elf, rs: seq<Entry>, f: Elf, n: nat, r: ExecTrace, mid: Elf, t: HeaderTrace)
    requires Sorted(rs) && ExecRewritten(e, rs, f, n, r, mid, t)
    ensures r.x.FirstPage() >= 0
    ensures RewriteOf(r.sorted, ExecMove(r.sorted, r.x), mid, f, r.x.FirstPage() + e.cfg.EhdrSize(), n, t, rs)
  {
    hide Rewrite, Relaid, HeadersStep, Ready, SortStep, Resolvable, ExecLaidOut, StagedBefore;
    ExecIsRewrite(e, rs, f, n, r, mid, t);
    StageUpToAdds(r.sorted, rs, r.boundary);
    forall name | Has(rs, name) ensures StagedIn(r.x.rs, rs, name) {
      StagedBeforeAs(r.sorted, rs, r.boundary, r.x.rs, name);
    }
  }

  lemma StagedBeforeAs(e: Elf, rs: seq<Entry>, b: nat, r: seq<Entry>, name: Name)
    requires 1 <= b <= |e.shdrs| && ReadableBefore(e, b) && StagedBefore(e, rs, b, r) && Has(rs, name)
    ensures StagedIn(r, rs, name)
  {
    StagedBeforeIs(e, rs, b, r, name);
  }

  // ----- reading back -----

  /** The section-name table is neither .dynamic nor staged by the caller. */
  ghost predicate NamesFree(e: Elf, rs: seq<Entry>)
    requires |e.file| >= e.cfg.EhdrSize() && Hdr(e).shstrndx < |e.shdrs|
  {
    NamesSection(e) != DYNAMIC && !Has(rs, NamesSection(e))
  }

  lemma LibraryParses(e: Elf, rs: seq<Entry>, f: Elf, n: nat, mid: Elf, t: HeaderTrace)
    requires LibraryRewritten(e, rs, f, n, mid, t) && SelfDescribing(e) && NamesFree(e, rs)
    requires |f.file| < 0x8000_0000
    ensures Parse(f.cfg.mipsel, f.file) == Some(f)
  {
    hide Rewrite, LibraryRewritten, Parse;
    LibraryIsRewrite(e, rs, f, n, mid, t);
    ReparseRoundTrip(e, LibraryMove(e, rs, StartOffset(e), StartPage(e)), mid, f, StartPage(e), n, t);
  }

  lemma ExecParses(e: Elf, rs: seq<Entry>, f: Elf, n: nat, r: ExecTrace, mid: Elf, t: HeaderTrace)
    requires WellFormed(e) && Sorted(rs) && ExecRewritten(e, rs, f, n, r, mid, t) && SelfDescribing(e)
    requires NamesFree(e, rs)
    requires |f.file| < 0x8000_0000
    ensures Parse(f.cfg.mipsel, f.file) == Some(f)
  {
    hide Rewrite, Relaid, HeadersStep, Ready, SortStep, Resolvable, ExecLaidOut, StagedBefore, Parse, WellFormed,
         SelfDescribing, Scanned, NamesUntouched, Sorted, NamesSection;
    ExecIsRewrite(e, rs, f, n, r, mid, t);
    SortKeepsSelf(e, r.sorted, r.p, r.inv);
    NamesUntouchedByScan(r.sorted, rs, r.boundary, r.x.rs, r.x.startOffset, r.x.startAddr);
    ReparseRoundTrip(r.sorted, ExecMove(r.sorted, r.x), mid, f, r.x.FirstPage() + e.cfg.EhdrSize(), n, t);
  }

  /** The section of this name has this body in the file. */
  ghost predicate ReadsAs(f: Elf, name: Name, data: seq<Byte>) {
    var k := Find(f.names, f.shdrs, name);
    k > 0 && Readable(f.file, f.shdrs[k]) && BodyOf(f.file, f.shdrs[k]) == data
  }

  /** A staged section reads back as it was staged. */
  lemma StagedReadsBack(e: Elf, rs: seq<Entry>, f: Elf, n: nat, o: Outcome, name: Name)
    requires Rewritten(e, rs, f, n, o) && o != Untouched && Has(rs, name) && name != DYNAMIC
    ensures ReadsAs(f, name, Get(rs, name))
  {
    hide LibraryRewritten, ExecRewritten, Rewrite;
    match o
    case Library(mid, t) =>
      LibraryOutcome(e, rs, f, n, mid, t);
      StagedBodyBack(e, LibraryMove(e, rs, StartOffset(e), StartPage(e)), mid, f, StartPage(e), n, t, rs, name);
    case Executable(r, mid, t) =>
      ExecOutcome(e, rs, f, n, r, mid, t);
      StagedBodyBack(r.sorted, ExecMove(r.sorted, r.x), mid, f, r.x.FirstPage() + e.cfg.EhdrSize(), n, t, rs, name);
  }

  lemma StagedBodyBack(e: Elf, m: Move, mid: Elf, f: Elf, addr: nat, n: nat, t: HeaderTrace, rs: seq<Entry>, name: Name)
    requires RewriteOf(e, m, mid, f, addr, n, t, rs) && Has(rs, name) && name != DYNAMIC
    ensures ReadsAs(f, name, Get(rs, name))
  {
    hide Rewrite, SectionMoved;
    assert StagedIn(m.p.rs, rs, name);
    StagedExists(e, m, mid, f, addr, n, t, name);
    SectionBodyAfter(e, m, mid, f, addr, n, t, name);
  }

  lemma StagedExists(e: Elf, m: Move, mid: Elf, f: Elf, addr: nat, n: nat, t: HeaderTrace, name: Name)
    requires Rewrite(e, m, mid, f, addr, n, t) && Has(m.p.rs, name)
    ensures Find(e.names, e.shdrs, name) > 0
  {
    assert Find(e.names, e.shdrs, m.p.rs[IndexOf(m.p.rs, name)].name) > 0;
  }

  /**
   * A file that was parsed and rewritten, either way, parses again to exactly the headers and names
   * the run ended with.
   */
  lemma RunParsesBack(e: Elf, rs: seq<Entry>, f: Elf, n: nat, o: Outcome)
    requires Rewritten(e, rs, f, n, o) && o != Untouched && SelfDescribing(e) && NamesFree(e, rs)
    requires |f.file| < 0x8000_0000
    ensures Parse(f.cfg.mipsel, f.file) == Some(f)
  {
    match o
    case Library(mid, t) => LibraryParses(e, rs, f, n, mid, t);
    case Executable(r, mid, t) => ExecParses(e, rs, f, n, r, mid, t);
  }

  /** Every segment that was congruent before a run is congruent after it. */
  lemma RunKeepsCongruence(e: Elf, rs: seq<Entry>, f: Elf, n: nat, o: Outcome)
    requires Rewritten(e, rs, f, n, o) && AllCongruent(e.cfg, e.phdrs)
    ensures AllCongruent(f.cfg, f.phdrs)
  {
    hide LibraryRewritten, ExecRewritten, AllCongruent;
    match o
    case Untouched =>
    case Library(mid, t) => LibraryCongruent(e, rs, f, n, mid, t);
    case Executable(r, mid, t) => ExecCongruent(e, rs, f, n, r, mid, t);
  }

  /** The sections that a successful layout of an executable stages resolve its dynamic table. */
  lemma ExecFitsResolves(e: Elf, rs: seq<Entry>, f: Elf, maxSize: nat, n: nat, r: ExecTrace, mid: Elf, t: HeaderTrace)
    requires ExecRewritten(e, rs, f, n, r, mid, t) && ExecFits(r.sorted, rs, maxSize, n)
    ensures StateResolves(r.sorted, r.x.rs, n)
  {
    hide StateResolves, HeadersStep, Ready, ExecLaidOut, SortStep, RoomFits, BoundaryOk, Resolvable;
  }

  lemma LibraryFitsResolves(e: Elf, rs: seq<Entry>, maxSize: nat, n: nat)
    requires LibraryFits(e, rs, maxSize, n)
    ensures StateResolves(e, rs, n)
  {
  }

  lemma RunConfig(e: Elf, rs: seq<Entry>, f: Elf, n: nat, o: Outcome)
    requires Rewritten(e, rs, f, n, o)
    ensures f.cfg == e.cfg && f.names == e.names
  {
    hide LibraryRewritten, ExecRewritten, Rewrite;
    match o
    case Untouched =>
    case Library(mid, t) =>
      LibraryIsRewrite(e, rs, f, n, mid, t);
      RewriteKeeps(e, LibraryMove(e, rs, StartOffset(e), StartPage(e)), mid, f, StartPage(e), n, t);
    case Executable(r, mid, t) =>
      ExecIsRewrite(e, rs, f, n, r, mid, t);
      ExecSameSegments(e, rs, f, n, r, mid, t);
      RewriteKeeps(r.sorted, ExecMove(r.sorted, r.x), mid, f, r.x.FirstPage() + e.cfg.EhdrSize(), n, t);
  }

  lemma ExecReadyIs(e: Elf, rs: seq<Entry>, maxSize: nat, n: nat)
    requires ExecReady(e, rs, maxSize, n)
    ensures WellFormed(e)
  {
  }
}
