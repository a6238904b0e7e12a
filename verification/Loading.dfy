/** The two layouts in memory: what they keep, and where the staged bodies and the program header table load. */
module Loading {
  import opened Bytes
  import opened Codec
  import opened ElfTypes
  import opened Rounding
  import opened Staging
  import opened Sorting
  import opened Elf
  import opened Links
  import opened Placement
  import opened Tables
  import opened Steps
  import opened Relayout
  import opened Layout
  import opened Memory
  import opened Agreement

  /** The header of a staged section records where its body has been written. */
  lemma StagedRecorded(e: Elf, m: Move, mid: Elf, f: Elf, addr: nat, n: nat, t: HeaderTrace, j: nat)
    requires Rewrite(e, m, mid, f, addr, n, t) && j < |m.p.rs|
    ensures var k := Find(f.names, f.shdrs, m.p.rs[j].name);
            k > 0 && Spot(f.shdrs[k].offset, f.shdrs[k].addr, f.shdrs[k].size) == NewSpot(e.cfg, m.p, j)
  {
    hide SectionMoved, Relaid, HeadersStep, WellFormed, DynamicStaged, NewSpot;
    SortedDistinct(m.p.rs);
    IndexUnique(m.p.rs, j);
    SectionAfter(e, m, mid, f, addr, n, t, m.p.rs[j].name);
    SectionPlace(e, m, f, m.p.rs[j].name);
  }

  /** The section's byte x in the file is what is loaded at the address its header records for it. */
  ghost predicate SectionByte(f: Elf, s: Shdr, x: nat, b: Byte) {
    s.offset + x < |f.file| && (Image(f, s.addr + x, b) <==> b == f.file[s.offset + x])
  }

  /** Byte x of the final body of a staged section is what is loaded at the matching address. */
  ghost predicate BodyLoaded(f: Elf, r: Entry, n: nat, x: nat, b: Byte)
    requires x < |r.data|
  {
    var k := Find(f.names, f.shdrs, r.name);
    && k > 0 && f.shdrs[k].size == |r.data| && SectionByte(f, f.shdrs[k], x, b)
    && (!Edits(f.cfg, r.name, n, x) ==> f.file[f.shdrs[k].offset + x] == r.data[x])
  }

  // ----- what was loaded already -----

  /** Address a loads byte k of the file, and nothing else. */
  ghost predicate LoadsFrom(e: Elf, a: int, k: int) {
    && (exists i :: 0 <= i < |e.phdrs| && LoadsAt(e.phdrs[i], a, k))
    && forall i :: 0 <= i < |e.phdrs| && Covers(e.phdrs[i], a) ==> LoadsAt(e.phdrs[i], a, k)
  }

  predicate LoadsAt(h: Phdr, a: int, k: int) {
    Covers(h, a) && InFilePart(h, a) && FileOffset(h, a) == k
  }

  lemma LoadsFromIs(e: Elf, a: int, k: int, b: Byte)
    requires LoadsFrom(e, a, k) && 0 <= k < |e.file|
    ensures Image(e, a, b) <==> b == e.file[k]
  {
    var i :| 0 <= i < |e.phdrs| && LoadsAt(e.phdrs[i], a, k);
    assert Loads(e.file, e.phdrs[i], a, e.file[k]);
  }

  /** What an address loads moves with the file. */
  lemma LoadsFromMoved(e: Elf, m: Move, mid: Elf, f: Elf, addr: nat, n: nat, t: HeaderTrace, a: int, k: int)
    requires Rewrite(e, m, mid, f, addr, n, t) && LoadsFrom(e, a, k)
    requires forall x :: 0 <= x < |m.extra| ==> !Covers(m.extra[x], a)
    ensures LoadsFrom(f, a, k + m.d)
  {
    hide Rewrite, SortedPhdrs, Relaid, WellFormed, OnlyHeaders, DynamicEdited, DynamicReady, NullStored;
    MidReady(e, m, mid, f, addr, n, t);
    RewriteRelaid(e, m, mid, f, addr, n, t);
    var i :| 0 <= i < |e.phdrs| && LoadsAt(e.phdrs[i], a, k);
    SegmentTo(e, m, mid, f, addr, t.p, t.inv, i);
    var y :| 0 <= y < |f.phdrs| && SameSegment(e.phdrs[i], f.phdrs[y], m.d);
    assert LoadsAt(f.phdrs[y], a, k + m.d);
    forall j | 0 <= j < |f.phdrs| && Covers(f.phdrs[j], a) ensures LoadsAt(f.phdrs[j], a, k + m.d) {
      SegmentFrom(e, m, mid, f, addr, t.p, t.inv, j);
      assert f.phdrs[j] !in m.extra;
      var x :| 0 <= x < |e.phdrs| && e.phdrs[x].ptype == PT_LOAD && SameSegment(e.phdrs[x], f.phdrs[j], m.d);
      assert LoadsAt(e.phdrs[x], a, k);
    }
  }

  /**
   * A section that stays, .dynamic with its edited entries included, and that its segment loaded at
   * the address its header records, is loaded there as it finally is.
   */
  lemma KeptSectionLoaded(e: Elf, m: Move, mid: Elf, f: Elf, addr: nat, n: nat, t: HeaderTrace, name: Name, x: nat,
                          b: Byte)
    requires Rewrite(e, m, mid, f, addr, n, t) && !Has(m.p.rs, name) && Find(e.names, e.shdrs, name) > 0
    requires var s := e.shdrs[Find(e.names, e.shdrs, name)];
             && s.stype != SHT_NOBITS && x < s.size && LoadsFrom(e, s.addr + x, s.offset + x)
             && forall y :: 0 <= y < |m.extra| ==> !Covers(m.extra[y], s.addr + x)
    ensures var k := Find(f.names, f.shdrs, name);
            k > 0 && SectionByte(f, f.shdrs[k], x, b)
  {
    hide Rewrite, SectionMoved, WellFormed, LoadsFrom, Image, SortedShdrs, PhdrsStored, ShdrsStored;
    var s := e.shdrs[Find(e.names, e.shdrs, name)];
    SectionAfter(e, m, mid, f, addr, n, t, name);
    SectionPlace(e, m, f, name);
    var k := Find(f.names, f.shdrs, name);
    LoadsFromMoved(e, m, mid, f, addr, n, t, s.addr + x, s.offset + x);
    RewriteKeeps(e, m, mid, f, addr, n, t);
    assert InBody(f.shdrs[k], f.shdrs[k].offset + x);
    BodyInFile(f, k, f.shdrs[k].offset + x);
    LoadsFromIs(f, s.addr + x, f.shdrs[k].offset + x, b);
  }

  // ----- libraries -----

  ghost function StartOffset(e: Elf): nat { Padded(|e.file|, e.cfg.PageSize()) }

  ghost function StartPage(e: Elf): nat { LastPage(e.cfg, e.phdrs, |e.phdrs|) }

  /** The new segment's address range. */
  ghost predicate InNewSegment(e: Elf, rs: seq<Entry>, a: int) {
    StartPage(e) <= a < StartPage(e) + LibrarySpace(e, rs)
  }

  /** No segment of the original reaches into the new segment. */
  lemma NewSegmentApart(e: Elf, rs: seq<Entry>, i: nat, a: int)
    requires AddressesSmall(e.cfg, e.phdrs) && i < |e.phdrs| && Covers(e.phdrs[i], a)
    ensures a < StartPage(e) && !InNewSegment(e, rs, a)
  {
    LastPageAbove(e.cfg, e.phdrs, |e.phdrs|);
  }

  /** What is loaded at a comes from the file, and from no moved body, ELF or section header, or dynamic table. */
  ghost predicate FromUnmovedFile(e: Elf, rs: seq<Entry>, a: int) {
    && |e.file| >= e.cfg.EhdrSize()
    && forall i :: 0 <= i < |e.phdrs| && Covers(e.phdrs[i], a) && InFilePart(e.phdrs[i], a) ==>
      var k := FileOffset(e.phdrs[i], a);
      e.cfg.EhdrSize() <= k < |e.file| && !InStagedBody(e, rs, k) && !(Hdr(e).shoff <= k < ShEnd(e)) && !InDynamic(e, k)
  }

  /**
   * Libraries: outside the new segment, which no old one reaches into, every address whose byte was
   * not rewritten loads exactly what it did.
   */
  lemma LibraryImagePreserved(e: Elf, rs: seq<Entry>, f: Elf, n: nat, mid: Elf, t: HeaderTrace, a: int, b: Byte)
    requires LibraryRewritten(e, rs, f, n, mid, t) && FromUnmovedFile(e, rs, a) && !InNewSegment(e, rs, a)
    ensures Image(e, a, b) <==> Image(f, a, b)
  {
    hide Rewrite, Image, LibraryRewritten;
    LibraryIsRewrite(e, rs, f, n, mid, t);
    LibraryUndisturbed(e, rs, a);
    ImagePreserved(e, LibraryMove(e, rs, StartOffset(e), StartPage(e)), mid, f, StartPage(e), n, t, a, b);
  }

  lemma LibraryUndisturbed(e: Elf, rs: seq<Entry>, a: int)
    requires FromUnmovedFile(e, rs, a) && !InNewSegment(e, rs, a)
    ensures Undisturbed(e, LibraryMove(e, rs, StartOffset(e), StartPage(e)), a)
  {
  }

  /** In the new segment exactly the bytes of the new area are loaded, in order. */
  lemma LibraryAreaExact(e: Elf, rs: seq<Entry>, f: Elf, n: nat, mid: Elf, t: HeaderTrace, x: nat, b: Byte)
    requires LibraryRewritten(e, rs, f, n, mid, t) && AddressesSmall(e.cfg, e.phdrs) && x < LibrarySpace(e, rs)
    ensures StartOffset(e) + x < |f.file|
    ensures Image(f, StartPage(e) + x, b) <==> b == f.file[StartOffset(e) + x]
  {
    hide Rewrite, SortedPhdrs, Relaid, WellFormed, DynamicEdited, NullStored, DynamicReady, LibraryRewritten,
         OnlyHeaders;
    LibraryAreaLoaded(e, rs, f, n, mid, t, StartOffset(e) + x);
    var m := LibraryMove(e, rs, StartOffset(e), StartPage(e));
    LibraryIsRewrite(e, rs, f, n, mid, t);
    MidReady(e, m, mid, f, StartPage(e), n, t);
    RewriteRelaid(e, m, mid, f, StartPage(e), n, t);
    var a := StartPage(e) + x;
    forall j | 0 <= j < |f.phdrs| && Loads(f.file, f.phdrs[j], a, b) ensures b == f.file[StartOffset(e) + x] {
      SegmentFrom(e, m, mid, f, StartPage(e), t.p, t.inv, j);
      OnlyNewCovers(e, rs, f.phdrs[j], a);
    }
  }

  lemma OnlyNewCovers(e: Elf, rs: seq<Entry>, g: Phdr, a: int)
    requires AddressesSmall(e.cfg, e.phdrs) && InNewSegment(e, rs, a) && Covers(g, a)
    requires FromSegment(e, LibraryMove(e, rs, StartOffset(e), StartPage(e)), g)
    ensures g == LoadSegment(e.cfg, StartOffset(e), StartPage(e), LibrarySpace(e, rs))
  {
    var m := LibraryMove(e, rs, StartOffset(e), StartPage(e));
    if g !in m.extra {
      var i :| 0 <= i < |e.phdrs| && e.phdrs[i].ptype == PT_LOAD && SameSegment(e.phdrs[i], g, m.d);
      NewSegmentApart(e, rs, i, a);
    }
  }

  /**
   * At the address its header records, exactly the final body of a staged section is loaded, which
   * but for the edited dynamic entries is the staged one.
   */
  lemma LibraryStagedLoaded(e: Elf, rs: seq<Entry>, f: Elf, n: nat, mid: Elf, t: HeaderTrace, j: nat, x: nat, b: Byte)
    requires LibraryRewritten(e, rs, f, n, mid, t) && AddressesSmall(e.cfg, e.phdrs)
    requires j < |rs| && x < |rs[j].data|
    ensures BodyLoaded(f, rs[j], n, x, b)
  {
    hide Rewrite, LibraryRewritten, Image;
    var m := LibraryMove(e, rs, StartOffset(e), StartPage(e));
    LibraryIsRewrite(e, rs, f, n, mid, t);
    RewriteCfg(e, m, mid, f, StartPage(e), n, t);
    StagedRecorded(e, m, mid, f, StartPage(e), n, t, j);
    if !Edits(e.cfg, rs[j].name, n, x) {
      StagedByte(e, m, mid, f, StartPage(e), n, t, j, x);
    }
    StagedSmall(e, m, mid, f, StartPage(e), n, t);
    SpaceApart(e.cfg, rs, j, |rs|);
    LibraryAreaExact(e, rs, f, n, mid, t, NewSpot(e.cfg, m.p, j).offset + x - StartOffset(e), b);
  }

  lemma StagedSmall(e: Elf, m: Move, mid: Elf, f: Elf, addr: nat, n: nat, t: HeaderTrace)
    requires Rewrite(e, m, mid, f, addr, n, t)
    ensures SmallData(m.p.rs)
  {
  }

  /** The relocated program header table is what is loaded at the address PT_PHDR records. */
  lemma LibraryTableLoaded(e: Elf, rs: seq<Entry>, f: Elf, n: nat, mid: Elf, t: HeaderTrace, x: nat, b: Byte)
    requires LibraryRewritten(e, rs, f, n, mid, t) && AddressesSmall(e.cfg, e.phdrs)
    requires x < TableSize(|f.phdrs|, f.cfg.PhdrSize())
    ensures |f.file| >= f.cfg.EhdrSize() && Hdr(f).phoff == StartOffset(e) && Hdr(f).phoff + x < |f.file|
    ensures Image(f, StartPage(e) + x, b) <==> b == f.file[Hdr(f).phoff + x]
  {
    hide Rewrite, Relaid, HeadersStep, WellFormed, NullStored, DynamicReady, SortedShdrs, PhdrsStored, ShdrsStored,
         SortedPhdrs, OnlyHeaders, DynamicEdited, Ready;
    var m := LibraryMove(e, rs, StartOffset(e), StartPage(e));
    LibraryIsRewrite(e, rs, f, n, mid, t);
    RewriteKeeps(e, m, mid, f, StartPage(e), n, t);
    RewriteRelaid(e, m, mid, f, StartPage(e), n, t);
    MidReady(e, m, mid, f, StartPage(e), n, t);
    CountsAre(f);
    TableCount(e, m, mid, f, StartPage(e), t.p, t.inv);
    LibraryAreaExact(e, rs, f, n, mid, t, x, b);
  }

  lemma TableCount(e: Elf, m: Move, mid: Elf, f: Elf, addr: nat, p: seq<nat>, inv: seq<nat>)
    requires Relaid(e, mid, m)
    requires SortedPhdrs(WithPhdrEntry(mid.cfg, mid.phdrs, Hdr(mid).phoff, addr), f.phdrs, p, inv)
    ensures |f.phdrs| == |e.phdrs| + |m.extra|
  {
  }

  // ----- executables -----

  /** The same for executables, shifted or not and across the two segments. */
  lemma ExecStagedLoaded(e: Elf, rs: seq<Entry>, f: Elf, n: nat, r: ExecTrace, mid: Elf, t: HeaderTrace,
                         h: Phdr, j: nat, x: nat, b: Byte)
    requires ExecRewritten(e, rs, f, n, r, mid, t) && MapsFront(e, r.x, h) && SegmentsApart(e, r.x)
    requires j < |r.x.rs| && x < |r.x.rs[j].data|
    ensures BodyLoaded(f, r.x.rs[j], n, x, b)
  {
    hide Rewrite, ExecRewritten, Image, MapsFront, SegmentsApart;
    ExecIsRewrite(e, rs, f, n, r, mid, t);
    var m, addr := ExecMove(r.sorted, r.x), r.x.FirstPage() + e.cfg.EhdrSize();
    FrontHolds(e, rs, f, n, r, mid, t);
    RewriteCfg(r.sorted, m, mid, f, addr, n, t);
    StagedRecorded(r.sorted, m, mid, f, addr, n, t, j);
    if !Edits(e.cfg, r.x.rs[j].name, n, x) {
      StagedByte(r.sorted, m, mid, f, addr, n, t, j, x);
    }
    StagedSmall(r.sorted, m, mid, f, addr, n, t);
    SpaceApart(r.sorted.cfg, r.x.rs, j, |r.x.rs|);
    ExecFrontExact(e, rs, f, n, r, mid, t, h, NewSpot(r.sorted.cfg, m.p, j).offset + x, b);
  }

  lemma FrontHolds(e: Elf, rs: seq<Entry>, f: Elf, n: nat, r: ExecTrace, mid: Elf, t: HeaderTrace)
    requires ExecRewritten(e, rs, f, n, r, mid, t)
    ensures ExecStart(r.sorted, r.x.shift) + Space(r.sorted.cfg, r.x.rs, |r.x.rs|) <= r.x.startOffset + r.x.shift
    ensures r.sorted.cfg == e.cfg && r.x.FirstPage() >= 0
  {
    hide Relaid, HeadersStep, Ready, SortStep, Scanned, Resolvable, ShiftDecided;
    SortCfg(e, r.sorted, r.p, r.inv);
  }

  /** The program header table is what is loaded at the address PT_PHDR records. */
  lemma ExecTableLoaded(e: Elf, rs: seq<Entry>, f: Elf, n: nat, r: ExecTrace, mid: Elf, t: HeaderTrace, h: Phdr,
                        x: nat, b: Byte)
    requires ExecRewritten(e, rs, f, n, r, mid, t) && MapsFront(e, r.x, h) && SegmentsApart(e, r.x)
    requires x < TableSize(|f.phdrs|, f.cfg.PhdrSize())
    ensures |f.file| >= f.cfg.EhdrSize() && Hdr(f).phoff + x < |f.file| && r.x.FirstPage() >= 0
    ensures Image(f, (r.x.FirstPage() + e.cfg.EhdrSize()) + x, b) <==> b == f.file[Hdr(f).phoff + x]
  {
    hide Rewrite, Image, MapsFront, SegmentsApart, Relaid, HeadersStep, WellFormed, NullStored, DynamicReady,
         SortedShdrs, PhdrsStored, ShdrsStored, SortedPhdrs, OnlyHeaders, DynamicEdited, Ready, SortStep, Scanned,
         Resolvable, ExecRoom, ShiftDecided;
    ExecIsRewrite(e, rs, f, n, r, mid, t);
    var m, addr := ExecMove(r.sorted, r.x), r.x.FirstPage() + e.cfg.EhdrSize();
    RewriteKeeps(r.sorted, m, mid, f, addr, n, t);
    RewriteRelaid(r.sorted, m, mid, f, addr, n, t);
    MidReady(r.sorted, m, mid, f, addr, n, t);
    CountsAre(f);
    TableCount(r.sorted, m, mid, f, addr, t.p, t.inv);
    FrontHolds(e, rs, f, n, r, mid, t);
    ExecFrontExact(e, rs, f, n, r, mid, t, h, e.cfg.EhdrSize() + x, b);
  }
}
