/** What a rewritten file loads into memory, compared with what the original file loads. */
module Memory {
  import opened Bytes
  import opened Codec
  import opened ElfTypes
  import opened Rounding
  import opened Staging
  import opened Sorting
  import opened Elf
  import opened Links
  import opened Placement
  import opened Tables
  import opened Steps
  import opened Relayout
  import opened Layout

  /** A rewrite of either kind: sections moved to `mid`, then the headers rewritten to `f`. */
  ghost predicate Rewrite(e: Elf, m: Move, mid: Elf, f: Elf, addr: nat, n: nat, t: HeaderTrace) {
    && Ready(e, m.p.rs, n) && Relaid(e, mid, m) && addr < e.cfg.Limit()
    && HeadersStep(mid, f, addr, n, t)
  }

  lemma LibraryIsRewrite(e: Elf, rs: seq<Entry>, f: Elf, n: nat, mid: Elf, t: HeaderTrace)
    requires LibraryRewritten(e, rs, f, n, mid, t)
    ensures Rewrite(e, LibraryMove(e, rs, Padded(|e.file|, e.cfg.PageSize()), LastPage(e.cfg, e.phdrs, |e.phdrs|)),
                    mid, f, LastPage(e.cfg, e.phdrs, |e.phdrs|), n, t)
  {
  }

  lemma ExecIsRewrite(e: Elf, rs: seq<Entry>, f: Elf, n: nat, r: ExecTrace, mid: Elf, t: HeaderTrace)
    requires ExecRewritten(e, rs, f, n, r, mid, t)
    ensures r.x.FirstPage() >= 0
    ensures Rewrite(r.sorted, ExecMove(r.sorted, r.x), mid, f, r.x.FirstPage() + e.cfg.EhdrSize(), n, t)
  {
    hide HeadersStep, Relaid, Ready, ExecRoom, ShiftDecided, Scanned, SortStep, Resolvable;
    SortCfg(e, r.sorted, r.p, r.inv);
    PhdrAddressFits(r.sorted, r.x, mid);
  }

  lemma SortCfg(e: Elf, s: Elf, p: seq<nat>, inv: seq<nat>)
    requires SortStep(e, s, p, inv)
    ensures s.cfg == e.cfg && s.names == e.names
  {
  }

  lemma MidReady(e: Elf, m: Move, mid: Elf, f: Elf, addr: nat, n: nat, t: HeaderTrace)
    requires Rewrite(e, m, mid, f, addr, n, t)
    ensures WellFormed(e) && WellFormed(mid) && NullStored(mid) && DynamicReady(mid, n)
    ensures OnlyHeaders(mid, f, n) && DynamicEdited(mid, f, n)
    ensures SortedPhdrs(WithPhdrEntry(mid.cfg, mid.phdrs, Hdr(mid).phoff, addr), f.phdrs, t.p, t.inv)
  {
    hide HeadersStep, Relaid, DynamicStaged;
    MidCfg(e, m, mid);
    RelaidReady(e, mid, m, n);
    HeadersKeep(mid, f, addr, n, t);
    HeadersBytes(mid, f, addr, n, t);
  }

  /** The rewritten file is well formed, and both header tables in it are the ones in memory. */
  lemma RewriteKeeps(e: Elf, m: Move, mid: Elf, f: Elf, addr: nat, n: nat, t: HeaderTrace)
    requires Rewrite(e, m, mid, f, addr, n, t)
    ensures WellFormed(f) && PhdrsStored(f) && ShdrsStored(f) && f.cfg == e.cfg && f.names == e.names
    ensures WellFormed(mid) && SortedShdrs(mid.shdrs, f.shdrs, t.sp, t.sinv)
    ensures Hdr(f) == Hdr(mid).(shstrndx := t.sp[Hdr(mid).shstrndx])
  {
    hide Relaid, DynamicStaged;
    MidCfg(e, m, mid);
    RelaidReady(e, mid, m, n);
    HeadersKeep(mid, f, addr, n, t);
    StepCfg(mid, f, addr, n, t);
  }

  lemma StepCfg(mid: Elf, f: Elf, addr: nat, n: nat, t: HeaderTrace)
    requires HeadersStep(mid, f, addr, n, t)
    ensures f.cfg == mid.cfg && f.names == mid.names
  {
  }

  lemma RewriteCfg(e: Elf, m: Move, mid: Elf, f: Elf, addr: nat, n: nat, t: HeaderTrace)
    requires Rewrite(e, m, mid, f, addr, n, t)
    ensures f.cfg == e.cfg && f.names == e.names
  {
    hide HeadersStep, Ready;
    StepCfg(mid, f, addr, n, t);
  }

  lemma MidCfg(e: Elf, m: Move, mid: Elf)
    requires Relaid(e, mid, m)
    ensures mid.cfg == e.cfg && mid.names == e.names && |mid.file| >= mid.cfg.EhdrSize()
  {
  }

  // ----- bytes of the file -----

  /** An old byte that survives: behind the cut, and in no staged body, header table or dynamic table. */
  ghost predicate Kept(e: Elf, m: Move, k: int)
    requires |e.file| >= e.cfg.EhdrSize()
  {
    && m.cut <= k < |e.file| && e.cfg.EhdrSize() <= k && !InStagedBody(e, m.p.rs, k)
    && !(Hdr(e).shoff <= k < ShEnd(e)) && !InDynamic(e, k)
  }

  /** Where the bytes of the dynamic table in the relaid state come from. */
  lemma DynamicSource(e: Elf, mid: Elf, m: Move, n: nat, k: int)
    requires WellFormed(e) && Relaid(e, mid, m) && DynamicReady(mid, n) && InDynEntries(mid, n, k)
    ensures Has(m.p.rs, DYNAMIC) ==> InNew(e.cfg, m.p.rs, m.p.cur, IndexOf(m.p.rs, DYNAMIC), k)
    ensures !Has(m.p.rs, DYNAMIC) ==> InDynamic(e, k - m.d) && k - m.d < |e.file|
  {
    hide WellFormed, Relaid, DynamicReady, InNew, InBody;
    var d := Find(mid.names, mid.shdrs, DYNAMIC);
    DynamicTableInBody(mid, n);
    RelaidBody(e, mid, m, d, k);
    RelaidNames(e, mid, m, DYNAMIC);
  }

  /** No byte of the dynamic table in the relaid state comes from a kept byte. */
  lemma KeptNotDynamic(e: Elf, m: Move, mid: Elf, n: nat, k: int)
    requires WellFormed(e) && Relaid(e, mid, m) && DynamicReady(mid, n)
    requires |e.file| >= e.cfg.EhdrSize() && Kept(e, m, k)
    ensures !InDynEntries(mid, n, k + m.d)
  {
    hide WellFormed, Relaid, DynamicReady, InDynEntries, InDynamic, InNew, Space;
    if InDynEntries(mid, n, k + m.d) {
      DynamicSource(e, mid, m, n, k + m.d);
      AreaFacts(e, mid, m);
      var j := IndexOf(m.p.rs, DYNAMIC);
      if j < |m.p.rs| {
        NewBodiesApart(e.cfg, m.p.rs, m.p.cur, j, j, k + m.d);
      }
    }
  }

  lemma KeptNotHeaders(e: Elf, m: Move, mid: Elf, k: int)
    requires WellFormed(e) && Relaid(e, mid, m) && |e.file| >= e.cfg.EhdrSize() && Kept(e, m, k)
    ensures !InHeaders(mid, k + m.d)
  {
    assert ShEnd(mid) == ShEnd(e) + m.d;
  }

  /** A kept byte is found d further on in the rewritten file. */
  lemma KeptByte(e: Elf, m: Move, mid: Elf, f: Elf, addr: nat, n: nat, t: HeaderTrace, k: int)
    requires Rewrite(e, m, mid, f, addr, n, t) && |e.file| >= e.cfg.EhdrSize() && Kept(e, m, k)
    ensures k + m.d < |f.file| && f.file[k + m.d] == e.file[k]
  {
    MidReady(e, m, mid, f, addr, n, t);
    KeptNotHeaders(e, m, mid, k);
    KeptNotDynamic(e, m, mid, n, k);
    KeptCarried(e, m, mid, k);
    OnlyHeadersByte(mid, f, n, k + m.d);
  }

  lemma KeptCarried(e: Elf, m: Move, mid: Elf, k: int)
    requires Relaid(e, mid, m) && |e.file| >= e.cfg.EhdrSize() && Kept(e, m, k)
    ensures k + m.d < |mid.file| && mid.file[k + m.d] == e.file[k]
  {
  }

  lemma OnlyHeadersByte(mid: Elf, f: Elf, n: nat, k: int)
    requires |mid.file| >= mid.cfg.EhdrSize() && OnlyHeaders(mid, f, n)
    requires 0 <= k < |mid.file| && !InHeaders(mid, k) && !InDynEntries(mid, n, k)
    ensures |f.file| == |mid.file| && f.file[k] == mid.file[k]
  {
  }

  /** The entries of the dynamic table before DT_NULL are the only bytes of a body that are edited. */
  ghost predicate Edits(c: Config, name: Name, n: nat, x: nat) {
    name == DYNAMIC && x < TableSize(n, c.DynSize())
  }

  /** A staged body, but for what is edited, is in the rewritten file at its new offset. */
  lemma StagedByte(e: Elf, m: Move, mid: Elf, f: Elf, addr: nat, n: nat, t: HeaderTrace, j: nat, x: nat)
    requires Rewrite(e, m, mid, f, addr, n, t)
    requires j < |m.p.rs| && !Edits(e.cfg, m.p.rs[j].name, n, x) && x < |m.p.rs[j].data|
    ensures var k := NewSpot(e.cfg, m.p, j).offset + x;
            k < |f.file| && f.file[k] == m.p.rs[j].data[x]
  {
    MidReady(e, m, mid, f, addr, n, t);
    var k := NewSpot(e.cfg, m.p, j).offset + x;
    StagedPlace(e, m, mid, n, j, x);
    OnlyHeadersByte(mid, f, n, k);
  }

  lemma StagedPlace(e: Elf, m: Move, mid: Elf, n: nat, j: nat, x: nat)
    requires WellFormed(e) && Relaid(e, mid, m) && WellFormed(mid) && DynamicReady(mid, n)
    requires j < |m.p.rs| && !Edits(e.cfg, m.p.rs[j].name, n, x) && x < |m.p.rs[j].data|
    ensures var k := NewSpot(e.cfg, m.p, j).offset + x;
            k < |mid.file| && mid.file[k] == m.p.rs[j].data[x]
            && !InHeaders(mid, k) && !InDynEntries(mid, n, k)
  {
    hide WellFormed, DynamicReady, InDynEntries, InHeaders, InNew, Relaid;
    var k := NewSpot(e.cfg, m.p, j).offset + x;
    StagedInPlace(e, m, mid, j, x);
    if m.p.rs[j].name == DYNAMIC {
      StagedBehindEntries(e, m, mid, n, j, x);
    } else {
      StagedNotDynamic(e, m, mid, n, j, k);
    }
    StagedNotHeaders(e, m, mid, j, k);
  }

  lemma StagedBehindEntries(e: Elf, m: Move, mid: Elf, n: nat, j: nat, x: nat)
    requires Relaid(e, mid, m) && j < |m.p.rs| && m.p.rs[j].name == DYNAMIC && TableSize(n, e.cfg.DynSize()) <= x
    ensures !InDynEntries(mid, n, NewSpot(e.cfg, m.p, j).offset + x)
  {
    hide PhdrsRelaid, HeadersFit, Laid, AreaClear, Carried;
    IndexUnique(m.p.rs, j);
    RelaidNames(e, mid, m, DYNAMIC);
    var d := Find(mid.names, mid.shdrs, DYNAMIC);
    if d > 0 {
      RelaidAt(e, mid, m, d);
    }
  }

  /** The rest of a dynamic table that is not staged moves with the file. */
  lemma DynamicRest(e: Elf, m: Move, mid: Elf, f: Elf, addr: nat, n: nat, t: HeaderTrace, x: nat)
    requires Rewrite(e, m, mid, f, addr, n, t) && !Has(m.p.rs, DYNAMIC) && Find(e.names, e.shdrs, DYNAMIC) > 0
    requires var s := e.shdrs[Find(e.names, e.shdrs, DYNAMIC)]; TableSize(n, e.cfg.DynSize()) <= x < s.size
    ensures var k := DynamicPlace(e) + x;
            k < |e.file| && k + m.d < |f.file| && f.file[k + m.d] == e.file[k]
  {
    hide Rewrite, Relaid, WellFormed, OnlyHeaders, DynamicEdited, SortedPhdrs, NullStored, InHeaders, InDynEntries,
         InStagedBody, RelaidShdr;
    MidReady(e, m, mid, f, addr, n, t);
    RewriteRelaid(e, m, mid, f, addr, n, t);
    RewriteDynamic(e, m, mid, f, addr, n, t);
    var d, k := Find(e.names, e.shdrs, DYNAMIC), DynamicPlace(e) + x;
    RelaidNames(e, mid, m, DYNAMIC);
    RelaidAt(e, mid, m, d);
    RelaidKept(e, m, d);
    assert InBody(mid.shdrs[d], k + m.d) && InBody(e.shdrs[d], k);
    BodyInFile(e, d, k);
    OwnBodyKept(e, m.p.rs, d, k, k + 1);
    DynamicIsKept(e, mid, m, k);
    CarriedByte(e, m, mid, k);
    BodyApart(mid, d, k + m.d);
    assert !InDynEntries(mid, n, k + m.d) by { BehindEntries(mid, n, x); }
    OnlyHeadersByte(mid, f, n, k + m.d);
  }

  lemma BehindEntries(mid: Elf, n: nat, x: nat)
    requires TableSize(n, mid.cfg.DynSize()) <= x
    ensures !InDynEntries(mid, n, DynamicPlace(mid) + x)
  {
  }

  lemma RewriteDynamic(e: Elf, m: Move, mid: Elf, f: Elf, addr: nat, n: nat, t: HeaderTrace)
    requires Rewrite(e, m, mid, f, addr, n, t) && !Has(m.p.rs, DYNAMIC) && Find(e.names, e.shdrs, DYNAMIC) > 0
    ensures var s := e.shdrs[Find(e.names, e.shdrs, DYNAMIC)];
            s.stype != SHT_NOBITS && TableSize(n, e.cfg.DynSize()) < s.size
  {
    hide HeadersStep, Relaid, WellFormed;
    assert TableSize(n + 1, e.cfg.DynSize()) == TableSize(n, e.cfg.DynSize()) + e.cfg.DynSize();
  }

  lemma CarriedByte(e: Elf, m: Move, mid: Elf, k: nat)
    requires Relaid(e, mid, m) && m.cut <= k < |e.file| && !InStagedBody(e, m.p.rs, k)
    ensures k + m.d < |mid.file| && mid.file[k + m.d] == e.file[k]
  {
  }

  lemma BodyApart(e: Elf, i: nat, k: int)
    requires WellFormed(e) && i < |e.shdrs| && InBody(e.shdrs[i], k)
    ensures |e.file| >= e.cfg.EhdrSize() && !InHeaders(e, k)
  {
  }

  lemma StagedInPlace(e: Elf, m: Move, mid: Elf, j: nat, x: nat)
    requires Relaid(e, mid, m) && j < |m.p.rs| && x < |m.p.rs[j].data|
    ensures var k := NewSpot(e.cfg, m.p, j).offset + x;
            k < |mid.file| && mid.file[k] == m.p.rs[j].data[x] && InNew(e.cfg, m.p.rs, m.p.cur, j, k)
    ensures |mid.file| >= mid.cfg.EhdrSize()
  {
    var off := NewSpot(e.cfg, m.p, j).offset;
    assert InPlace(e.cfg, m.p.rs, m.p.cur, j, mid.file);
    assert mid.file[off..off + |m.p.rs[j].data|][x] == mid.file[off + x];
  }

  lemma StagedNotHeaders(e: Elf, m: Move, mid: Elf, j: nat, k: int)
    requires WellFormed(e) && Relaid(e, mid, m) && j < |m.p.rs| && InNew(e.cfg, m.p.rs, m.p.cur, j, k)
    requires |mid.file| >= mid.cfg.EhdrSize()
    ensures !InHeaders(mid, k)
  {
    NewBodiesApart(e.cfg, m.p.rs, m.p.cur, j, j, k);
    assert ShEnd(mid) == ShEnd(e) + m.d;
  }

  lemma StagedNotDynamic(e: Elf, m: Move, mid: Elf, n: nat, j: nat, k: int)
    requires WellFormed(e) && Relaid(e, mid, m) && DynamicReady(mid, n)
    requires j < |m.p.rs| && m.p.rs[j].name != DYNAMIC && InNew(e.cfg, m.p.rs, m.p.cur, j, k)
    ensures !InDynEntries(mid, n, k)
  {
    hide WellFormed, Relaid, DynamicReady, InDynEntries, InDynamic, InNew, Space;
    if InDynEntries(mid, n, k) {
      DynamicSource(e, mid, m, n, k);
      AreaFacts(e, mid, m);
      NewBodiesApart(e.cfg, m.p.rs, m.p.cur, j, j, k);
      if Has(m.p.rs, DYNAMIC) {
        NewBodiesApart(e.cfg, m.p.rs, m.p.cur, j, IndexOf(m.p.rs, DYNAMIC), k);
      } else {
        DynamicIsKept(e, mid, m, k - m.d);
      }
    }
  }

  /** A dynamic table that is not staged lies behind the cut. */
  lemma DynamicIsKept(e: Elf, mid: Elf, m: Move, k: int)
    requires Relaid(e, mid, m) && InDynamic(e, k) && !Has(m.p.rs, DYNAMIC)
    ensures m.cut <= k
  {
    var d := Find(e.names, e.shdrs, DYNAMIC);
    assert !IsStaged(e, m.p.rs, d) && InBody(e.shdrs[d], k);
  }

  // ----- memory -----

  /** Segment h of this file puts byte b at address a. */
  ghost predicate Loads(file: seq<Byte>, h: Phdr, a: int, b: Byte) {
    && Covers(h, a)
    && if InFilePart(h, a) then FileOffset(h, a) < |file| && file[FileOffset(h, a)] == b else b == '\0'
  }

  predicate Covers(h: Phdr, a: int) {
    h.ptype == PT_LOAD && h.vaddr <= a < h.vaddr + h.memsz
  }

  predicate InFilePart(h: Phdr, a: int) {
    h.vaddr <= a < h.vaddr + h.filesz
  }

  function FileOffset(h: Phdr, a: int): (k: nat)
    requires h.vaddr <= a
  {
    h.offset + (a - h.vaddr)
  }

  /** Loading the file puts byte b at address a. */
  ghost predicate Image(e: Elf, a: int, b: Byte) {
    exists i :: 0 <= i < |e.phdrs| && Loads(e.file, e.phdrs[i], a, b)
  }

  /** Everything that is loaded at a comes from kept bytes, and no added segment covers a. */
  ghost predicate Undisturbed(e: Elf, m: Move, a: int)
    requires |e.file| >= e.cfg.EhdrSize()
  {
    && (forall i :: 0 <= i < |e.phdrs| && Covers(e.phdrs[i], a) && InFilePart(e.phdrs[i], a)
          ==> Kept(e, m, FileOffset(e.phdrs[i], a)))
    && (forall i :: 0 <= i < |m.extra| ==> !Covers(m.extra[i], a))
  }

  /** A loadable segment keeps its addresses and sizes and moves with the file. */
  ghost predicate SameSegment(h: Phdr, g: Phdr, d: nat) {
    && g.ptype == h.ptype && g.vaddr == h.vaddr && g.filesz == h.filesz && g.memsz == h.memsz
    && g.offset == h.offset + d
  }

  lemma LoadSegmentKept(c: Config, m: Move, h: Phdr)
    requires h.ptype == PT_LOAD
    ensures SameSegment(h, RelaidPhdr(c, m, h), m.d)
  {
  }

  /** Some entry of the table is this loadable segment, moved by d. */
  ghost predicate HasSegment(phdrs: seq<Phdr>, h: Phdr, d: nat) {
    exists j :: 0 <= j < |phdrs| && SameSegment(h, phdrs[j], d)
  }

  /** The entry is a loadable segment of the original, moved, or one that was added. */
  ghost predicate FromSegment(e: Elf, m: Move, g: Phdr) {
    || (exists i :: 0 <= i < |e.phdrs| && e.phdrs[i].ptype == PT_LOAD && SameSegment(e.phdrs[i], g, m.d))
    || g in m.extra
  }

  /** Every loadable segment is found again in the rewritten table. */
  lemma SegmentTo(e: Elf, m: Move, mid: Elf, f: Elf, addr: nat, p: seq<nat>, inv: seq<nat>, i: nat)
    requires Relaid(e, mid, m) && i < |e.phdrs| && e.phdrs[i].ptype == PT_LOAD
    requires SortedPhdrs(WithPhdrEntry(mid.cfg, mid.phdrs, Hdr(mid).phoff, addr), f.phdrs, p, inv)
    ensures HasSegment(f.phdrs, e.phdrs[i], m.d)
  {
    var w := WithPhdrEntry(mid.cfg, mid.phdrs, Hdr(mid).phoff, addr);
    LoadSegmentKept(e.cfg, m, e.phdrs[i]);
    assert mid.phdrs[i] == RelaidPhdr(e.cfg, m, e.phdrs[i]);
    assert f.phdrs[p[i]] == w[i];
  }

  /** Every loadable segment of the rewritten table was one before, or was added. */
  lemma SegmentFrom(e: Elf, m: Move, mid: Elf, f: Elf, addr: nat, p: seq<nat>, inv: seq<nat>, j: nat)
    requires Relaid(e, mid, m) && j < |f.phdrs| && f.phdrs[j].ptype == PT_LOAD
    requires SortedPhdrs(WithPhdrEntry(mid.cfg, mid.phdrs, Hdr(mid).phoff, addr), f.phdrs, p, inv)
    ensures FromSegment(e, m, f.phdrs[j])
  {
    var w := WithPhdrEntry(mid.cfg, mid.phdrs, Hdr(mid).phoff, addr);
    SegmentBack(e, m, mid, w, inv[j]);
    assert f.phdrs[j] == w[inv[j]];
  }

  lemma SegmentBack(e: Elf, m: Move, mid: Elf, w: seq<Phdr>, i: nat)
    requires PhdrsRelaid(e, mid.phdrs, m) && mid.cfg == e.cfg && |w| == |mid.phdrs| && i < |w| && w[i].ptype == PT_LOAD
    requires mid.phdrs[i].ptype == PT_LOAD ==> w[i] == mid.phdrs[i]
    requires w[i].ptype == mid.phdrs[i].ptype
    ensures if i < |e.phdrs| then e.phdrs[i].ptype == PT_LOAD && SameSegment(e.phdrs[i], w[i], m.d)
            else i - |e.phdrs| < |m.extra| && w[i] == m.extra[i - |e.phdrs|]
  {
    if i < |e.phdrs| {
      assert mid.phdrs[i] == RelaidPhdr(e.cfg, m, e.phdrs[i]);
      assert e.phdrs[i].ptype == PT_LOAD;
      LoadSegmentKept(e.cfg, m, e.phdrs[i]);
    } else {
      assert mid.phdrs[|e.phdrs|..][i - |e.phdrs|] == mid.phdrs[i];
    }
  }

  /**
   * Image preservation, for executables (shifted or not) and libraries alike: at every undisturbed
   * address the rewritten file loads exactly the bytes that the original loads.
   */
  lemma ImagePreserved(e: Elf, m: Move, mid: Elf, f: Elf, addr: nat, n: nat, t: HeaderTrace, a: int, b: Byte)
    requires Rewrite(e, m, mid, f, addr, n, t) && |e.file| >= e.cfg.EhdrSize() && Undisturbed(e, m, a)
    ensures Image(e, a, b) <==> Image(f, a, b)
  {
    if Image(e, a, b) {
      ImageForward(e, m, mid, f, addr, n, t, a, b);
    }
    if Image(f, a, b) {
      ImageBackward(e, m, mid, f, addr, n, t, a, b);
    }
  }

  lemma ImageForward(e: Elf, m: Move, mid: Elf, f: Elf, addr: nat, n: nat, t: HeaderTrace, a: int, b: Byte)
    requires Rewrite(e, m, mid, f, addr, n, t) && |e.file| >= e.cfg.EhdrSize() && Undisturbed(e, m, a)
    requires Image(e, a, b)
    ensures Image(f, a, b)
  {
    hide Rewrite, Kept, SortedPhdrs, Relaid, WellFormed, OnlyHeaders, DynamicEdited, DynamicReady, NullStored;
    MidReady(e, m, mid, f, addr, n, t);
    RewriteRelaid(e, m, mid, f, addr, n, t);
    var i :| 0 <= i < |e.phdrs| && Loads(e.file, e.phdrs[i], a, b);
    SegmentTo(e, m, mid, f, addr, t.p, t.inv, i);
    var j :| 0 <= j < |f.phdrs| && SameSegment(e.phdrs[i], f.phdrs[j], m.d);
    LoadsMoved(e, m, mid, f, addr, n, t, e.phdrs[i], f.phdrs[j], a, b);
  }

  lemma ImageBackward(e: Elf, m: Move, mid: Elf, f: Elf, addr: nat, n: nat, t: HeaderTrace, a: int, b: Byte)
    requires Rewrite(e, m, mid, f, addr, n, t) && |e.file| >= e.cfg.EhdrSize() && Undisturbed(e, m, a)
    requires Image(f, a, b)
    ensures Image(e, a, b)
  {
    hide Rewrite, Kept, SortedPhdrs, Relaid, WellFormed, OnlyHeaders, DynamicEdited, DynamicReady, NullStored;
    MidReady(e, m, mid, f, addr, n, t);
    RewriteRelaid(e, m, mid, f, addr, n, t);
    var j :| 0 <= j < |f.phdrs| && Loads(f.file, f.phdrs[j], a, b);
    SegmentFrom(e, m, mid, f, addr, t.p, t.inv, j);
    assert f.phdrs[j] !in m.extra;
    var i :| 0 <= i < |e.phdrs| && e.phdrs[i].ptype == PT_LOAD && SameSegment(e.phdrs[i], f.phdrs[j], m.d);
    LoadsMoved(e, m, mid, f, addr, n, t, e.phdrs[i], f.phdrs[j], a, b);
  }

  lemma RewriteRelaid(e: Elf, m: Move, mid: Elf, f: Elf, addr: nat, n: nat, t: HeaderTrace)
    requires Rewrite(e, m, mid, f, addr, n, t)
    ensures WellFormed(e) && Relaid(e, mid, m)
  {
  }

  lemma LoadsMoved(e: Elf, m: Move, mid: Elf, f: Elf, addr: nat, n: nat, t: HeaderTrace, h: Phdr, g: Phdr, a: int,
                   b: Byte)
    requires Rewrite(e, m, mid, f, addr, n, t) && |e.file| >= e.cfg.EhdrSize() && SameSegment(h, g, m.d)
    requires Covers(h, a) && InFilePart(h, a) ==> Kept(e, m, FileOffset(h, a))
    ensures Loads(e.file, h, a, b) <==> Loads(f.file, g, a, b)
  {
    hide Rewrite;
    if Covers(h, a) && InFilePart(h, a) {
      KeptByte(e, m, mid, f, addr, n, t, FileOffset(h, a));
      assert FileOffset(g, a) == FileOffset(h, a) + m.d;
    }
  }

  // ----- the new parts of the file in memory -----

  /** An added segment is in the rewritten table. */
  lemma ExtraTo(e: Elf, m: Move, mid: Elf, f: Elf, addr: nat, p: seq<nat>, inv: seq<nat>, x: nat)
    requires Relaid(e, mid, m) && x < |m.extra| && m.extra[x].ptype == PT_LOAD
    requires SortedPhdrs(WithPhdrEntry(mid.cfg, mid.phdrs, Hdr(mid).phoff, addr), f.phdrs, p, inv)
    ensures m.extra[x] in f.phdrs
  {
    var w := WithPhdrEntry(mid.cfg, mid.phdrs, Hdr(mid).phoff, addr);
    var i := |e.phdrs| + x;
    assert mid.phdrs[|e.phdrs|..][x] == mid.phdrs[i];
    assert f.phdrs[p[i]] == w[i];
  }

  /** A byte of the file inside a segment's file part is loaded at the matching address. */
  lemma ByteLoaded(f: Elf, h: Phdr, k: nat)
    requires h in f.phdrs && h.ptype == PT_LOAD && k < |f.file|
    requires h.offset <= k < h.offset + h.filesz && h.filesz <= h.memsz
    ensures Image(f, h.vaddr + (k - h.offset), f.file[k])
  {
    var i :| 0 <= i < |f.phdrs| && f.phdrs[i] == h;
    var a := h.vaddr + (k - h.offset);
    assert FileOffset(h, a) == k;
    assert Loads(f.file, f.phdrs[i], a, f.file[k]);
  }

  /** The new area of a library, program header table and staged bodies, is mapped from the new page on. */
  lemma LibraryAreaLoaded(e: Elf, rs: seq<Entry>, f: Elf, n: nat, mid: Elf, t: HeaderTrace, k: nat)
    requires LibraryRewritten(e, rs, f, n, mid, t)
    requires Padded(|e.file|, e.cfg.PageSize()) <= k < Padded(|e.file|, e.cfg.PageSize()) + LibrarySpace(e, rs)
    ensures k < |f.file|
    ensures Image(f, LastPage(e.cfg, e.phdrs, |e.phdrs|) + (k - Padded(|e.file|, e.cfg.PageSize())), f.file[k])
  {
    hide Rewrite, SortedPhdrs, Relaid, Ready, HeadersStep, WellFormed, DynamicEdited, NullStored, DynamicReady;
    var so, sp := Padded(|e.file|, e.cfg.PageSize()), LastPage(e.cfg, e.phdrs, |e.phdrs|);
    var m := LibraryMove(e, rs, so, sp);
    LibraryIsRewrite(e, rs, f, n, mid, t);
    MidReady(e, m, mid, f, sp, n, t);
    RewriteRelaid(e, m, mid, f, sp, n, t);
    ExtraTo(e, m, mid, f, sp, t.p, t.inv, 0);
    NewAreaInFile(e, m, mid);
    ByteLoaded(f, m.extra[0], k);
  }

  lemma NewAreaInFile(e: Elf, m: Move, mid: Elf)
    requires Relaid(e, mid, m)
    ensures m.p.cur + Space(e.cfg, m.p.rs, |m.p.rs|) <= |mid.file| && |e.file| + m.d <= |mid.file|
  {
  }

  /** The segment that maps the start of an executable, up to the boundary, from its first page on. */
  ghost predicate MapsFront(e: Elf, x: ExecLayout, h: Phdr) {
    && h in e.phdrs && h.ptype == PT_LOAD && h.offset == 0 && h.vaddr == x.startAddr - x.startOffset
    && x.startOffset <= h.filesz <= h.memsz
  }

  /** The front of an executable, shifted or not and across the two segments, is mapped from the first page on. */
  lemma ExecFrontLoaded(e: Elf, rs: seq<Entry>, f: Elf, n: nat, r: ExecTrace, mid: Elf, t: HeaderTrace, h: Phdr, k: nat)
    requires ExecRewritten(e, rs, f, n, r, mid, t) && MapsFront(e, r.x, h)
    requires k < r.x.startOffset + r.x.shift
    ensures k < |f.file| && r.x.FirstPage() >= 0
    ensures Image(f, r.x.FirstPage() + k, f.file[k])
  {
    hide Rewrite, SortedPhdrs, Relaid, Ready, HeadersStep, WellFormed, DynamicEdited, NullStored, DynamicReady,
         ExecRewritten, Image, TableSize;
    ExecIsRewrite(e, rs, f, n, r, mid, t);
    var m, addr := ExecMove(r.sorted, r.x), r.x.FirstPage() + e.cfg.EhdrSize();
    MidReady(r.sorted, m, mid, f, addr, n, t);
    RewriteRelaid(r.sorted, m, mid, f, addr, n, t);
    ExecSameSegments(e, rs, f, n, r, mid, t);
    NewAreaInFile(r.sorted, m, mid);
    if k < r.x.shift {
      ExtraTo(r.sorted, m, mid, f, addr, t.p, t.inv, 0);
      ByteLoaded(f, m.extra[0], k);
    } else {
      var i :| 0 <= i < |r.sorted.phdrs| && r.sorted.phdrs[i] == h;
      SegmentTo(r.sorted, m, mid, f, addr, t.p, t.inv, i);
      var j :| 0 <= j < |f.phdrs| && SameSegment(h, f.phdrs[j], m.d);
      ByteLoaded(f, f.phdrs[j], k);
    }
  }

  /** No two loadable segments share an address, and none lies in the pages the front grows into. */
  ghost predicate SegmentsApart(e: Elf, x: ExecLayout) {
    && (forall i, j, a :: 0 <= i < |e.phdrs| && 0 <= j < |e.phdrs| && Covers(e.phdrs[i], a) && Covers(e.phdrs[j], a) ==>
          i == j)
    && (forall i, a :: 0 <= i < |e.phdrs| && Covers(e.phdrs[i], a) ==>
          !(x.FirstPage() <= a < x.startAddr - x.startOffset))
  }

  /** And nothing else is loaded there: the front in memory is exactly the front of the file. */
  lemma ExecFrontExact(e: Elf, rs: seq<Entry>, f: Elf, n: nat, r: ExecTrace, mid: Elf, t: HeaderTrace, h: Phdr,
                       k: nat, b: Byte)
    requires ExecRewritten(e, rs, f, n, r, mid, t) && MapsFront(e, r.x, h) && SegmentsApart(e, r.x)
    requires k < r.x.startOffset + r.x.shift
    ensures k < |f.file| && (Image(f, r.x.FirstPage() + k, b) <==> b == f.file[k])
  {
    hide Rewrite, SortedPhdrs, Relaid, Ready, HeadersStep, WellFormed, DynamicEdited, NullStored, DynamicReady,
         ExecRewritten, SegmentsApart, MapsFront, OnlyHeaders, Loads;
    ExecFrontLoaded(e, rs, f, n, r, mid, t, h, k);
    ExecIsRewrite(e, rs, f, n, r, mid, t);
    var m, addr, a := ExecMove(r.sorted, r.x), r.x.FirstPage() + e.cfg.EhdrSize(), r.x.FirstPage() + k;
    MidReady(r.sorted, m, mid, f, addr, n, t);
    RewriteRelaid(r.sorted, m, mid, f, addr, n, t);
    ExecSameSegments(e, rs, f, n, r, mid, t);
    forall j | 0 <= j < |f.phdrs| && Loads(f.file, f.phdrs[j], a, b) ensures b == f.file[k] {
      LoadsCovers(f.file, f.phdrs[j], a, b);
      SegmentFrom(r.sorted, m, mid, f, addr, t.p, t.inv, j);
      FrontSegment(e, r.sorted, r.x, h, f.phdrs[j], k, f.file, b);
    }
  }

  lemma LoadsCovers(file: seq<Byte>, h: Phdr, a: int, b: Byte)
    requires Loads(file, h, a, b)
    ensures Covers(h, a)
  {
  }

  /** The only segment that covers an address of the front puts the matching byte there. */
  lemma FrontSegment(e: Elf, s: Elf, x: ExecLayout, h: Phdr, g: Phdr, k: nat, file: seq<Byte>, b: Byte)
    requires s.phdrs == e.phdrs && s.cfg == e.cfg && x.FirstPage() >= 0 && MapsFront(e, x, h) && SegmentsApart(e, x)
    requires k < x.startOffset + x.shift && k < |file| && Loads(file, g, x.FirstPage() + k, b)
    requires FromSegment(s, ExecMove(s, x), g)
    ensures b == file[k]
  {
    var a := x.FirstPage() + k;
    if g !in ExecMove(s, x).extra {
      var i :| 0 <= i < |s.phdrs| && s.phdrs[i].ptype == PT_LOAD && SameSegment(s.phdrs[i], g, x.shift);
      assert Covers(e.phdrs[i], a);
      var j :| 0 <= j < |e.phdrs| && e.phdrs[j] == h;
      assert k >= x.shift;
      assert Covers(e.phdrs[j], a);
    }
  }

  lemma ExecSameSegments(e: Elf, rs: seq<Entry>, f: Elf, n: nat, r: ExecTrace, mid: Elf, t: HeaderTrace)
    requires ExecRewritten(e, rs, f, n, r, mid, t)
    ensures r.sorted.phdrs == e.phdrs && r.sorted.cfg == e.cfg && r.sorted.names == e.names
    ensures |r.sorted.file| == |e.file| >= e.cfg.EhdrSize()
    ensures forall k :: e.cfg.EhdrSize() <= k < |e.file| ==> r.sorted.file[k] == e.file[k]
    ensures r.x.startOffset <= |e.file|
  {
    hide HeadersStep, Relaid, Ready, SortStep, ExecLaidOut, Scanned, Resolvable;
    SortSame(e, r.sorted, r.p, r.inv);
    RoomBound(r.sorted, r.x, mid);
  }

  lemma RoomBound(e: Elf, x: ExecLayout, mid: Elf)
    requires ExecLaidOut(e, x, mid)
    ensures x.startOffset <= |e.file|
  {
    assert Hdr(e).shoff <= ShEnd(e);
  }

  /**
   * Executables: at or above the boundary address, whatever does not come from a moved body, the
   * section header table or the dynamic table is loaded exactly as before the rewrite.
   */
  lemma ExecImagePreserved(e: Elf, rs: seq<Entry>, f: Elf, n: nat, r: ExecTrace, mid: Elf, t: HeaderTrace, a: int,
                           b: Byte)
    requires ExecRewritten(e, rs, f, n, r, mid, t) && r.x.startAddr <= a
    requires e.cfg.EhdrSize() <= r.x.startOffset && FrontIsFirst(e, r.x) && FromUnmoved(r.sorted, r.x, a)
    ensures Image(e, a, b) <==> Image(f, a, b)
  {
    hide Rewrite, ExecRewritten, Image;
    ExecIsRewrite(e, rs, f, n, r, mid, t);
    ExecSameSegments(e, rs, f, n, r, mid, t);
    FrontUndisturbed(r.sorted, r.x, a);
    ImagePreserved(r.sorted, ExecMove(r.sorted, r.x), mid, f, r.x.FirstPage() + e.cfg.EhdrSize(), n, t, a, b);
    SortImage(e, r.sorted, ExecMove(r.sorted, r.x), a, b);
  }

  /** Every loadable segment either maps the front from offset 0, or starts at or behind the boundary. */
  ghost predicate FrontIsFirst(e: Elf, x: ExecLayout) {
    forall i :: 0 <= i < |e.phdrs| && e.phdrs[i].ptype == PT_LOAD ==>
      || (e.phdrs[i].offset == 0 && e.phdrs[i].vaddr == x.startAddr - x.startOffset)
      || x.startOffset <= e.phdrs[i].offset
  }

  /** What is loaded at a is in the file, and in no moved body, header table or dynamic table. */
  ghost predicate FromUnmoved(e: Elf, x: ExecLayout, a: int) {
    && |e.file| >= e.cfg.EhdrSize()
    && forall i :: 0 <= i < |e.phdrs| && Covers(e.phdrs[i], a) && InFilePart(e.phdrs[i], a) ==>
      var k := FileOffset(e.phdrs[i], a);
      k < |e.file| && !InStagedBody(e, x.rs, k) && !(Hdr(e).shoff <= k < ShEnd(e)) && !InDynamic(e, k)
  }

  lemma FrontUndisturbed(e: Elf, x: ExecLayout, a: int)
    requires x.FirstPage() >= 0 && x.startAddr <= a && e.cfg.EhdrSize() <= x.startOffset
    requires FrontIsFirst(e, x) && FromUnmoved(e, x, a)
    ensures Undisturbed(e, ExecMove(e, x), a)
  {
  }

  lemma SortImage(e: Elf, s: Elf, m: Move, a: int, b: Byte)
    requires s.phdrs == e.phdrs && s.cfg == e.cfg && |s.file| == |e.file| >= e.cfg.EhdrSize()
    requires forall k :: e.cfg.EhdrSize() <= k < |e.file| ==> s.file[k] == e.file[k]
    requires Undisturbed(s, m, a)
    ensures Image(e, a, b) <==> Image(s, a, b)
  {
    forall i | 0 <= i < |e.phdrs| ensures Loads(e.file, e.phdrs[i], a, b) <==> Loads(s.file, s.phdrs[i], a, b) {
    }
  }
}
