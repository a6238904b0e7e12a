/**
 * The congruence that lets the loader map a segment: its address and its file offset agree modulo
 * its alignment.  Every step of a rewrite keeps it.
 */
module Congruence {
  import opened Bytes
  import opened Codec
  import opened ElfTypes
  import opened Rounding
  import opened Staging
  import opened Sorting
  import opened Elf
  import opened Links
  import opened Placement
  import opened Tables
  import opened Steps
  import opened Relayout
  import opened Layout
  import opened Memory
  import opened Agreement
  import opened Loading

  // ----- divisibility and powers of two -----

  ghost predicate Divides(d: nat, x: int) {
    exists q: int :: x == q * d
  }

  function Pow2(k: nat): (p: nat)
    ensures p >= 1
  {
    if k == 0 then 1 else 2 * Pow2(k - 1)
  }

  ghost predicate PowerOfTwo(a: nat) {
    exists k: nat :: a == Pow2(k)
  }

  lemma DividesSum(d: nat, x: int, y: int)
    requires Divides(d, x) && Divides(d, y)
    ensures Divides(d, x + y) && Divides(d, x - y)
  {
    var p: int, q: int :| x == p * d && y == q * d;
    assert x + y == (p + q) * d && x - y == (p - q) * d;
  }

  lemma DividesThrough(a: nat, b: nat, x: int)
    requires Divides(a, b) && Divides(b, x)
    ensures Divides(a, x)
  {
    var p: int :| b == p * a;
    var q: int :| x == q * b;
    assert q * (p * a) == (q * p) * a;
  }

  lemma DividesMod(d: nat, x: nat)
    requires d > 0
    ensures Divides(d, x) <==> x % d == 0
  {
    assert x == (x / d) * d + x % d;
    if Divides(d, x) {
      var q: int :| x == q * d;
      if q < 0 {
        NegativeMultiple(q, d);
      } else {
        DivUnique(x, d, q, 0);
      }
    }
  }

  lemma NegativeMultiple(q: int, d: nat)
    requires q < 0 < d
    ensures q * d < 0
  {
  }

  lemma {:induction false} PowerSplits(j: nat, k: nat)
    ensures Pow2(j + k) == Pow2(k) * Pow2(j)
    decreases k
  {
    if k > 0 {
      PowerSplits(j, k - 1);
      Doubled(Pow2(k - 1), Pow2(j));
    }
  }

  lemma Doubled(x: nat, y: nat)
    ensures 2 * (x * y) == (2 * x) * y
  {
  }

  /** Of two powers of two the smaller divides the larger. */
  lemma PowersNest(a: nat, b: nat)
    requires PowerOfTwo(a) && PowerOfTwo(b) && a <= b
    ensures Divides(a, b)
  {
    var j: nat :| a == Pow2(j);
    var k: nat :| b == Pow2(k);
    if j <= k {
      PowerSplits(j, k - j);
      assert b == Pow2(k - j) * a;
    } else {
      PowerSplits(k, j - k);
      Monotone(1, Pow2(j - k), b);
      assert b == 1 * a;
    }
  }

  lemma ConfigPowers(c: Config)
    ensures PowerOfTwo(c.PageSize()) && PowerOfTwo(c.Limit())
  {
    hide Pow2;
    PowerValues();
  }

  lemma PowerValues()
    ensures Pow2(12) == 4096 && Pow2(14) == 16384 && Pow2(32) == WORD && Pow2(64) == 0x1_0000_0000_0000_0000
  {
    assert Pow2(2) == 4 && Pow2(4) == 16;
    PowerSplits(4, 4);
    assert Pow2(8) == 256;
    hide Pow2;
    PowerSplits(8, 4);
    assert Pow2(12) == 4096;
    PowerSplits(12, 2);
    assert Pow2(14) == 16384;
    PowerSplits(8, 8);
    assert Pow2(16) == 0x1_0000;
    PowerSplits(16, 16);
    assert Pow2(32) == WORD;
    PowerSplits(32, 32);
  }

  // ----- segments -----

  predicate Positioned(h: Phdr) {
    h.ptype == PT_INTERP || h.ptype == PT_DYNAMIC || h.ptype == PT_PHDR
  }

  /**
   * Address and offset agree modulo the alignment, which is a power of two, and at most a page for
   * the segments that follow a table or section that moves.
   */
  ghost predicate Congruent(c: Config, h: Phdr) {
    h.align != 0 ==>
      PowerOfTwo(h.align) && Divides(h.align, h.vaddr - h.offset) && (Positioned(h) ==> h.align <= c.PageSize())
  }

  ghost predicate AllCongruent(c: Config, phdrs: seq<Phdr>) {
    forall i :: 0 <= i < |phdrs| ==> Congruent(c, phdrs[i])
  }

  lemma AddrMinusIs(c: Config, x: nat, y: nat)
    requires x < c.Limit() && y < c.Limit()
    ensures AddrMinus(c, x, y) == if x < y then x - y + c.Limit() else x - y
  {
  }

  /** The program's test, in the wrapping arithmetic of Elf_Addr, is the congruence. */
  lemma TestIsCongruence(c: Config, align: nat, x: nat, y: nat)
    requires 0 < align < c.Limit() && PowerOfTwo(align) && x < c.Limit() && y < c.Limit()
    ensures Remainder(AddrMinus(c, x, y), align) == 0 <==> Divides(align, x - y)
  {
    hide AddrMinus, Divides, Remainder, PowerOfTwo;
    ConfigPowers(c);
    PowersNest(align, c.Limit());
    var v := AddrMinus(c, x, y);
    AddrMinusIs(c, x, y);
    RemainderIs(v, align);
    DividesMod(align, v);
    if x < y {
      if Divides(align, v) {
        DividesSum(align, v, c.Limit());
      }
      if Divides(align, x - y) {
        DividesSum(align, x - y, c.Limit());
      }
    }
  }

  /**
   * shiftFile keeps the congruence, and replaces the alignment by the page size exactly when the
   * shift is not a multiple of the old one.
   */
  lemma ShiftCongruent(c: Config, h: Phdr, shift: nat)
    requires Congruent(c, h) && Divides(c.PageSize(), shift) && PhdrOk(c, h) && h.offset + shift < c.Limit()
    ensures Congruent(c, ShiftPhdr(c, h, shift))
    ensures ShiftPhdr(c, h, shift).align
         == if h.align != 0 && !Divides(h.align, shift) then c.PageSize() else h.align
  {
    if h.align != 0 {
      var v := h.vaddr - h.offset;
      TestIsCongruence(c, h.align, h.vaddr, h.offset + shift);
      ConfigPowers(c);
      if Divides(h.align, v - shift) {
        DividesSum(h.align, v, v - shift);
      }
      if Divides(h.align, shift) {
        DividesSum(h.align, v, shift);
      }
      if h.align <= c.PageSize() {
        PowersNest(h.align, c.PageSize());
        DividesThrough(h.align, c.PageSize(), shift);
      } else {
        PowersNest(c.PageSize(), h.align);
        DividesThrough(c.PageSize(), h.align, v);
        DividesSum(c.PageSize(), v, shift);
      }
    }
  }

  /** A segment put at matching page positions is congruent for any alignment up to a page. */
  lemma PageCongruent(c: Config, h: Phdr)
    requires h.align != 0 ==> PowerOfTwo(h.align) && h.align <= c.PageSize()
    requires Divides(c.PageSize(), h.vaddr - h.offset)
    ensures Congruent(c, h)
  {
    if h.align != 0 {
      ConfigPowers(c);
      PowersNest(h.align, c.PageSize());
      DividesThrough(h.align, c.PageSize(), h.vaddr - h.offset);
    }
  }

  // ----- a whole rewrite -----

  /** The move goes by whole pages: the shift, the new area, the added segments and the new table. */
  ghost predicate ByPages(c: Config, m: Move, phoff: nat, addr: nat) {
    && Divides(c.PageSize(), m.d) && Divides(c.PageSize(), m.p.startAddr - m.p.startOffset)
    && Divides(c.PageSize(), addr - phoff)
    && AllCongruent(c, m.extra)
  }

  lemma PlacedCongruent(c: Config, p: Plan, h: Phdr)
    requires Congruent(c, h) && Divides(c.PageSize(), p.startAddr - p.startOffset)
    ensures Congruent(c, PhdrAfter(c, p, |p.rs|, h))
  {
    var q := PhdrAfter(c, p, |p.rs|, h);
    if q != h {
      assert q.vaddr - q.offset == p.startAddr - p.startOffset;
      PageCongruent(c, q);
    }
  }

  lemma RelaidCongruent(e: Elf, mid: Elf, m: Move, i: nat)
    requires Relaid(e, mid, m) && i < |e.phdrs| && Congruent(e.cfg, e.phdrs[i]) && PhdrOk(e.cfg, e.phdrs[i])
    requires Divides(e.cfg.PageSize(), m.d) && Divides(e.cfg.PageSize(), m.p.startAddr - m.p.startOffset)
    requires e.phdrs[i].offset + m.d < e.cfg.Limit()
    ensures Congruent(e.cfg, RelaidPhdr(e.cfg, m, e.phdrs[i]))
  {
    var h := e.phdrs[i];
    if m.d != 0 {
      ShiftCongruent(e.cfg, h, m.d);
    }
    PlacedCongruent(e.cfg, m.p, if m.d == 0 then h else ShiftPhdr(e.cfg, h, m.d));
  }

  /** Congruent segments are congruent again after a rewrite that goes by whole pages. */
  lemma RewriteCongruent(e: Elf, m: Move, mid: Elf, f: Elf, addr: nat, n: nat, t: HeaderTrace)
    requires Rewrite(e, m, mid, f, addr, n, t) && AllCongruent(e.cfg, e.phdrs) && |mid.file| >= mid.cfg.EhdrSize()
    requires ByPages(e.cfg, m, Hdr(mid).phoff, addr)
    requires forall i :: 0 <= i < |e.phdrs| ==> e.phdrs[i].offset + m.d < e.cfg.Limit()
    ensures AllCongruent(f.cfg, f.phdrs)
  {
    hide Rewrite, WellFormed, Relaid, SortedPhdrs, RelaidPhdr, OnlyHeaders, DynamicEdited, NullStored, DynamicReady,
         ShdrsStored, PhdrsStored, SortedShdrs, WithPhdrEntry, Congruent, Divides;
    RewriteRelaid(e, m, mid, f, addr, n, t);
    MidReady(e, m, mid, f, addr, n, t);
    RewriteKeeps(e, m, mid, f, addr, n, t);
    MidCfg(e, m, mid);
    FieldsFit(e);
    forall j | 0 <= j < |f.phdrs| ensures Congruent(e.cfg, f.phdrs[j]) {
      PhdrFrom(e, m, mid, f, addr, t.p, t.inv, j);
      var i := t.inv[j];
      if i < |e.phdrs| {
        RelaidCongruent(e, mid, m, i);
      } else {
        assert mid.phdrs[i] == m.extra[i - |e.phdrs|];
      }
      EntryCongruent(e.cfg, mid.phdrs, Hdr(mid).phoff, addr, i);
    }
  }

  lemma FieldsFit(e: Elf)
    requires WellFormed(e)
    ensures forall i :: 0 <= i < |e.phdrs| ==> PhdrOk(e.cfg, e.phdrs[i])
  {
  }

  lemma EntryCongruent(c: Config, phdrs: seq<Phdr>, phoff: nat, addr: nat, i: nat)
    requires i < |phdrs| && Congruent(c, phdrs[i]) && Divides(c.PageSize(), addr - phoff)
    ensures Congruent(c, WithPhdrEntry(c, phdrs, phoff, addr)[i])
  {
    var q := WithPhdrEntry(c, phdrs, phoff, addr)[i];
    if q != phdrs[i] {
      assert q.vaddr - q.offset == addr - phoff;
      PageCongruent(c, q);
    }
  }

  lemma LoadSegmentCongruent(c: Config, offset: nat, addr: nat, size: nat)
    requires Divides(c.PageSize(), addr - offset)
    ensures Congruent(c, LoadSegment(c, offset, addr, size))
  {
    ConfigPowers(c);
    PageCongruent(c, LoadSegment(c, offset, addr, size));
  }

  lemma PaddedDivides(n: nat, m: nat)
    requires m > 0
    ensures Divides(m, Padded(n, m))
  {
    PaddedMultiple(n, m);
    var q: nat :| Padded(n, m) == q * m;
  }

  lemma LastPageDivides(c: Config, phdrs: seq<Phdr>, n: nat)
    requires n <= |phdrs|
    ensures Divides(c.PageSize(), LastPage(c, phdrs, n))
  {
    hide LastPage;
    LastPageAbove(c, phdrs, n);
    var q: nat :| LastPage(c, phdrs, n) == q * c.PageSize();
  }

  /** Libraries: every segment that was congruent is congruent afterwards, and so is the new one. */
  lemma LibraryCongruent(e: Elf, rs: seq<Entry>, f: Elf, n: nat, mid: Elf, t: HeaderTrace)
    requires LibraryRewritten(e, rs, f, n, mid, t) && AllCongruent(e.cfg, e.phdrs)
    ensures AllCongruent(f.cfg, f.phdrs)
  {
    hide WellFormed, Relaid, HeadersStep, Congruent, Divides, DynamicStaged, StagedOk, NullStored;
    var so, sp := Padded(|e.file|, e.cfg.PageSize()), LastPage(e.cfg, e.phdrs, |e.phdrs|);
    var m := LibraryMove(e, rs, so, sp);
    LibraryIsRewrite(e, rs, f, n, mid, t);
    PaddedDivides(|e.file|, e.cfg.PageSize());
    LastPageDivides(e.cfg, e.phdrs, |e.phdrs|);
    DividesSum(e.cfg.PageSize(), sp, so);
    LoadSegmentCongruent(e.cfg, so, sp, LibrarySpace(e, rs));
    DividesZero(e.cfg.PageSize());
    FieldsFit(e);
    MidCfg(e, m, mid);
    RewriteCongruent(e, m, mid, f, sp, n, t);
  }

  lemma DividesZero(m: nat)
    ensures Divides(m, 0)
  {
    assert 0 == 0 * m;
  }

  /** Executables, shifted or not, likewise. */
  lemma ExecCongruent(e: Elf, rs: seq<Entry>, f: Elf, n: nat, r: ExecTrace, mid: Elf, t: HeaderTrace)
    requires ExecRewritten(e, rs, f, n, r, mid, t) && AllCongruent(e.cfg, e.phdrs)
    ensures AllCongruent(f.cfg, f.phdrs)
  {
    hide WellFormed, Relaid, HeadersStep, Congruent, Divides, DynamicStaged, StagedOk, NullStored, SortStep, Scanned,
         Resolvable, RoomMade, KeptFrom, Space;
    ExecIsRewrite(e, rs, f, n, r, mid, t);
    ExecSameSegments(e, rs, f, n, r, mid, t);
    var c, x := e.cfg, r.x;
    ShiftByPages(r.sorted, x, mid);
    PagesApart(c, x.startAddr, x.startOffset);
    DividesSum(c.PageSize(), x.startAddr - x.startOffset, x.shift);
    LoadSegmentCongruent(c, 0, x.FirstPage(), x.shift);
    var m, addr := ExecMove(r.sorted, x), x.FirstPage() + c.EhdrSize();
    assert m.p.startAddr - m.p.startOffset == x.FirstPage() == addr - Hdr(mid).phoff;
    RewriteCongruent(r.sorted, m, mid, f, addr, n, t);
  }

  lemma ShiftByPages(e: Elf, x: ExecLayout, mid: Elf)
    requires ExecLaidOut(e, x, mid)
    ensures Divides(e.cfg.PageSize(), x.shift) && mid.cfg == e.cfg && |mid.file| >= e.cfg.EhdrSize()
    ensures forall i :: 0 <= i < |e.phdrs| ==> e.phdrs[i].offset + x.shift < e.cfg.Limit()
  {
    hide Divides, StagedOk, KeptFrom, Space, TablesApart, NullFirst, DistinctNames, LinksInRange, BodiesInFile,
         BodiesDisjoint;
    if x.shift == 0 {
      DividesZero(e.cfg.PageSize());
    } else {
      PaddedDivides(ExecStart(e, 0) + Space(e.cfg, x.rs, |x.rs|) + e.cfg.PhdrSize() - x.startOffset, e.cfg.PageSize());
    }
  }

  lemma PagesApart(c: Config, x: nat, y: nat)
    requires x % c.PageSize() == y % c.PageSize()
    ensures Divides(c.PageSize(), x - y)
  {
    var m := c.PageSize();
    assert x == (x / m) * m + x % m && y == (y / m) * m + y % m;
    assert x - y == (x / m - y / m) * m;
  }

  // ----- alignment of the new bodies -----

  lemma PagesAlign(c: Config, x: nat)
    requires Divides(c.PageSize(), x)
    ensures x % c.SectionAlignment() == 0
  {
    PageIsAligned(c);
    DividesThrough(c.SectionAlignment(), c.PageSize(), x);
    DividesMod(c.SectionAlignment(), x);
  }

  lemma PageIsAligned(c: Config)
    ensures Divides(c.SectionAlignment(), c.PageSize())
  {
    assert 4096 == 512 * 8 == 1024 * 4 && 16384 == 2048 * 8 == 4096 * 4;
  }

  lemma {:induction false} TableAligned(c: Config, n: nat)
    ensures TableSize(n, c.PhdrSize()) % c.SectionAlignment() == 0
    ensures (c.EhdrSize() + TableSize(n, c.PhdrSize())) % c.SectionAlignment() == 0
  {
    if n > 0 {
      TableAligned(c, n - 1);
    }
  }

  /** Every staged body starts behind the program header table, aligned in the file and in memory. */
  ghost predicate AlignedAfterTable(f: Elf, name: Name) {
    var k := Find(f.names, f.shdrs, name);
    && k > 0 && |f.file| >= f.cfg.EhdrSize() && PhEnd(f) <= f.shdrs[k].offset
    && f.shdrs[k].offset % f.cfg.SectionAlignment() == 0 && f.shdrs[k].addr % f.cfg.SectionAlignment() == 0
  }

  lemma StagedAligned(e: Elf, m: Move, mid: Elf, f: Elf, addr: nat, n: nat, t: HeaderTrace, j: nat)
    requires Rewrite(e, m, mid, f, addr, n, t) && j < |m.p.rs|
    requires Divides(e.cfg.PageSize(), m.p.startOffset) && Divides(e.cfg.PageSize(), m.p.startAddr)
    requires m.p.cur % e.cfg.SectionAlignment() == 0
    ensures AlignedAfterTable(f, m.p.rs[j].name)
  {
    hide Rewrite, Relaid, HeadersStep, WellFormed, NullStored, DynamicReady, SortedShdrs, PhdrsStored, ShdrsStored,
         SortedPhdrs, OnlyHeaders, DynamicEdited, Divides;
    RewriteKeeps(e, m, mid, f, addr, n, t);
    RewriteRelaid(e, m, mid, f, addr, n, t);
    MidReady(e, m, mid, f, addr, n, t);
    AreaPlaces(e, mid, m);
    CountsAre(f);
    CountsAre(mid);
    assert |f.phdrs| == |mid.phdrs| by { TableCountSame(mid, f, addr, t); }
    StagedRecorded(e, m, mid, f, addr, n, t, j);
    PagesAlign(e.cfg, m.p.startOffset);
    PagesAlign(e.cfg, m.p.startAddr);
    NewBodiesAligned(e.cfg, m.p, j);
  }

  lemma TableCountSame(mid: Elf, f: Elf, addr: nat, t: HeaderTrace)
    requires |mid.file| >= mid.cfg.EhdrSize()
    requires SortedPhdrs(WithPhdrEntry(mid.cfg, mid.phdrs, Hdr(mid).phoff, addr), f.phdrs, t.p, t.inv)
    ensures |f.phdrs| == |mid.phdrs|
  {
  }

  lemma LibraryStagedAligned(e: Elf, rs: seq<Entry>, f: Elf, n: nat, mid: Elf, t: HeaderTrace, j: nat)
    requires LibraryRewritten(e, rs, f, n, mid, t) && j < |rs|
    ensures AlignedAfterTable(f, rs[j].name)
  {
    hide Rewrite, LibraryRewritten, Divides, AlignedAfterTable;
    var so, sp := Padded(|e.file|, e.cfg.PageSize()), LastPage(e.cfg, e.phdrs, |e.phdrs|);
    LibraryIsRewrite(e, rs, f, n, mid, t);
    PaddedDivides(|e.file|, e.cfg.PageSize());
    LastPageDivides(e.cfg, e.phdrs, |e.phdrs|);
    PagesAlign(e.cfg, so);
    TableAligned(e.cfg, |e.phdrs| + 1);
    SumAligned(so, TableSize(|e.phdrs| + 1, e.cfg.PhdrSize()), e.cfg.SectionAlignment());
    StagedAligned(e, LibraryMove(e, rs, so, sp), mid, f, sp, n, t, j);
  }

  lemma ExecStagedAligned(e: Elf, rs: seq<Entry>, f: Elf, n: nat, r: ExecTrace, mid: Elf, t: HeaderTrace, j: nat)
    requires ExecRewritten(e, rs, f, n, r, mid, t) && j < |r.x.rs|
    ensures AlignedAfterTable(f, r.x.rs[j].name)
  {
    hide Rewrite, Relaid, HeadersStep, WellFormed, Divides, AlignedAfterTable, Ready, SortStep, Scanned, Resolvable,
         ExecRoom, ShiftDecided;
    ExecIsRewrite(e, rs, f, n, r, mid, t);
    SortCfg(e, r.sorted, r.p, r.inv);
    var c, x := e.cfg, r.x;
    ShiftByPages(r.sorted, x, mid);
    PagesApart(c, x.startAddr, x.startOffset);
    DividesSum(c.PageSize(), x.startAddr - x.startOffset, x.shift);
    DividesZero(c.PageSize());
    TableAligned(c, ExecCount(r.sorted, x.shift));
    StagedAligned(r.sorted, ExecMove(r.sorted, x), mid, f, x.FirstPage() + c.EhdrSize(), n, t, j);
  }
}
