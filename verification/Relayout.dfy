/**
 * The state between moving the sections and rewriting the headers, described the same way for
 * executables (room made at the front, the file perhaps shifted) and libraries (a new area at
 * the end).
 */
module Relayout {
  import opened Bytes
  import opened Codec
  import opened ElfTypes
  import opened Staging
  import opened Sorting
  import opened Elf
  import opened Links
  import opened Placement
  import opened Tables
  import opened Steps

  /**
   * A move: the plan for the staged bodies, the distance `d` that everything else moved up the
   * file, the offset `cut` from which old bytes are kept, and the program headers added.
   */
  datatype Move = Move(p: Plan, d: nat, cut: nat, extra: seq<Phdr>)

  ghost function RelaidShdr(e: Elf, m: Move, i: nat): Shdr
    requires i < |e.shdrs|
  {
    var j := IndexOf(m.p.rs, NameOf(e.names, e.shdrs[i]));
    if i == 0 then e.shdrs[i]
    else if j < |m.p.rs| then MovedShdr(e.cfg, e.shdrs[i], NewSpot(e.cfg, m.p, j))
    else e.shdrs[i].(offset := e.shdrs[i].offset + m.d)
  }

  function RelaidPhdr(c: Config, m: Move, h: Phdr): Phdr {
    PhdrAfter(c, m.p, |m.p.rs|, if m.d == 0 then h else ShiftPhdr(c, h, m.d))
  }

  ghost predicate PhdrsRelaid(e: Elf, r: seq<Phdr>, m: Move) {
    && |r| == |e.phdrs| + |m.extra|
    && (forall i :: 0 <= i < |e.phdrs| ==> r[i] == RelaidPhdr(e.cfg, m, e.phdrs[i]))
    && r[|e.phdrs|..] == m.extra && (forall i :: 0 <= i < |m.extra| ==> m.extra[i].ptype == PT_LOAD)
  }

  /** Section i is one of those being moved. */
  ghost predicate IsStaged(e: Elf, rs: seq<Entry>, i: nat)
    requires i < |e.shdrs|
  {
    i > 0 && Has(rs, NameOf(e.names, e.shdrs[i]))
  }

  ghost predicate InStagedBody(e: Elf, rs: seq<Entry>, k: int) {
    exists i :: 0 <= i < |e.shdrs| && IsStaged(e, rs, i) && InBody(e.shdrs[i], k)
  }

  /** Old bytes from `cut` on, outside the bodies being moved, are found `d` further on. */
  ghost predicate Carried(e: Elf, f: seq<Byte>, m: Move) {
    && |f| >= |e.file| + m.d
    && forall k :: m.cut <= k < |e.file| && !InStagedBody(e, m.p.rs, k) ==> f[k + m.d] == e.file[k]
  }

  /** The program header table and the new bodies occupy an area that no kept byte moves into. */
  ghost predicate AreaClear(e: Elf, f: Elf, m: Move)
    requires |e.file| >= e.cfg.EhdrSize() && |f.file| >= f.cfg.EhdrSize()
  {
    && e.cfg.EhdrSize() <= Hdr(f).phoff && PhEnd(f) <= m.p.cur
    && m.p.cur + Space(e.cfg, m.p.rs, |m.p.rs|) <= |f.file|
    && e.cfg.EhdrSize() <= m.cut + m.d && m.cut <= Hdr(e).shoff
    && (m.p.cur + Space(e.cfg, m.p.rs, |m.p.rs|) <= m.cut + m.d || |e.file| + m.d <= Hdr(f).phoff)
    && (forall i, k :: 0 <= i < |e.shdrs| && !IsStaged(e, m.p.rs, i) && InBody(e.shdrs[i], k) ==> m.cut <= k)
  }

  /** Every header field still fits. */
  ghost predicate HeadersFit(f: Elf) {
    && (forall i :: 0 <= i < |f.phdrs| ==> PhdrOk(f.cfg, f.phdrs[i]))
    && (forall i :: 0 <= i < |f.shdrs| ==> ShdrOk(f.cfg, f.shdrs[i]))
  }

  ghost predicate Relaid(e: Elf, f: Elf, m: Move) {
    && f.cfg == e.cfg && f.names == e.names
    && |e.file| >= e.cfg.EhdrSize() && |f.file| >= e.cfg.EhdrSize() && |f.phdrs| > 0
    && Hdr(f) == Hdr(e).(phoff := Hdr(f).phoff, shoff := Hdr(e).shoff + m.d, phnum := |f.phdrs|)
    && |f.shdrs| == |e.shdrs| && (forall i :: 0 <= i < |f.shdrs| ==> f.shdrs[i] == RelaidShdr(e, m, i))
    && PhdrsRelaid(e, f.phdrs, m)
    && HeadersFit(f)
    && Distinct(m.p.rs) && SmallData(m.p.rs)
    && Carried(e, f.file, m)
    && Laid(e.cfg, m.p.rs, |m.p.rs|, m.p.cur, f.file)
    && AreaClear(e, f, m)
  }

  // ----- the relaid state is well formed -----

  /** Which old byte, or which new body, a byte of a relaid section's body is. */
  lemma RelaidBody(e: Elf, f: Elf, m: Move, i: nat, k: int)
    requires WellFormed(e) && Relaid(e, f, m) && i < |f.shdrs| && InBody(f.shdrs[i], k)
    ensures i < |e.shdrs| && |f.file| >= f.cfg.EhdrSize()
    ensures IsStaged(e, m.p.rs, i) ==>
      InNew(e.cfg, m.p.rs, m.p.cur, IndexOf(m.p.rs, NameOf(e.names, e.shdrs[i])), k)
    ensures !IsStaged(e, m.p.rs, i) ==> i > 0 && InBody(e.shdrs[i], k - m.d) && m.cut <= k - m.d < |e.file|
  {
    assert f.shdrs[i] == RelaidShdr(e, m, i);
    if !IsStaged(e, m.p.rs, i) {
      if i == 0 {
        assert InBody(e.shdrs[0], k) && InBody(e.shdrs[0], 0);
        assert false;
      }
      assert InBody(e.shdrs[i], k - m.d);
    }
  }

  /** No kept byte moves into the new bodies. */
  ghost predicate NewApart(e: Elf, m: Move) {
    m.p.cur + Space(e.cfg, m.p.rs, |m.p.rs|) <= m.cut + m.d || |e.file| + m.d <= m.p.cur
  }

  /** The area of the program header table and the new bodies, against everything that was kept. */
  lemma AreaFacts(e: Elf, mid: Elf, m: Move)
    requires Relaid(e, mid, m)
    ensures |e.file| >= e.cfg.EhdrSize() && SmallData(m.p.rs) && NewApart(e, m)
  {
    assert Hdr(mid).phoff <= PhEnd(mid);
  }

  lemma NamesDistinct(e: Elf)
    requires WellFormed(e)
    ensures DistinctNames(e.names, e.shdrs)
  {
  }

  lemma RelaidBodies(e: Elf, f: Elf, m: Move)
    requires WellFormed(e) && Relaid(e, f, m)
    ensures BodiesInFile(f) && BodiesDisjoint(f.shdrs)
  {
    hide WellFormed, Relaid, InBody, PhEnd, ShEnd;
    forall i, k | 0 <= i < |f.shdrs| && InBody(f.shdrs[i], k)
      ensures |f.file| >= f.cfg.EhdrSize() && f.cfg.EhdrSize() <= k < |f.file|
      ensures !(Hdr(f).phoff <= k < PhEnd(f)) && !(Hdr(f).shoff <= k < ShEnd(f))
    {
      RelaidBodyInFile(e, f, m, i, k);
    }
    forall i, j, k | 0 <= i < |f.shdrs| && 0 <= j < |f.shdrs| && InBody(f.shdrs[i], k) && InBody(f.shdrs[j], k)
      ensures i == j
    {
      RelaidApart(e, f, m, i, j, k);
    }
  }

  lemma RelaidBodyInFile(e: Elf, f: Elf, m: Move, i: nat, k: int)
    requires WellFormed(e) && Relaid(e, f, m) && i < |f.shdrs| && InBody(f.shdrs[i], k)
    ensures |f.file| >= f.cfg.EhdrSize() && f.cfg.EhdrSize() <= k < |f.file|
    ensures !(Hdr(f).phoff <= k < PhEnd(f)) && !(Hdr(f).shoff <= k < ShEnd(f))
  {
    hide WellFormed, Relaid, InNew, InBody, Space, PhEnd, ShEnd, Hdr;
    RelaidBody(e, f, m, i, k);
    AreaPlaces(e, f, m);
    if IsStaged(e, m.p.rs, i) {
      NewBodiesApart(e.cfg, m.p.rs, m.p.cur, IndexOf(m.p.rs, NameOf(e.names, e.shdrs[i])), 0, k);
    } else {
      BodyNotInTable(e, i, k - m.d);
    }
  }

  /** The area, the carried bytes and the section header table, all in one picture. */
  lemma AreaPlaces(e: Elf, f: Elf, m: Move)
    requires WellFormed(e) && Relaid(e, f, m)
    ensures |e.file| >= e.cfg.EhdrSize() && |f.file| >= f.cfg.EhdrSize() && f.cfg == e.cfg && SmallData(m.p.rs)
    ensures Hdr(f).shoff == Hdr(e).shoff + m.d && ShEnd(f) == ShEnd(e) + m.d && |e.file| + m.d <= |f.file|
    ensures e.cfg.EhdrSize() <= Hdr(f).phoff && PhEnd(f) <= m.p.cur && e.cfg.EhdrSize() <= m.p.cur
    ensures m.p.cur + Space(e.cfg, m.p.rs, |m.p.rs|) <= |f.file|
    ensures m.cut <= Hdr(e).shoff && ShEnd(e) <= |e.file| && e.cfg.EhdrSize() <= m.cut + m.d
    ensures m.p.cur + Space(e.cfg, m.p.rs, |m.p.rs|) <= m.cut + m.d || |e.file| + m.d <= Hdr(f).phoff
    ensures Hdr(f).phoff <= PhEnd(f) && Hdr(f).shoff <= ShEnd(f)
  {
    hide PhdrsRelaid, HeadersFit, Laid, BodiesInFile, BodiesDisjoint, LinksInRange, DistinctNames, Space;
  }

  lemma BodyNotInTable(e: Elf, i: nat, k: int)
    requires WellFormed(e) && i < |e.shdrs| && InBody(e.shdrs[i], k)
    ensures |e.file| >= e.cfg.EhdrSize() && !(Hdr(e).shoff <= k < ShEnd(e))
  {
  }

  lemma RelaidApart(e: Elf, f: Elf, m: Move, i: nat, j: nat, k: int)
    requires WellFormed(e) && Relaid(e, f, m) && i < |f.shdrs| && j < |f.shdrs|
    requires InBody(f.shdrs[i], k) && InBody(f.shdrs[j], k)
    ensures i == j
  {
    hide WellFormed, Relaid, InNew, InBody, Space;
    RelaidBody(e, f, m, i, k);
    RelaidBody(e, f, m, j, k);
    AreaFacts(e, f, m);
    NamesDistinct(e);
    var a := IndexOf(m.p.rs, NameOf(e.names, e.shdrs[i]));
    var b := IndexOf(m.p.rs, NameOf(e.names, e.shdrs[j]));
    if IsStaged(e, m.p.rs, i) && IsStaged(e, m.p.rs, j) {
      NewBodiesApart(e.cfg, m.p.rs, m.p.cur, a, b, k);
      FindUnique(e.names, e.shdrs, i);
      FindUnique(e.names, e.shdrs, j);
    } else if IsStaged(e, m.p.rs, i) {
      NewBodiesApart(e.cfg, m.p.rs, m.p.cur, a, a, k);
    } else if IsStaged(e, m.p.rs, j) {
      NewBodiesApart(e.cfg, m.p.rs, m.p.cur, b, b, k);
    } else {
      OwnBodies(e, i, j, k - m.d);
    }
  }

  lemma OwnBodies(e: Elf, i: nat, j: nat, k: int)
    requires WellFormed(e) && i < |e.shdrs| && j < |e.shdrs| && InBody(e.shdrs[i], k) && InBody(e.shdrs[j], k)
    ensures i == j
  {
  }

  lemma RelaidHeaders(e: Elf, f: Elf, m: Move)
    requires WellFormed(e) && Relaid(e, f, m)
    ensures NullFirst(f.shdrs) && DistinctNames(f.names, f.shdrs) && LinksInRange(f.shdrs)
  {
    forall i | 0 <= i < |f.shdrs|
      ensures f.shdrs[i].name == e.shdrs[i].name && f.shdrs[i].link == e.shdrs[i].link
      ensures f.shdrs[i].info == e.shdrs[i].info && f.shdrs[i].stype == e.shdrs[i].stype
      ensures i > 0 ==> f.shdrs[i].offset > 0
    {
      assert f.shdrs[i] == RelaidShdr(e, m, i);
    }
    forall i, j | 0 <= i < j < |f.shdrs| ensures NameOf(f.names, f.shdrs[i]) != NameOf(f.names, f.shdrs[j]) {
      assert NameOf(e.names, e.shdrs[i]) != NameOf(e.names, e.shdrs[j]);
    }
  }

  /** The relaid state is well formed again. */
  lemma RelaidWellFormed(e: Elf, f: Elf, m: Move)
    requires WellFormed(e) && Relaid(e, f, m)
    ensures WellFormed(f)
  {
    RelaidBodies(e, f, m);
    RelaidHeaders(e, f, m);
    assert ShEnd(f) == ShEnd(e) + m.d;
  }

  // ----- what rewriteHeaders needs of the relaid state -----

  /** A stretch of kept bytes moves as a block. */
  lemma CarriedBlock(e: Elf, f: seq<Byte>, m: Move, lo: nat, hi: nat)
    requires Carried(e, f, m) && m.cut <= lo <= hi <= |e.file|
    requires forall k :: lo <= k < hi ==> !InStagedBody(e, m.p.rs, k)
    ensures f[lo + m.d..hi + m.d] == e.file[lo..hi]
  {
    forall k | 0 <= k < hi - lo ensures f[lo + m.d..hi + m.d][k] == e.file[lo..hi][k] {
      assert !InStagedBody(e, m.p.rs, lo + k);
      assert f[(lo + k) + m.d] == e.file[lo + k];
    }
  }

  /** The section header table moves as a whole, so its null entry is still in the file. */
  lemma RelaidNullStored(e: Elf, f: Elf, m: Move)
    requires WellFormed(e) && NullStored(e) && Relaid(e, f, m)
    ensures NullStored(f)
  {
    hide PhdrsRelaid, HeadersFit, Laid, DecodeEhdr, DecodeShdr, BodiesInFile, BodiesDisjoint, DistinctNames;
    var sz := e.cfg.ShdrSize();
    var at := Slot(Hdr(e).shoff, 0, sz);
    SlotInside(Hdr(e).shoff, 0, |e.shdrs|, sz);
    ShTableKept(e, m.p.rs);
    CarriedBlock(e, f.file, m, at, at + sz);
    assert f.shdrs[0] == RelaidShdr(e, m, 0);
  }

  /** No staged body reaches into the section header table. */
  lemma ShTableKept(e: Elf, rs: seq<Entry>)
    requires WellFormed(e)
    ensures forall k :: Hdr(e).shoff <= k < ShEnd(e) ==> !InStagedBody(e, rs, k)
  {
  }

  /** A table that has been copied elsewhere ends at the same entry and holds the same entries. */
  lemma TerminatedMoved(c: Config, a: seq<Byte>, x: nat, b: seq<Byte>, y: nat, n: nat)
    requires var len := TableSize(n + 1, c.DynSize());
             Terminated(c, a, x, n) && y + len <= |b| && b[y..y + len] == a[x..x + len]
    ensures Terminated(c, b, y, n)
    ensures EntriesMoved(c, a, x, b, y, n)
  {
    var sz := c.DynSize();
    forall i | 0 <= i <= n ensures EntryMoved(c, a, x, b, y, i) && EndsOnlyAt(c, b, y, i, n) {
      SlotInside(0, i, n + 1, sz);
      assert EndsOnlyAt(c, a, x, i, n);
      SubBlock(a, x, b, y, TableSize(n + 1, sz), TableSize(i, sz), sz);
    }
  }

  ghost predicate EntriesMoved(c: Config, a: seq<Byte>, x: nat, b: seq<Byte>, y: nat, n: nat) {
    forall i :: 0 <= i <= n ==> EntryMoved(c, a, x, b, y, i)
  }

  ghost predicate EntryMoved(c: Config, a: seq<Byte>, x: nat, b: seq<Byte>, y: nat, i: nat) {
    && Slot(x, i, c.DynSize()) + c.DynSize() <= |a| && Slot(y, i, c.DynSize()) + c.DynSize() <= |b|
    && DynEntry(c, b, y, i) == DynEntry(c, a, x, i)
  }

  /** The dynamic table, staged or in place, ends within its section at entry n. */
  ghost predicate DynamicStaged(e: Elf, rs: seq<Entry>, n: nat) {
    if Has(rs, DYNAMIC) then Terminated(e.cfg, Get(rs, DYNAMIC), 0, n) else DynamicReady(e, n)
  }

  /** Where the dynamic table is before the move: in the staged body, or in the file. */
  ghost function OldTable(e: Elf, rs: seq<Entry>): (seq<Byte>, nat) {
    if Has(rs, DYNAMIC) then (Get(rs, DYNAMIC), 0) else (e.file, DynamicPlace(e))
  }

  lemma RelaidNames(e: Elf, f: Elf, m: Move, name: Name)
    requires Relaid(e, f, m)
    ensures Find(f.names, f.shdrs, name) == Find(e.names, e.shdrs, name)
  {
    forall i | 0 <= i < |f.shdrs| ensures f.shdrs[i].name == e.shdrs[i].name {
      assert f.shdrs[i] == RelaidShdr(e, m, i);
    }
    FindSame(e.names, f.shdrs, e.shdrs, name);
  }

  lemma RelaidDynamic(e: Elf, f: Elf, m: Move, n: nat)
    requires WellFormed(e) && Relaid(e, f, m) && DynamicStaged(e, m.p.rs, n)
    requires forall i :: 0 <= i < |e.shdrs| && IsStaged(e, m.p.rs, i) ==> e.shdrs[i].stype != SHT_NOBITS
    ensures DynamicReady(f, n)
    ensures Find(e.names, e.shdrs, DYNAMIC) > 0 ==>
      EntriesMoved(e.cfg, OldTable(e, m.p.rs).0, OldTable(e, m.p.rs).1, f.file, DynamicPlace(f), n)
  {
    hide WellFormed, Relaid, Terminated, EntriesMoved, RelaidShdr;
    RelaidNames(e, f, m, DYNAMIC);
    var d := Find(e.names, e.shdrs, DYNAMIC);
    if d > 0 {
      RelaidAt(e, f, m, d);
      if Has(m.p.rs, DYNAMIC) {
        StagedDynamic(e, f, m, d, n);
      } else {
        KeptTable(e, f, m, d, n);
        RelaidKept(e, m, d);
      }
    }
  }

  lemma RelaidAt(e: Elf, f: Elf, m: Move, i: nat)
    requires Relaid(e, f, m) && i < |e.shdrs|
    ensures i < |f.shdrs| && f.shdrs[i] == RelaidShdr(e, m, i) && f.cfg == e.cfg && f.names == e.names
  {
  }

  lemma RelaidKept(e: Elf, m: Move, i: nat)
    requires 0 < i < |e.shdrs| && !Has(m.p.rs, NameOf(e.names, e.shdrs[i]))
    ensures RelaidShdr(e, m, i) == e.shdrs[i].(offset := e.shdrs[i].offset + m.d)
  {
  }

  lemma StagedDynamic(e: Elf, f: Elf, m: Move, d: nat, n: nat)
    requires Relaid(e, f, m) && 0 < d < |e.shdrs| && NameOf(e.names, e.shdrs[d]) == DYNAMIC && Has(m.p.rs, DYNAMIC)
    requires Terminated(e.cfg, Get(m.p.rs, DYNAMIC), 0, n)
    requires forall i :: 0 <= i < |e.shdrs| && IsStaged(e, m.p.rs, i) ==> e.shdrs[i].stype != SHT_NOBITS
    ensures var s := RelaidShdr(e, m, d);
            s.stype != SHT_NOBITS && Terminated(e.cfg, f.file, s.offset, n)
            && TableSize(n + 1, e.cfg.DynSize()) <= s.size
            && EntriesMoved(e.cfg, Get(m.p.rs, DYNAMIC), 0, f.file, s.offset, n)
  {
    var j := IndexOf(m.p.rs, DYNAMIC);
    assert IsStaged(e, m.p.rs, d);
    StagedTable(e.cfg, m.p, j, f.file, n);
  }

  lemma StagedTable(c: Config, p: Plan, j: nat, f: seq<Byte>, n: nat)
    requires j < |p.rs| && InPlace(c, p.rs, p.cur, j, f) && Terminated(c, p.rs[j].data, 0, n)
    ensures Terminated(c, f, NewSpot(c, p, j).offset, n)
    ensures EntriesMoved(c, p.rs[j].data, 0, f, NewSpot(c, p, j).offset, n)
  {
    var y := p.cur + Space(c, p.rs, j);
    var len := |p.rs[j].data|;
    assert p.rs[j].data[0..len] == p.rs[j].data;
    SubBlock(p.rs[j].data, 0, f, y, len, 0, TableSize(n + 1, c.DynSize()));
    TerminatedMoved(c, p.rs[j].data, 0, f, y, n);
  }

  lemma KeptTable(e: Elf, f: Elf, m: Move, d: nat, n: nat)
    requires WellFormed(e) && Relaid(e, f, m) && d == Find(e.names, e.shdrs, DYNAMIC) > 0
    requires !Has(m.p.rs, DYNAMIC) && DynamicReady(e, n)
    ensures Terminated(e.cfg, f.file, e.shdrs[d].offset + m.d, n)
    ensures EntriesMoved(e.cfg, e.file, e.shdrs[d].offset, f.file, e.shdrs[d].offset + m.d, n)
  {
    hide PhdrsRelaid, HeadersFit, Laid, EntriesMoved, DecodeEhdr, DistinctNames, LinksInRange;
    var x, len := e.shdrs[d].offset, TableSize(n + 1, e.cfg.DynSize());
    assert len > 0;
    assert InBody(e.shdrs[d], x) && !IsStaged(e, m.p.rs, d);
    OwnBodyKept(e, m.p.rs, d, x, x + len);
    CarriedBlock(e, f.file, m, x, x + len);
    TerminatedMoved(e.cfg, e.file, x, f.file, x + m.d, n);
  }

  /** The body of a section that is not staged is in no staged body. */
  lemma OwnBodyKept(e: Elf, rs: seq<Entry>, d: nat, lo: int, hi: int)
    requires WellFormed(e) && d < |e.shdrs| && !IsStaged(e, rs, d) && e.shdrs[d].stype != SHT_NOBITS
    requires e.shdrs[d].offset <= lo && hi <= BodyEnd(e.shdrs[d])
    ensures forall k :: lo <= k < hi ==> !InStagedBody(e, rs, k)
  {
    forall k | lo <= k < hi ensures !InStagedBody(e, rs, k) {
      assert InBody(e.shdrs[d], k);
    }
  }

  /** The relaid state is ready for rewriteHeaders. */
  lemma RelaidReady(e: Elf, f: Elf, m: Move, n: nat)
    requires WellFormed(e) && NullStored(e) && Relaid(e, f, m) && DynamicStaged(e, m.p.rs, n)
    requires forall i :: 0 <= i < |e.shdrs| && IsStaged(e, m.p.rs, i) ==> e.shdrs[i].stype != SHT_NOBITS
    ensures WellFormed(f) && NullStored(f) && DynamicReady(f, n)
  {
    RelaidWellFormed(e, f, m);
    RelaidNullStored(e, f, m);
    RelaidDynamic(e, f, m, n);
  }

  /** Every entry before DT_NULL, staged or in the file, calls only for sections that exist. */
  ghost predicate StateResolves(e: Elf, rs: seq<Entry>, n: nat) {
    Find(e.names, e.shdrs, DYNAMIC) > 0 ==>
      TableResolves(e.cfg, e.names, e.shdrs, OldTable(e, rs).0, OldTable(e, rs).1, n)
  }

  /** Moving the sections changes nothing about that. */
  lemma RelaidResolves(e: Elf, f: Elf, m: Move, n: nat)
    requires WellFormed(e) && Relaid(e, f, m) && DynamicStaged(e, m.p.rs, n)
    requires forall i :: 0 <= i < |e.shdrs| && IsStaged(e, m.p.rs, i) ==> e.shdrs[i].stype != SHT_NOBITS
    ensures DynamicReady(f, n) && (DynamicResolves(f, n) <==> StateResolves(e, m.p.rs, n))
  {
    hide WellFormed, Relaid, DynamicReady, DynamicResolves, TableResolves, DynEntry, DynamicPlace, OldTable,
         DynamicStaged, IsStaged;
    RelaidDynamic(e, f, m, n);
    ResolvesIs(f, n);
    RelaidFound(e, f, m);
    RelaidNames(e, f, m, DYNAMIC);
    if Find(e.names, e.shdrs, DYNAMIC) > 0 {
      var a, x := OldTable(e, m.p.rs).0, OldTable(e, m.p.rs).1;
      forall i | 0 <= i < n ensures EqualEntries(e.cfg, a, x, f.file, DynamicPlace(f), i) {
        assert EntryMoved(e.cfg, a, x, f.file, DynamicPlace(f), i);
      }
      ResolvesAlike(e.cfg, e.names, e.shdrs, f.shdrs, a, x, f.file, DynamicPlace(f), n);
    }
  }

  lemma RelaidFound(e: Elf, f: Elf, m: Move)
    requires Relaid(e, f, m)
    ensures SameFound(e.names, e.shdrs, f.shdrs) && f.cfg == e.cfg && f.names == e.names
  {
    hide Relaid;
    RelaidCfg(e, f, m);
    forall name ensures (Find(e.names, e.shdrs, name) == 0) == (Find(e.names, f.shdrs, name) == 0) {
      RelaidNames(e, f, m, name);
    }
  }

  lemma RelaidCfg(e: Elf, f: Elf, m: Move)
    requires Relaid(e, f, m)
    ensures f.cfg == e.cfg && f.names == e.names
  {
  }
}
