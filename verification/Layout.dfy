/**
 * The two layouts (patchelf.cc: rewriteSectionsLibrary, rewriteSectionsExecutable) up to the
 * point where the headers are rewritten, and that each of them is a relayout.
 */
module Layout {
  import opened Bytes
  import opened Codec
  import opened ElfTypes
  import opened Rounding
  import opened Staging
  import opened Elf
  import opened Links
  import opened Placement
  import opened Tables
  import opened Steps
  import opened Relayout

  /** What the layouts rely on in the staged bodies. */
  ghost predicate StagedOk(e: Elf, rs: seq<Entry>) {
    && Sorted(rs) && SmallData(rs) && AllFound(e, rs)
    && (forall i :: 0 <= i < |e.shdrs| && IsStaged(e, rs, i) ==> e.shdrs[i].stype != SHT_NOBITS)
  }

  // ----- from the prepared state to the relaid one -----

  /** Room has been made: old sections are `d` further on, and their bytes from `cut` on with them. */
  ghost predicate Prepared(e: Elf, g: Elf, m: Move) {
    && g.cfg == e.cfg && g.names == e.names
    && |e.file| >= e.cfg.EhdrSize() && |g.file| >= |e.file| + m.d
    && ShdrsMoved(e.shdrs, g.shdrs, m.d)
    && |g.phdrs| == |e.phdrs| + |m.extra|
    && (forall i :: 0 <= i < |e.phdrs| ==>
          g.phdrs[i] == if m.d == 0 then e.phdrs[i] else ShiftPhdr(e.cfg, e.phdrs[i], m.d))
    && g.phdrs[|e.phdrs|..] == m.extra
    && (forall i :: 0 <= i < |m.extra| ==> m.extra[i].ptype == PT_LOAD)
    && (forall k :: m.cut <= k < |e.file| ==> g.file[k + m.d] == e.file[k])
    && HeadersFit(g)
  }

  ghost predicate ShdrsMoved(a: seq<Shdr>, b: seq<Shdr>, d: nat) {
    |b| == |a| && forall i :: 0 <= i < |a| ==> b[i] == if i == 0 then a[i] else a[i].(offset := a[i].offset + d)
  }

  /** The old places of staged sections are their bodies. */
  lemma OldIsBody(e: Elf, rs: seq<Entry>, g: Elf, d: nat, k: int)
    requires WellFormed(e) && StagedOk(e, rs) && Distinct(rs)
    requires g.names == e.names && ShdrsMoved(e.shdrs, g.shdrs, d)
    requires InAnyOld(g, rs, |rs|, k + d)
    ensures InStagedBody(e, rs, k)
  {
    var j :| 0 <= j < |rs| && InOld(g, rs[j].name, k + d);
    var i := Find(g.names, g.shdrs, rs[j].name);
    assert NameOf(e.names, e.shdrs[i]) == rs[j].name;
    IndexUnique(rs, j);
    assert IsStaged(e, rs, i) && InBody(e.shdrs[i], k);
  }

  /** Staged sections have their old places inside the file, moved or not. */
  lemma OldPlacesInFile(e: Elf, rs: seq<Entry>, g: Elf, d: nat)
    requires WellFormed(e) && StagedOk(e, rs) && Distinct(rs)
    requires g.cfg == e.cfg && g.names == e.names && |g.file| >= |e.file| + d && ShdrsMoved(e.shdrs, g.shdrs, d)
    ensures DistinctNames(g.names, g.shdrs) && AllFound(g, rs) && OldInFile(g, rs)
  {
    forall i, j | 0 <= i < j < |g.shdrs| ensures NameOf(g.names, g.shdrs[i]) != NameOf(g.names, g.shdrs[j]) {
      assert NameOf(e.names, e.shdrs[i]) != NameOf(e.names, e.shdrs[j]);
    }
    forall j {:trigger Find(g.names, g.shdrs, rs[j].name)} | 0 <= j < |rs|
      ensures var i := Find(g.names, g.shdrs, rs[j].name);
              i > 0 && (g.shdrs[i].size > 0 ==>
                          g.cfg.EhdrSize() <= g.shdrs[i].offset && BodyEnd(g.shdrs[i]) <= |g.file|)
    {
      FindSame(e.names, e.shdrs, g.shdrs, rs[j].name);
      var i := Find(e.names, e.shdrs, rs[j].name);
      IndexUnique(rs, j);
      assert IsStaged(e, rs, i);
      if e.shdrs[i].size > 0 {
        assert InBody(e.shdrs[i], e.shdrs[i].offset) && InBody(e.shdrs[i], BodyEnd(e.shdrs[i]) - 1);
      }
    }
  }

  lemma PlacedShdrsRelaid(e: Elf, g: Elf, shdrs: seq<Shdr>, m: Move)
    requires g.cfg == e.cfg && g.names == e.names && ShdrsMoved(e.shdrs, g.shdrs, m.d)
    requires ShdrsPlaced(g, m.p, |m.p.rs|, shdrs)
    ensures |shdrs| == |e.shdrs| && forall i :: 0 <= i < |shdrs| ==> shdrs[i] == RelaidShdr(e, m, i)
  {
    forall i | 0 <= i < |shdrs| ensures shdrs[i] == RelaidShdr(e, m, i) {
      assert shdrs[i] == PlacedShdr(g, m.p, |m.p.rs|, i);
      assert NameOf(g.names, g.shdrs[i]) == NameOf(e.names, e.shdrs[i]);
    }
  }

  lemma PlacedPhdrsRelaid(e: Elf, g: Elf, m: Move)
    requires Prepared(e, g, m) && Distinct(m.p.rs)
    ensures PhdrsRelaid(e, PhdrsPlaced(g, m.p, |m.p.rs|), m)
  {
    var r := PhdrsPlaced(g, m.p, |m.p.rs|);
    forall i | 0 <= i < |g.phdrs| ensures r[i] == PhdrAfter(g.cfg, m.p, |m.p.rs|, g.phdrs[i]) {
      PhdrPlaced(g, m.p, |m.p.rs|, i);
    }
    forall i | 0 <= i < |m.extra| ensures r[|e.phdrs|..][i] == m.extra[i] {
      assert g.phdrs[|e.phdrs| + i] == g.phdrs[|e.phdrs|..][i];
    }
  }

  /** New spots fit their fields, so the relaid headers do. */
  lemma SpotFits(g: Elf, p: Plan, j: nat)
    requires Placeable(g, p) && j < |p.rs|
    ensures var to := NewSpot(g.cfg, p, j);
            to.offset < g.cfg.Limit() && to.addr < g.cfg.Limit() && to.size < g.cfg.Limit()
  {
    SpaceApart(g.cfg, p.rs, j, |p.rs|);
  }

  lemma PlacedHeadersFit(g: Elf, b: Elf, p: Plan)
    requires HeadersFit(g) && Placeable(g, p) && Placed(g, b, p)
    ensures HeadersFit(b)
  {
    forall i | 0 <= i < |b.shdrs| ensures ShdrOk(b.cfg, b.shdrs[i]) {
      var j := IndexOf(p.rs, NameOf(g.names, g.shdrs[i]));
      if j < |p.rs| { SpotFits(g, p, j); }
      assert b.shdrs[i] == PlacedShdr(g, p, |p.rs|, i);
    }
    forall i | 0 <= i < |b.phdrs| ensures PhdrOk(b.cfg, b.phdrs[i]) {
      PhdrPlaced(g, p, |p.rs|, i);
      if Has(p.rs, INTERP) { SpotFits(g, p, IndexOf(p.rs, INTERP)); }
      if Has(p.rs, DYNAMIC) { SpotFits(g, p, IndexOf(p.rs, DYNAMIC)); }
    }
  }

  lemma NotInNew(c: Config, rs: seq<Entry>, cur: nat, k: int)
    requires SmallData(rs) && (k < cur || cur + Space(c, rs, |rs|) <= k)
    ensures !InAnyNew(c, rs, cur, |rs|, k)
  {
    forall j | 0 <= j < |rs| ensures !InNew(c, rs, cur, j, k) {
      SpaceApart(c, rs, j, |rs|);
    }
  }

  lemma NotInOld(e: Elf, g: Elf, rs: seq<Entry>, d: nat, k: int)
    requires WellFormed(e) && StagedOk(e, rs) && Distinct(rs)
    requires g.names == e.names && ShdrsMoved(e.shdrs, g.shdrs, d) && !InStagedBody(e, rs, k)
    ensures !InAnyOld(g, rs, |rs|, k + d)
  {
    if InAnyOld(g, rs, |rs|, k + d) {
      OldIsBody(e, rs, g, d, k);
    }
  }

  /** A kept byte is in no old place, wherever the old places have moved. */
  ghost predicate OldsAreStaged(e: Elf, g: Elf, rs: seq<Entry>, d: nat) {
    forall k :: !InStagedBody(e, rs, k) ==> !InAnyOld(g, rs, |rs|, k + d)
  }

  lemma OldsStaged(e: Elf, g: Elf, rs: seq<Entry>, d: nat)
    requires WellFormed(e) && StagedOk(e, rs) && Distinct(rs)
    requires g.names == e.names && ShdrsMoved(e.shdrs, g.shdrs, d)
    ensures OldsAreStaged(e, g, rs, d)
  {
    forall k | !InStagedBody(e, rs, k) ensures !InAnyOld(g, rs, |rs|, k + d) {
      NotInOld(e, g, rs, d, k);
    }
  }

  /** It is in no new place either, so it is carried. */
  lemma PlacedCarries(e: Elf, g: Elf, b: Elf, m: Move)
    requires Placeable(g, m.p) && Placed(g, b, m.p) && g.cfg == e.cfg && NewApart(e, m)
    requires |g.file| >= |e.file| + m.d && OldsAreStaged(e, g, m.p.rs, m.d)
    requires forall k :: m.cut <= k < |e.file| ==> g.file[k + m.d] == e.file[k]
    ensures Carried(e, b.file, m)
  {
    hide Find, Space, DistinctNames, InAnyNew, InAnyOld, InStagedBody, Placed, InPlace;
    PlacedBytes(g, b, m.p);
    forall k | m.cut <= k < |e.file| && !InStagedBody(e, m.p.rs, k) ensures b.file[k + m.d] == e.file[k] {
      NotInNew(e.cfg, m.p.rs, m.p.cur, k + m.d);
    }
  }

  /** Rewriting the ELF header does not reach the bodies. */
  lemma LaidBehindHeader(c: Config, rs: seq<Entry>, cur: nat, b: seq<Byte>, f: seq<Byte>)
    requires |f| == |b| && c.EhdrSize() <= cur && Laid(c, rs, |rs|, cur, b)
    requires forall k :: c.EhdrSize() <= k < |b| ==> f[k] == b[k]
    ensures Laid(c, rs, |rs|, cur, f)
  {
    forall j | 0 <= j < |rs| ensures InPlace(c, rs, cur, j, f) {
      assert InPlace(c, rs, cur, j, b);
    }
  }

  lemma PlacedSize(g: Elf, b: Elf, p: Plan)
    requires Placeable(g, p) && Placed(g, b, p)
    ensures |b.file| == |g.file|
  {
    PlacedBytes(g, b, p);
  }

  /** No old or new place of a staged body reaches into the ELF header. */
  lemma PlacedKeepsHdr(g: Elf, b: Elf, p: Plan)
    requires Placeable(g, p) && Placed(g, b, p)
    ensures |b.file| >= b.cfg.EhdrSize() && Hdr(b) == Hdr(g)
  {
    PlacedBytes(g, b, p);
    forall k | 0 <= k < g.cfg.EhdrSize() ensures b.file[k] == g.file[k] {
      NotInNew(g.cfg, p.rs, p.cur, k);
      OldBehindHeader(g, p.rs, k);
    }
    assert b.file[..g.cfg.EhdrSize()] == g.file[..g.cfg.EhdrSize()];
  }

  lemma OldBehindHeader(g: Elf, rs: seq<Entry>, k: int)
    requires |g.file| >= g.cfg.EhdrSize() && AllFound(g, rs) && OldInFile(g, rs) && k < g.cfg.EhdrSize()
    ensures !InAnyOld(g, rs, |rs|, k)
  {
    forall j | 0 <= j < |rs| ensures !InOld(g, rs[j].name, k) {
      var i := Find(g.names, g.shdrs, rs[j].name);
      assert i > 0;
    }
  }

  /** Placing the staged bodies in a prepared state, and moving e_phoff, relays the file. */
  lemma PlacedIsRelaid(e: Elf, g: Elf, b: Elf, f: Elf, m: Move)
    requires WellFormed(e) && StagedOk(e, m.p.rs) && Distinct(m.p.rs) && Prepared(e, g, m)
    requires Placeable(g, m.p) && Placed(g, b, m.p)
    requires f == b.(file := f.file) && |f.file| == |b.file| >= e.cfg.EhdrSize() && |f.phdrs| > 0
    requires forall k :: e.cfg.EhdrSize() <= k < |b.file| ==> f.file[k] == b.file[k]
    requires Hdr(f) == Hdr(e).(phoff := Hdr(f).phoff, shoff := Hdr(e).shoff + m.d, phnum := |f.phdrs|)
    requires AreaClear(e, f, m)
    ensures Relaid(e, f, m)
  {
    assert Hdr(f).phoff <= PhEnd(f);
    OldsStaged(e, g, m.p.rs, m.d);
    PlacedCarries(e, g, b, m);
    PlacedShdrsRelaid(e, g, b.shdrs, m);
    PlacedPhdrsRelaid(e, g, m);
    PlacedHeadersFit(g, b, m.p);
    LaidBehindHeader(e.cfg, m.p.rs, m.p.cur, b.file, f.file);
  }

  // ----- every byte of the relaid file -----

  /** What a byte outside the new bodies is: erased, an old byte moved, or cleared. */
  ghost function RefilledByte(e: Elf, m: Move, k: int): Byte {
    if InStagedBody(e, m.p.rs, k - m.d) then 'X'
    else if m.cut <= k - m.d < |e.file| then e.file[k - m.d]
    else '\0'
  }

  /** From `from` on every byte is in a new body or as that says. */
  ghost predicate Refilled(e: Elf, m: Move, from: nat, f: seq<Byte>) {
    forall k :: from <= k < |f| && !InAnyNew(e.cfg, m.p.rs, m.p.cur, |m.p.rs|, k) ==> f[k] == RefilledByte(e, m, k)
  }

  /** The body of a staged section is an old place, wherever that has moved. */
  lemma StagedIsOld(e: Elf, rs: seq<Entry>, g: Elf, d: nat, k: int)
    requires WellFormed(e) && StagedOk(e, rs) && Distinct(rs)
    requires g.names == e.names && ShdrsMoved(e.shdrs, g.shdrs, d) && InStagedBody(e, rs, k)
    ensures InAnyOld(g, rs, |rs|, k + d)
  {
    hide BodiesInFile, BodiesDisjoint, LinksInRange, Counts, TablesApart;
    var i :| 0 <= i < |e.shdrs| && IsStaged(e, rs, i) && InBody(e.shdrs[i], k);
    var name := NameOf(e.names, e.shdrs[i]);
    var j := IndexOf(rs, name);
    FindUnique(e.names, e.shdrs, i);
    FindSame(e.names, e.shdrs, g.shdrs, name);
    assert InOld(g, rs[j].name, k + d);
  }

  lemma PlacedRefilled(e: Elf, g: Elf, b: Elf, f: Elf, m: Move, from: nat)
    requires WellFormed(e) && StagedOk(e, m.p.rs) && Distinct(m.p.rs)
    requires g.cfg == e.cfg && g.names == e.names && ShdrsMoved(e.shdrs, g.shdrs, m.d)
    requires Placeable(g, m.p) && Placed(g, b, m.p) && |f.file| == |b.file|
    requires forall k :: from <= k < |b.file| ==> f.file[k] == b.file[k]
    requires forall k :: from <= k < |g.file| ==>
      g.file[k] == if m.cut <= k - m.d < |e.file| then e.file[k - m.d] else '\0'
    ensures Refilled(e, m, from, f.file)
  {
    hide WellFormed, StagedOk, Placed, InAnyNew, InAnyOld, InStagedBody, ShdrsMoved, Distinct, InPlace;
    PlacedBytes(g, b, m.p);
    forall k | from <= k < |f.file| && !InAnyNew(e.cfg, m.p.rs, m.p.cur, |m.p.rs|, k)
      ensures f.file[k] == RefilledByte(e, m, k)
    {
      if InStagedBody(e, m.p.rs, k - m.d) {
        StagedIsOld(e, m.p.rs, g, m.d, k - m.d);
      } else {
        NotInOld(e, g, m.p.rs, m.d, k - m.d);
      }
    }
  }

  // ----- what a rewrite relies on -----

  /** Common to both layouts: a well-formed file with usable staged bodies, and room for one more segment. */
  ghost predicate Ready(e: Elf, rs: seq<Entry>, n: nat) {
    && WellFormed(e) && NullStored(e) && StagedOk(e, rs) && DynamicStaged(e, rs, n)
    && Hdr(e).phnum + 1 < HALF
  }

  /** Offsets are small enough that shifting them overflows nothing. */
  ghost predicate OffsetsSmall(e: Elf) {
    && (forall i :: 0 <= i < |e.phdrs| ==> e.phdrs[i].offset < 0x8000_0000)
    && (forall i :: 0 <= i < |e.shdrs| ==> e.shdrs[i].offset < 0x8000_0000)
  }

  /**
   * A section that the scan can end at, because no section that cannot move comes before it, and whose
   * address and offset agree modulo the page size, has the larger address.
   */
  ghost predicate AddressesAbove(e: Elf) {
    forall i :: 1 <= i < |e.shdrs| ==> FixedBefore(e, i) || AddressAbove(e.cfg, e.shdrs[i])
  }

  predicate AddressAbove(c: Config, s: Shdr) {
    s.addr >= s.offset || s.addr % c.PageSize() != s.offset % c.PageSize()
  }

  ghost predicate FixedBefore(e: Elf, i: nat)
    requires i < |e.shdrs|
  {
    exists j :: 1 <= j < |e.shdrs| && Fixed(e, j) && e.shdrs[j].offset < e.shdrs[i].offset
  }

  predicate Fixed(e: Elf, j: nat)
    requires j < |e.shdrs|
  {
    e.shdrs[j].stype == SHT_PROGBITS && NameOf(e.names, e.shdrs[j]) != INTERP
  }

  ghost predicate LibraryReady(e: Elf, rs: seq<Entry>, maxSize: nat, n: nat) {
    && Ready(e, rs, n) && |e.file| <= maxSize < 0x8000_0000 && AreaAddressed(e, LibrarySpace(e, rs))
  }

  ghost predicate ExecReady(e: Elf, rs: seq<Entry>, maxSize: nat, n: nat) {
    && Ready(e, rs, n) && |e.file| <= maxSize < 0x8000_0000
    && NobitsPast(e, rs) && OffsetsSmall(e) && AddressesAbove(e) && Hdr(e).phoff == e.cfg.EhdrSize()
  }

  lemma StagedAfterSort(e: Elf, f: Elf, p: seq<nat>, inv: seq<nat>, rs: seq<Entry>, j: nat)
    requires Resolvable(e) && SortStep(e, f, p, inv) && j < |f.shdrs|
    ensures IsStaged(f, rs, j) <==> IsStaged(e, rs, inv[j])
    ensures f.shdrs[j] == Relinked(e.shdrs[inv[j]], p)
  {
    NullStaysFirst(e.shdrs, f.shdrs, p, inv);
    if j > 0 { BijectionInjective(p, inv, |e.shdrs|, j, 0); }
  }

  /** Sorting the section headers keeps everything the executable layout relies on. */
  lemma SortKeepsStaged(e: Elf, f: Elf, p: seq<nat>, inv: seq<nat>, rs: seq<Entry>)
    requires Resolvable(e) && SortStep(e, f, p, inv) && StagedOk(e, rs)
    ensures StagedOk(f, rs)
  {
    forall j {:trigger Find(f.names, f.shdrs, rs[j].name)} | 0 <= j < |rs|
      ensures Find(f.names, f.shdrs, rs[j].name) > 0
    {
      FoundAfterSort(e, f, p, inv, rs[j].name);
    }
    forall i | 0 <= i < |f.shdrs| && IsStaged(f, rs, i) ensures f.shdrs[i].stype != SHT_NOBITS {
      StagedAfterSort(e, f, p, inv, rs, i);
    }
  }

  lemma SortKeepsLayout(e: Elf, f: Elf, p: seq<nat>, inv: seq<nat>, rs: seq<Entry>)
    requires Resolvable(e) && SortStep(e, f, p, inv)
    requires OffsetsSmall(e) && AddressesAbove(e)
    ensures OffsetsSmall(f) && AddressesAbove(f) && ByOffset(f.shdrs)
  {
    hide Resolvable, SortStep, IsStaged, AddressesAbove;
    SortSame(e, f, p, inv);
    SortKeepsAddresses(e, f, p, inv);
    forall j | 0 <= j < |f.shdrs|
      ensures inv[j] < |e.shdrs| && (IsStaged(f, rs, j) <==> IsStaged(e, rs, inv[j]))
      ensures f.shdrs[j] == Relinked(e.shdrs[inv[j]], p)
      ensures j >= 1 ==> inv[j] >= 1
    {
      StagedAfterSort(e, f, p, inv, rs, j);
      NullNotFrom(e, f, p, inv, j);
    }
  }

  /** Section i of e, under the index that sorting gives it. */
  lemma PlaceAfterSort(e: Elf, f: Elf, p: seq<nat>, inv: seq<nat>, i: nat)
    requires Resolvable(e) && SortStep(e, f, p, inv) && 1 <= i < |e.shdrs|
    ensures |p| == |e.shdrs| == |f.shdrs| && 1 <= p[i] < |f.shdrs|
    ensures f.shdrs[p[i]].offset == e.shdrs[i].offset && f.shdrs[p[i]].stype == e.shdrs[i].stype
    ensures NameOf(f.names, f.shdrs[p[i]]) == NameOf(e.names, e.shdrs[i])
  {
    NullStaysFirst(e.shdrs, f.shdrs, p, inv);
    BijectionInjective(p, inv, |e.shdrs|, i, 0);
    assert f.shdrs[p[i]] == Relinked(e.shdrs[i], p);
  }

  lemma SortKeepsNobits(e: Elf, f: Elf, p: seq<nat>, inv: seq<nat>, rs: seq<Entry>)
    requires Resolvable(e) && SortStep(e, f, p, inv) && NobitsPast(e, rs)
    ensures NobitsPast(f, rs)
  {
    hide Resolvable, SortStep, IsStaged;
    SortSame(e, f, p, inv);
    forall j | 0 <= j < |f.shdrs| && f.shdrs[j].stype == SHT_NOBITS
      ensures StopBefore(f, j) || StagedAllBefore(f, rs, j)
    {
      var i := inv[j];
      StagedAfterSort(e, f, p, inv, rs, j);
      if StopBefore(e, i) {
        var x :| 1 <= x < |e.shdrs| && StopsNear(e, x) && e.shdrs[x].offset < e.shdrs[i].offset;
        PlaceAfterSort(e, f, p, inv, x);
        assert StopsNear(f, p[x]);
      } else {
        forall y | 0 <= y < |f.shdrs| && IsStaged(f, rs, y) ensures f.shdrs[y].offset < f.shdrs[j].offset {
          StagedAfterSort(e, f, p, inv, rs, y);
        }
      }
    }
  }

  lemma SortKeepsAddresses(e: Elf, f: Elf, p: seq<nat>, inv: seq<nat>)
    requires Resolvable(e) && SortStep(e, f, p, inv) && AddressesAbove(e)
    ensures AddressesAbove(f)
  {
    hide Resolvable, SortStep, IsStaged, NameOf;
    SortSame(e, f, p, inv);
    forall j | 1 <= j < |f.shdrs| ensures FixedBefore(f, j) || AddressAbove(f.cfg, f.shdrs[j]) {
      var i := inv[j];
      NullNotFrom(e, f, p, inv, j);
      StagedAfterSort(e, f, p, inv, [], j);
      if FixedBefore(e, i) {
        var x :| 1 <= x < |e.shdrs| && Fixed(e, x) && e.shdrs[x].offset < e.shdrs[i].offset;
        PlaceAfterSort(e, f, p, inv, x);
        assert Fixed(f, p[x]);
      }
    }
  }

  lemma SortSame(e: Elf, f: Elf, p: seq<nat>, inv: seq<nat>)
    requires SortStep(e, f, p, inv)
    ensures f.phdrs == e.phdrs && f.cfg == e.cfg && f.names == e.names && |f.file| == |e.file| >= e.cfg.EhdrSize()
    ensures forall k :: e.cfg.EhdrSize() <= k < |e.file| ==> f.file[k] == e.file[k]
    ensures |f.shdrs| == |e.shdrs| == |p| == |inv| && ByOffset(f.shdrs)
    ensures forall j :: 0 <= j < |inv| ==> inv[j] < |e.shdrs|
    ensures forall j :: 0 <= j < |e.shdrs| ==> e.shdrs[j].link < |p| && (IsRel(e.shdrs[j]) ==> e.shdrs[j].info < |p|)
  {
  }

  lemma NullNotFrom(e: Elf, f: Elf, p: seq<nat>, inv: seq<nat>, j: nat)
    requires Resolvable(e) && SortStep(e, f, p, inv) && j < |f.shdrs|
    ensures j >= 1 ==> inv[j] >= 1
  {
    NullStaysFirst(e.shdrs, f.shdrs, p, inv);
    if j > 0 { BijectionInjective(p, inv, |e.shdrs|, j, 0); }
  }

  lemma SortKeepsDynamic(e: Elf, f: Elf, p: seq<nat>, inv: seq<nat>, rs: seq<Entry>, n: nat)
    requires WellFormed(e) && SortStep(e, f, p, inv) && DynamicStaged(e, rs, n)
    ensures DynamicStaged(f, rs, n)
  {
    if !Has(rs, DYNAMIC) {
      FoundAfterSort(e, f, p, inv, DYNAMIC);
      TablesKeepDynamic(e, e.(file := f.file), n);
    }
  }

  /** If the scan stages .dynamic, it stages the table it has. */
  lemma ScanKeepsDynamic(e: Elf, rs: seq<Entry>, b: nat, r: seq<Entry>, n: nat)
    requires WellFormed(e) && 1 <= b <= |e.shdrs| && ReadableBefore(e, b)
    requires StagedBefore(e, rs, b, r) && DynamicStaged(e, rs, n)
    ensures DynamicStaged(e, r, n)
  {
    hide WellFormed, StagedBefore, Terminated;
    StagedBeforeIs(e, rs, b, r, DYNAMIC);
    if Has(r, DYNAMIC) && !Has(rs, DYNAMIC) {
      var i :| 1 <= i < b && HasBody(e, i, DYNAMIC, Get(r, DYNAMIC));
      NamesDistinct(e);
      FindUnique(e.names, e.shdrs, i);
      ScannedTable(e, i, Get(r, DYNAMIC), n);
    }
  }

  lemma StagedBeforeIs(e: Elf, rs: seq<Entry>, b: nat, r: seq<Entry>, name: Name)
    requires 1 <= b <= |e.shdrs| && ReadableBefore(e, b) && StagedBefore(e, rs, b, r)
    ensures StagedAs(e, rs, b, r, name)
  {
  }

  lemma ScannedTable(e: Elf, i: nat, data: seq<Byte>, n: nat)
    requires 0 < i == Find(e.names, e.shdrs, DYNAMIC) && HasBody(e, i, DYNAMIC, data) && DynamicReady(e, n)
    ensures Terminated(e.cfg, data, 0, n)
  {
    var s, len := e.shdrs[i], TableSize(n + 1, e.cfg.DynSize());
    assert data[0..len] == e.file[s.offset..s.offset + len];
    TerminatedMoved(e.cfg, e.file, s.offset, data, 0, n);
  }

  // ----- libraries -----

  /** The file grown with zeros. */
  function Grown(file: seq<Byte>, size: nat): (f: seq<Byte>)
    requires |file| <= size
    ensures |f| == size
    ensures forall k :: 0 <= k < size ==> f[k] == if k < |file| then file[k] else '\0'
  {
    file + Fill(size - |file|, '\0')
  }

  /** Room at the end of the file, and the segment that maps it. */
  function Extended(e: Elf, startOffset: nat, startPage: nat, space: nat): Elf
    requires e.cfg.EhdrSize() <= |e.file| <= startOffset && Hdr(e).phnum + 1 < HALF
  {
    e.(file := WithHdr(e.cfg, Grown(e.file, startOffset + space),
                       HdrAt(e.cfg, e.file).(phnum := Hdr(e).phnum + 1)),
       phdrs := e.phdrs + [LoadSegment(e.cfg, startOffset, startPage, space)])
  }

  /** The largest of the segments' ends, each rounded up to a page in 32 bits. */
  function LastPage(c: Config, phdrs: seq<Phdr>, n: nat): nat
    requires n <= |phdrs|
  {
    if n == 0 then 0
    else
      var page := RoundUp(phdrs[n - 1].vaddr + phdrs[n - 1].memsz, c.PageSize());
      if page > LastPage(c, phdrs, n - 1) then page else LastPage(c, phdrs, n - 1)
  }

  /** Segments end low enough for 32-bit rounding to a page. */
  ghost predicate AddressesSmall(c: Config, phdrs: seq<Phdr>) {
    forall i :: 0 <= i < |phdrs| ==> phdrs[i].vaddr + phdrs[i].memsz <= TWO_TO_32 - c.PageSize()
  }

  /** No segment reaches past `page`. */
  ghost predicate SegmentsBelow(phdrs: seq<Phdr>, n: nat, page: nat)
    requires n <= |phdrs|
  {
    forall i :: 0 <= i < n ==> phdrs[i].vaddr + phdrs[i].memsz <= page
  }

  /**
   * The last page is a multiple of the page size, and no existing segment reaches it, if and only if
   * none of them ends so high that the rounding wraps around.
   */
  lemma {:induction false} LastPageAbove(c: Config, phdrs: seq<Phdr>, n: nat)
    requires n <= |phdrs|
    ensures LastPage(c, phdrs, n) <= TWO_TO_32 - c.PageSize() && IsMultiple(LastPage(c, phdrs, n), c.PageSize())
    ensures SegmentsBelow(phdrs, n, LastPage(c, phdrs, n)) <==> SegmentsBelow(phdrs, n, TWO_TO_32 - c.PageSize())
    decreases n
  {
    hide RoundUp;
    if n == 0 {
      assert 0 == 0 * c.PageSize();
    } else {
      var end := phdrs[n - 1].vaddr + phdrs[n - 1].memsz;
      LastPageAbove(c, phdrs, n - 1);
      RoundUpBelow(end, c.PageSize());
      if end <= TWO_TO_32 - c.PageSize() {
        RoundUpPads(end, c.PageSize());
      }
    }
  }

  /** And it is the first such page. */
  lemma {:induction false} LastPageLeast(c: Config, phdrs: seq<Phdr>, n: nat, p: nat)
    requires n <= |phdrs| && SegmentsBelow(phdrs, n, TWO_TO_32 - c.PageSize())
    requires IsMultiple(p, c.PageSize()) && SegmentsBelow(phdrs, n, p)
    ensures LastPage(c, phdrs, n) <= p
    decreases n
  {
    hide RoundUp;
    if n > 0 {
      LastPageLeast(c, phdrs, n - 1, p);
      RoundUpIsLeastMultiple(phdrs[n - 1].vaddr + phdrs[n - 1].memsz, c.PageSize(), Times(c.PageSize()));
    }
  }

  /** Space for the program header table with one more entry and for the staged bodies. */
  function LibrarySpace(e: Elf, rs: seq<Entry>): nat {
    TableSize(|e.phdrs| + 1, e.cfg.PhdrSize()) + Space(e.cfg, rs, |rs|)
  }

  ghost function LibraryPlan(e: Elf, rs: seq<Entry>, startOffset: nat, startPage: nat): Plan {
    Plan(rs, startOffset + TableSize(|e.phdrs| + 1, e.cfg.PhdrSize()), startPage, startOffset)
  }

  ghost function LibraryMove(e: Elf, rs: seq<Entry>, startOffset: nat, startPage: nat): Move {
    Move(LibraryPlan(e, rs, startOffset, startPage), 0, e.cfg.EhdrSize(),
         [LoadSegment(e.cfg, startOffset, startPage, LibrarySpace(e, rs))])
  }

  /** The class has addresses for a segment of this size behind the others. */
  ghost predicate AreaAddressed(e: Elf, space: nat) {
    LastPage(e.cfg, e.phdrs, |e.phdrs|) + space < e.cfg.Limit()
  }

  ghost predicate LibraryRoom(e: Elf, rs: seq<Entry>, startOffset: nat, startPage: nat) {
    && WellFormed(e) && StagedOk(e, rs) && Distinct(rs)
    && |e.file| <= startOffset && Hdr(e).phnum + 1 < HALF
    && startOffset + LibrarySpace(e, rs) <= 0x8000_0000 && startPage + LibrarySpace(e, rs) < e.cfg.Limit()
  }

  /**
   * The library rewrite succeeds: the grown file is not too large, and no dynamic entry calls for a
   * missing section.
   */
  ghost predicate LibraryFits(e: Elf, rs: seq<Entry>, maxSize: nat, n: nat) {
    Padded(|e.file|, e.cfg.PageSize()) + LibrarySpace(e, rs) <= maxSize && StateResolves(e, rs, n)
  }

  lemma LibraryStarts(e: Elf, rs: seq<Entry>, maxSize: nat, n: nat)
    requires LibraryReady(e, rs, maxSize, n)
    ensures |e.file| >= e.cfg.EhdrSize() && Hdr(e).phnum == |e.phdrs| && Hdr(e).phnum + 1 < HALF && e.phdrs != []
  {
  }

  lemma ExtendedIsPrepared(e: Elf, rs: seq<Entry>, startOffset: nat, startPage: nat)
    requires LibraryRoom(e, rs, startOffset, startPage)
    ensures var g := Extended(e, startOffset, startPage, LibrarySpace(e, rs));
            Prepared(e, g, LibraryMove(e, rs, startOffset, startPage))
            && Placeable(g, LibraryPlan(e, rs, startOffset, startPage))
  {
    var g := Extended(e, startOffset, startPage, LibrarySpace(e, rs));
    assert ShdrsMoved(e.shdrs, g.shdrs, 0);
    OldPlacesInFile(e, rs, g, 0);
  }

  /** The library layout: everything stays where it is, and the new area is past the old end. */
  lemma LibraryRelaid(e: Elf, rs: seq<Entry>, startOffset: nat, startPage: nat, b: Elf, f: Elf)
    requires LibraryRoom(e, rs, startOffset, startPage)
    requires var g := Extended(e, startOffset, startPage, LibrarySpace(e, rs));
             Placeable(g, LibraryPlan(e, rs, startOffset, startPage))
             && Placed(g, b, LibraryPlan(e, rs, startOffset, startPage))
    requires f == b.(file := f.file) && |b.file| >= e.cfg.EhdrSize()
    requires f.file == WithHdr(e.cfg, b.file, Hdr(b).(phoff := startOffset))
    ensures Relaid(e, f, LibraryMove(e, rs, startOffset, startPage))
    ensures Refilled(e, LibraryMove(e, rs, startOffset, startPage), e.cfg.EhdrSize(), f.file)
    ensures |f.file| == startOffset + LibrarySpace(e, rs)
  {
    hide StagedOk, LinksInRange, BodiesInFile, BodiesDisjoint, DecodeEhdr, Refilled;
    var g := Extended(e, startOffset, startPage, LibrarySpace(e, rs));
    var m := LibraryMove(e, rs, startOffset, startPage);
    ExtendedIsPrepared(e, rs, startOffset, startPage);
    PlacedKeepsHdr(g, b, m.p);
    forall i, k | 0 <= i < |e.shdrs| && !IsStaged(e, rs, i) && InBody(e.shdrs[i], k) ensures m.cut <= k {
      BodyInFile(e, i, k);
    }
    PlacedIsRelaid(e, g, b, f, m);
    PlacedRefilled(e, g, b, f, m, e.cfg.EhdrSize());
    PlacedSize(g, b, m.p);
  }

  // ----- executables: which sections move -----

  /** The scan stops at a section that cannot move, or after .dynstr. */
  predicate StopsAt(names: seq<Byte>, shdrs: seq<Shdr>, i: nat)
    requires 1 <= i < |shdrs|
  {
    || (shdrs[i].stype == SHT_PROGBITS && NameOf(names, shdrs[i]) != INTERP)
    || (i > 1 && NameOf(names, shdrs[i - 1]) == DYNSTR)
  }

  /** The first section from i on that stays: one where the scan stops, or the one after `last`. */
  function Boundary(names: seq<Byte>, shdrs: seq<Shdr>, i: nat, last: nat): (b: nat)
    requires 1 <= i && last < |shdrs|
    ensures i <= b && (i <= last + 1 ==> b <= last + 1)
    decreases last + 1 - i
  {
    if i > last || StopsAt(names, shdrs, i) then i else Boundary(names, shdrs, i + 1, last)
  }

  /** The last staged section among the first n, or 0. */
  function LastStaged(names: seq<Byte>, shdrs: seq<Shdr>, rs: seq<Entry>, n: nat): (i: nat)
    requires 1 <= n <= |shdrs|
    ensures i < n
    ensures i > 0 ==> Has(rs, NameOf(names, shdrs[i]))
    ensures forall j :: i < j < n ==> !Has(rs, NameOf(names, shdrs[j]))
    decreases n
  {
    if n == 1 then 0
    else if Has(rs, NameOf(names, shdrs[n - 1])) then n - 1
    else LastStaged(names, shdrs, rs, n - 1)
  }

  ghost predicate ReadableBefore(e: Elf, b: nat) {
    b <= |e.shdrs| && forall i :: 1 <= i < b ==> Readable(e.file, e.shdrs[i])
  }

  /** Staging the sections in the way: those from 1 to b - 1 that are not staged yet. */
  ghost function StageUpTo(e: Elf, rs: seq<Entry>, b: nat): seq<Entry>
    requires 1 <= b <= |e.shdrs| && ReadableBefore(e, b)
  {
    if b == 1 then rs
    else
      var r, name := StageUpTo(e, rs, b - 1), NameOf(e.names, e.shdrs[b - 1]);
      if Has(r, name) then r else Put(r, name, BodyOf(e.file, e.shdrs[b - 1]))
  }

  /** What staging changes: exactly the sections before b are added, with the bodies they have. */
  ghost predicate StagedBefore(e: Elf, rs: seq<Entry>, b: nat, r: seq<Entry>)
    requires 1 <= b <= |e.shdrs| && ReadableBefore(e, b)
  {
    && Sorted(r)
    && (forall i :: 1 <= i < b ==> Has(r, NameOf(e.names, e.shdrs[i])))
    && (forall name :: StagedAs(e, rs, b, r, name))
  }

  /** A name staged before keeps its body; a new one is that of a section before b, with the body it has. */
  ghost predicate StagedAs(e: Elf, rs: seq<Entry>, b: nat, r: seq<Entry>, name: Name)
    requires 1 <= b <= |e.shdrs| && ReadableBefore(e, b)
  {
    && (Has(rs, name) ==> Has(r, name) && Get(r, name) == Get(rs, name))
    && (Has(r, name) && !Has(rs, name) ==> exists i :: 1 <= i < b && HasBody(e, i, name, Get(r, name)))
  }

  ghost predicate HasBody(e: Elf, i: nat, name: Name, data: seq<Byte>) {
    && i < |e.shdrs| && Readable(e.file, e.shdrs[i])
    && NameOf(e.names, e.shdrs[i]) == name && data == BodyOf(e.file, e.shdrs[i])
  }

  lemma {:induction false} StageUpToAdds(e: Elf, rs: seq<Entry>, b: nat)
    requires Sorted(rs)
    requires 1 <= b <= |e.shdrs| && ReadableBefore(e, b)
    ensures StagedBefore(e, rs, b, StageUpTo(e, rs, b))
    decreases b
  {
    hide StagedBefore;
    if b == 1 {
      StageNothing(e, rs);
    } else {
      StageUpToAdds(e, rs, b - 1);
      StageOne(e, rs, b - 1, StageUpTo(e, rs, b - 1));
    }
  }

  lemma StageNothing(e: Elf, rs: seq<Entry>)
    requires Sorted(rs) && |e.shdrs| > 0
    ensures StagedBefore(e, rs, 1, rs)
  {
  }

  lemma StageOne(e: Elf, rs: seq<Entry>, b: nat, q: seq<Entry>)
    requires 1 <= b < |e.shdrs| && ReadableBefore(e, b + 1)
    requires StagedBefore(e, rs, b, q)
    ensures var name := NameOf(e.names, e.shdrs[b]);
            StagedBefore(e, rs, b + 1, if Has(q, name) then q else Put(q, name, BodyOf(e.file, e.shdrs[b])))
  {
    var name := NameOf(e.names, e.shdrs[b]);
    var r := if Has(q, name) then q else Put(q, name, BodyOf(e.file, e.shdrs[b]));
    var c := b + 1;
    if !Has(q, name) {
      PutSorted(q, name, BodyOf(e.file, e.shdrs[b]));
    }
    forall other ensures StagedAs(e, rs, c, r, other) {
      StageOneName(e, rs, b, q, other);
    }
    forall i | 1 <= i < c ensures Has(r, NameOf(e.names, e.shdrs[i])) {
      if !Has(q, name) {
        PutGet(q, name, BodyOf(e.file, e.shdrs[b]), NameOf(e.names, e.shdrs[i]));
      }
    }
  }

  lemma StageOneName(e: Elf, rs: seq<Entry>, b: nat, q: seq<Entry>, other: Name)
    requires 1 <= b < |e.shdrs| && ReadableBefore(e, b + 1)
    requires Sorted(q) && StagedAs(e, rs, b, q, other)
    ensures var name := NameOf(e.names, e.shdrs[b]);
            StagedAs(e, rs, b + 1, if Has(q, name) then q else Put(q, name, BodyOf(e.file, e.shdrs[b])), other)
  {
    var name := NameOf(e.names, e.shdrs[b]);
    if !Has(q, name) {
      PutGet(q, name, BodyOf(e.file, e.shdrs[b]), other);
      assert HasBody(e, b, name, BodyOf(e.file, e.shdrs[b]));
    }
  }

  // ----- executables: making room -----

  ghost predicate ByOffset(shdrs: seq<Shdr>) {
    forall i, j :: 0 <= i < j < |shdrs| ==> shdrs[i].offset <= shdrs[j].offset
  }

  /** The scan stops at section j, or right behind it. */
  predicate StopsNear(e: Elf, j: nat)
    requires j < |e.shdrs|
  {
    var name := NameOf(e.names, e.shdrs[j]);
    name == DYNSTR || (e.shdrs[j].stype == SHT_PROGBITS && name != INTERP)
  }

  /** The scan has stopped before section i, however the sort orders equal offsets. */
  ghost predicate StopBefore(e: Elf, i: nat)
    requires i < |e.shdrs|
  {
    exists j :: 1 <= j < |e.shdrs| && StopsNear(e, j) && e.shdrs[j].offset < e.shdrs[i].offset
  }

  /** Everything that is staged comes before section i. */
  ghost predicate StagedAllBefore(e: Elf, rs: seq<Entry>, i: nat)
    requires i < |e.shdrs|
  {
    forall j :: 0 <= j < |e.shdrs| && IsStaged(e, rs, j) ==> e.shdrs[j].offset < e.shdrs[i].offset
  }

  /** The scan does not reach a section without file contents, which has no body to stage. */
  ghost predicate NobitsPast(e: Elf, rs: seq<Entry>) {
    forall i :: 0 <= i < |e.shdrs| && e.shdrs[i].stype == SHT_NOBITS ==>
      StopBefore(e, i) || StagedAllBefore(e, rs, i)
  }

  lemma {:induction false} BoundaryAtMost(names: seq<Byte>, shdrs: seq<Shdr>, i: nat, last: nat, j: nat)
    requires 1 <= i <= j <= last < |shdrs| && StopsAt(names, shdrs, j)
    ensures Boundary(names, shdrs, i, last) <= j
    decreases j - i
  {
    if i < j && !StopsAt(names, shdrs, i) {
      BoundaryAtMost(names, shdrs, i + 1, last, j);
    }
  }

  /** In order of offset, a section without file contents is at the boundary or behind it. */
  lemma NobitsBehindBoundary(e: Elf, rs: seq<Entry>, last: nat, i: nat)
    requires ByOffset(e.shdrs) && NobitsPast(e, rs) && last < |e.shdrs| && IsStaged(e, rs, last)
    requires 1 <= i <= last && e.shdrs[i].stype == SHT_NOBITS
    ensures Boundary(e.names, e.shdrs, 1, last) <= i
  {
    hide Boundary, IsStaged;
    assert forall j :: i <= j < |e.shdrs| ==> e.shdrs[i].offset <= e.shdrs[j].offset;
    assert !StagedAllBefore(e, rs, i);
    var j :| 1 <= j < |e.shdrs| && StopsNear(e, j) && e.shdrs[j].offset < e.shdrs[i].offset;
    BoundaryAtMost(e.names, e.shdrs, 1, last, if NameOf(e.names, e.shdrs[j]) == DYNSTR then j + 1 else j);
  }

  /**
   * The frame of the executable layout: after the scan every section is staged or starts at or
   * after the boundary section, so the part of the file before it is free.
   */
  lemma ScanFrame(e: Elf, rs: seq<Entry>, b: nat, r: seq<Entry>)
    requires WellFormed(e) && ByOffset(e.shdrs) && 1 <= b < |e.shdrs| && ReadableBefore(e, b)
    requires StagedBefore(e, rs, b, r)
    ensures forall i :: 1 <= i < |e.shdrs| ==> IsStaged(e, r, i) || e.shdrs[i].offset >= e.shdrs[b].offset
    ensures KeptFrom(e, r, e.shdrs[b].offset)
  {
    forall i | 1 <= i < |e.shdrs| ensures IsStaged(e, r, i) || e.shdrs[i].offset >= e.shdrs[b].offset {
      if i < b {
        assert Has(r, NameOf(e.names, e.shdrs[i]));
      } else if i > b {
        assert e.shdrs[b].offset <= e.shdrs[i].offset;
      }
    }
    forall i, k | 0 <= i < |e.shdrs| && !IsStaged(e, r, i) && InBody(e.shdrs[i], k) ensures e.shdrs[b].offset <= k {
      if i == 0 {
        assert InBody(e.shdrs[0], 0);
        assert false;
      }
    }
  }

  /** Every byte of a section that is not staged is at `cut` or after. */
  ghost predicate KeptFrom(e: Elf, rs: seq<Entry>, cut: nat) {
    forall i, k :: 0 <= i < |e.shdrs| && !IsStaged(e, rs, i) && InBody(e.shdrs[i], k) ==> cut <= k
  }

  /** Staging the sections in the way keeps the staged bodies fit for placing. */
  lemma StagedStillOk(e: Elf, rs: seq<Entry>, b: nat, r: seq<Entry>)
    requires WellFormed(e) && StagedOk(e, rs) && |e.file| < 0x8000_0000
    requires 1 <= b <= |e.shdrs| && ReadableBefore(e, b) && StagedBefore(e, rs, b, r)
    requires forall i :: 1 <= i < b ==> e.shdrs[i].stype != SHT_NOBITS
    ensures StagedOk(e, r)
  {
    SortedDistinct(r);
    forall j | 0 <= j < |r| ensures |r[j].data| < 0x8000_0000 && Find(e.names, e.shdrs, r[j].name) > 0 {
      StagedEntryOk(e, rs, b, r, j);
    }
    forall i | 0 <= i < |e.shdrs| && IsStaged(e, r, i) ensures e.shdrs[i].stype != SHT_NOBITS {
      var name := NameOf(e.names, e.shdrs[i]);
      assert StagedAs(e, rs, b, r, name);
      if !Has(rs, name) {
        var x :| 1 <= x < b && HasBody(e, x, name, Get(r, name));
        assert x == i by { FindUnique(e.names, e.shdrs, x); FindUnique(e.names, e.shdrs, i); }
      } else {
        assert IsStaged(e, rs, i);
      }
    }
  }

  lemma StagedEntryOk(e: Elf, rs: seq<Entry>, b: nat, r: seq<Entry>, j: nat)
    requires WellFormed(e) && StagedOk(e, rs) && |e.file| < 0x8000_0000 && Distinct(r) && j < |r|
    requires 1 <= b <= |e.shdrs| && ReadableBefore(e, b) && StagedAs(e, rs, b, r, r[j].name)
    ensures |r[j].data| < 0x8000_0000 && Find(e.names, e.shdrs, r[j].name) > 0
  {
    var name := r[j].name;
    IndexUnique(r, j);
    if Has(rs, name) {
      var x := rs[IndexOf(rs, name)];
      assert Find(e.names, e.shdrs, rs[IndexOf(rs, name)].name) > 0;
    } else {
      var x :| 1 <= x < b && HasBody(e, x, name, Get(r, name));
      FindUnique(e.names, e.shdrs, x);
    }
  }

  /** Number of program headers after the layout: a shift adds one. */
  function ExecCount(e: Elf, shift: nat): nat {
    |e.phdrs| + if shift > 0 then 1 else 0
  }

  /** Where the first body goes: behind the ELF header and the program header table. */
  function ExecStart(e: Elf, shift: nat): nat {
    e.cfg.EhdrSize() + TableSize(ExecCount(e, shift), e.cfg.PhdrSize())
  }

  /** The layout of an executable: staged bodies, boundary offset and address, and distance shifted. */
  datatype ExecLayout = ExecLayout(rs: seq<Entry>, startOffset: nat, startAddr: nat, shift: nat) {
    /** The address that file offset 0 is mapped to afterwards. */
    function FirstPage(): int { startAddr - startOffset - shift }
  }

  ghost function ExecMove(e: Elf, x: ExecLayout): Move
    requires x.FirstPage() >= 0
  {
    Move(Plan(x.rs, ExecStart(e, x.shift), x.FirstPage(), 0), x.shift, x.startOffset,
         if x.shift > 0 then [LoadSegment(e.cfg, 0, x.FirstPage(), x.shift)] else [])
  }

  ghost predicate ExecRoom(e: Elf, x: ExecLayout) {
    && WellFormed(e) && StagedOk(e, x.rs) && Distinct(x.rs) && KeptFrom(e, x.rs, x.startOffset)
    && x.FirstPage() >= 0 && x.startAddr < e.cfg.Limit() && x.startOffset <= Hdr(e).shoff
    && ExecStart(e, x.shift) + Space(e.cfg, x.rs, |x.rs|) <= x.startOffset + x.shift
    && (x.shift == 0 ==> Hdr(e).phoff == e.cfg.EhdrSize())
    && (x.shift > 0 ==> ShiftFits(e, x.shift))
    && |e.file| + x.shift < 0x8000_0000
  }

  function ExecShifted(e: Elf, x: ExecLayout): Elf
    requires x.FirstPage() >= 0 && (x.shift > 0 ==> ShiftFits(e, x.shift))
  {
    if x.shift > 0 then Shifted(e, x.shift, x.FirstPage()) else e
  }

  /** The front of the file, up to the boundary, cleared for the staged bodies. */
  function Cleared(e: Elf, from: nat, to: nat): Elf
    requires from <= to <= |e.file|
  {
    e.(file := Splice(e.file, from, Fill(to - from, '\0')))
  }

  /** The state with room made, relative to the state before. */
  ghost predicate RoomMade(e: Elf, x: ExecLayout, g: Elf)
    requires x.FirstPage() >= 0
  {
    && g.cfg == e.cfg && g.names == e.names && |e.file| >= e.cfg.EhdrSize()
    && |g.file| == |e.file| + x.shift && |g.phdrs| == ExecCount(e, x.shift)
    && Hdr(g) == Hdr(e).(phoff := e.cfg.EhdrSize(), shoff := Hdr(e).shoff + x.shift, phnum := ExecCount(e, x.shift))
    && ShdrsMoved(e.shdrs, g.shdrs, x.shift) && HeadersFit(g)
    && (forall i :: 0 <= i < |e.phdrs| ==>
          g.phdrs[i] == if x.shift == 0 then e.phdrs[i] else ShiftPhdr(e.cfg, e.phdrs[i], x.shift))
    && g.phdrs[|e.phdrs|..] == ExecMove(e, x).extra
    && (forall k :: 0 <= k < |e.file| ==> g.file[k + x.shift] == e.file[k])
  }

  lemma ExecRoomMade(e: Elf, x: ExecLayout)
    requires ExecRoom(e, x)
    ensures RoomMade(e, x, ExecShifted(e, x))
    ensures ExecStart(e, x.shift) <= x.startOffset + x.shift <= |e.file| + x.shift
  {
    hide StagedOk, KeptFrom, Space, WellFormed, RoomMade;
    TableInside(e);
    if x.shift > 0 {
      ShiftRoomMade(e, x);
    } else {
      FrontRoomMade(e, x);
    }
  }

  lemma TableInside(e: Elf)
    requires WellFormed(e)
    ensures |e.file| >= e.cfg.EhdrSize() && Hdr(e).shoff <= |e.file| && Counts(e)
  {
    assert Hdr(e).shoff <= ShEnd(e);
  }

  /** Without a shift the room is there already. */
  lemma FrontRoomMade(e: Elf, x: ExecLayout)
    requires Counts(e) && x.FirstPage() >= 0 && x.shift == 0 && Hdr(e).phoff == e.cfg.EhdrSize()
    ensures RoomMade(e, x, e)
  {
  }

  lemma ShiftRoomMade(e: Elf, x: ExecLayout)
    requires x.FirstPage() >= 0 && x.startAddr < e.cfg.Limit() && x.shift > 0 && ShiftFits(e, x.shift)
    ensures RoomMade(e, x, Shifted(e, x.shift, x.FirstPage()))
  {
    ShiftedFile(e, x.shift, x.FirstPage());
    ShiftedFits(e, x.shift, x.FirstPage());
  }

  lemma ShiftedFits(e: Elf, shift: nat, startPage: nat)
    requires ShiftFits(e, shift) && startPage < e.cfg.Limit()
    ensures HeadersFit(Shifted(e, shift, startPage))
  {
  }

  lemma FrontFacts(e: Elf, x: ExecLayout, s: Elf)
    requires ExecRoom(e, x) && RoomMade(e, x, s)
    ensures s.cfg == e.cfg && |s.phdrs| == ExecCount(e, x.shift) && x.FirstPage() >= 0
    ensures ExecStart(e, x.shift) <= x.startOffset + x.shift <= |s.file| == |e.file| + x.shift
    ensures SmallData(x.rs) && ExecStart(e, x.shift) + Space(e.cfg, x.rs, |x.rs|) <= x.startOffset + x.shift
  {
    assert Hdr(e).shoff <= ShEnd(e);
  }

  lemma ExecIsPrepared(e: Elf, x: ExecLayout, s: Elf)
    requires ExecRoom(e, x) && RoomMade(e, x, s)
    requires ExecStart(e, x.shift) <= x.startOffset + x.shift <= |e.file| + x.shift
    ensures Prepared(e, Cleared(s, ExecStart(e, x.shift), x.startOffset + x.shift), ExecMove(e, x))
  {
    hide StagedOk, LinksInRange, BodiesInFile, BodiesDisjoint, DistinctNames, DecodeEhdr, KeptFrom, ShdrsMoved,
         TablesApart, Space, TableSize;
  }

  lemma ExecIsPlaceable(e: Elf, x: ExecLayout, s: Elf)
    requires ExecRoom(e, x) && RoomMade(e, x, s)
    requires ExecStart(e, x.shift) <= x.startOffset + x.shift <= |e.file| + x.shift
    ensures Placeable(Cleared(s, ExecStart(e, x.shift), x.startOffset + x.shift), ExecMove(e, x).p)
  {
    OldPlacesInFile(e, x.rs, Cleared(s, ExecStart(e, x.shift), x.startOffset + x.shift), x.shift);
  }

  /** The executable layout, shifted or not: new bodies before the boundary, everything else after it. */
  lemma ExecRelaid(e: Elf, x: ExecLayout, s: Elf, b: Elf)
    requires ExecRoom(e, x) && RoomMade(e, x, s)
    requires ExecStart(e, x.shift) <= x.startOffset + x.shift <= |e.file| + x.shift
    requires var g := Cleared(s, ExecStart(e, x.shift), x.startOffset + x.shift);
             Placeable(g, ExecMove(e, x).p) && Placed(g, b, ExecMove(e, x).p)
    ensures Relaid(e, b, ExecMove(e, x)) && Hdr(b).phoff == e.cfg.EhdrSize()
    ensures Refilled(e, ExecMove(e, x), ExecStart(e, x.shift), b.file) && |b.file| == |e.file| + x.shift
  {
    hide StagedOk, LinksInRange, BodiesInFile, BodiesDisjoint, DecodeEhdr, InBody, DistinctNames, AllFound, OldInFile,
         Prepared, ShdrsMoved, HeadersFit;
    var g := Cleared(s, ExecStart(e, x.shift), x.startOffset + x.shift);
    ExecIsPrepared(e, x, s);
    PlacedKeepsHdr(g, b, ExecMove(e, x).p);
    assert g.file[..e.cfg.EhdrSize()] == s.file[..e.cfg.EhdrSize()];
    assert PhEnd(b) == ExecStart(e, x.shift);
    PlacedIsRelaid(e, g, b, b, ExecMove(e, x));
    ExecRefilled(e, x, s, b);
    PlacedSize(g, b, ExecMove(e, x).p);
  }

  lemma ExecRefilled(e: Elf, x: ExecLayout, s: Elf, b: Elf)
    requires ExecRoom(e, x) && RoomMade(e, x, s)
    requires ExecStart(e, x.shift) <= x.startOffset + x.shift <= |e.file| + x.shift
    requires var g := Cleared(s, ExecStart(e, x.shift), x.startOffset + x.shift);
             Placeable(g, ExecMove(e, x).p) && Placed(g, b, ExecMove(e, x).p)
    ensures Refilled(e, ExecMove(e, x), ExecStart(e, x.shift), b.file)
  {
    hide StagedOk, WellFormed, Placeable, Placed, Refilled, DecodeEhdr, HeadersFit, ShdrsMoved, Space, TableSize;
    var m := ExecMove(e, x);
    var g := Cleared(s, ExecStart(e, x.shift), x.startOffset + x.shift);
    forall k | ExecStart(e, x.shift) <= k < |g.file|
      ensures g.file[k] == if m.cut <= k - m.d < |e.file| then e.file[k - m.d] else '\0'
    {
      if m.cut <= k - m.d {
        assert s.file[(k - m.d) + m.d] == e.file[k - m.d];
      }
    }
    PlacedRefilled(e, g, b, b, m, ExecStart(e, x.shift));
  }

  // ----- the whole rewrites -----

  /** rewriteSectionsLibrary: the new area starts on the first page boundaries past the file and all segments. */
  ghost predicate LibraryRewritten(e: Elf, rs: seq<Entry>, f: Elf, n: nat, mid: Elf, t: HeaderTrace) {
    var startOffset := Padded(|e.file|, e.cfg.PageSize());
    var startPage := LastPage(e.cfg, e.phdrs, |e.phdrs|);
    && Ready(e, rs, n) && startPage < e.cfg.Limit()
    && Relaid(e, mid, LibraryMove(e, rs, startOffset, startPage)) && Hdr(mid).phoff == startOffset
    && Refilled(e, LibraryMove(e, rs, startOffset, startPage), e.cfg.EhdrSize(), mid.file)
    && |mid.file| == startOffset + LibrarySpace(e, rs)
    && HeadersStep(mid, f, startPage, n, t)
  }

  /** What the executable layout decided: the sorted state, the boundary, and the layout itself. */
  datatype ExecTrace = ExecTrace(sorted: Elf, p: seq<nat>, inv: seq<nat>, boundary: nat, x: ExecLayout)

  /** The scan's outcome for a sorted state and its staged bodies. */
  ghost predicate Scanned(e: Elf, rs: seq<Entry>, b: nat, r: seq<Entry>, startOffset: nat, startAddr: nat) {
    && |e.shdrs| > 0
    && var last := LastStaged(e.names, e.shdrs, rs, |e.shdrs|);
    && 0 < last && last + 1 < |e.shdrs|
    && b == Boundary(e.names, e.shdrs, 1, last)
    && ReadableBefore(e, b) && r == StageUpTo(e, rs, b)
    && startOffset == e.shdrs[b].offset && startAddr == e.shdrs[b].addr
  }

  /**
   * How far to shift: not at all when the bodies fit before the boundary, otherwise by the least
   * number of pages that makes room for them and for one more program header.
   */
  function ShiftFor(e: Elf, rs: seq<Entry>, startOffset: nat): nat {
    var needed := ExecStart(e, 0) + Space(e.cfg, rs, |rs|);
    if needed <= startOffset then 0 else Padded(needed + e.cfg.PhdrSize() - startOffset, e.cfg.PageSize())
  }

  ghost predicate ShiftDecided(e: Elf, x: ExecLayout) {
    x.shift == ShiftFor(e, x.rs, x.startOffset)
  }

  /** There are addresses below the boundary for the pages added, and the file may grow by them. */
  ghost predicate RoomFits(e: Elf, rs: seq<Entry>, startOffset: nat, startAddr: nat, maxSize: nat) {
    ShiftFor(e, rs, startOffset) <= startAddr - startOffset && |e.file| + ShiftFor(e, rs, startOffset) <= maxSize
  }

  /** Something is staged, it is not in the last section, and the boundary section is where the program expects it. */
  ghost predicate BoundaryOk(e: Elf, rs: seq<Entry>) {
    && |e.shdrs| > 0 && |e.file| >= e.cfg.EhdrSize()
    && var last := LastStaged(e.names, e.shdrs, rs, |e.shdrs|);
    && 0 < last && last + 1 < |e.shdrs|
    && var s := e.shdrs[Boundary(e.names, e.shdrs, 1, last)];
    && s.addr % e.cfg.PageSize() == s.offset % e.cfg.PageSize() && s.offset <= Hdr(e).shoff
  }

  /** The executable rewrite succeeds on this sorted state. */
  ghost predicate ExecFits(e: Elf, rs: seq<Entry>, maxSize: nat, n: nat) {
    && BoundaryOk(e, rs)
    && var b := Boundary(e.names, e.shdrs, 1, LastStaged(e.names, e.shdrs, rs, |e.shdrs|));
    && ReadableBefore(e, b)
    && var q := StageUpTo(e, rs, b);
    && RoomFits(e, q, e.shdrs[b].offset, e.shdrs[b].addr, maxSize) && StateResolves(e, q, n)
  }

  lemma ExecResolves(e: Elf, x: ExecLayout, mid: Elf, n: nat)
    requires ExecLaidOut(e, x, mid) && Ready(e, x.rs, n)
    ensures DynamicReady(mid, n) && (DynamicResolves(mid, n) <==> StateResolves(e, x.rs, n))
  {
    RelaidResolves(e, mid, ExecMove(e, x), n);
  }

  /** The outcome in terms of the scan's. */
  lemma ExecFitsIs(e: Elf, rs: seq<Entry>, b: nat, q: seq<Entry>, maxSize: nat, n: nat)
    requires BoundaryOk(e, rs) && b < |e.shdrs| && Scanned(e, rs, b, q, e.shdrs[b].offset, e.shdrs[b].addr)
    ensures ExecFits(e, rs, maxSize, n) <==>
      RoomFits(e, q, e.shdrs[b].offset, e.shdrs[b].addr, maxSize) && StateResolves(e, q, n)
  {
  }

  /** The front of the file laid out: the shift decided, the staged bodies placed, the rest carried. */
  ghost predicate ExecLaidOut(e: Elf, x: ExecLayout, mid: Elf) {
    && ExecRoom(e, x) && ShiftDecided(e, x)
    && Relaid(e, mid, ExecMove(e, x)) && Hdr(mid).phoff == e.cfg.EhdrSize()
    && Refilled(e, ExecMove(e, x), ExecStart(e, x.shift), mid.file) && |mid.file| == |e.file| + x.shift
  }

  lemma ExecLaidOutReady(e: Elf, x: ExecLayout, mid: Elf, n: nat)
    requires ExecLaidOut(e, x, mid) && Ready(e, x.rs, n)
    ensures WellFormed(mid) && NullStored(mid) && DynamicReady(mid, n)
  {
    RelaidReady(e, mid, ExecMove(e, x), n);
  }

  lemma PhdrAddressFits(e: Elf, x: ExecLayout, mid: Elf)
    requires ExecLaidOut(e, x, mid)
    ensures mid.cfg == e.cfg
    ensures 0 <= x.FirstPage() && x.FirstPage() + e.cfg.EhdrSize() < e.cfg.Limit()
  {
    assert e.cfg.EhdrSize() <= ExecStart(e, x.shift);
  }

  /** rewriteSectionsExecutable: sort, scan, lay out the front, rewrite the headers. */
  ghost predicate ExecRewritten(e: Elf, rs: seq<Entry>, f: Elf, n: nat, r: ExecTrace, mid: Elf, t: HeaderTrace) {
    && Resolvable(e) && SortStep(e, r.sorted, r.p, r.inv)
    && Scanned(r.sorted, rs, r.boundary, r.x.rs, r.x.startOffset, r.x.startAddr)
    && r.x.startAddr % e.cfg.PageSize() == r.x.startOffset % e.cfg.PageSize()
    && Ready(r.sorted, r.x.rs, n) && ExecLaidOut(r.sorted, r.x, mid)
    && HeadersStep(mid, f, r.x.FirstPage() + e.cfg.EhdrSize(), n, t)
  }

  lemma ExecComplete(e: Elf, rs: seq<Entry>, f: Elf, n: nat, r: ExecTrace, mid: Elf, t: HeaderTrace)
    requires Resolvable(e) && SortStep(e, r.sorted, r.p, r.inv)
    requires Scanned(r.sorted, rs, r.boundary, r.x.rs, r.x.startOffset, r.x.startAddr)
    requires r.x.startAddr % e.cfg.PageSize() == r.x.startOffset % e.cfg.PageSize()
    requires Ready(r.sorted, r.x.rs, n)
    requires ExecLaidOut(r.sorted, r.x, mid)
    requires HeadersStep(mid, f, r.x.FirstPage() + e.cfg.EhdrSize(), n, t)
    ensures ExecRewritten(e, rs, f, n, r, mid, t)
  {
  }

  /** What the layout needs before deciding whether to shift. */
  ghost predicate BeforeShift(e: Elf, rs: seq<Entry>, startOffset: nat, startAddr: nat, maxSize: nat) {
    && WellFormed(e) && StagedOk(e, rs) && Distinct(rs) && KeptFrom(e, rs, startOffset)
    && Hdr(e).phnum + 1 < HALF && OffsetsSmall(e) && Hdr(e).phoff == e.cfg.EhdrSize()
    && startOffset <= startAddr < e.cfg.Limit() && startOffset <= Hdr(e).shoff
    && |e.file| <= maxSize < 0x8000_0000
  }

  /** The decided shift makes room, whenever the file may grow that much. */
  lemma DecidedRoom(e: Elf, x: ExecLayout, maxSize: nat)
    requires BeforeShift(e, x.rs, x.startOffset, x.startAddr, maxSize)
    requires ShiftDecided(e, x) && x.FirstPage() >= 0 && |e.file| + x.shift <= maxSize
    ensures x.shift > 0 ==> ShiftFits(e, x.shift)
    ensures ExecRoom(e, x)
  {
    hide WellFormed, StagedOk, KeptFrom, Space, ShiftFits, OffsetsSmall, Padded;
    TableInside(e);
    if ExecStart(e, 0) + Space(e.cfg, x.rs, |x.rs|) > x.startOffset {
      ShiftSize(e, x);
      ShiftFitsSmall(e, x.shift);
    }
  }

  /** A shift is at least a page, and as long as what is missing and one more program header. */
  lemma ShiftSize(e: Elf, x: ExecLayout)
    requires ShiftDecided(e, x) && ExecStart(e, 0) + Space(e.cfg, x.rs, |x.rs|) > x.startOffset
    ensures x.shift >= e.cfg.PageSize() && e.cfg.EhdrSize() <= x.shift
    ensures ExecStart(e, x.shift) + Space(e.cfg, x.rs, |x.rs|) <= x.startOffset + x.shift
  {
    var needed := ExecStart(e, 0) + Space(e.cfg, x.rs, |x.rs|);
    MultipleOfPage(needed + e.cfg.PhdrSize() - x.startOffset, e.cfg.PageSize());
    OneMore(|e.phdrs|, e.cfg.PhdrSize());
  }

  lemma OneMore(n: nat, size: nat)
    ensures TableSize(n + 1, size) == TableSize(n, size) + size
  {
  }

  lemma MultipleOfPage(n: nat, m: nat)
    requires 0 < n && 64 <= m
    ensures Padded(n, m) >= n && Padded(n, m) >= m
  {
  }

  lemma ShiftFitsSmall(e: Elf, shift: nat)
    requires WellFormed(e) && OffsetsSmall(e) && Hdr(e).phnum + 1 < HALF
    requires |e.file| + shift < 0x8000_0000 && e.cfg.EhdrSize() <= shift
    ensures ShiftFits(e, shift)
  {
    assert Hdr(e).shoff <= ShEnd(e);
  }

  /** A decided shift leaves exactly the room the bodies need, and is a whole number of pages. */
  lemma ShiftMakesRoom(e: Elf, x: ExecLayout)
    requires ShiftDecided(e, x) && ExecStart(e, 0) + Space(e.cfg, x.rs, |x.rs|) + e.cfg.PhdrSize() < 0x8000_0000
    ensures ExecStart(e, x.shift) + Space(e.cfg, x.rs, |x.rs|) <= x.startOffset + x.shift
    ensures x.shift % e.cfg.PageSize() == 0
  {
    var needed := ExecStart(e, 0) + Space(e.cfg, x.rs, |x.rs|);
    if needed > x.startOffset {
      RoundUpPads(needed + e.cfg.PhdrSize() - x.startOffset, e.cfg.PageSize());
    }
  }

  /** Fewer pages would not do: any whole number of pages that makes the room is at least the shift. */
  lemma ShiftIsLeast(e: Elf, x: ExecLayout, shift: nat)
    requires ShiftDecided(e, x) && ExecStart(e, 0) + Space(e.cfg, x.rs, |x.rs|) + e.cfg.PhdrSize() < 0x8000_0000
    requires IsMultiple(shift, e.cfg.PageSize())
    requires ExecStart(e, shift) + Space(e.cfg, x.rs, |x.rs|) <= x.startOffset + shift
    ensures x.shift <= shift
  {
    var needed := ExecStart(e, 0) + Space(e.cfg, x.rs, |x.rs|);
    if needed > x.startOffset {
      var n, m := needed + e.cfg.PhdrSize() - x.startOffset, e.cfg.PageSize();
      RoundUpPads(n, m);
      RoundUpIsLeastMultiple(n, m, if m == 4096 then 0x10_0000 else 0x4_0000);
      assert n <= shift;
    }
  }

  lemma ReadyResolves(e: Elf, rs: seq<Entry>, maxSize: nat, n: nat)
    requires ExecReady(e, rs, maxSize, n)
    ensures Resolvable(e)
  {
  }

  lemma ExecReadyParts(e: Elf, rs: seq<Entry>, maxSize: nat, n: nat)
    requires ExecReady(e, rs, maxSize, n)
    ensures WellFormed(e) && NobitsPast(e, rs) && Sorted(rs) && DistinctNames(e.names, e.shdrs)
    ensures |e.shdrs| > 0 && |e.file| >= e.cfg.EhdrSize()
  {
  }

  lemma SortKeepsExecReady(e: Elf, f: Elf, p: seq<nat>, inv: seq<nat>, rs: seq<Entry>, maxSize: nat, n: nat)
    requires ExecReady(e, rs, maxSize, n) && SortStep(e, f, p, inv)
    ensures ExecReady(f, rs, maxSize, n) && ByOffset(f.shdrs)
  {
    SortKeepsWellFormed(e, f, p, inv);
    SortKeepsNull(e, f, p, inv);
    SortKeepsStaged(e, f, p, inv, rs);
    SortKeepsLayout(e, f, p, inv, rs);
    SortKeepsNobits(e, f, p, inv, rs);
    SortKeepsDynamic(e, f, p, inv, rs, n);
  }

  lemma ScanIsReadable(e: Elf, rs: seq<Entry>, last: nat)
    requires WellFormed(e) && ByOffset(e.shdrs) && NobitsPast(e, rs)
    requires 0 < last == LastStaged(e.names, e.shdrs, rs, |e.shdrs|)
    ensures ReadableBefore(e, Boundary(e.names, e.shdrs, 1, last))
    ensures forall i :: 1 <= i < Boundary(e.names, e.shdrs, 1, last) ==> e.shdrs[i].stype != SHT_NOBITS
  {
    hide WellFormed, NobitsPast, Boundary, LastStaged;
    assert IsStaged(e, rs, last);
    forall i | 1 <= i < Boundary(e.names, e.shdrs, 1, last)
      ensures e.shdrs[i].stype != SHT_NOBITS && Readable(e.file, e.shdrs[i])
    {
      if e.shdrs[i].stype == SHT_NOBITS {
        NobitsBehindBoundary(e, rs, last, i);
      }
      BodyReadable(e, i);
    }
  }

  lemma BodyReadable(e: Elf, i: nat)
    requires WellFormed(e) && i < |e.shdrs| && e.shdrs[i].stype != SHT_NOBITS
    ensures Readable(e.file, e.shdrs[i])
  {
    if e.shdrs[i].size > 0 {
      assert InBody(e.shdrs[i], BodyEnd(e.shdrs[i]) - 1);
    }
  }

  /** No section that cannot move comes before the boundary. */
  lemma BoundaryAbove(e: Elf, last: nat, b: nat)
    requires AddressesAbove(e) && ByOffset(e.shdrs) && 0 < last && last + 1 < |e.shdrs|
    requires b == Boundary(e.names, e.shdrs, 1, last) && 1 <= b <= last + 1
    ensures AddressAbove(e.cfg, e.shdrs[b])
  {
    hide Boundary, NameOf, AddressAbove;
    forall j | 1 <= j < |e.shdrs| && Fixed(e, j) ensures e.shdrs[b].offset <= e.shdrs[j].offset {
      if j <= last {
        BoundaryAtMost(e.names, e.shdrs, 1, last, j);
      }
      InOrder(e.shdrs, b, j);
    }
  }

  lemma InOrder(shdrs: seq<Shdr>, i: nat, j: nat)
    requires ByOffset(shdrs) && i <= j < |shdrs|
    ensures shdrs[i].offset <= shdrs[j].offset
  {
  }

  /** After the scan the layout can decide on the shift. */
  lemma ScanReady(e: Elf, rs: seq<Entry>, last: nat, b: nat, r: seq<Entry>, maxSize: nat, n: nat)
    requires ExecReady(e, rs, maxSize, n) && ByOffset(e.shdrs)
    requires 0 < last == LastStaged(e.names, e.shdrs, rs, |e.shdrs|) && last + 1 < |e.shdrs|
    requires b == Boundary(e.names, e.shdrs, 1, last) && 1 <= b <= last + 1 && ReadableBefore(e, b)
    requires r == StageUpTo(e, rs, b)
    requires e.shdrs[b].addr % e.cfg.PageSize() == e.shdrs[b].offset % e.cfg.PageSize()
    requires e.shdrs[b].offset <= Hdr(e).shoff
    ensures BeforeShift(e, r, e.shdrs[b].offset, e.shdrs[b].addr, maxSize) && Ready(e, r, n)
  {
    BoundaryAbove(e, last, b);
    StageUpToAdds(e, rs, b);
    ScanIsReadable(e, rs, last);
    StagedStillOk(e, rs, b, r);
    SortedDistinct(r);
    ScanFrame(e, rs, b, r);
    ScanKeepsDynamic(e, rs, b, r, n);
  }

  /** roundUp to a page, divided by the page size and multiplied again, is itself. */
  lemma PagesOf(n: nat, c: Config)
    requires n <= TWO_TO_32 - c.PageSize()
    ensures Padded(n, c.PageSize()) / c.PageSize() * c.PageSize() == Padded(n, c.PageSize())
  {
    RoundUpPads(n, c.PageSize());
  }
}
