/**
 * Where writeReplacedSections puts the staged bodies, and what becomes of the headers and of
 * every other byte of the file.
 */
module Placement {
  import opened Bytes
  import opened Codec
  import opened ElfTypes
  import opened Rounding
  import opened Staging
  import opened Elf
  import opened Links

  const INTERP: Name := ".interp"
  const DYNAMIC: Name := ".dynamic"

  // ----- space -----

  /** Space taken by the first n staged bodies, each rounded up to the section alignment. */
  function Space(c: Config, rs: seq<Entry>, n: nat): nat
    requires n <= |rs|
  {
    if n == 0 then 0 else Space(c, rs, n - 1) + Padded(|rs[n - 1].data|, c.SectionAlignment())
  }

  /** Every staged body is small enough for 32-bit rounding. */
  ghost predicate SmallData(rs: seq<Entry>) {
    forall j :: 0 <= j < |rs| ==> |rs[j].data| < 0x8000_0000
  }

  lemma {:induction false} SpaceAligned(c: Config, rs: seq<Entry>, n: nat)
    requires n <= |rs| && SmallData(rs)
    ensures Space(c, rs, n) % c.SectionAlignment() == 0
    decreases n
  {
    if n > 0 {
      SpaceAligned(c, rs, n - 1);
      RoundUpPads(|rs[n - 1].data|, c.SectionAlignment());
      SumAligned(Space(c, rs, n - 1), Padded(|rs[n - 1].data|, c.SectionAlignment()), c.SectionAlignment());
    }
  }

  lemma SumAligned(x: nat, y: nat, m: nat)
    requires m == 4 || m == 8
    requires x % m == 0 && y % m == 0
    ensures (x + y) % m == 0
  {
  }

  /** Body i ends before body j starts. */
  lemma {:induction false} SpaceApart(c: Config, rs: seq<Entry>, i: nat, j: nat)
    requires i < j <= |rs| && SmallData(rs)
    ensures Space(c, rs, i) + |rs[i].data| <= Space(c, rs, j)
    decreases j
  {
    if i < j - 1 {
      SpaceApart(c, rs, i, j - 1);
    }
  }

  // ----- the two passes over the file -----

  /** `k` lies in the place where the section of this name is now. */
  ghost predicate InOld(e: Elf, name: Name, k: int) {
    var i := Find(e.names, e.shdrs, name);
    i > 0 && e.shdrs[i].offset <= k < e.shdrs[i].offset + e.shdrs[i].size
  }

  ghost predicate InAnyOld(e: Elf, rs: seq<Entry>, n: nat, k: int)
    requires n <= |rs|
  {
    exists j :: 0 <= j < n && InOld(e, rs[j].name, k)
  }

  /** `k` lies in the new place of staged body j. */
  ghost predicate InNew(c: Config, rs: seq<Entry>, cur: nat, j: nat, k: int)
    requires j < |rs|
  {
    cur + Space(c, rs, j) <= k < cur + Space(c, rs, j) + |rs[j].data|
  }

  ghost predicate InAnyNew(c: Config, rs: seq<Entry>, cur: nat, n: nat, k: int)
    requires n <= |rs|
  {
    exists j :: 0 <= j < n && InNew(c, rs, cur, j, k)
  }

  /** The file after the old places of the first n sections have been filled with 'X'. */
  ghost predicate Erased(e: Elf, rs: seq<Entry>, n: nat, f: seq<Byte>)
    requires n <= |rs|
  {
    |f| == |e.file| && forall k :: 0 <= k < |f| ==> f[k] == if InAnyOld(e, rs, n, k) then 'X' else e.file[k]
  }

  lemma EraseStep(e: Elf, rs: seq<Entry>, n: nat, f: seq<Byte>, i: nat)
    requires n < |rs| && Erased(e, rs, n, f)
    requires i == Find(e.names, e.shdrs, rs[n].name) > 0
    requires e.shdrs[i].size == 0 || e.shdrs[i].offset + e.shdrs[i].size <= |f|
    ensures e.shdrs[i].size == 0 ==> Erased(e, rs, n + 1, f)
    ensures e.shdrs[i].size > 0 ==>
      Erased(e, rs, n + 1, Splice(f, e.shdrs[i].offset, Fill(e.shdrs[i].size, 'X')))
  {
    forall k ensures InAnyOld(e, rs, n + 1, k) <==> InAnyOld(e, rs, n, k) || InOld(e, rs[n].name, k) {
      if InAnyOld(e, rs, n + 1, k) {
        var j :| 0 <= j < n + 1 && InOld(e, rs[j].name, k);
      }
    }
  }

  /** The first n staged bodies are in their new places. */
  ghost predicate Laid(c: Config, rs: seq<Entry>, n: nat, cur: nat, f: seq<Byte>)
    requires n <= |rs|
  {
    forall j :: 0 <= j < n ==> InPlace(c, rs, cur, j, f)
  }

  ghost predicate InPlace(c: Config, rs: seq<Entry>, cur: nat, j: nat, f: seq<Byte>)
    requires j < |rs|
  {
    var off := cur + Space(c, rs, j);
    off + |rs[j].data| <= |f| && f[off..off + |rs[j].data|] == rs[j].data
  }

  /** Every byte outside the first n new places is as in x. */
  ghost predicate Around(c: Config, rs: seq<Entry>, n: nat, cur: nat, x: seq<Byte>, f: seq<Byte>)
    requires n <= |rs|
  {
    |f| == |x| && forall k :: 0 <= k < |f| && !InAnyNew(c, rs, cur, n, k) ==> f[k] == x[k]
  }

  lemma LaidStep(c: Config, rs: seq<Entry>, n: nat, cur: nat, f: seq<Byte>)
    requires n < |rs| && SmallData(rs) && Laid(c, rs, n, cur, f)
    requires cur + Space(c, rs, n) + |rs[n].data| <= |f|
    ensures Laid(c, rs, n + 1, cur, Splice(f, cur + Space(c, rs, n), rs[n].data))
  {
    var off := cur + Space(c, rs, n);
    forall j | 0 <= j < n + 1 ensures InPlace(c, rs, cur, j, Splice(f, off, rs[n].data)) {
      if j < n {
        assert InPlace(c, rs, cur, j, f);
        StaysInPlace(c, rs, n, cur, f, j);
      } else {
        SpliceReadBack(f, off, rs[n].data);
      }
    }
  }

  lemma StaysInPlace(c: Config, rs: seq<Entry>, n: nat, cur: nat, f: seq<Byte>, j: nat)
    requires j < n < |rs| && SmallData(rs) && InPlace(c, rs, cur, j, f)
    requires cur + Space(c, rs, n) + |rs[n].data| <= |f|
    ensures InPlace(c, rs, cur, j, Splice(f, cur + Space(c, rs, n), rs[n].data))
  {
    SpaceApart(c, rs, j, n);
    var lo := cur + Space(c, rs, j);
    SpliceFrame(f, cur + Space(c, rs, n), rs[n].data, lo, lo + |rs[j].data|);
  }

  lemma AroundStep(c: Config, rs: seq<Entry>, n: nat, cur: nat, x: seq<Byte>, f: seq<Byte>)
    requires n < |rs| && Around(c, rs, n, cur, x, f)
    requires cur + Space(c, rs, n) + |rs[n].data| <= |f|
    ensures Around(c, rs, n + 1, cur, x, Splice(f, cur + Space(c, rs, n), rs[n].data))
  {
    var g := Splice(f, cur + Space(c, rs, n), rs[n].data);
    forall k | 0 <= k < |g| && !InAnyNew(c, rs, cur, n + 1, k) ensures g[k] == x[k] {
      assert !InNew(c, rs, cur, n, k);
      assert !InAnyNew(c, rs, cur, n, k);
    }
  }

  // ----- headers -----

  /** A run of writeReplacedSections: where the bodies start and how offsets map to addresses. */
  datatype PlanRaw = Plan(rs: seq<Entry>, cur: nat, startAddr: nat, startOffset: nat)
  type Plan = p: PlanRaw | p.startOffset <= p.cur witness Plan([], 0, 0, 0)

  /** Where a body is, as the headers record it. */
  datatype Spot = Spot(offset: nat, addr: nat, size: nat)

  /** The new spot of entry j. */
  function NewSpot(c: Config, p: Plan, j: nat): Spot
    requires j < |p.rs|
  {
    var off := p.cur + Space(c, p.rs, j);
    Spot(off, p.startAddr + (off - p.startOffset), |p.rs[j].data|)
  }

  /** The header of a section whose body has been moved. */
  function MovedShdr(c: Config, s: Shdr, to: Spot): Shdr {
    s.(offset := to.offset, addr := to.addr, size := to.size, addralign := c.SectionAlignment())
  }

  /** The section headers once the first n entries have been placed. */
  ghost predicate ShdrsPlaced(e: Elf, p: Plan, n: nat, shdrs: seq<Shdr>)
    requires n <= |p.rs|
  {
    |shdrs| == |e.shdrs| && forall i :: 0 <= i < |shdrs| ==> shdrs[i] == PlacedShdr(e, p, n, i)
  }

  ghost function PlacedShdr(e: Elf, p: Plan, n: nat, i: nat): Shdr
    requires n <= |p.rs| && i < |e.shdrs|
  {
    var j := IndexOf(p.rs, NameOf(e.names, e.shdrs[i]));
    if i > 0 && j < n then MovedShdr(e.cfg, e.shdrs[i], NewSpot(e.cfg, p, j)) else e.shdrs[i]
  }

  ghost predicate AllFound(e: Elf, rs: seq<Entry>) {
    forall j {:trigger Find(e.names, e.shdrs, rs[j].name)} :: 0 <= j < |rs| ==> Find(e.names, e.shdrs, rs[j].name) > 0
  }

  lemma ShdrsPlacedStep(e: Elf, p: Plan, n: nat, shdrs: seq<Shdr>)
    requires n < |p.rs| && AllFound(e, p.rs) && Distinct(p.rs) && DistinctNames(e.names, e.shdrs)
    requires ShdrsPlaced(e, p, n, shdrs)
    ensures var i := Find(e.names, e.shdrs, p.rs[n].name);
            Find(e.names, shdrs, p.rs[n].name) == i && 0 < i < |shdrs| && shdrs[i] == e.shdrs[i]
            && ShdrsPlaced(e, p, n + 1, shdrs[i := MovedShdr(e.cfg, shdrs[i], NewSpot(e.cfg, p, n))])
  {
    var i := Find(e.names, e.shdrs, p.rs[n].name);
    FindSame(e.names, shdrs, e.shdrs, p.rs[n].name);
    IndexUnique(p.rs, n);
    var r := shdrs[i := MovedShdr(e.cfg, shdrs[i], NewSpot(e.cfg, p, n))];
    forall x | 0 <= x < |r| ensures r[x] == PlacedShdr(e, p, n + 1, x) {
      if x != i {
        assert NameOf(e.names, e.shdrs[i]) == p.rs[n].name;
        assert x < i || i < x;
      }
    }
  }

  /** A segment made to describe a section. */
  function SyncWith(h: Phdr, to: Spot): Phdr {
    h.(offset := to.offset, vaddr := to.addr, paddr := to.addr, filesz := to.size, memsz := to.size)
  }

  function SyncAll(phdrs: seq<Phdr>, ptype: nat, to: Spot): (r: seq<Phdr>)
    ensures |r| == |phdrs|
    ensures forall i :: 0 <= i < |r| ==> r[i] == if phdrs[i].ptype == ptype then SyncWith(phdrs[i], to) else phdrs[i]
  {
    seq(|phdrs|, i requires 0 <= i < |phdrs| => if phdrs[i].ptype == ptype then SyncWith(phdrs[i], to) else phdrs[i])
  }

  /** The segment type that follows a section of this name, or 0. */
  function Follower(name: Name): nat {
    if name == INTERP then PT_INTERP else if name == DYNAMIC then PT_DYNAMIC else 0
  }

  function SyncFollower(phdrs: seq<Phdr>, name: Name, to: Spot): (r: seq<Phdr>)
    ensures |r| == |phdrs|
  {
    if Follower(name) == 0 then phdrs else SyncAll(phdrs, Follower(name), to)
  }

  /** The program headers once the first n entries have been placed. */
  function PhdrsPlaced(e: Elf, p: Plan, n: nat): (r: seq<Phdr>)
    requires n <= |p.rs|
    ensures |r| == |e.phdrs|
  {
    if n == 0 then e.phdrs
    else SyncFollower(PhdrsPlaced(e, p, n - 1), p.rs[n - 1].name, NewSpot(e.cfg, p, n - 1))
  }

  /** PT_INTERP and PT_DYNAMIC follow their sections when those are placed; no other segment changes. */
  lemma {:induction false} PhdrPlaced(e: Elf, p: Plan, n: nat, i: nat)
    requires n <= |p.rs| && Distinct(p.rs) && i < |e.phdrs|
    ensures PhdrsPlaced(e, p, n)[i] == PhdrAfter(e.cfg, p, n, e.phdrs[i])
    decreases n
  {
    if n > 0 {
      PhdrPlaced(e, p, n - 1, i);
      PhdrAfterStep(e.cfg, p, n, e.phdrs[i]);
    }
  }

  function PhdrAfter(c: Config, p: Plan, n: nat, h: Phdr): Phdr
    requires n <= |p.rs|
  {
    if h.ptype == PT_INTERP && IndexOf(p.rs, INTERP) < n then SyncWith(h, NewSpot(c, p, IndexOf(p.rs, INTERP)))
    else if h.ptype == PT_DYNAMIC && IndexOf(p.rs, DYNAMIC) < n then SyncWith(h, NewSpot(c, p, IndexOf(p.rs, DYNAMIC)))
    else h
  }

  lemma PhdrAfterStep(c: Config, p: Plan, n: nat, h: Phdr)
    requires 0 < n <= |p.rs| && Distinct(p.rs)
    ensures PhdrAfter(c, p, n, h) ==
      var q, f := PhdrAfter(c, p, n - 1, h), Follower(p.rs[n - 1].name);
      if f != 0 && q.ptype == f then SyncWith(q, NewSpot(c, p, n - 1)) else q
  {
    IndexUnique(p.rs, n - 1);
    InterpIsNotDynamic();
  }

  lemma InterpIsNotDynamic()
    ensures INTERP != DYNAMIC
  {
    assert INTERP[1] != DYNAMIC[1];
  }

  // ----- the whole step -----

  /** What writeReplacedSections relies on. */
  ghost predicate Placeable(e: Elf, p: Plan) {
    && |e.file| >= e.cfg.EhdrSize()
    && DistinctNames(e.names, e.shdrs) && Distinct(p.rs) && SmallData(p.rs) && AllFound(e, p.rs)
    && OldInFile(e, p.rs)
    && e.cfg.EhdrSize() <= p.cur && p.cur + Space(e.cfg, p.rs, |p.rs|) <= |e.file|
    && |e.file| < e.cfg.Limit()
    && p.startAddr + (p.cur - p.startOffset) + Space(e.cfg, p.rs, |p.rs|) < e.cfg.Limit()
  }

  /** The places of the staged sections are in the file and clear of the ELF header. */
  ghost predicate OldInFile(e: Elf, rs: seq<Entry>) {
    forall j {:trigger Find(e.names, e.shdrs, rs[j].name)} :: 0 <= j < |rs| ==>
      var i := Find(e.names, e.shdrs, rs[j].name);
      i > 0 && e.shdrs[i].size > 0 ==> e.cfg.EhdrSize() <= e.shdrs[i].offset && BodyEnd(e.shdrs[i]) <= |e.file|
  }

  /** One entry written: its body, its header, and the segment that must follow it. */
  function PlaceEntry(e: Elf, entry: Entry, to: Spot): Elf {
    var i := Find(e.names, e.shdrs, entry.name);
    if i == 0 || to.offset + |entry.data| > |e.file| then e
    else e.(file := Splice(e.file, to.offset, entry.data), shdrs := e.shdrs[i := MovedShdr(e.cfg, e.shdrs[i], to)],
            phdrs := SyncFollower(e.phdrs, entry.name, to))
  }

  /** The first n entries written one after the other. */
  function PlaceRun(e: Elf, p: Plan, n: nat): Elf
    requires n <= |p.rs|
  {
    if n == 0 then e else PlaceEntry(PlaceRun(e, p, n - 1), p.rs[n - 1], NewSpot(e.cfg, p, n - 1))
  }

  /** The state once the first n entries have been placed over the erased file x. */
  ghost predicate Progress(e: Elf, f: Elf, p: Plan, n: nat, x: seq<Byte>)
    requires Placeable(e, p) && n <= |p.rs|
  {
    && f.cfg == e.cfg && f.names == e.names && |f.file| == |e.file|
    && f.phdrs == PhdrsPlaced(e, p, n)
    && ShdrsPlaced(e, p, n, f.shdrs)
    && Laid(e.cfg, p.rs, n, p.cur, f.file)
    && Around(e.cfg, p.rs, n, p.cur, x, f.file)
  }

  lemma ProgressStart(e: Elf, f: Elf, p: Plan)
    requires Placeable(e, p) && Erased(e, p.rs, |p.rs|, f.file) && f == e.(file := f.file)
    ensures Progress(e, f, p, 0, f.file)
  {
  }

  lemma ProgressStep(e: Elf, f: Elf, p: Plan, n: nat, x: seq<Byte>)
    requires Placeable(e, p) && n < |p.rs| && Progress(e, f, p, n, x)
    ensures var to := NewSpot(e.cfg, p, n);
            Find(f.names, f.shdrs, p.rs[n].name) > 0 && to.offset + |p.rs[n].data| <= |f.file|
            && Progress(e, PlaceEntry(f, p.rs[n], to), p, n + 1, x)
  {
    hide Padded, SyncFollower, MovedShdr;
    SpaceApart(e.cfg, p.rs, n, |p.rs|);
    ShdrsPlacedStep(e, p, n, f.shdrs);
    LaidStep(e.cfg, p.rs, n, p.cur, f.file);
    AroundStep(e.cfg, p.rs, n, p.cur, x, f.file);
  }

  lemma {:induction false} RunProgress(e: Elf, f: Elf, p: Plan, n: nat)
    requires Placeable(e, p) && Erased(e, p.rs, |p.rs|, f.file) && f == e.(file := f.file) && n <= |p.rs|
    ensures Progress(e, PlaceRun(f, p, n), p, n, f.file)
    decreases n
  {
    hide Progress, Placeable, Erased, PlaceEntry, NewSpot;
    if n == 0 {
      ProgressStart(e, f, p);
    } else {
      RunProgress(e, f, p, n - 1);
      ProgressStep(e, PlaceRun(f, p, n - 1), p, n - 1, f.file);
    }
  }

  lemma RunStart(e: Elf, p: Plan)
    ensures PlaceRun(e, p, 0) == e && Space(e.cfg, p.rs, 0) == 0
  {
  }

  lemma RunStep(e: Elf, p: Plan, n: nat)
    requires n < |p.rs|
    ensures PlaceRun(e, p, n + 1) == PlaceEntry(PlaceRun(e, p, n), p.rs[n], NewSpot(e.cfg, p, n))
    ensures Space(e.cfg, p.rs, n + 1) == Space(e.cfg, p.rs, n) + Padded(|p.rs[n].data|, e.cfg.SectionAlignment())
    ensures NewSpot(e.cfg, p, n)
         == Spot(p.cur + Space(e.cfg, p.rs, n), p.startAddr + (p.cur + Space(e.cfg, p.rs, n) - p.startOffset),
                 |p.rs[n].data|)
  {
  }

  /** Each entry finds its section and its room. */
  lemma RunReady(e: Elf, f: Elf, p: Plan, n: nat)
    requires Placeable(e, p) && Erased(e, p.rs, |p.rs|, f.file) && f == e.(file := f.file) && n < |p.rs|
    ensures var g := PlaceRun(f, p, n);
            Find(g.names, g.shdrs, p.rs[n].name) > 0 && |p.rs[n].data| < 0x8000_0000
            && p.cur + Space(e.cfg, p.rs, n) + |p.rs[n].data| <= |g.file|
  {
    RunProgress(e, f, p, n);
    ProgressStep(e, PlaceRun(f, p, n), p, n, f.file);
  }

  lemma RunPlaces(e: Elf, f: Elf, p: Plan)
    requires Placeable(e, p) && Erased(e, p.rs, |p.rs|, f.file) && f == e.(file := f.file)
    ensures Placed(e, PlaceRun(f, p, |p.rs|), p)
  {
    RunProgress(e, f, p, |p.rs|);
  }

  ghost predicate Placed(e: Elf, f: Elf, p: Plan)
    requires Placeable(e, p)
  {
    && f.cfg == e.cfg && f.names == e.names && |f.file| == |e.file|
    && f.phdrs == PhdrsPlaced(e, p, |p.rs|)
    && ShdrsPlaced(e, p, |p.rs|, f.shdrs)
    && Laid(e.cfg, p.rs, |p.rs|, p.cur, f.file)
    && exists x :: Erased(e, p.rs, |p.rs|, x) && Around(e.cfg, p.rs, |p.rs|, p.cur, x, f.file)
  }

  /**
   * Byte for byte: a staged body holds its new place whatever the X-ing out touched, an abandoned
   * place holds X, and every other byte is unchanged.
   */
  lemma PlacedBytes(e: Elf, f: Elf, p: Plan)
    requires Placeable(e, p) && Placed(e, f, p)
    ensures |f.file| == |e.file|
    ensures forall j :: 0 <= j < |p.rs| ==> InPlace(e.cfg, p.rs, p.cur, j, f.file)
    ensures forall k :: 0 <= k < |f.file| && !InAnyNew(e.cfg, p.rs, p.cur, |p.rs|, k) ==>
      f.file[k] == if InAnyOld(e, p.rs, |p.rs|, k) then 'X' else e.file[k]
  {
  }

  /** New bodies are pairwise disjoint and inside the space reckoned for them. */
  lemma NewBodiesApart(c: Config, rs: seq<Entry>, cur: nat, i: nat, j: nat, k: int)
    requires SmallData(rs) && i < |rs| && j < |rs| && InNew(c, rs, cur, i, k)
    ensures cur <= k < cur + Space(c, rs, |rs|)
    ensures InNew(c, rs, cur, j, k) ==> i == j
  {
    SpaceApart(c, rs, i, |rs|);
    if i < j { SpaceApart(c, rs, i, j); }
    if j < i { SpaceApart(c, rs, j, i); }
  }

  /** New bodies are aligned in the file and in memory when the area is. */
  lemma NewBodiesAligned(c: Config, p: Plan, j: nat)
    requires j < |p.rs| && SmallData(p.rs)
    requires p.cur % c.SectionAlignment() == 0 && p.startOffset % c.SectionAlignment() == 0
    requires p.startAddr % c.SectionAlignment() == 0
    ensures NewSpot(c, p, j).offset % c.SectionAlignment() == 0 && NewSpot(c, p, j).addr % c.SectionAlignment() == 0
  {
    var m := c.SectionAlignment();
    SpaceAligned(c, p.rs, j);
    SumAligned(p.cur, Space(c, p.rs, j), m);
    DifferenceAligned(NewSpot(c, p, j).offset, p.startOffset, m);
    SumAligned(p.startAddr, NewSpot(c, p, j).offset - p.startOffset, m);
  }

  lemma DifferenceAligned(x: nat, y: nat, m: nat)
    requires (m == 4 || m == 8) && y <= x
    requires x % m == 0 && y % m == 0
    ensures (x - y) % m == 0
  {
  }

  // ----- staging -----

  /** string::resize. */
  function Resize(s: seq<Byte>, size: nat): (r: seq<Byte>)
    ensures |r| == size
    ensures forall k :: 0 <= k < size ==> r[k] == if k < |s| then s[k] else '\0'
  {
    if size <= |s| then s[..size] else s + Fill(size - |s|, '\0')
  }

  /** The staged body of a section, or the one it has in the file. */
  function CurrentBody(e: Elf, rs: seq<Entry>, name: Name): seq<Byte>
    requires Has(rs, name) || (Find(e.names, e.shdrs, name) > 0
                               && Readable(e.file, e.shdrs[Find(e.names, e.shdrs, name)]))
  {
    if Has(rs, name) then Get(rs, name)
    else BodyOf(e.file, e.shdrs[Find(e.names, e.shdrs, name)])
  }

  /** `r` is `rs` with the section's current body staged at a new size. */
  ghost predicate StagedResized(e: Elf, rs: seq<Entry>, name: Name, size: nat, r: seq<Entry>)
    requires Has(rs, name) || (Find(e.names, e.shdrs, name) > 0
                               && Readable(e.file, e.shdrs[Find(e.names, e.shdrs, name)]))
  {
    r == Put(rs, name, Resize(CurrentBody(e, rs, name), size))
  }

  lemma ResizeSame(s: seq<Byte>)
    ensures Resize(s, |s|) == s
  {
  }
}
