/**
 * Header agreement: after a rewrite the section headers, the segments and the dynamic table all
 * describe the sections where they now are.
 */
module Agreement {
  import opened Bytes
  import opened Codec
  import opened ElfTypes
  import opened Rounding
  import opened Staging
  import opened Sorting
  import opened Elf
  import opened Links
  import opened Placement
  import opened Tables
  import opened Steps
  import opened Relayout
  import opened Layout
  import opened Memory

  // ----- sections -----

  /** The two headers describe the same section at the same place. */
  predicate SamePlace(s: Shdr, t: Shdr) {
    && s.name == t.name && s.stype == t.stype && s.flags == t.flags && s.addr == t.addr && s.offset == t.offset
    && s.size == t.size && s.addralign == t.addralign && s.entsize == t.entsize
  }

  /** A section of this name exists as before, and is where the move puts it. */
  ghost predicate SectionMoved(e: Elf, m: Move, f: Elf, name: Name) {
    var i, k := Find(e.names, e.shdrs, name), Find(f.names, f.shdrs, name);
    (i == 0) == (k == 0) && (i > 0 ==> SamePlace(f.shdrs[k], RelaidShdr(e, m, i)))
  }

  lemma SectionAfter(e: Elf, m: Move, mid: Elf, f: Elf, addr: nat, n: nat, t: HeaderTrace, name: Name)
    requires Rewrite(e, m, mid, f, addr, n, t)
    ensures SectionMoved(e, m, f, name)
  {
    hide Rewrite, WellFormed, Relaid, SortedShdrs, RelaidShdr;
    RewriteKeeps(e, m, mid, f, addr, n, t);
    RewriteRelaid(e, m, mid, f, addr, n, t);
    RelaidNames(e, mid, m, name);
    MidCfg(e, m, mid);
    Names(mid);
    FoundSorted(mid.names, mid.shdrs, f.shdrs, t.sp, t.sinv, name);
    var i := Find(e.names, e.shdrs, name);
    if i > 0 {
      RelaidAt(e, mid, m, i);
    }
  }

  lemma Names(e: Elf)
    requires WellFormed(e)
    ensures NullFirst(e.shdrs) && DistinctNames(e.names, e.shdrs)
  {
  }

  /** A staged section is at its new spot; any other keeps its address and size and moves with the file. */
  lemma SectionPlace(e: Elf, m: Move, f: Elf, name: Name)
    requires SectionMoved(e, m, f, name) && Find(e.names, e.shdrs, name) > 0
    ensures var i, k := Find(e.names, e.shdrs, name), Find(f.names, f.shdrs, name);
            k > 0 && f.shdrs[k].stype == e.shdrs[i].stype
            && if Has(m.p.rs, name) then
                 Spot(f.shdrs[k].offset, f.shdrs[k].addr, f.shdrs[k].size) == NewSpot(e.cfg, m.p, IndexOf(m.p.rs, name))
               else
                 f.shdrs[k].addr == e.shdrs[i].addr && f.shdrs[k].size == e.shdrs[i].size
                 && f.shdrs[k].offset == e.shdrs[i].offset + m.d
  {
  }

  // ----- segments that describe sections -----

  predicate Describes(h: Phdr, s: Shdr) {
    h.offset == s.offset && h.vaddr == h.paddr == s.addr && h.filesz == h.memsz == s.size
  }

  /** PT_INTERP describes .interp, or PT_DYNAMIC describes .dynamic. */
  ghost predicate FollowersAgree(e: Elf, name: Name) {
    var i := Find(e.names, e.shdrs, name);
    i > 0 ==> forall x :: 0 <= x < |e.phdrs| && e.phdrs[x].ptype == Follower(name) ==> Describes(e.phdrs[x], e.shdrs[i])
  }

  /** Where an entry of the rewritten program header table comes from. */
  lemma PhdrFrom(e: Elf, m: Move, mid: Elf, f: Elf, addr: nat, p: seq<nat>, inv: seq<nat>, j: nat)
    requires Relaid(e, mid, m) && j < |f.phdrs|
    requires SortedPhdrs(WithPhdrEntry(mid.cfg, mid.phdrs, Hdr(mid).phoff, addr), f.phdrs, p, inv)
    ensures |f.phdrs| == |e.phdrs| + |m.extra| && j < |inv| && inv[j] < |f.phdrs|
    ensures f.phdrs[j] == WithPhdrEntry(mid.cfg, mid.phdrs, Hdr(mid).phoff, addr)[inv[j]]
    ensures inv[j] < |mid.phdrs| == |f.phdrs| && f.phdrs[j].ptype == mid.phdrs[inv[j]].ptype
    ensures f.phdrs[j].ptype != PT_PHDR ==> f.phdrs[j] == mid.phdrs[inv[j]]
    ensures var i := inv[j];
            if i < |e.phdrs| then mid.phdrs[i] == RelaidPhdr(e.cfg, m, e.phdrs[i])
            else mid.phdrs[i] == m.extra[i - |e.phdrs|] && mid.phdrs[i].ptype == PT_LOAD
  {
    var i := inv[j];
    if i >= |e.phdrs| {
      assert mid.phdrs[|e.phdrs|..][i - |e.phdrs|] == mid.phdrs[i];
    }
  }

  /** A segment that described its section, or whose section was staged, describes it afterwards. */
  lemma FollowersAfter(e: Elf, m: Move, mid: Elf, f: Elf, addr: nat, n: nat, t: HeaderTrace, name: Name)
    requires Rewrite(e, m, mid, f, addr, n, t) && Follower(name) != 0
    requires Has(m.p.rs, name) || FollowersAgree(e, name)
    ensures FollowersAgree(f, name)
  {
    hide Rewrite, WellFormed, Relaid, SortedPhdrs, SectionMoved, RelaidPhdr, OnlyHeaders, DynamicEdited, NullStored,
         DynamicReady, WithPhdrEntry, NewSpot;
    SectionAfter(e, m, mid, f, addr, n, t, name);
    RewriteRelaid(e, m, mid, f, addr, n, t);
    MidReady(e, m, mid, f, addr, n, t);
    var i, k := Find(e.names, e.shdrs, name), Find(f.names, f.shdrs, name);
    if k > 0 {
      FoundBefore(e, m, f, name);
      SectionPlace(e, m, f, name);
      forall x | 0 <= x < |f.phdrs| && f.phdrs[x].ptype == Follower(name) ensures Describes(f.phdrs[x], f.shdrs[k]) {
        PhdrFrom(e, m, mid, f, addr, t.p, t.inv, x);
        FollowerPlaced(e, m, name, f.phdrs[x], f.shdrs[k], t.inv[x]);
      }
    }
  }

  lemma FoundBefore(e: Elf, m: Move, f: Elf, name: Name)
    requires SectionMoved(e, m, f, name) && Find(f.names, f.shdrs, name) > 0
    ensures Find(e.names, e.shdrs, name) > 0
  {
  }

  lemma FollowerPlaced(e: Elf, m: Move, name: Name, g: Phdr, s: Shdr, x: nat)
    requires Follower(name) != 0 && x < |e.phdrs| && g == RelaidPhdr(e.cfg, m, e.phdrs[x]) && g.ptype == Follower(name)
    requires var i := Find(e.names, e.shdrs, name);
             i > 0
             && (Has(m.p.rs, name) || FollowersAgree(e, name))
             && if Has(m.p.rs, name) then Spot(s.offset, s.addr, s.size) == NewSpot(e.cfg, m.p, IndexOf(m.p.rs, name))
                else s.addr == e.shdrs[i].addr && s.size == e.shdrs[i].size && s.offset == e.shdrs[i].offset + m.d
    ensures Describes(g, s)
  {
    InterpIsNotDynamic();
    assert e.phdrs[x].ptype == g.ptype;
  }

  /** PT_PHDR, where there is one, describes the rewritten table, and is the first entry again. */
  lemma PhdrEntryAfter(e: Elf, m: Move, mid: Elf, f: Elf, addr: nat, n: nat, t: HeaderTrace)
    requires Rewrite(e, m, mid, f, addr, n, t) && PhdrEntryFirst(e.phdrs)
    ensures |f.file| >= f.cfg.EhdrSize() && Hdr(f).phnum == |f.phdrs| && PhdrEntryFirst(f.phdrs)
    ensures forall x :: 0 <= x < |f.phdrs| && f.phdrs[x].ptype == PT_PHDR ==>
      DescribesTable(f.phdrs[x], Hdr(f).phoff, addr, TableSize(|f.phdrs|, f.cfg.PhdrSize()))
  {
    hide Rewrite, WellFormed, Relaid, SortedPhdrs, RelaidPhdr, OnlyHeaders, DynamicEdited, NullStored, DynamicReady,
         WithPhdrEntry, ShdrsStored, PhdrsStored, SortedShdrs;
    RewriteRelaid(e, m, mid, f, addr, n, t);
    MidReady(e, m, mid, f, addr, n, t);
    RewriteKeeps(e, m, mid, f, addr, n, t);
    CountsAre(f);
    CountsAre(mid);
    forall x | 0 <= x < |f.phdrs| && f.phdrs[x].ptype == PT_PHDR
      ensures x == 0 && DescribesTable(f.phdrs[x], Hdr(f).phoff, addr, TableSize(|f.phdrs|, f.cfg.PhdrSize()))
    {
      PhdrEntryFrom(e, m, mid, f, addr, t.p, t.inv, x);
      PhdrEntrySortsFirst(e, m, mid, f, addr, t.p, t.inv, x);
      EntryWritten(mid.cfg, mid.phdrs, Hdr(mid).phoff, addr);
      MidCfg(e, m, mid);
    }
  }

  predicate DescribesTable(h: Phdr, offset: nat, addr: nat, size: nat) {
    h.offset == offset && h.vaddr == h.paddr == addr && h.filesz == h.memsz == size
  }

  lemma CountsAre(f: Elf)
    requires WellFormed(f)
    ensures |f.file| >= f.cfg.EhdrSize() && Hdr(f).phnum == |f.phdrs|
  {
  }

  /** It comes from entry 0. */
  lemma PhdrEntryFrom(e: Elf, m: Move, mid: Elf, f: Elf, addr: nat, p: seq<nat>, inv: seq<nat>, x: nat)
    requires Relaid(e, mid, m) && PhdrEntryFirst(e.phdrs) && x < |f.phdrs| && f.phdrs[x].ptype == PT_PHDR
    requires SortedPhdrs(WithPhdrEntry(mid.cfg, mid.phdrs, Hdr(mid).phoff, addr), f.phdrs, p, inv)
    ensures x < |inv| && inv[x] == 0 && |mid.phdrs| == |f.phdrs| && mid.phdrs[0].ptype == PT_PHDR
    ensures f.phdrs[x] == WithPhdrEntry(mid.cfg, mid.phdrs, Hdr(mid).phoff, addr)[0]
  {
    hide Relaid, SortedPhdrs, WithPhdrEntry;
    PhdrFrom(e, m, mid, f, addr, p, inv, x);
    if inv[x] < |e.phdrs| {
      assert e.phdrs[inv[x]].ptype == PT_PHDR;
    }
  }

  lemma PhdrEntrySortsFirst(e: Elf, m: Move, mid: Elf, f: Elf, addr: nat, p: seq<nat>, inv: seq<nat>, x: nat)
    requires Relaid(e, mid, m) && PhdrEntryFirst(e.phdrs) && x < |f.phdrs| && f.phdrs[x].ptype == PT_PHDR
    requires SortedPhdrs(WithPhdrEntry(mid.cfg, mid.phdrs, Hdr(mid).phoff, addr), f.phdrs, p, inv)
    ensures x == 0
  {
    PhdrEntryFrom(e, m, mid, f, addr, p, inv, x);
    assert p[inv[x]] == x && p[inv[0]] == 0;
    assert x > 0 ==> PhdrKey(f.phdrs[0]) <= PhdrKey(f.phdrs[x]);
    PhdrEntryFrom(e, m, mid, f, addr, p, inv, 0);
  }

  lemma EntryWritten(c: Config, phdrs: seq<Phdr>, phoff: nat, addr: nat)
    requires phdrs != [] && phdrs[0].ptype == PT_PHDR
    ensures DescribesTable(WithPhdrEntry(c, phdrs, phoff, addr)[0], phoff, addr, TableSize(|phdrs|, c.PhdrSize()))
  {
  }

  // ----- the dynamic table -----

  /** Entry i of the final table is entry i of the table before the rewrite, edited as its tag calls for. */
  ghost predicate EntryAfter(f: Elf, a: seq<Byte>, x: nat, i: nat) {
    && Slot(x, i, f.cfg.DynSize()) + f.cfg.DynSize() <= |a|
    && Slot(DynamicPlace(f), i, f.cfg.DynSize()) + f.cfg.DynSize() <= |f.file|
    && DynEntry(f.cfg, f.file, DynamicPlace(f), i) == Edited(f.names, f.shdrs, DynEntry(f.cfg, a, x, i))
  }

  /** Entry n, the DT_NULL, is the one before the rewrite. */
  ghost predicate EndAfter(f: Elf, a: seq<Byte>, x: nat, n: nat) {
    && Slot(x, n, f.cfg.DynSize()) + f.cfg.DynSize() <= |a|
    && Slot(DynamicPlace(f), n, f.cfg.DynSize()) + f.cfg.DynSize() <= |f.file|
    && DynEntry(f.cfg, f.file, DynamicPlace(f), n) == DynEntry(f.cfg, a, x, n)
  }

  /**
   * Every dynamic entry before DT_NULL holds the final address or size that its tag calls for, or
   * is unchanged, and the final table ends at the same entry.
   */
  lemma DynamicAfter(e: Elf, m: Move, mid: Elf, f: Elf, addr: nat, n: nat, t: HeaderTrace)
    requires Rewrite(e, m, mid, f, addr, n, t) && Find(e.names, e.shdrs, DYNAMIC) > 0
    ensures forall i :: 0 <= i < n ==> EntryAfter(f, OldTable(e, m.p.rs).0, OldTable(e, m.p.rs).1, i)
    ensures EndAfter(f, OldTable(e, m.p.rs).0, OldTable(e, m.p.rs).1, n)
  {
    hide WellFormed, Relaid, OnlyHeaders, SortedPhdrs, HeadersStep, DynEntry, Edited, DynamicPlace;
    MidReady(e, m, mid, f, addr, n, t);
    RewriteKeeps(e, m, mid, f, addr, n, t);
    MidCfg(e, m, mid);
    RelaidDynamic(e, mid, m, n);
    RelaidNames(e, mid, m, DYNAMIC);
    var a, x := OldTable(e, m.p.rs).0, OldTable(e, m.p.rs).1;
    forall i | 0 <= i < n ensures EntryAfter(f, a, x, i) {
      assert EntryMoved(e.cfg, a, x, mid.file, DynamicPlace(mid), i);
      assert DynEdited(mid.cfg, mid.names, f.shdrs, mid.file, f.file, DynamicPlace(mid), i);
    }
    EndUntouched(mid, f, n);
    assert EntryMoved(e.cfg, a, x, mid.file, DynamicPlace(mid), n);
  }

  /** The final table still ends at entry n, inside its section. */
  lemma DynamicStillReady(e: Elf, m: Move, mid: Elf, f: Elf, addr: nat, n: nat, t: HeaderTrace)
    requires Rewrite(e, m, mid, f, addr, n, t)
    ensures DynamicReady(f, n)
  {
    hide Rewrite, WellFormed, Relaid, OnlyHeaders, SortedPhdrs, HeadersStep, Terminated, DynamicEdited, SortedShdrs,
         DynamicReady;
    MidReady(e, m, mid, f, addr, n, t);
    RewriteKeeps(e, m, mid, f, addr, n, t);
    RewriteRelaid(e, m, mid, f, addr, n, t);
    MidCfg(e, m, mid);
    Names(mid);
    FoundSorted(mid.names, mid.shdrs, f.shdrs, t.sp, t.sinv, DYNAMIC);
    if Find(f.names, f.shdrs, DYNAMIC) > 0 {
      TableStillEnds(mid, f, n);
      ReadyFrom(mid, f, n);
    } else {
      NoDynamic(f, n);
    }
  }

  lemma NoDynamic(f: Elf, n: nat)
    requires Find(f.names, f.shdrs, DYNAMIC) == 0
    ensures DynamicReady(f, n)
  {
  }

  lemma ReadyFrom(mid: Elf, f: Elf, n: nat)
    requires DynamicReady(mid, n) && f.cfg == mid.cfg
    requires var i, j := Find(mid.names, mid.shdrs, DYNAMIC), Find(f.names, f.shdrs, DYNAMIC);
             i > 0 && j > 0 && f.shdrs[j].stype == mid.shdrs[i].stype && f.shdrs[j].size == mid.shdrs[i].size
    requires Terminated(f.cfg, f.file, DynamicPlace(f), n)
    ensures DynamicReady(f, n)
  {
  }

  lemma TableStillEnds(mid: Elf, f: Elf, n: nat)
    requires WellFormed(mid) && DynamicReady(mid, n) && Find(mid.names, mid.shdrs, DYNAMIC) > 0
    requires f.cfg == mid.cfg && f.names == mid.names && OnlyHeaders(mid, f, n) && DynamicEdited(mid, f, n)
    ensures Terminated(f.cfg, f.file, DynamicPlace(f), n)
  {
    hide WellFormed, OnlyHeaders, DynEntry, Edited;
    var c, off := mid.cfg, DynamicPlace(mid);
    EndUntouched(mid, f, n);
    forall i | 0 <= i <= n ensures EndsOnlyAt(c, f.file, off, i, n) {
      assert EndsOnlyAt(c, mid.file, off, i, n);
      if i < n {
        assert DynEdited(c, mid.names, f.shdrs, mid.file, f.file, off, i);
        EditedKeepsTag(mid.names, f.shdrs, DynEntry(c, mid.file, off, i));
      }
    }
  }

  lemma EditedKeepsTag(names: seq<Byte>, shdrs: seq<Shdr>, d: Dyn)
    ensures Edited(names, shdrs, d).tag == d.tag
  {
  }

  /** The DT_NULL entry is part of the section's body but is not edited. */
  lemma EndUntouched(mid: Elf, f: Elf, n: nat)
    requires WellFormed(mid) && DynamicReady(mid, n) && Find(mid.names, mid.shdrs, DYNAMIC) > 0
    requires OnlyHeaders(mid, f, n)
    ensures SameEntry(mid.cfg, mid.file, f.file, DynamicPlace(mid), n)
  {
    hide WellFormed, InDynEntries, InHeaders;
    var sz, off := mid.cfg.DynSize(), DynamicPlace(mid);
    var at := Slot(off, n, sz);
    assert EndsOnlyAt(mid.cfg, mid.file, off, n, n);
    forall k | at <= k < at + sz ensures mid.file[k] == f.file[k] {
      EndIsBody(mid, n, k);
      OnlyHeadersByte(mid, f, n, k);
    }
    SameEntryFrame(mid.cfg, mid.file, f.file, off, n);
  }

  lemma EndIsBody(mid: Elf, n: nat, k: int)
    requires WellFormed(mid) && DynamicReady(mid, n) && Find(mid.names, mid.shdrs, DYNAMIC) > 0
    requires var at := Slot(DynamicPlace(mid), n, mid.cfg.DynSize()); at <= k < at + mid.cfg.DynSize()
    ensures |mid.file| >= mid.cfg.EhdrSize() && 0 <= k < |mid.file| && !InHeaders(mid, k) && !InDynEntries(mid, n, k)
  {
    assert InBody(mid.shdrs[Find(mid.names, mid.shdrs, DYNAMIC)], k);
  }
}
