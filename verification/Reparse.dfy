/**
 * The rewritten file parses to the state that was written, and each section has in it the body
 * that was staged for it or the one it had.
 */
module Reparse {
  import opened Bytes
  import opened Options
  import opened Codec
  import opened ElfTypes
  import opened Rounding
  import opened Staging
  import opened Sorting
  import opened Elf
  import opened Links
  import opened Placement
  import opened Tables
  import opened Steps
  import opened Relayout
  import opened Layout
  import opened Memory
  import opened Agreement
  import opened Loading
  import opened Parsing

  // ----- section bodies -----

  /** The bytes of a section that is not moved are kept. */
  lemma BodyKept(e: Elf, m: Move, mid: Elf, i: nat, k: int)
    requires WellFormed(e) && Relaid(e, mid, m) && i < |e.shdrs| && !IsStaged(e, m.p.rs, i) && InBody(e.shdrs[i], k)
    requires NameOf(e.names, e.shdrs[i]) != DYNAMIC
    ensures |e.file| >= e.cfg.EhdrSize() && Kept(e, m, k)
  {
    hide WellFormed, Relaid, InBody, InStagedBody, InDynamic, ShEnd, IsStaged;
    KeptBehindCut(e, m, mid, i, k);
    BodyNotInTable(e, i, k);
    BodyInFile(e, i, k);
    NotStagedBody(e, m.p.rs, i, k);
    NotDynamicBody(e, i, k);
  }

  lemma KeptBehindCut(e: Elf, m: Move, mid: Elf, i: nat, k: int)
    requires Relaid(e, mid, m) && i < |e.shdrs| && !IsStaged(e, m.p.rs, i) && InBody(e.shdrs[i], k)
    ensures m.cut <= k
  {
  }

  lemma NotStagedBody(e: Elf, rs: seq<Entry>, i: nat, k: int)
    requires WellFormed(e) && i < |e.shdrs| && !IsStaged(e, rs, i) && InBody(e.shdrs[i], k)
    ensures !InStagedBody(e, rs, k)
  {
    hide WellFormed, InBody, IsStaged;
    if InStagedBody(e, rs, k) {
      var j :| 0 <= j < |e.shdrs| && IsStaged(e, rs, j) && InBody(e.shdrs[j], k);
      OwnBodies(e, i, j, k);
    }
  }

  lemma NotDynamicBody(e: Elf, i: nat, k: int)
    requires WellFormed(e) && i < |e.shdrs| && InBody(e.shdrs[i], k) && NameOf(e.names, e.shdrs[i]) != DYNAMIC
    ensures !InDynamic(e, k)
  {
    hide WellFormed, InBody;
    if InDynamic(e, k) {
      OwnBodies(e, i, Find(e.names, e.shdrs, DYNAMIC), k);
    }
  }

  /** The body of a section other than .dynamic: as staged, or as it was. */
  ghost predicate BodyAfter(e: Elf, rs: seq<Entry>, f: Elf, name: Name) {
    var i, k := Find(e.names, e.shdrs, name), Find(f.names, f.shdrs, name);
    && k > 0 && Readable(f.file, f.shdrs[k])
    && (Has(rs, name) ==> BodyOf(f.file, f.shdrs[k]) == Get(rs, name))
    && (!Has(rs, name) && i > 0 && e.shdrs[i].stype != SHT_NOBITS ==>
          Readable(e.file, e.shdrs[i]) && BodyOf(f.file, f.shdrs[k]) == BodyOf(e.file, e.shdrs[i]))
  }

  lemma SectionBodyAfter(e: Elf, m: Move, mid: Elf, f: Elf, addr: nat, n: nat, t: HeaderTrace, name: Name)
    requires Rewrite(e, m, mid, f, addr, n, t) && name != DYNAMIC
    requires var i := Find(e.names, e.shdrs, name); i > 0 && (Has(m.p.rs, name) || e.shdrs[i].stype != SHT_NOBITS)
    ensures BodyAfter(e, m.p.rs, f, name)
  {
    hide Rewrite, SectionMoved, NewSpot;
    SectionAfter(e, m, mid, f, addr, n, t, name);
    SectionPlace(e, m, f, name);
    if Has(m.p.rs, name) {
      StagedBody(e, m, mid, f, addr, n, t, name, Find(f.names, f.shdrs, name));
    } else {
      KeptBody(e, m, mid, f, addr, n, t, Find(e.names, e.shdrs, name), Find(f.names, f.shdrs, name));
    }
  }

  lemma StagedBody(e: Elf, m: Move, mid: Elf, f: Elf, addr: nat, n: nat, t: HeaderTrace, name: Name, k: nat)
    requires Rewrite(e, m, mid, f, addr, n, t) && name != DYNAMIC && Has(m.p.rs, name) && k < |f.shdrs|
    requires Spot(f.shdrs[k].offset, f.shdrs[k].addr, f.shdrs[k].size) == NewSpot(e.cfg, m.p, IndexOf(m.p.rs, name))
    ensures Readable(f.file, f.shdrs[k]) && BodyOf(f.file, f.shdrs[k]) == Get(m.p.rs, name)
  {
    hide Rewrite;
    var j := IndexOf(m.p.rs, name);
    var s, data := f.shdrs[k], m.p.rs[j].data;
    forall x | 0 <= x < |data| ensures HasByte(f.file, s.offset, data, x) {
      StagedByte(e, m, mid, f, addr, n, t, j, x);
    }
    BlockOfBytes(f.file, s.offset, data);
  }

  lemma KeptBody(e: Elf, m: Move, mid: Elf, f: Elf, addr: nat, n: nat, t: HeaderTrace, i: nat, k: nat)
    requires Rewrite(e, m, mid, f, addr, n, t) && 0 < i < |e.shdrs| && k < |f.shdrs|
    requires e.shdrs[i].stype != SHT_NOBITS && NameOf(e.names, e.shdrs[i]) != DYNAMIC
    requires !Has(m.p.rs, NameOf(e.names, e.shdrs[i]))
    requires f.shdrs[k].size == e.shdrs[i].size && f.shdrs[k].offset == e.shdrs[i].offset + m.d
    ensures Readable(e.file, e.shdrs[i]) && Readable(f.file, f.shdrs[k])
    ensures BodyOf(f.file, f.shdrs[k]) == BodyOf(e.file, e.shdrs[i])
  {
    hide Rewrite, Kept, WellFormed, Relaid, NameOf;
    var s, q := e.shdrs[i], f.shdrs[k];
    RewriteRelaid(e, m, mid, f, addr, n, t);
    BodyReadable(e, i);
    var data := BodyOf(e.file, s);
    forall x | 0 <= x < |data| ensures HasByte(f.file, q.offset, data, x) {
      BodyKept(e, m, mid, i, s.offset + x);
      KeptByte(e, m, mid, f, addr, n, t, s.offset + x);
    }
    BlockOfBytes(f.file, q.offset, data);
  }

  // ----- the body of .dynamic -----

  /** Nothing but the entries before DT_NULL differs between the two bodies. */
  ghost predicate SameBehindEntries(c: Config, was: seq<Byte>, body: seq<Byte>, n: nat) {
    var size := TableSize(n, c.DynSize());
    size <= |body| == |was| && body[size..] == was[size..]
  }

  /** The body of .dynamic behind its entries: as staged, or as it was. */
  ghost predicate DynamicBodyAfter(e: Elf, rs: seq<Entry>, f: Elf, n: nat) {
    var i, k := Find(e.names, e.shdrs, DYNAMIC), Find(f.names, f.shdrs, DYNAMIC);
    && k > 0 && Readable(f.file, f.shdrs[k])
    && (Has(rs, DYNAMIC) ==> SameBehindEntries(f.cfg, Get(rs, DYNAMIC), BodyOf(f.file, f.shdrs[k]), n))
    && (!Has(rs, DYNAMIC) && i > 0 ==>
          Readable(e.file, e.shdrs[i])
          && SameBehindEntries(f.cfg, BodyOf(e.file, e.shdrs[i]), BodyOf(f.file, f.shdrs[k]), n))
  }

  /**
   * A rewrite edits the entries of .dynamic before DT_NULL and nothing else of its body: with
   * DynamicAfter this gives every byte of the final table.
   */
  lemma DynamicSectionAfter(e: Elf, m: Move, mid: Elf, f: Elf, addr: nat, n: nat, t: HeaderTrace)
    requires Rewrite(e, m, mid, f, addr, n, t) && Find(e.names, e.shdrs, DYNAMIC) > 0
    ensures DynamicBodyAfter(e, m.p.rs, f, n)
  {
    hide Rewrite, SectionMoved, NewSpot;
    SectionAfter(e, m, mid, f, addr, n, t, DYNAMIC);
    SectionPlace(e, m, f, DYNAMIC);
    RewriteCfg(e, m, mid, f, addr, n, t);
    if Has(m.p.rs, DYNAMIC) {
      StagedDynamicBody(e, m, mid, f, addr, n, t, Find(f.names, f.shdrs, DYNAMIC));
    } else {
      KeptDynamicBody(e, m, mid, f, addr, n, t, Find(e.names, e.shdrs, DYNAMIC), Find(f.names, f.shdrs, DYNAMIC));
    }
  }

  lemma StagedDynamicBody(e: Elf, m: Move, mid: Elf, f: Elf, addr: nat, n: nat, t: HeaderTrace, k: nat)
    requires Rewrite(e, m, mid, f, addr, n, t) && Has(m.p.rs, DYNAMIC) && k < |f.shdrs|
    requires Spot(f.shdrs[k].offset, f.shdrs[k].addr, f.shdrs[k].size)
          == NewSpot(e.cfg, m.p, IndexOf(m.p.rs, DYNAMIC))
    ensures Readable(f.file, f.shdrs[k])
    ensures SameBehindEntries(e.cfg, Get(m.p.rs, DYNAMIC), BodyOf(f.file, f.shdrs[k]), n)
  {
    hide Rewrite;
    var j, size := IndexOf(m.p.rs, DYNAMIC), TableSize(n, e.cfg.DynSize());
    var s, data := f.shdrs[k], m.p.rs[j].data;
    StagedHasEntries(e, m, mid, f, addr, n, t);
    var tail, off := data[size..], s.offset + size;
    forall x | 0 <= x < |tail| ensures HasByte(f.file, off, tail, x) {
      StagedByte(e, m, mid, f, addr, n, t, j, size + x);
    }
    TailOfBytes(f.file, s, data, size, tail, off);
  }

  /** The bytes of a body from `size` on. */
  lemma TailOfBytes(f: seq<Byte>, s: Shdr, data: seq<Byte>, size: nat, tail: seq<Byte>, off: nat)
    requires size < |data| == s.size && tail == data[size..] && off == s.offset + size
    requires forall x :: 0 <= x < |tail| ==> HasByte(f, off, tail, x)
    ensures Readable(f, s) && BodyOf(f, s)[size..] == data[size..]
  {
    BlockOfBytes(f, off, tail);
    assert BodyOf(f, s)[size..] == f[off..s.offset + |data|];
  }

  lemma StagedHasEntries(e: Elf, m: Move, mid: Elf, f: Elf, addr: nat, n: nat, t: HeaderTrace)
    requires Rewrite(e, m, mid, f, addr, n, t) && Has(m.p.rs, DYNAMIC)
    ensures TableSize(n, e.cfg.DynSize()) < |Get(m.p.rs, DYNAMIC)|
  {
    hide HeadersStep, Relaid, WellFormed;
    assert TableSize(n + 1, e.cfg.DynSize()) <= |Get(m.p.rs, DYNAMIC)|;
  }

  lemma KeptDynamicBody(e: Elf, m: Move, mid: Elf, f: Elf, addr: nat, n: nat, t: HeaderTrace, i: nat, k: nat)
    requires Rewrite(e, m, mid, f, addr, n, t) && !Has(m.p.rs, DYNAMIC) && k < |f.shdrs|
    requires i == Find(e.names, e.shdrs, DYNAMIC) > 0
    requires f.shdrs[k].size == e.shdrs[i].size && f.shdrs[k].offset == e.shdrs[i].offset + m.d
    ensures Readable(e.file, e.shdrs[i]) && Readable(f.file, f.shdrs[k])
    ensures SameBehindEntries(e.cfg, BodyOf(e.file, e.shdrs[i]), BodyOf(f.file, f.shdrs[k]), n)
  {
    hide Rewrite, WellFormed, Relaid, Find;
    var s, q, size := e.shdrs[i], f.shdrs[k], TableSize(n, e.cfg.DynSize());
    RewriteRelaid(e, m, mid, f, addr, n, t);
    RewriteDynamic(e, m, mid, f, addr, n, t);
    BodyReadable(e, i);
    var data := BodyOf(e.file, s);
    var tail, off := data[size..], q.offset + size;
    forall x | 0 <= x < |tail| ensures HasByte(f.file, off, tail, x) {
      DynamicRest(e, m, mid, f, addr, n, t, size + x);
    }
    TailOfBytes(f.file, q, data, size, tail, off);
  }

  // ----- the section names -----

  ghost function NamesSection(e: Elf): Name
    requires |e.file| >= e.cfg.EhdrSize() && Hdr(e).shstrndx < |e.shdrs|
  {
    NameOf(e.names, e.shdrs[Hdr(e).shstrndx])
  }

  /** The section-name table is not .dynamic, and if it is staged it is staged as it is. */
  ghost predicate NamesUntouched(e: Elf, rs: seq<Entry>)
    requires |e.file| >= e.cfg.EhdrSize() && Hdr(e).shstrndx < |e.shdrs|
  {
    NamesSection(e) != DYNAMIC && (Has(rs, NamesSection(e)) ==> Get(rs, NamesSection(e)) == e.names)
  }

  /** A name table with a body is not the null section. */
  lemma NamesNotNull(e: Elf)
    requires WellFormed(e) && NamesStored(e)
    ensures Hdr(e).shstrndx > 0 && Find(e.names, e.shdrs, NamesSection(e)) == Hdr(e).shstrndx
  {
    if Hdr(e).shstrndx == 0 {
      assert InBody(e.shdrs[0], 0);
      BodyInFile(e, 0, 0);
    }
    FindUnique(e.names, e.shdrs, Hdr(e).shstrndx);
  }

  lemma HdrAfter(e: Elf, m: Move, mid: Elf, f: Elf, addr: nat, n: nat, t: HeaderTrace)
    requires Rewrite(e, m, mid, f, addr, n, t)
    ensures |e.file| >= e.cfg.EhdrSize() && |f.file| >= f.cfg.EhdrSize() && f.cfg == e.cfg && f.names == e.names
    ensures Hdr(f).ident == Hdr(e).ident && Hdr(f).etype == Hdr(e).etype
    ensures WellFormed(e) && Hdr(e).shstrndx < |e.shdrs| && Hdr(f).shstrndx < |f.shdrs|
    ensures Hdr(e).shstrndx > 0 ==>
      Hdr(f).shstrndx == Find(f.names, f.shdrs, NamesSection(e)) > 0
  {
    hide Rewrite, Relaid, HeadersStep, NullStored, DynamicReady, SortedShdrs, PhdrsStored, ShdrsStored, SortedPhdrs,
         OnlyHeaders, DynamicEdited, WellFormed;
    RewriteKeeps(e, m, mid, f, addr, n, t);
    RewriteRelaid(e, m, mid, f, addr, n, t);
    MidReady(e, m, mid, f, addr, n, t);
    RelaidHdr(e, mid, m);
    IndexInRange(e);
    IndexInRange(f);
    Names(e);
    Names(mid);
    var i := Hdr(e).shstrndx;
    if i > 0 {
      FindUnique(e.names, e.shdrs, i);
      RelaidNames(e, mid, m, NamesSection(e));
      FoundSorted(mid.names, mid.shdrs, f.shdrs, t.sp, t.sinv, NamesSection(e));
    }
  }

  lemma RelaidHdr(e: Elf, mid: Elf, m: Move)
    requires Relaid(e, mid, m)
    ensures |e.file| >= e.cfg.EhdrSize() && |mid.file| >= mid.cfg.EhdrSize() && mid.cfg == e.cfg && mid.names == e.names
    ensures Hdr(mid).ident == Hdr(e).ident && Hdr(mid).etype == Hdr(e).etype && Hdr(mid).shstrndx == Hdr(e).shstrndx
  {
  }

  lemma IndexInRange(e: Elf)
    requires WellFormed(e)
    ensures |e.file| >= e.cfg.EhdrSize() && Hdr(e).shstrndx < |e.shdrs|
  {
  }

  lemma NamesStoredAfter(e: Elf, m: Move, mid: Elf, f: Elf, addr: nat, n: nat, t: HeaderTrace)
    requires Rewrite(e, m, mid, f, addr, n, t) && |e.file| >= e.cfg.EhdrSize() && NamesStored(e)
    requires NamesUntouched(e, m.p.rs)
    ensures |f.file| >= f.cfg.EhdrSize() && NamesStored(f)
  {
    hide Rewrite, WellFormed, SectionMoved, DecodeEhdr, Find, NameOf, Get;
    HdrAfter(e, m, mid, f, addr, n, t);
    NamesNotNull(e);
    SectionAfter(e, m, mid, f, addr, n, t, NamesSection(e));
    SectionPlace(e, m, f, NamesSection(e));
    SectionBodyAfter(e, m, mid, f, addr, n, t, NamesSection(e));
    var s := f.shdrs[Hdr(f).shstrndx];
    assert BodyOf(f.file, s) == e.names;
    assert s.size == |e.names|;
  }

  /**
   * The re-parse round trip: the rewritten file parses to exactly the headers, tables and names
   * that are in memory.
   */
  lemma ReparseRoundTrip(e: Elf, m: Move, mid: Elf, f: Elf, addr: nat, n: nat, t: HeaderTrace)
    requires Rewrite(e, m, mid, f, addr, n, t) && SelfDescribing(e) && NamesUntouched(e, m.p.rs)
    requires |f.file| < 0x8000_0000
    ensures SelfDescribing(f) && Parse(f.cfg.mipsel, f.file) == Some(f)
  {
    hide Rewrite, WellFormed, PhdrsStored, ShdrsStored, SortedShdrs, NamesStored;
    RewriteKeeps(e, m, mid, f, addr, n, t);
    HdrAfter(e, m, mid, f, addr, n, t);
    NamesStoredAfter(e, m, mid, f, addr, n, t);
    TablesAre(f);
    ParseYields(f);
  }

  lemma TablesAre(f: Elf)
    requires WellFormed(f)
    ensures Counts(f) && TablesApart(f)
  {
  }

  // ----- the interpreter -----

  /** getInterpreter: the body of .interp. */
  function InterpreterOf(e: Elf): Option<seq<Byte>> {
    var i := Find(e.names, e.shdrs, INTERP);
    if i > 0 && Readable(e.file, e.shdrs[i]) then Some(BodyOf(e.file, e.shdrs[i])) else None
  }

  /** A staged interpreter is what is read back from the rewritten file. */
  lemma InterpreterReadsBack(e: Elf, m: Move, mid: Elf, f: Elf, addr: nat, n: nat, t: HeaderTrace)
    requires Rewrite(e, m, mid, f, addr, n, t) && Find(e.names, e.shdrs, INTERP) > 0 && Has(m.p.rs, INTERP)
    ensures InterpreterOf(f) == Some(Get(m.p.rs, INTERP))
  {
    hide Rewrite;
    InterpIsNotDynamic();
    SectionBodyAfter(e, m, mid, f, addr, n, t, INTERP);
  }
}
