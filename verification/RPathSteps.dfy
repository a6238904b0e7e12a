/** Setting the search path in a file: writes inside the bodies of .dynamic and .dynstr, and staged bodies. */
module RPathSteps {
  import opened Bytes
  import opened Options
  import opened Codec
  import opened ElfTypes
  import opened Staging
  import opened Elf
  import opened Links
  import opened Placement
  import opened Tables
  import opened Steps
  import opened Relayout
  import opened Memory
  import opened Agreement
  import opened Parsing
  import opened Reparse
  import opened RPath
  import opened Shrink

  // ----- the table as bytes -----

  /** The table at the start of `b` has exactly these entries before its DT_NULL. */
  ghost predicate HoldsTable(c: Config, b: seq<Byte>, es: seq<Dyn>) {
    && TableSize(|es| + 1, c.DynSize()) <= |b|
    && (forall i :: 0 <= i < |es| ==> HoldsEntry(c, b, i, es[i]) && es[i].tag != DT_NULL)
    && HoldsNull(c, b, |es|)
  }

  ghost predicate HoldsEntry(c: Config, b: seq<Byte>, i: nat, d: Dyn) {
    Slot(0, i, c.DynSize()) + c.DynSize() <= |b| && DynEntry(c, b, 0, i) == d
  }

  ghost predicate HoldsNull(c: Config, b: seq<Byte>, i: nat) {
    Slot(0, i, c.DynSize()) + c.DynSize() <= |b| && DynEntry(c, b, 0, i).tag == DT_NULL
  }

  /** Entry i overwritten. */
  function WithEntry(c: Config, b: seq<Byte>, i: nat, d: Dyn): (r: seq<Byte>)
    requires Slot(0, i, c.DynSize()) + c.DynSize() <= |b|
    ensures |r| == |b|
  {
    Splice(b, Slot(0, i, c.DynSize()), EncodeDyn(c, d))
  }

  lemma WithEntryHolds(c: Config, b: seq<Byte>, es: seq<Dyn>, i: nat, d: Dyn)
    requires HoldsTable(c, b, es) && i < |es| && DynOk(c, d) && d.tag != DT_NULL
    ensures Slot(0, i, c.DynSize()) + c.DynSize() <= |b|
    ensures HoldsTable(c, WithEntry(c, b, i, d), es[i := d])
  {
    var sz := c.DynSize();
    assert HoldsEntry(c, b, i, es[i]);
    var r := WithEntry(c, b, i, d);
    EntryReadsBack(c, b, i, d);
    var t := es[i := d];
    forall j | 0 <= j < |es| ensures HoldsEntry(c, r, j, t[j]) && t[j].tag != DT_NULL {
      assert HoldsEntry(c, b, j, es[j]);
      if j != i { EntryKept(c, b, i, d, j); }
    }
    EntryKept(c, b, i, d, |es|);
  }

  lemma EntryReadsBack(c: Config, b: seq<Byte>, i: nat, d: Dyn)
    requires Slot(0, i, c.DynSize()) + c.DynSize() <= |b| && DynOk(c, d)
    ensures HoldsEntry(c, WithEntry(c, b, i, d), i, d)
  {
    SpliceReadBack(b, Slot(0, i, c.DynSize()), EncodeDyn(c, d));
    DynRoundTrip(c, d);
  }

  lemma EntryKept(c: Config, b: seq<Byte>, i: nat, d: Dyn, j: nat)
    requires Slot(0, i, c.DynSize()) + c.DynSize() <= |b| && Slot(0, j, c.DynSize()) + c.DynSize() <= |b| && i != j
    ensures DynEntry(c, WithEntry(c, b, i, d), 0, j) == DynEntry(c, b, 0, j)
  {
    var sz := c.DynSize();
    if i < j { SlotsApart(0, i, j, sz); } else { SlotsApart(0, j, i, sz); }
    SpliceFrame(b, Slot(0, i, sz), EncodeDyn(c, d), Slot(0, j, sz), Slot(0, j, sz) + sz);
  }

  /** A new first entry in a table that has grown by one entry. */
  function WithFirst(c: Config, b: seq<Byte>, n: nat, d: Dyn): (r: seq<Byte>)
    requires TableSize(n + 1, c.DynSize()) <= |b|
    ensures |r| == |b| + c.DynSize()
  {
    var g := Resize(b, |b| + c.DynSize());
    Splice(Splice(g, c.DynSize(), g[..TableSize(n + 1, c.DynSize())]), 0, EncodeDyn(c, d))
  }

  lemma WithFirstHolds(c: Config, b: seq<Byte>, es: seq<Dyn>, d: Dyn)
    requires HoldsTable(c, b, es) && DynOk(c, d) && d.tag != DT_NULL
    ensures HoldsTable(c, WithFirst(c, b, |es|, d), [d] + es)
  {
    hide HoldsEntry, HoldsNull, EntriesMoved;
    var sz, r, t := c.DynSize(), WithFirst(c, b, |es|, d), [d] + es;
    WithFirstBytes(c, b, |es|, d);
    BlockMoved(c, b, r, |es|);
    FirstEntry(c, r, d);
    forall i | 0 <= i < |t| ensures HoldsEntry(c, r, i, t[i]) && t[i].tag != DT_NULL {
      if i > 0 {
        assert HoldsEntry(c, b, i - 1, es[i - 1]);
        NextEntry(c, b, r, |es|, i - 1);
      }
    }
    NextEntry(c, b, r, |es|, |es|);
  }

  /**
   * The body of .dynamic with a new first entry: the entry, then the old table with its DT_NULL, and the
   * rest where it was, grown at its end with zeros.
   */
  ghost predicate GrownTable(c: Config, b: seq<Byte>, es: seq<Dyn>, body: seq<Byte>) {
    var sz := c.DynSize();
    var len := TableSize(|es|, sz);
    && es != [] && len <= |b| && |body| == |b| + sz
    && body[0..sz] == EncodeDyn(c, es[0]) && body[sz..sz + len] == b[0..len]
    && forall k :: sz + len <= k < |body| ==> body[k] == if k < |b| then b[k] else '\0'
  }

  lemma WithFirstGrows(c: Config, b: seq<Byte>, es: seq<Dyn>, d: Dyn)
    requires HoldsTable(c, b, es)
    ensures TableSize(|es| + 1, c.DynSize()) <= |b| && GrownTable(c, b, [d] + es, WithFirst(c, b, |es|, d))
  {
    hide EncodeDyn, WithFirst;
    WithFirstBytes(c, b, |es|, d);
  }

  lemma WithFirstBytes(c: Config, b: seq<Byte>, n: nat, d: Dyn)
    requires TableSize(n + 1, c.DynSize()) <= |b|
    ensures var sz, r := c.DynSize(), WithFirst(c, b, n, d);
            TableSize(n + 2, sz) <= |r| && r[0..sz] == EncodeDyn(c, d)
            && r[sz..sz + TableSize(n + 1, sz)] == b[0..TableSize(n + 1, sz)]
            && forall k :: TableSize(n + 2, sz) <= k < |r| ==> r[k] == if k < |b| then b[k] else '\0'
  {
    var sz, len := c.DynSize(), TableSize(n + 1, c.DynSize());
    var g := Resize(b, |b| + sz);
    var h := Splice(g, sz, g[..len]);
    SpliceReadBack(g, sz, g[..len]);
    SpliceReadBack(h, 0, EncodeDyn(c, d));
    SpliceFrame(h, 0, EncodeDyn(c, d), sz, sz + len);
    assert g[..len] == b[0..len];
  }

  lemma FirstEntry(c: Config, r: seq<Byte>, d: Dyn)
    requires c.DynSize() <= |r| && r[0..c.DynSize()] == EncodeDyn(c, d) && DynOk(c, d)
    ensures HoldsEntry(c, r, 0, d)
  {
    DynRoundTrip(c, d);
  }

  lemma BlockMoved(c: Config, b: seq<Byte>, r: seq<Byte>, n: nat)
    requires var sz := c.DynSize();
             var len := TableSize(n + 1, sz);
             len <= |b| && sz + len <= |r| && r[sz..sz + len] == b[0..len]
    ensures EntriesMoved(c, b, 0, r, c.DynSize(), n)
  {
    var sz := c.DynSize();
    forall i | 0 <= i <= n ensures EntryMoved(c, b, 0, r, sz, i) {
      SlotInside(0, i, n + 1, sz);
      SubBlock(b, 0, r, sz, TableSize(n + 1, sz), TableSize(i, sz), sz);
    }
  }

  /** Entry i of the old table is entry i + 1 of the new one. */
  lemma NextEntry(c: Config, b: seq<Byte>, r: seq<Byte>, n: nat, i: nat)
    requires EntriesMoved(c, b, 0, r, c.DynSize(), n) && i <= n
    ensures forall d :: HoldsEntry(c, b, i, d) ==> HoldsEntry(c, r, i + 1, d)
    ensures HoldsNull(c, b, i) ==> HoldsNull(c, r, i + 1)
  {
    assert EntryMoved(c, b, 0, r, c.DynSize(), i);
    assert Slot(0, i + 1, c.DynSize()) == Slot(c.DynSize(), i, c.DynSize());
  }

  // ----- writes inside a section -----

  /** Bytes of a section's body overwritten in the file. */
  function BodyWritten(e: Elf, i: nat, pos: nat, b: seq<Byte>): Elf
    requires i < |e.shdrs| && e.shdrs[i].offset + pos + |b| <= |e.file|
  {
    e.(file := Splice(e.file, e.shdrs[i].offset + pos, b))
  }

  /** Everything but the bodies of the sections named is as it was. */
  ghost predicate OnlyBodies(e: Elf, f: Elf, d: nat, s: nat) {
    && d < |e.shdrs| && s < |e.shdrs| && f == e.(file := f.file) && |f.file| == |e.file|
    && forall k :: 0 <= k < |e.file| && !InBody(e.shdrs[d], k) && !InBody(e.shdrs[s], k) ==> f.file[k] == e.file[k]
  }

  /** A write inside one of the two bodies changes that body and no other. */
  lemma BodyWrittenReads(e: Elf, f: Elf, d: nat, s: nat, i: nat, j: nat, pos: nat, b: seq<Byte>)
    requires WellFormed(e) && OnlyBodies(e, f, d, s) && i < |e.shdrs| && j < |e.shdrs| && i != j && {i, j} == {d, s}
    requires e.shdrs[i].stype != SHT_NOBITS && e.shdrs[j].stype != SHT_NOBITS && 0 < |b| && pos + |b| <= e.shdrs[i].size
    requires Readable(f.file, e.shdrs[i]) && Readable(f.file, e.shdrs[j])
    ensures e.shdrs[i].offset + pos + |b| <= |f.file|
    ensures var g := BodyWritten(f, i, pos, b);
            && OnlyBodies(e, g, d, s)
            && BodyOf(g.file, e.shdrs[i]) == Splice(BodyOf(f.file, e.shdrs[i]), pos, b)
            && BodyOf(g.file, e.shdrs[j]) == BodyOf(f.file, e.shdrs[j])
  {
    hide WellFormed;
    var g, a, o := BodyWritten(f, i, pos, b), e.shdrs[i], e.shdrs[j];
    forall k | a.offset + pos <= k < a.offset + pos + |b| ensures InBody(a, k) && !InBody(o, k) {
      assert InBody(a, k);
      if InBody(o, k) { OwnBodies(e, i, j, k); }
    }
    assert BodyOf(g.file, a) == Splice(BodyOf(f.file, a), pos, b);
    assert BodyOf(g.file, o) == BodyOf(f.file, o) by {
      forall k | o.offset <= k < BodyEnd(o) && k < |f.file| ensures g.file[k] == f.file[k] {
        assert InBody(o, k);
      }
    }
  }

  // ----- the state while the path is being set -----

  /** The file's tables are these; nothing outside the two bodies has changed since e. */
  ghost predicate PathState(e: Elf, f: Elf, d: nat, s: nat, es: seq<Dyn>, str: seq<Byte>) {
    && OnlyBodies(e, f, d, s) && Readable(f.file, e.shdrs[d]) && Readable(f.file, e.shdrs[s])
    && HoldsTable(e.cfg, BodyOf(f.file, e.shdrs[d]), es) && BodyOf(f.file, e.shdrs[s]) == str
  }

  /** Sections d and s of e can hold the dynamic table and its strings. */
  ghost predicate PathSections(e: Elf, d: nat, s: nat) {
    && WellFormed(e) && d < |e.shdrs| && s < |e.shdrs| && d != s
    && e.shdrs[d].stype != SHT_NOBITS && e.shdrs[s].stype != SHT_NOBITS
  }

  lemma StringsWritten(e: Elf, f: Elf, d: nat, s: nat, es: seq<Dyn>, str: seq<Byte>, pos: nat, b: seq<Byte>)
    requires PathSections(e, d, s) && PathState(e, f, d, s, es, str) && pos + |b| <= |str|
    ensures e.shdrs[s].offset + pos + |b| <= |f.file| || |b| == 0
    ensures 0 < |b| ==> PathState(e, BodyWritten(f, s, pos, b), d, s, es, Splice(str, pos, b))
  {
    hide WellFormed, HoldsTable;
    if 0 < |b| {
      BodyWrittenReads(e, f, d, s, s, d, pos, b);
    }
  }

  lemma EntryStored(e: Elf, f: Elf, g: Elf, d: nat, s: nat, es: seq<Dyn>, str: seq<Byte>, i: nat, entry: Dyn)
    requires PathSections(e, d, s) && PathState(e, f, d, s, es, str) && i < |es|
    requires DynOk(e.cfg, entry) && entry.tag != DT_NULL
    requires e.shdrs[d].offset + Slot(0, i, e.cfg.DynSize()) + e.cfg.DynSize() <= |f.file|
    requires g == f.(file := Splice(f.file, e.shdrs[d].offset + Slot(0, i, e.cfg.DynSize()), EncodeDyn(e.cfg, entry)))
    ensures PathState(e, g, d, s, es[i := entry], str)
  {
    hide WellFormed, HoldsTable;
    var c, body := e.cfg, BodyOf(f.file, e.shdrs[d]);
    WithEntryHolds(c, body, es, i, entry);
    EntryIs(c, body, es, i);
    BodyWrittenReads(e, f, d, s, d, s, Slot(0, i, c.DynSize()), EncodeDyn(c, entry));
  }

  /** Entry i of the table, in the file. */
  lemma EntryInFile(e: Elf, f: Elf, d: nat, s: nat, es: seq<Dyn>, str: seq<Byte>, i: nat)
    requires PathState(e, f, d, s, es, str) && i <= |es|
    ensures e.shdrs[d].offset + Slot(0, i, e.cfg.DynSize()) + e.cfg.DynSize() <= |f.file|
    ensures i < |es| ==> DynAt(e.cfg, f.file, e.shdrs[d].offset + Slot(0, i, e.cfg.DynSize())) == es[i]
                         && DynOk(e.cfg, es[i]) && es[i].tag != DT_NULL
    ensures i == |es| ==> DynAt(e.cfg, f.file, e.shdrs[d].offset + Slot(0, i, e.cfg.DynSize())).tag == DT_NULL
  {
    hide HoldsTable, DecodeDyn, TableSize;
    var c, x := e.cfg, e.shdrs[d].offset;
    var at, sz := Slot(0, i, c.DynSize()), c.DynSize();
    var body := BodyOf(f.file, e.shdrs[d]);
    EntryIs(c, body, es, i);
    SliceOfSlice(f.file, x, e.shdrs[d].size, at, sz);
  }

  lemma EntryIs(c: Config, b: seq<Byte>, es: seq<Dyn>, i: nat)
    requires HoldsTable(c, b, es) && i <= |es|
    ensures Slot(0, i, c.DynSize()) + c.DynSize() <= |b|
    ensures i < |es| ==> DynEntry(c, b, 0, i) == es[i] && es[i].tag != DT_NULL && DynOk(c, es[i])
    ensures i == |es| ==> DynEntry(c, b, 0, i).tag == DT_NULL
  {
    if i < |es| {
      assert HoldsEntry(c, b, i, es[i]);
    }
  }

  // ----- what setting the path relies on, and its result -----

  /** Both sections exist in the file, none is staged, and the path and library strings end in the table. */
  ghost predicate PathReady(e: Elf, rs: seq<Entry>, es: seq<Dyn>) {
    var d, s := Find(e.names, e.shdrs, DYNAMIC), Find(e.names, e.shdrs, DYNSTR);
    && d > 0 && s > 0 && PathSections(e, d, s) && Sorted(rs) && !Has(rs, DYNAMIC) && !Has(rs, DYNSTR)
    && Readable(e.file, e.shdrs[d]) && Readable(e.file, e.shdrs[s])
    && HoldsTable(e.cfg, BodyOf(e.file, e.shdrs[d]), es)
    && StringsEnd(es, BodyOf(e.file, e.shdrs[s]))
  }

  /** The body of .dynstr. */
  ghost function StringsOf(e: Elf): seq<Byte> {
    var s := Find(e.names, e.shdrs, DYNSTR);
    if s > 0 && Readable(e.file, e.shdrs[s]) then BodyOf(e.file, e.shdrs[s]) else []
  }

  ghost predicate StringsEnd(es: seq<Dyn>, str: seq<Byte>) {
    forall i :: 0 <= i < |es| && (es[i].tag == DT_RPATH || es[i].tag == DT_RUNPATH || es[i].tag == DT_NEEDED)
      ==> Ends(str, es[i].val)
  }

  /** The state after modifyRPath has stored a path: table and strings, staged or in the file, are as SetPath says. */
  ghost predicate PathStored(e: Elf, rs: seq<Entry>, f: Elf, qs: seq<Entry>, r: Edit) {
    var d, s := Find(e.names, e.shdrs, DYNAMIC), Find(e.names, e.shdrs, DYNSTR);
    && d > 0 && s > 0 && OnlyBodies(e, f, d, s) && Sorted(qs)
    && Readable(f.file, e.shdrs[d]) && Readable(f.file, e.shdrs[s])
    && Has(qs, DYNSTR) == r.grown && Has(qs, DYNAMIC) == r.added
    && qs == (if r.added then Put(Put(rs, DYNSTR, r.str), DYNAMIC, Get(qs, DYNAMIC))
              else if r.grown then Put(rs, DYNSTR, r.str) else rs)
    && (r.added ==> GrownTable(e.cfg, BodyOf(f.file, e.shdrs[d]), r.es, Get(qs, DYNAMIC)))
    && HoldsTable(e.cfg, CurrentBody(f, qs, DYNAMIC), r.es) && CurrentBody(f, qs, DYNSTR) == r.str
    && forall name :: name != DYNAMIC && name != DYNSTR ==> SameStaged(rs, qs, name)
  }

  ghost predicate SameStaged(rs: seq<Entry>, qs: seq<Entry>, name: Name) {
    Has(qs, name) == Has(rs, name) && (Has(rs, name) ==> Get(qs, name) == Get(rs, name))
  }

  lemma DynstrIsNotDynamic()
    ensures DYNSTR != DYNAMIC && DYNSTR != INTERP
  {
    assert DYNSTR[4] != DYNAMIC[4] && DYNSTR[1] != INTERP[1];
  }

  lemma PathStarts(e: Elf, rs: seq<Entry>, es: seq<Dyn>, d: nat, s: nat)
    requires PathReady(e, rs, es) && d == Find(e.names, e.shdrs, DYNAMIC) && s == Find(e.names, e.shdrs, DYNSTR)
    ensures d > 0 && s > 0 && PathSections(e, d, s) && PathState(e, e, d, s, es, BodyOf(e.file, e.shdrs[s]))
  {
  }

  lemma StoredInPlace(e: Elf, rs: seq<Entry>, f: Elf, d: nat, s: nat, es: seq<Dyn>, str: seq<Byte>)
    requires d == Find(e.names, e.shdrs, DYNAMIC) > 0 && s == Find(e.names, e.shdrs, DYNSTR) > 0
    requires PathState(e, f, d, s, es, str) && Sorted(rs) && !Has(rs, DYNAMIC) && !Has(rs, DYNSTR)
    ensures PathStored(e, rs, f, rs, Edit(es, str, false, false))
  {
    hide HoldsTable;
  }

  lemma StoredGrown(e: Elf, rs: seq<Entry>, f: Elf, d: nat, s: nat, es: seq<Dyn>, str: seq<Byte>, grown: seq<Byte>)
    requires d == Find(e.names, e.shdrs, DYNAMIC) > 0 && s == Find(e.names, e.shdrs, DYNSTR) > 0
    requires PathState(e, f, d, s, es, str) && Sorted(rs) && !Has(rs, DYNAMIC) && !Has(rs, DYNSTR)
    ensures PathStored(e, rs, f, Put(rs, DYNSTR, grown), Edit(es, grown, true, false))
  {
    hide HoldsTable, Put, Has, Get;
    DynstrIsNotDynamic();
    PutGet(rs, DYNSTR, grown, DYNAMIC);
    forall name | name != DYNAMIC && name != DYNSTR ensures SameStaged(rs, Put(rs, DYNSTR, grown), name) {
      PutGet(rs, DYNSTR, grown, name);
    }
  }

  lemma StoredAdded(e: Elf, rs: seq<Entry>, f: Elf, d: nat, s: nat, es: seq<Dyn>, str: seq<Byte>, grown: seq<Byte>,
                    body: seq<Byte>, ts: seq<Dyn>)
    requires d == Find(e.names, e.shdrs, DYNAMIC) > 0 && s == Find(e.names, e.shdrs, DYNSTR) > 0
    requires PathState(e, f, d, s, es, str) && Sorted(rs) && !Has(rs, DYNAMIC) && !Has(rs, DYNSTR)
    requires HoldsTable(e.cfg, body, ts) && GrownTable(e.cfg, BodyOf(f.file, e.shdrs[d]), ts, body)
    ensures PathStored(e, rs, f, Put(Put(rs, DYNSTR, grown), DYNAMIC, body), Edit(ts, grown, true, true))
  {
    hide HoldsTable, Put, Has, Get, GrownTable;
    DynstrIsNotDynamic();
    var q := Put(rs, DYNSTR, grown);
    PutGet(rs, DYNSTR, grown, DYNAMIC);
    PutGet(q, DYNAMIC, body, DYNSTR);
    forall name | name != DYNAMIC && name != DYNSTR ensures SameStaged(rs, Put(q, DYNAMIC, body), name) {
      PutGet(rs, DYNSTR, grown, name);
      PutGet(q, DYNAMIC, body, name);
    }
  }

  /** A table in a body that has grown at its end is the same table. */
  lemma ResizeHolds(c: Config, b: seq<Byte>, es: seq<Dyn>, size: nat)
    requires HoldsTable(c, b, es) && |b| <= size
    ensures HoldsTable(c, Resize(b, size), es)
  {
    var r := Resize(b, size);
    forall i | 0 <= i <= |es|
      ensures Slot(0, i, c.DynSize()) + c.DynSize() <= |b| && DynEntry(c, r, 0, i) == DynEntry(c, b, 0, i)
    {
      var at, sz := Slot(0, i, c.DynSize()), c.DynSize();
      EntryIs(c, b, es, i);
      assert r[at..at + sz] == b[at..at + sz];
    }
    forall i | 0 <= i < |es| ensures HoldsEntry(c, r, i, es[i]) {
      assert HoldsEntry(c, b, i, es[i]);
      assert DynEntry(c, r, 0, i) == DynEntry(c, b, 0, i);
    }
    assert DynEntry(c, r, 0, |es|) == DynEntry(c, b, 0, |es|);
  }

  lemma PathFacts(e: Elf, rs: seq<Entry>, es: seq<Dyn>, d: nat, s: nat)
    requires PathReady(e, rs, es) && d == Find(e.names, e.shdrs, DYNAMIC) && s == Find(e.names, e.shdrs, DYNSTR)
    ensures Sorted(rs) && !Has(rs, DYNAMIC) && !Has(rs, DYNSTR) && d < |e.shdrs| && s < |e.shdrs|
    ensures Readable(e.file, e.shdrs[s]) && e.shdrs[s].size < e.cfg.Limit()
    ensures Chosen(es) >= 0 ==> Ends(BodyOf(e.file, e.shdrs[s]), es[Chosen(es)].val)
    ensures Chosen(es) == if LastRunPath(es) >= 0 then LastRunPath(es) else LastRPath(es)
  {
  }

  /** A path no longer than the one in force fits in its place. */
  lemma PathFits(es: seq<Dyn>, str: seq<Byte>, path: seq<Byte>)
    requires Chosen(es) >= 0 ==> Ends(str, es[Chosen(es)].val)
    requires path != Text(PathOf(es, str)) && |path| <= |Text(PathOf(es, str))|
    ensures Chosen(es) >= 0 && es[Chosen(es)].val + |path| + 1 <= |str|
  {
  }

  lemma StateBodies(e: Elf, f: Elf, d: nat, s: nat, es: seq<Dyn>, str: seq<Byte>)
    requires PathState(e, f, d, s, es, str)
    ensures f.shdrs == e.shdrs && f.cfg == e.cfg && f.names == e.names && d < |e.shdrs| && s < |e.shdrs|
    ensures Readable(f.file, e.shdrs[d]) && Readable(f.file, e.shdrs[s])
    ensures BodyOf(f.file, e.shdrs[s]) == str && HoldsTable(e.cfg, BodyOf(f.file, e.shdrs[d]), es)
  {
  }

  // ----- the three operations -----

  datatype PathOp = RpPrint | RpShrink | RpSet(path: seq<Byte>)

  /** The path that the operation asks for, if any. */
  function NewPath(op: PathOp, was: Option<seq<Byte>>, needed: seq<seq<Byte>>, holds: Oracle): Option<seq<Byte>> {
    match op
    case RpPrint => None
    case RpShrink => if was == None then None else Some(Shrunk(was.value, needed, holds))
    case RpSet(p) => Some(p)
  }

  /** Both sections exist, and DT_STRTAB, as far as the table has one, names the string section. */
  ghost predicate PathAllowed(e: Elf, es: seq<Dyn>) {
    var d, s := Find(e.names, e.shdrs, DYNAMIC), Find(e.names, e.shdrs, DYNSTR);
    d > 0 && s > 0 && StrTabAddr(es, |es|) != 0 && StrTabAddr(es, |es|) == e.shdrs[s].addr
  }

  /** That is: the last entry with tag 5 is there, is not 0, and holds the address of .dynstr. */
  lemma PathAllowedIs(e: Elf, es: seq<Dyn>)
    ensures PathAllowed(e, es) <==>
      && Find(e.names, e.shdrs, ".dynamic") > 0 && Find(e.names, e.shdrs, ".dynstr") > 0
      && exists i: nat :: LastWith(es, 5, i) && es[i].val != 0
                          && es[i].val == e.shdrs[Find(e.names, e.shdrs, ".dynstr")].addr
  {
    hide Find;
    if i: nat :| LastWith(es, 5, i) {
      StringTableAt(es, |es|, i);
    } else {
      LastExists(es, 5, |es|);
      StringTableAt(es, |es|, 0);
    }
  }

  /** The operation asks for a path other than the one in force. */
  ghost predicate PathChanges(op: PathOp, was: Option<seq<Byte>>, needed: seq<seq<Byte>>, holds: Oracle) {
    var asked := NewPath(op, was, needed, holds);
    asked != None && asked.value != Text(was)
  }

  /** What modifyRPath does to the file and the staged bodies: nothing, or the asked path is stored. */
  ghost predicate PathModified(e: Elf, rs: seq<Entry>, f: Elf, qs: seq<Entry>, es: seq<Dyn>, str: seq<Byte>, op: PathOp,
                               needed: seq<seq<Byte>>, force: bool, holds: Oracle)
    requires Chosen(es) >= 0 ==> Ends(str, es[Chosen(es)].val)
  {
    var was := PathOf(es, str);
    if PathChanges(op, was, needed, holds) then
      PathStored(e, rs, f, qs, SetPath(es, str, NewPath(op, was, needed, holds).value, force))
    else f == e && qs == rs
  }

  /** The same operation by operation: printing changes nothing, and the others store their path. */
  ghost predicate PathDone(e: Elf, rs: seq<Entry>, f: Elf, qs: seq<Entry>, es: seq<Dyn>, str: seq<Byte>, op: PathOp,
                           needed: seq<seq<Byte>>, force: bool, holds: Oracle)
    requires Chosen(es) >= 0 ==> Ends(str, es[Chosen(es)].val)
  {
    match op
    case RpPrint => f == e && qs == rs
    case RpSet(p) => PathStored(e, rs, f, qs, SetPath(es, str, p, force))
    case RpShrink => PathStored(e, rs, f, qs, SetPath(es, str, Shrunk(Text(PathOf(es, str)), needed, holds), force))
  }

  /** Whether the operation asks for another path than the one in force. */
  predicate AsksOther(op: PathOp, was: seq<Byte>, needed: seq<seq<Byte>>, holds: Oracle) {
    match op
    case RpPrint => false
    case RpSet(p) => p != was
    case RpShrink => Shrunk(was, needed, holds) != was
  }

  lemma NothingShrinks(needed: seq<seq<Byte>>, holds: Oracle)
    ensures Shrunk([], needed, holds) == []
  {
  }

  lemma AsksOtherIs(op: PathOp, was: Option<seq<Byte>>, needed: seq<seq<Byte>>, holds: Oracle)
    ensures AsksOther(op, Text(was), needed, holds) <==> PathChanges(op, was, needed, holds)
  {
    hide Shrunk;
    NothingShrinks(needed, holds);
  }

  lemma ModifiedIsDone(e: Elf, rs: seq<Entry>, f: Elf, qs: seq<Entry>, es: seq<Dyn>, str: seq<Byte>, op: PathOp,
                       needed: seq<seq<Byte>>, force: bool, holds: Oracle)
    requires PathReady(e, rs, es) && str == StringsOf(e) && (Chosen(es) >= 0 ==> Ends(str, es[Chosen(es)].val))
    requires PathModified(e, rs, f, qs, es, str, op, needed, force, holds)
    ensures PathDone(e, rs, f, qs, es, str, op, needed, force, holds)
  {
    hide HoldsTable, Shrunk, CString, Chosen, PathSections, Find, WellFormed, StringsEnd;
    NothingShrinks(needed, holds);
  }
}
