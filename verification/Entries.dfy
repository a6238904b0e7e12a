/** The rewritten dynamic table entry by entry, by tag numbers and section names (rewriteHeaders). */
module Entries {
  import opened Bytes
  import opened ElfTypes
  import opened Staging
  import opened Elf
  import opened Links
  import opened Placement
  import opened Tables
  import opened Steps
  import opened Relayout
  import opened Layout
  import opened Memory
  import opened Agreement
  import opened Outcomes
  import opened RPathRun
  import opened Fields

  // ----- the dynamic table -----

  ghost predicate IsAddress(f: Elf, name: Name, v: nat) {
    var k := Find(f.names, f.shdrs, name);
    k > 0 && v == f.shdrs[k].addr
  }

  ghost predicate IsSize(f: Elf, name: Name, v: nat) {
    var k := Find(f.names, f.shdrs, name);
    k > 0 && v == f.shdrs[k].size
  }

  ghost predicate Exists(f: Elf, name: Name) {
    Find(f.names, f.shdrs, name) > 0
  }

  /** What an entry with this tag, of which the low 32 bits count, holds in the final file if it held `was`. */
  ghost predicate DynHolds(f: Elf, tag: nat, was: nat, v: nat) {
    var t := tag % 0x1_0000_0000;
    if t == 5 then IsAddress(f, ".dynstr", v)                    // DT_STRTAB
    else if t == 10 then IsSize(f, ".dynstr", v)                 // DT_STRSZ
    else if t == 6 then IsAddress(f, ".dynsym", v)               // DT_SYMTAB
    else if t == 4 then IsAddress(f, ".hash", v)                 // DT_HASH
    else if t == 0x6ffffef5 then IsAddress(f, ".gnu.hash", v)    // DT_GNU_HASH
    else if t == 23 then                                         // DT_JMPREL
      if Exists(f, ".rel.plt") then IsAddress(f, ".rel.plt", v)
      else if Exists(f, ".rela.plt") then IsAddress(f, ".rela.plt", v)
      else IsAddress(f, ".rela.IA_64.pltoff", v)
    else if t == 17 then                                         // DT_REL
      if Exists(f, ".rel.dyn") then IsAddress(f, ".rel.dyn", v) else IsAddress(f, ".rel.got", v)
    else if t == 7 then IsAddress(f, ".rela.dyn", v)             // DT_RELA
    else if t == 0x6ffffffe then IsAddress(f, ".gnu.version_r", v)  // DT_VERNEED
    else if t == 0x6ffffff0 then IsAddress(f, ".gnu.version", v)    // DT_VERSYM
    else v == was
  }

  lemma FirstOf(names: seq<Byte>, shdrs: seq<Shdr>, a: Name, rest: seq<Name>)
    ensures FindFirst(names, shdrs, [a] + rest)
         == if Find(names, shdrs, a) > 0 then Find(names, shdrs, a) else FindFirst(names, shdrs, rest)
    ensures FindFirst(names, shdrs, []) == 0
  {
    assert ([a] + rest)[1..] == rest;
  }

  /** The rule for a tag at its place in the table of rules. */
  lemma EditedBy(f: Elf, d: Dyn, k: nat)
    requires k <= |RULES| && forall j :: 0 <= j < k ==> RULES[j].tag != d.tag % WORD
    requires k < |RULES| ==> RULES[k].tag == d.tag % WORD
    requires !EditFor(f.names, f.shdrs, d.tag).Missing?
    ensures var q := Edited(f.names, f.shdrs, d);
            && q.tag == d.tag && (k == |RULES| ==> q == d)
            && (k < |RULES| ==>
                  var i := FindFirst(f.names, f.shdrs, RULES[k].sections);
                  i > 0 && q.val == if RULES[k].field == Address then f.shdrs[i].addr else f.shdrs[i].size)
  {
    hide EditFor, FindFirst;
    EditForTag(f.names, f.shdrs, d.tag, k);
  }

  /** A resolved entry holds what its tag calls for. */
  lemma EditedHolds(f: Elf, d: Dyn)
    requires !EditFor(f.names, f.shdrs, d.tag).Missing?
    ensures var q := Edited(f.names, f.shdrs, d); q.tag == d.tag && DynHolds(f, d.tag, d.val, q.val)
  {
    hide EditFor, FindFirst, Edited, Find;
    var t := d.tag % WORD;
    var k := if t == 5 then 0 else if t == 10 then 1 else if t == 6 then 2 else if t == 4 then 3
             else if t == 0x6ffffef5 then 4 else if t == 23 then 5 else if t == 17 then 6 else if t == 7 then 7
             else if t == 0x6ffffffe then 8 else if t == 0x6ffffff0 then 9 else 10;
    EditedBy(f, d, k);
    if k < 10 {
      Candidates(f.names, f.shdrs, k);
    }
  }

  lemma Candidates(names: seq<Byte>, shdrs: seq<Shdr>, k: nat)
    requires k < 10
    ensures var i := FindFirst(names, shdrs, RULES[k].sections);
            k < 5 || k > 6 ==> |RULES[k].sections| == 1 && i == Find(names, shdrs, RULES[k].sections[0])
    ensures k == 5 ==>
      FindFirst(names, shdrs, RULES[5].sections)
      == if Find(names, shdrs, ".rel.plt") > 0 then Find(names, shdrs, ".rel.plt")
         else if Find(names, shdrs, ".rela.plt") > 0 then Find(names, shdrs, ".rela.plt")
         else Find(names, shdrs, ".rela.IA_64.pltoff")
    ensures k == 6 ==>
      FindFirst(names, shdrs, RULES[6].sections)
      == if Find(names, shdrs, ".rel.dyn") > 0 then Find(names, shdrs, ".rel.dyn") else Find(names, shdrs, ".rel.got")
  {
    hide FindFirst, Find;
    var s := RULES[k].sections;
    assert s == [s[0]] + s[1..];
    FirstOf(names, shdrs, s[0], s[1..]);
    if |s| > 1 {
      assert s[1..] == [s[1]] + s[2..];
      FirstOf(names, shdrs, s[1], s[2..]);
      if |s| > 2 {
        assert s[2..] == [s[2]] + [];
        FirstOf(names, shdrs, s[2], []);
      }
    }
  }

  /** The same names exist before and after. */
  lemma FoundAfter(e: Elf, m: Move, mid: Elf, f: Elf, addr: nat, n: nat, t: HeaderTrace)
    requires Rewrite(e, m, mid, f, addr, n, t)
    ensures SameFound(e.names, e.shdrs, f.shdrs) && f.names == e.names && f.cfg == e.cfg
  {
    hide Rewrite, SamePlace, RelaidShdr;
    RewriteCfg(e, m, mid, f, addr, n, t);
    forall name ensures (Find(e.names, e.shdrs, name) == 0) == (Find(e.names, f.shdrs, name) == 0) {
      SectionAfter(e, m, mid, f, addr, n, t, name);
    }
  }

  /** Entry i of the dynamic table in the file. */
  ghost predicate EntryIn(f: Elf, i: nat, d: Dyn) {
    var k := Find(f.names, f.shdrs, ".dynamic");
    && k > 0 && Slot(f.shdrs[k].offset, i, f.cfg.DynSize()) + f.cfg.DynSize() <= |f.file|
    && DynEntry(f.cfg, f.file, f.shdrs[k].offset, i) == d
  }

  /** Entry i of the dynamic table in a body. */
  ghost predicate EntryOfBody(c: Config, b: seq<Byte>, i: nat, d: Dyn) {
    Slot(0, i, c.DynSize()) + c.DynSize() <= |b| && DynEntry(c, b, 0, i) == d
  }

  lemma EntryFields(e: Elf, m: Move, mid: Elf, f: Elf, addr: nat, n: nat, t: HeaderTrace, i: nat)
    returns (d: Dyn, q: Dyn)
    requires Rewrite(e, m, mid, f, addr, n, t) && HasCurrent(e, m.p.rs, DYNAMIC) && i <= n
    requires StateResolves(e, m.p.rs, n)
    ensures EntryOfBody(e.cfg, CurrentBody(e, m.p.rs, DYNAMIC), i, d) && EntryIn(f, i, q)
    ensures d.tag % 0x1_0000_0000 == 0 <==> i == n
    ensures q.tag == d.tag && if i < n then DynHolds(f, d.tag, d.val, q.val) else q == d
  {
    hide Rewrite, EntryAfter, EndAfter, DynEntry, EditFor, Edited, DynHolds, TableResolves, Terminated, SamePlace,
         RelaidShdr, DynamicReady;
    var a, x := OldTable(e, m.p.rs).0, OldTable(e, m.p.rs).1;
    DynamicAfter(e, m, mid, f, addr, n, t);
    FoundAfter(e, m, mid, f, addr, n, t);
    SectionAfter(e, m, mid, f, addr, n, t, DYNAMIC);
    RewriteStaged(e, m, mid, f, addr, n, t);
    OldTableEnds(e, m.p.rs, n);
    EndsOnly(e.cfg, a, x, i, n);
    d := DynEntry(e.cfg, a, x, i);
    q := d;
    OldEntryInBody(e, m.p.rs, n, i);
    EndTag(e.cfg, a, x, i);
    if i < n {
      assert EntryAfter(f, a, x, i);
      q := Edited(f.names, f.shdrs, d);
      Resolved(e, f, a, x, n, i);
      EditedHolds(f, d);
      FinalEntry(f, a, x, i);
    } else {
      FinalEnd(f, a, x, n);
    }
  }

  lemma EndTag(c: Config, a: seq<Byte>, x: nat, i: nat)
    requires Slot(x, i, c.DynSize()) + c.DynSize() <= |a|
    ensures EndsAt(c, a, x, i) <==> DynEntry(c, a, x, i).tag % 0x1_0000_0000 == 0
  {
  }

  lemma Resolved(e: Elf, f: Elf, a: seq<Byte>, x: nat, n: nat, i: nat)
    requires TableResolves(e.cfg, e.names, e.shdrs, a, x, n) && i < n && SameFound(e.names, e.shdrs, f.shdrs)
    requires f.names == e.names && Slot(x, i, e.cfg.DynSize()) + e.cfg.DynSize() <= |a|
    ensures !EditFor(f.names, f.shdrs, DynEntry(e.cfg, a, x, i).tag).Missing?
  {
    hide EditFor, DynEntry;
    assert EntryFinds(e.cfg, e.names, e.shdrs, a, x, i);
    MissingSame(e.names, e.shdrs, f.shdrs, DynEntry(e.cfg, a, x, i).tag);
  }

  lemma FinalEntry(f: Elf, a: seq<Byte>, x: nat, i: nat)
    requires EntryAfter(f, a, x, i) && Find(f.names, f.shdrs, DYNAMIC) > 0
    ensures EntryIn(f, i, Edited(f.names, f.shdrs, DynEntry(f.cfg, a, x, i)))
  {
    hide DynEntry, Edited;
  }

  lemma FinalEnd(f: Elf, a: seq<Byte>, x: nat, n: nat)
    requires EndAfter(f, a, x, n) && Find(f.names, f.shdrs, DYNAMIC) > 0
    ensures EntryIn(f, n, DynEntry(f.cfg, a, x, n))
  {
    hide DynEntry;
  }

  /** An entry of the old table, read from the current body of .dynamic. */
  lemma OldEntryInBody(e: Elf, rs: seq<Entry>, n: nat, i: nat)
    requires HasCurrent(e, rs, DYNAMIC) && DynamicStaged(e, rs, n) && i <= n
    requires Slot(OldTable(e, rs).1, i, e.cfg.DynSize()) + e.cfg.DynSize() <= |OldTable(e, rs).0|
    ensures EntryOfBody(e.cfg, CurrentBody(e, rs, DYNAMIC), i,
                        DynEntry(e.cfg, OldTable(e, rs).0, OldTable(e, rs).1, i))
  {
    hide DynEntry, Terminated;
    if !Has(rs, DYNAMIC) {
      var s := e.shdrs[Find(e.names, e.shdrs, DYNAMIC)];
      SlotInside(0, i, n + 1, e.cfg.DynSize());
      EntryInBody(e.cfg, e.file, s, i);
    }
  }

  /**
   * The dynamic table after a run, entry by entry: as many as before, with the same tags, and each
   * holding the address or size of its section as that finally is; the rest are as they were.
   */
  lemma DynamicEntryAfterRun(e: Elf, rs: seq<Entry>, f: Elf, n: nat, o: Outcome, i: nat) returns (d: Dyn, q: Dyn)
    requires Rewritten(e, rs, f, n, o) && o != Untouched && HasCurrent(e, rs, DYNAMIC) && i <= n
    ensures EntryOfBody(e.cfg, CurrentBody(e, rs, DYNAMIC), i, d) && EntryIn(f, i, q)
    ensures d.tag % 0x1_0000_0000 == 0 <==> i == n
    ensures q.tag == d.tag && if i < n then DynHolds(f, d.tag, d.val, q.val) else q == d
  {
    hide Rewrite, LibraryRewritten, ExecRewritten, WellFormed, SortStep, StateResolves, HasCurrent, CurrentBody,
         EntryOfBody, EntryIn, DynHolds;
    var b, m, mid, addr, t := RunIsRewrite(e, rs, f, n, o);
    if o.Executable? {
      DynamicAfterScan(e, rs, f, n, o.r, mid, t);
    }
    d, q := EntryFields(b, m, mid, f, addr, n, t, i);
  }
}
