/** Writing the header tables and the dynamic table back into the file (patchelf.cc: rewriteHeaders). */
module Tables {
  import opened Bytes
  import opened Codec
  import opened ElfTypes
  import opened Staging
  import opened Elf
  import opened Placement

  // ----- the program header table -----

  /** The file after the first n program headers have been stored from `off` on. */
  function WritePhdrs(c: Config, file: seq<Byte>, off: nat, ps: seq<Phdr>, n: nat): (f: seq<Byte>)
    requires n <= |ps| && off + TableSize(|ps|, c.PhdrSize()) <= |file|
    ensures |f| == |file|
  {
    if n == 0 then file
    else
      SlotInside(off, n - 1, |ps|, c.PhdrSize());
      Splice(WritePhdrs(c, file, off, ps, n - 1), Slot(off, n - 1, c.PhdrSize()), EncodePhdr(c, ps[n - 1]))
  }

  /** The stored table reads back, and nothing outside it changes. */
  lemma {:induction false} WritePhdrsReads(c: Config, file: seq<Byte>, off: nat, ps: seq<Phdr>, n: nat)
    requires n <= |ps| && off + TableSize(|ps|, c.PhdrSize()) <= |file|
    requires forall i :: 0 <= i < |ps| ==> PhdrOk(c, ps[i])
    ensures var f := WritePhdrs(c, file, off, ps, n);
            SameOutside(f, file, off, off + TableSize(|ps|, c.PhdrSize())) && HoldsPhdrs(c, f, off, ps, n)
    decreases n
  {
    if n > 0 {
      WritePhdrsReads(c, file, off, ps, n - 1);
      var g := WritePhdrs(c, file, off, ps, n - 1);
      SlotInside(off, n - 1, |ps|, c.PhdrSize());
      WritePhdrStep(c, g, off, ps, n);
    }
  }

  lemma WritePhdrStep(c: Config, g: seq<Byte>, off: nat, ps: seq<Phdr>, n: nat)
    requires 0 < n <= |ps| && off + TableSize(|ps|, c.PhdrSize()) <= |g| && PhdrOk(c, ps[n - 1])
    requires Slot(off, n - 1, c.PhdrSize()) + c.PhdrSize() <= |g| && HoldsPhdrs(c, g, off, ps, n - 1)
    ensures HoldsPhdrs(c, Splice(g, Slot(off, n - 1, c.PhdrSize()), EncodePhdr(c, ps[n - 1])), off, ps, n)
  {
    hide EncodePhdr, DecodePhdr, TableSize;
    var sz := c.PhdrSize();
    var at, b := Slot(off, n - 1, sz), EncodePhdr(c, ps[n - 1]);
    forall i | 0 <= i < n ensures HoldsPhdr(c, Splice(g, at, b), off, ps, i) {
      if i < n - 1 {
        assert HoldsPhdr(c, g, off, ps, i);
        SlotsApart(off, i, n - 1, sz);
        SpliceFrame(g, at, b, Slot(off, i, sz), Slot(off, i, sz) + sz);
      } else {
        SpliceReadBack(g, at, b);
        PhdrRoundTrip(c, ps[n - 1]);
      }
    }
  }

  ghost predicate HoldsPhdrs(c: Config, f: seq<Byte>, off: nat, ps: seq<Phdr>, n: nat)
    requires n <= |ps|
  {
    forall i :: 0 <= i < n ==> HoldsPhdr(c, f, off, ps, i)
  }

  /** The table reads the same in two files that agree on it. */
  lemma HoldsPhdrsFrame(c: Config, f: seq<Byte>, g: seq<Byte>, off: nat, ps: seq<Phdr>, n: nat)
    requires n <= |ps| && |f| == |g| && HoldsPhdrs(c, f, off, ps, n)
    requires forall k :: off <= k < off + TableSize(|ps|, c.PhdrSize()) && k < |f| ==> f[k] == g[k]
    ensures HoldsPhdrs(c, g, off, ps, n)
  {
    forall i | 0 <= i < n ensures HoldsPhdr(c, g, off, ps, i) {
      assert HoldsPhdr(c, f, off, ps, i);
      var at := Slot(off, i, c.PhdrSize());
      SlotInside(off, i, |ps|, c.PhdrSize());
      assert f[at..at + c.PhdrSize()] == g[at..at + c.PhdrSize()];
    }
  }

  ghost predicate HoldsPhdr(c: Config, f: seq<Byte>, off: nat, ps: seq<Phdr>, i: nat)
    requires i < |ps|
  {
    Slot(off, i, c.PhdrSize()) + c.PhdrSize() <= |f| && PhdrAt(c, f, Slot(off, i, c.PhdrSize())) == ps[i]
  }

  // ----- the section header table -----

  /** The file after section headers 1 to n - 1 have been stored; the null header is left alone. */
  function WriteShdrs(c: Config, file: seq<Byte>, off: nat, ss: seq<Shdr>, n: nat): (f: seq<Byte>)
    requires 1 <= n <= |ss| && off + TableSize(|ss|, c.ShdrSize()) <= |file|
    ensures |f| == |file|
  {
    if n == 1 then file
    else
      SlotInside(off, n - 1, |ss|, c.ShdrSize());
      Splice(WriteShdrs(c, file, off, ss, n - 1), Slot(off, n - 1, c.ShdrSize()), EncodeShdr(c, ss[n - 1]))
  }

  /** The stored table reads back, and nothing outside it changes. */
  lemma {:induction false} WriteShdrsReads(c: Config, file: seq<Byte>, off: nat, ss: seq<Shdr>, n: nat)
    requires 1 <= n <= |ss| && off + TableSize(|ss|, c.ShdrSize()) <= |file|
    requires forall i :: 0 <= i < |ss| ==> ShdrOk(c, ss[i])
    requires HoldsShdr(c, file, off, ss, 0)
    ensures var f := WriteShdrs(c, file, off, ss, n);
            && SameOutside(f, file, off + c.ShdrSize(), off + TableSize(|ss|, c.ShdrSize()))
            && HoldsShdrs(c, f, off, ss, n)
    decreases n
  {
    hide EncodeShdr, DecodeShdr, ShdrOk, TableSize, Splice;
    if n > 1 {
      WriteShdrsReads(c, file, off, ss, n - 1);
      var g := WriteShdrs(c, file, off, ss, n - 1);
      SlotInside(off, n - 1, |ss|, c.ShdrSize());
      SlotsApart(off, 0, n - 1, c.ShdrSize());
      WriteShdrStep(c, g, off, ss, n);
    }
  }

  lemma WriteShdrStep(c: Config, g: seq<Byte>, off: nat, ss: seq<Shdr>, n: nat)
    requires 0 < n <= |ss| && off + TableSize(|ss|, c.ShdrSize()) <= |g| && ShdrOk(c, ss[n - 1])
    requires Slot(off, n - 1, c.ShdrSize()) + c.ShdrSize() <= |g| && HoldsShdrs(c, g, off, ss, n - 1)
    ensures HoldsShdrs(c, Splice(g, Slot(off, n - 1, c.ShdrSize()), EncodeShdr(c, ss[n - 1])), off, ss, n)
  {
    hide EncodeShdr, DecodeShdr, TableSize;
    var sz := c.ShdrSize();
    var at, b := Slot(off, n - 1, sz), EncodeShdr(c, ss[n - 1]);
    forall i | 0 <= i < n ensures HoldsShdr(c, Splice(g, at, b), off, ss, i) {
      if i < n - 1 {
        assert HoldsShdr(c, g, off, ss, i);
        SlotsApart(off, i, n - 1, sz);
        SpliceFrame(g, at, b, Slot(off, i, sz), Slot(off, i, sz) + sz);
      } else {
        SpliceReadBack(g, at, b);
        ShdrRoundTrip(c, ss[n - 1]);
      }
    }
  }

  ghost predicate HoldsShdrs(c: Config, f: seq<Byte>, off: nat, ss: seq<Shdr>, n: nat)
    requires n <= |ss|
  {
    forall i :: 0 <= i < n ==> HoldsShdr(c, f, off, ss, i)
  }

  /** The table reads the same in two files that agree on it. */
  lemma HoldsShdrsFrame(c: Config, f: seq<Byte>, g: seq<Byte>, off: nat, ss: seq<Shdr>, n: nat)
    requires n <= |ss| && |f| == |g| && HoldsShdrs(c, f, off, ss, n)
    requires forall k :: off <= k < off + TableSize(|ss|, c.ShdrSize()) && k < |f| ==> f[k] == g[k]
    ensures HoldsShdrs(c, g, off, ss, n)
  {
    forall i | 0 <= i < n ensures HoldsShdr(c, g, off, ss, i) {
      assert HoldsShdr(c, f, off, ss, i);
      var at := Slot(off, i, c.ShdrSize());
      SlotInside(off, i, |ss|, c.ShdrSize());
      assert f[at..at + c.ShdrSize()] == g[at..at + c.ShdrSize()];
    }
  }

  ghost predicate HoldsShdr(c: Config, f: seq<Byte>, off: nat, ss: seq<Shdr>, i: nat)
    requires i < |ss|
  {
    Slot(off, i, c.ShdrSize()) + c.ShdrSize() <= |f| && ShdrAt(c, f, Slot(off, i, c.ShdrSize())) == ss[i]
  }

  // ----- the dynamic table -----

  const DT_NULL := 0
  const DT_NEEDED := 1
  const DT_HASH := 4
  const DT_STRTAB := 5
  const DT_SYMTAB := 6
  const DT_RELA := 7
  const DT_STRSZ := 10
  const DT_RPATH := 15
  const DT_REL := 17
  const DT_JMPREL := 23
  const DT_RUNPATH := 29
  const DT_GNU_HASH := 0x6ffffef5
  const DT_VERSYM := 0x6ffffff0
  const DT_VERNEED := 0x6ffffffe

  const DYNSTR: Name := ".dynstr"

  /** What the rewrite does to one dynamic entry. */
  datatype DynEdit = Keep | Set(val: nat) | Missing

  datatype Field = Address | Size

  /** A tag whose value is the address or size of the first of these sections that exists. */
  datatype Rule = Rule(tag: nat, field: Field, sections: seq<Name>)

  const RULES: seq<Rule> := [
    Rule(DT_STRTAB, Address, [DYNSTR]),
    Rule(DT_STRSZ, Size, [DYNSTR]),
    Rule(DT_SYMTAB, Address, [".dynsym"]),
    Rule(DT_HASH, Address, [".hash"]),
    Rule(DT_GNU_HASH, Address, [".gnu.hash"]),
    Rule(DT_JMPREL, Address, [".rel.plt", ".rela.plt", ".rela.IA_64.pltoff"]),
    Rule(DT_REL, Address, [".rel.dyn", ".rel.got"]),
    Rule(DT_RELA, Address, [".rela.dyn"]),
    Rule(DT_VERNEED, Address, [".gnu.version_r"]),
    Rule(DT_VERSYM, Address, [".gnu.version"])
  ]

  function FindFirst(names: seq<Byte>, shdrs: seq<Shdr>, candidates: seq<Name>): (i: nat)
    ensures i > 0 ==> i < |shdrs|
  {
    if candidates == [] then 0
    else if Find(names, shdrs, candidates[0]) > 0 then Find(names, shdrs, candidates[0])
    else FindFirst(names, shdrs, candidates[1..])
  }

  function EditBy(rules: seq<Rule>, names: seq<Byte>, shdrs: seq<Shdr>, tag: nat): DynEdit {
    if rules == [] then Keep
    else if rules[0].tag != tag then EditBy(rules[1..], names, shdrs, tag)
    else
      var i := FindFirst(names, shdrs, rules[0].sections);
      if i == 0 then Missing else Set(if rules[0].field == Address then shdrs[i].addr else shdrs[i].size)
  }

  /** The tag is read into an unsigned int, so only its low 32 bits are compared. */
  function EditFor(names: seq<Byte>, shdrs: seq<Shdr>, tag: nat): DynEdit {
    EditBy(RULES, names, shdrs, tag % WORD)
  }

  /** A tag gets what the first rule for it says of the first of its sections that exists; without a rule it is kept. */
  lemma EditForTag(names: seq<Byte>, shdrs: seq<Shdr>, tag: nat, k: nat)
    requires k <= |RULES| && forall j :: 0 <= j < k ==> RULES[j].tag != tag % WORD
    requires k < |RULES| ==> RULES[k].tag == tag % WORD
    ensures k == |RULES| ==> EditFor(names, shdrs, tag) == Keep
    ensures k < |RULES| ==>
      var i := FindFirst(names, shdrs, RULES[k].sections);
      EditFor(names, shdrs, tag) == (if i == 0 then Missing
                                     else Set(if RULES[k].field == Address then shdrs[i].addr else shdrs[i].size))
  {
    EditByAt(RULES, names, shdrs, tag % WORD, k);
  }

  lemma {:induction false} EditByAt(rules: seq<Rule>, names: seq<Byte>, shdrs: seq<Shdr>, tag: nat, k: nat)
    requires k <= |rules| && forall j :: 0 <= j < k ==> rules[j].tag != tag
    requires k < |rules| ==> rules[k].tag == tag
    ensures EditBy(rules, names, shdrs, tag) == if k == |rules| then Keep else EditBy([rules[k]], names, shdrs, tag)
  {
    if k > 0 {
      assert rules[1..][k - 1..] == rules[k..];
      EditByAt(rules[1..], names, shdrs, tag, k - 1);
    } else if rules != [] {
      assert [rules[0]][0] == rules[0];
    }
  }

  /** Entry i of the dynamic table at `off`. */
  function DynEntry(c: Config, f: seq<Byte>, off: nat, i: nat): (d: Dyn)
    requires Slot(off, i, c.DynSize()) + c.DynSize() <= |f|
    ensures DynOk(c, d)
  {
    DynAt(c, f, Slot(off, i, c.DynSize()))
  }

  predicate EndsAt(c: Config, f: seq<Byte>, off: nat, i: nat)
    requires Slot(off, i, c.DynSize()) + c.DynSize() <= |f|
  {
    DynEntry(c, f, off, i).tag % WORD == DT_NULL
  }

  /** The table at `off` has its first DT_NULL at entry n, inside the file. */
  ghost predicate Terminated(c: Config, f: seq<Byte>, off: nat, n: nat) {
    && off + TableSize(n + 1, c.DynSize()) <= |f|
    && (forall i :: 0 <= i <= n ==> EndsOnlyAt(c, f, off, i, n))
  }

  ghost predicate EndsOnlyAt(c: Config, f: seq<Byte>, off: nat, i: nat, n: nat) {
    Slot(off, i, c.DynSize()) + c.DynSize() <= |f| && (EndsAt(c, f, off, i) <==> i == n)
  }

  /** The file after the first n entries have been edited. */
  function EditDyns(c: Config, names: seq<Byte>, shdrs: seq<Shdr>, file: seq<Byte>, off: nat, n: nat): (f: seq<Byte>)
    requires off + TableSize(n, c.DynSize()) <= |file|
    ensures |f| == |file|
  {
    if n == 0 then file
    else
      SlotInside(off, n - 1, n, c.DynSize());
      EditDyn(c, names, shdrs, EditDyns(c, names, shdrs, file, off, n - 1), off, n - 1)
  }

  function EditDyn(c: Config, names: seq<Byte>, shdrs: seq<Shdr>, file: seq<Byte>, off: nat, i: nat): (f: seq<Byte>)
    requires Slot(off, i, c.DynSize()) + c.DynSize() <= |file|
    ensures |f| == |file|
  {
    var d := DynEntry(c, file, off, i);
    var edit := EditFor(names, shdrs, d.tag);
    if edit.Set? then Splice(file, Slot(off, i, c.DynSize()), EncodeDyn(c, d.(val := edit.val))) else file
  }

  /** What an entry becomes. */
  function Edited(names: seq<Byte>, shdrs: seq<Shdr>, d: Dyn): Dyn {
    var edit := EditFor(names, shdrs, d.tag);
    if edit.Set? then d.(val := edit.val) else d
  }

  /**
   * Each of the first n entries holds the current address or size its tag calls for, entries
   * with other tags and every other byte are unchanged, and no tag changes.
   */
  lemma {:induction false} EditDynsReads(c: Config, names: seq<Byte>, shdrs: seq<Shdr>, file: seq<Byte>, off: nat,
                                         n: nat)
    requires off + TableSize(n, c.DynSize()) <= |file|
    requires forall i :: 0 <= i < |shdrs| ==> ShdrOk(c, shdrs[i])
    ensures var f := EditDyns(c, names, shdrs, file, off, n);
            SameOutside(f, file, off, off + TableSize(n, c.DynSize())) && DynsEdited(c, names, shdrs, file, f, off, n)
    decreases n
  {
    hide EditDyn, Edited, ShdrOk, TableSize;
    if n > 0 {
      var at, end := Slot(off, n - 1, c.DynSize()), off + TableSize(n, c.DynSize());
      SlotInside(off, n - 1, n, c.DynSize());
      EditDynsReads(c, names, shdrs, file, off, n - 1);
      var g := EditDyns(c, names, shdrs, file, off, n - 1);
      var f := EditDyn(c, names, shdrs, g, off, n - 1);
      EditDynReads(c, names, shdrs, g, off, n - 1);
      EditDynsStep(c, names, shdrs, file, g, f, off, n - 1);
      SameWiden(f, g, at, at + c.DynSize(), off, end);
      SameWiden(g, file, off, at, off, end);
      SameTransitive(f, g, file, off, end);
    }
  }

  lemma EditDynsStep(c: Config, names: seq<Byte>, shdrs: seq<Shdr>, file: seq<Byte>, g: seq<Byte>, f: seq<Byte>,
                     off: nat, n: nat)
    requires Slot(off, n, c.DynSize()) + c.DynSize() <= |file|
    requires SameOutside(g, file, off, Slot(off, n, c.DynSize()))
    requires DynsEdited(c, names, shdrs, file, g, off, n)
    requires SameOutside(f, g, Slot(off, n, c.DynSize()), Slot(off, n, c.DynSize()) + c.DynSize())
    requires DynEdited(c, names, shdrs, g, f, off, n)
    ensures DynsEdited(c, names, shdrs, file, f, off, n + 1)
  {
    hide Edited;
    var sz := c.DynSize();
    forall i | 0 <= i < n + 1 ensures DynEdited(c, names, shdrs, file, f, off, i) {
      var at := Slot(off, i, sz);
      if i < n {
        assert DynEdited(c, names, shdrs, file, g, off, i);
        SlotsApart(off, i, n, sz);
        SameSlice(f, g, Slot(off, n, sz), Slot(off, n, sz) + sz, at, at + sz);
      } else {
        SameSlice(g, file, off, at, at, at + sz);
      }
    }
  }

  ghost predicate DynsEdited(c: Config, names: seq<Byte>, shdrs: seq<Shdr>, file: seq<Byte>, f: seq<Byte>, off: nat,
                             n: nat) {
    forall i :: 0 <= i < n ==> DynEdited(c, names, shdrs, file, f, off, i)
  }

  ghost predicate DynEdited(c: Config, names: seq<Byte>, shdrs: seq<Shdr>, file: seq<Byte>, f: seq<Byte>, off: nat,
                            i: nat) {
    && |f| == |file| && Slot(off, i, c.DynSize()) + c.DynSize() <= |f|
    && DynEntry(c, f, off, i) == Edited(names, shdrs, DynEntry(c, file, off, i))
  }

  lemma EditDynReads(c: Config, names: seq<Byte>, shdrs: seq<Shdr>, file: seq<Byte>, off: nat, i: nat)
    requires Slot(off, i, c.DynSize()) + c.DynSize() <= |file|
    requires forall i :: 0 <= i < |shdrs| ==> ShdrOk(c, shdrs[i])
    ensures var f := EditDyn(c, names, shdrs, file, off, i);
            DynEdited(c, names, shdrs, file, f, off, i)
            && SameOutside(f, file, Slot(off, i, c.DynSize()), Slot(off, i, c.DynSize()) + c.DynSize())
  {
    hide EditFor, EncodeDyn, DecodeDyn, ShdrOk;
    var d := DynEntry(c, file, off, i);
    var edit := EditFor(names, shdrs, d.tag);
    if edit.Set? {
      var b := EncodeDyn(c, d.(val := edit.val));
      EditFits(c, names, shdrs, d.tag);
      DynRoundTrip(c, d.(val := edit.val));
      SpliceReadBack(file, Slot(off, i, c.DynSize()), b);
    }
  }

  lemma EditFits(c: Config, names: seq<Byte>, shdrs: seq<Shdr>, tag: nat)
    requires forall i :: 0 <= i < |shdrs| ==> ShdrOk(c, shdrs[i])
    ensures var edit := EditFor(names, shdrs, tag); edit.Set? ==> edit.val < c.Limit()
  {
    EditByFits(RULES, c, names, shdrs, tag % WORD);
  }

  lemma {:induction false} EditByFits(rules: seq<Rule>, c: Config, names: seq<Byte>, shdrs: seq<Shdr>, tag: nat)
    requires forall i :: 0 <= i < |shdrs| ==> ShdrOk(c, shdrs[i])
    ensures var edit := EditBy(rules, names, shdrs, tag); edit.Set? ==> edit.val < c.Limit()
  {
    if rules != [] {
      EditByFits(rules[1..], c, names, shdrs, tag);
    }
  }

  /** A dynamic table reads the same in two files that agree on it. */
  lemma TerminatedFrame(c: Config, f: seq<Byte>, g: seq<Byte>, off: nat, n: nat)
    requires |f| == |g| && Terminated(c, f, off, n)
    requires forall k :: off <= k < off + TableSize(n + 1, c.DynSize()) && k < |f| ==> f[k] == g[k]
    ensures Terminated(c, g, off, n)
    ensures forall i :: 0 <= i <= n ==> SameEntry(c, f, g, off, i)
  {
    forall i | 0 <= i <= n ensures SameEntry(c, f, g, off, i) && EndsOnlyAt(c, g, off, i, n) {
      assert EndsOnlyAt(c, f, off, i, n);
      SlotInside(off, i, n + 1, c.DynSize());
      SameEntryFrame(c, f, g, off, i);
    }
  }

  lemma SameEntryFrame(c: Config, f: seq<Byte>, g: seq<Byte>, off: nat, i: nat)
    requires |f| == |g| && Slot(off, i, c.DynSize()) + c.DynSize() <= |f|
    requires forall k :: Slot(off, i, c.DynSize()) <= k < Slot(off, i, c.DynSize()) + c.DynSize() ==> f[k] == g[k]
    ensures SameEntry(c, f, g, off, i)
  {
    var at := Slot(off, i, c.DynSize());
    assert f[at..at + c.DynSize()] == g[at..at + c.DynSize()];
  }

  ghost predicate SameEntry(c: Config, f: seq<Byte>, g: seq<Byte>, off: nat, i: nat) {
    && |f| == |g| && Slot(off, i, c.DynSize()) + c.DynSize() <= |f|
    && DynEntry(c, f, off, i) == DynEntry(c, g, off, i)
  }
}
