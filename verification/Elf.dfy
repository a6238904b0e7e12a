/**
 * The state of an ELF rewrite as a value: the file's bytes, the header tables held in memory
 * and the section-name table; and what it means for it to be well formed.
 */
module Elf {
  import opened Bytes
  import opened Codec
  import opened ElfTypes
  import opened Staging

  datatype Elf = Elf(cfg: Config, names: seq<Byte>, file: seq<Byte>, phdrs: seq<Phdr>, shdrs: seq<Shdr>)

  // ----- reading headers out of the file -----

  /** The ELF header is not copied: it is the first bytes of the file. */
  function HdrAt(c: Config, file: seq<Byte>): (h: Ehdr)
    requires |file| >= c.EhdrSize()
    ensures EhdrOk(c, h)
  {
    DecodeEhdr(c, file[..c.EhdrSize()])
  }

  function Hdr(e: Elf): (h: Ehdr)
    requires |e.file| >= e.cfg.EhdrSize()
    ensures EhdrOk(e.cfg, h)
  {
    HdrAt(e.cfg, e.file)
  }

  /** The file with its ELF header overwritten. */
  function WithHdr(c: Config, file: seq<Byte>, h: Ehdr): (f: seq<Byte>)
    requires |file| >= c.EhdrSize() && EhdrOk(c, h)
    ensures |f| == |file|
    ensures forall k :: c.EhdrSize() <= k < |file| ==> f[k] == file[k]
    ensures HdrAt(c, f) == h
  {
    EhdrRoundTrip(c, h);
    SpliceReadBack(file, 0, EncodeEhdr(c, h));
    Splice(file, 0, EncodeEhdr(c, h))
  }

  function PhdrAt(c: Config, file: seq<Byte>, off: nat): (p: Phdr)
    requires off + c.PhdrSize() <= |file|
    ensures PhdrOk(c, p)
  {
    DecodePhdr(c, file[off..off + c.PhdrSize()])
  }

  function ShdrAt(c: Config, file: seq<Byte>, off: nat): (s: Shdr)
    requires off + c.ShdrSize() <= |file|
    ensures ShdrOk(c, s)
  {
    DecodeShdr(c, file[off..off + c.ShdrSize()])
  }

  function DynAt(c: Config, file: seq<Byte>, off: nat): (d: Dyn)
    requires off + c.DynSize() <= |file|
    ensures DynOk(c, d)
  {
    DecodeDyn(c, file[off..off + c.DynSize()])
  }

  // ----- sections by name -----

  function NameOf(names: seq<Byte>, s: Shdr): Name {
    CString(names, s.name)
  }

  /** Index of the first section from 1 on with this name, 0 when there is none. */
  function Find(names: seq<Byte>, shdrs: seq<Shdr>, name: Name): (i: nat)
    ensures i == 0 ==> forall j :: 1 <= j < |shdrs| ==> NameOf(names, shdrs[j]) != name
    ensures i > 0 ==> i < |shdrs| && NameOf(names, shdrs[i]) == name
    ensures forall j :: 1 <= j < i ==> NameOf(names, shdrs[j]) != name
  {
    FindFrom(names, shdrs, name, 1)
  }

  function FindFrom(names: seq<Byte>, shdrs: seq<Shdr>, name: Name, i: nat): (r: nat)
    requires 1 <= i
    ensures r == 0 ==> forall j :: i <= j < |shdrs| ==> NameOf(names, shdrs[j]) != name
    ensures r > 0 ==> i <= r < |shdrs| && NameOf(names, shdrs[r]) == name
    ensures forall j :: i <= j < r ==> NameOf(names, shdrs[j]) != name
    decreases |shdrs| - i
  {
    if i >= |shdrs| then 0
    else if NameOf(names, shdrs[i]) == name then i
    else FindFrom(names, shdrs, name, i + 1)
  }

  ghost predicate DistinctNames(names: seq<Byte>, shdrs: seq<Shdr>) {
    forall i, j :: 0 <= i < j < |shdrs| ==> NameOf(names, shdrs[i]) != NameOf(names, shdrs[j])
  }

  lemma FindUnique(names: seq<Byte>, shdrs: seq<Shdr>, i: nat)
    requires DistinctNames(names, shdrs) && i < |shdrs|
    ensures Find(names, shdrs, NameOf(names, shdrs[i])) == i
  {
    var r := Find(names, shdrs, NameOf(names, shdrs[i]));
    assert i > 0 ==> r != 0;
  }

  // ----- well-formedness -----

  /** File offset `k` lies in the body of section `s`.  SHT_NOBITS sections have none. */
  predicate InBody(s: Shdr, k: int) {
    s.stype != SHT_NOBITS && s.offset <= k < s.offset + s.size
  }

  function BodyEnd(s: Shdr): nat {
    s.offset + s.size
  }

  /** The section's bytes can be read; an empty section has none to read. */
  predicate Readable(file: seq<Byte>, s: Shdr) {
    s.size == 0 || BodyEnd(s) <= |file|
  }

  function BodyOf(file: seq<Byte>, s: Shdr): (b: seq<Byte>)
    requires Readable(file, s)
    ensures |b| == s.size
  {
    if s.size == 0 then [] else file[s.offset..BodyEnd(s)]
  }

  /** Size of a table of n entries: n * size, counted up so that proofs need no multiplication. */
  function TableSize(n: nat, size: nat): nat {
    if n == 0 then 0 else TableSize(n - 1, size) + size
  }

  function PhEnd(e: Elf): nat
    requires |e.file| >= e.cfg.EhdrSize()
  {
    Hdr(e).phoff + TableSize(|e.phdrs|, e.cfg.PhdrSize())
  }

  function ShEnd(e: Elf): nat
    requires |e.file| >= e.cfg.EhdrSize()
  {
    Hdr(e).shoff + TableSize(|e.shdrs|, e.cfg.ShdrSize())
  }

  /** The vectors in memory agree in number and size with the ELF header, and every field fits. */
  ghost predicate Counts(e: Elf) {
    && |e.file| >= e.cfg.EhdrSize()
    && var h := Hdr(e);
    && |e.phdrs| == h.phnum > 0 && h.phentsize == e.cfg.PhdrSize()
    && |e.shdrs| == h.shnum && h.shentsize == e.cfg.ShdrSize()
    && h.shstrndx < |e.shdrs|
    && (forall i :: 0 <= i < |e.phdrs| ==> PhdrOk(e.cfg, e.phdrs[i]))
    && (forall i :: 0 <= i < |e.shdrs| ==> ShdrOk(e.cfg, e.shdrs[i]))
  }

  /** Both header tables are inside the file, apart from each other and from the ELF header. */
  ghost predicate TablesApart(e: Elf)
    requires |e.file| >= e.cfg.EhdrSize()
  {
    && e.cfg.EhdrSize() <= Hdr(e).phoff && PhEnd(e) <= |e.file|
    && e.cfg.EhdrSize() <= Hdr(e).shoff && ShEnd(e) <= |e.file|
    && (PhEnd(e) <= Hdr(e).shoff || ShEnd(e) <= Hdr(e).phoff)
  }

  /** The null section is the only one at offset 0, and links to nothing. */
  ghost predicate NullFirst(shdrs: seq<Shdr>) {
    && |shdrs| > 0 && shdrs[0].offset == 0 && shdrs[0].link == 0 && !IsRel(shdrs[0])
    && forall i :: 1 <= i < |shdrs| ==> shdrs[i].offset > 0
  }

  predicate IsRel(s: Shdr) {
    s.stype == SHT_REL || s.stype == SHT_RELA
  }

  ghost predicate LinksInRange(shdrs: seq<Shdr>) {
    forall i :: 0 <= i < |shdrs| ==>
      shdrs[i].link < |shdrs| && (IsRel(shdrs[i]) ==> shdrs[i].info < |shdrs|)
  }

  ghost predicate BodiesInFile(e: Elf)
    requires |e.file| >= e.cfg.EhdrSize()
  {
    forall i, k :: 0 <= i < |e.shdrs| && InBody(e.shdrs[i], k) ==>
      && e.cfg.EhdrSize() <= k < |e.file|
      && !(Hdr(e).phoff <= k < PhEnd(e)) && !(Hdr(e).shoff <= k < ShEnd(e))
  }

  ghost predicate BodiesDisjoint(shdrs: seq<Shdr>) {
    forall i, j, k :: (0 <= i < |shdrs| && 0 <= j < |shdrs| && InBody(shdrs[i], k) && InBody(shdrs[j], k))
      ==> i == j
  }

  ghost predicate WellFormed(e: Elf) {
    && Counts(e)
    && TablesApart(e)
    && NullFirst(e.shdrs)
    && DistinctNames(e.names, e.shdrs)
    && LinksInRange(e.shdrs)
    && BodiesInFile(e)
    && BodiesDisjoint(e.shdrs)
  }

  lemma BodyInFile(e: Elf, i: nat, k: int)
    requires WellFormed(e) && i < |e.shdrs| && InBody(e.shdrs[i], k)
    ensures |e.file| >= e.cfg.EhdrSize() && e.cfg.EhdrSize() <= k < |e.file|
  {
  }

  /** At most one PT_PHDR, and if there is one it comes first. */
  ghost predicate PhdrEntryFirst(phdrs: seq<Phdr>) {
    forall i :: 1 <= i < |phdrs| ==> phdrs[i].ptype != PT_PHDR
  }

  // ----- slots of a table -----

  function Slot(off: nat, i: nat, size: nat): nat {
    off + TableSize(i, size)
  }

  lemma {:induction false} TableSizeIs(n: nat, size: nat)
    ensures TableSize(n, size) == n * size
  {
    if n > 0 {
      TableSizeIs(n - 1, size);
      assert n * size == (n - 1) * size + size;
    }
  }

  lemma {:induction false} TableGrows(i: nat, n: nat, size: nat)
    requires i <= n
    ensures TableSize(i, size) <= TableSize(n, size)
    decreases n
  {
    if i < n {
      TableGrows(i, n - 1, size);
    }
  }

  lemma SlotInside(off: nat, i: nat, n: nat, size: nat)
    requires i < n
    ensures TableSize(i + 1, size) <= TableSize(n, size)
    ensures off <= Slot(off, i, size) && Slot(off, i, size) + size <= off + TableSize(n, size)
  {
    TableGrows(i + 1, n, size);
  }

  lemma SlotsApart(off: nat, i: nat, j: nat, size: nat)
    requires i < j
    ensures Slot(off, i, size) + size <= Slot(off, j, size)
  {
    SlotInside(off, i, j, size);
  }
}
