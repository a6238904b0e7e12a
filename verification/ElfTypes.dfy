/**
 * The headers of an ELF file (System V ABI, chapters 4 and 5) as values, and their layout in
 * the file for both classes.
 */
module ElfTypes {
  import opened Bytes
  import opened Codec

  datatype Class = Elf32 | Elf64

  /** What is fixed for one run: the ELF class, the file's byte order, and the build's page size. */
  datatype Config = Config(cls: Class, order: Order, mipsel: bool) {
    function PageSize(): (n: nat)
      ensures n == 4096 || n == 16384
    {
      if mipsel then 16384 else 4096
    }

    /** Width of Elf_Addr and Elf_Off. */
    function Addr(): (n: nat)
      ensures n == 4 || n == 8
    {
      if cls == Elf32 then 4 else 8
    }

    /** One more than the largest Elf_Addr or Elf_Off. */
    function Limit(): nat {
      if cls == Elf32 then WORD else 0x1_0000_0000_0000_0000
    }

    /** sizeof(Elf_Off). */
    function SectionAlignment(): nat { Addr() }

    function EhdrSize(): nat { if cls == Elf32 then 52 else 64 }
    function PhdrSize(): nat { if cls == Elf32 then 32 else 56 }
    function ShdrSize(): nat { if cls == Elf32 then 40 else 64 }
    function DynSize(): nat { if cls == Elf32 then 8 else 16 }
  }

  const HALF := 0x1_0000
  const WORD := 0x1_0000_0000

  const ET_EXEC := 2
  const ET_DYN := 3
  const PT_LOAD := 1
  const PT_DYNAMIC := 2
  const PT_INTERP := 3
  const PT_PHDR := 6
  const PF_RW := 6
  const SHT_PROGBITS := 1
  const SHT_RELA := 4
  const SHT_NOBITS := 8
  const SHT_REL := 9
  const EI_DATA := 5

  datatype Ehdr = Ehdr(ident: seq<Byte>, etype: nat, machine: nat, version: nat, entry: nat, phoff: nat,
                       shoff: nat, flags: nat, ehsize: nat, phentsize: nat, phnum: nat,
                       shentsize: nat, shnum: nat, shstrndx: nat)

  datatype Phdr = Phdr(ptype: nat, flags: nat, offset: nat, vaddr: nat, paddr: nat,
                       filesz: nat, memsz: nat, align: nat)

  datatype Shdr = Shdr(name: nat, stype: nat, flags: nat, addr: nat, offset: nat, size: nat,
                       link: nat, info: nat, addralign: nat, entsize: nat)

  datatype Dyn = Dyn(tag: nat, val: nat)

  // ----- layout -----

  /** Width of field i behind e_ident. */
  function EhdrWidthAt(c: Config, i: nat): nat {
    if 3 <= i < 6 then c.Addr() else if i == 2 || i == 6 then 4 else 2
  }

  function EhdrWidths(c: Config): (ws: seq<nat>)
    ensures |ws| == 13
  {
    seq(13, i requires 0 <= i < 13 => EhdrWidthAt(c, i))
  }

  function EhdrFields(h: Ehdr): seq<nat> {
    [h.etype, h.machine, h.version, h.entry, h.phoff, h.shoff, h.flags, h.ehsize, h.phentsize,
     h.phnum, h.shentsize, h.shnum, h.shstrndx]
  }

  function PhdrWidthAt(c: Config, i: nat): nat {
    if i < 2 then 4 else c.Addr()
  }

  function PhdrWidths(c: Config): (ws: seq<nat>)
    ensures |ws| == 8
  {
    seq(8, i requires 0 <= i < 8 => PhdrWidthAt(c, i))
  }

  /** p_flags comes second in the 64-bit layout and second to last in the 32-bit one. */
  function PhdrFields(c: Config, p: Phdr): seq<nat> {
    match c.cls
    case Elf32 => [p.ptype, p.offset, p.vaddr, p.paddr, p.filesz, p.memsz, p.flags, p.align]
    case Elf64 => [p.ptype, p.flags, p.offset, p.vaddr, p.paddr, p.filesz, p.memsz, p.align]
  }

  function ShdrWidthAt(c: Config, i: nat): nat {
    if i < 2 || i == 6 || i == 7 then 4 else c.Addr()
  }

  function ShdrWidths(c: Config): (ws: seq<nat>)
    ensures |ws| == 10
  {
    seq(10, i requires 0 <= i < 10 => ShdrWidthAt(c, i))
  }

  function ShdrFields(s: Shdr): seq<nat> {
    [s.name, s.stype, s.flags, s.addr, s.offset, s.size, s.link, s.info, s.addralign, s.entsize]
  }

  lemma WidthOne(a: nat)
    ensures Width([a]) == a
  {
    assert [a][1..] == [];
  }

  lemma Width4(a: nat, b: nat, c: nat, d: nat)
    ensures Width([a, b, c, d]) == a + b + c + d
  {
    WidthOne(a);
    WidthOne(b);
    WidthOne(c);
    WidthOne(d);
    assert [a, b, c, d] == ([a] + [b]) + ([c] + [d]);
    WidthSplit([a] + [b], [c] + [d]);
    WidthSplit([a], [b]);
    WidthSplit([c], [d]);
  }

  lemma {:induction false} WidthSplit(u: seq<nat>, v: seq<nat>)
    ensures Width(u + v) == Width(u) + Width(v)
  {
    if u == [] {
      assert u + v == v;
    } else {
      assert (u + v)[1..] == u[1..] + v;
      WidthSplit(u[1..], v);
    }
  }

  lemma EhdrWidth(c: Config)
    ensures 16 + Width(EhdrWidths(c)) == c.EhdrSize()
  {
    var a := c.Addr();
    assert EhdrWidths(c) == ([2, 2, 4, a] + [a, a, 4, 2]) + ([2, 2, 2, 2] + [2]);
    WidthSplit([2, 2, 4, a] + [a, a, 4, 2], [2, 2, 2, 2] + [2]);
    WidthSplit([2, 2, 4, a], [a, a, 4, 2]);
    WidthSplit([2, 2, 2, 2], [2]);
    Width4(2, 2, 4, a);
    Width4(a, a, 4, 2);
    Width4(2, 2, 2, 2);
  }

  lemma PhdrWidth(c: Config)
    ensures Width(PhdrWidths(c)) == c.PhdrSize()
  {
    var a := c.Addr();
    var b := if c.cls == Elf32 then a else 4;
    assert PhdrWidths(c) == [4, b, a, a] + [a, a, a, a];
    WidthSplit([4, b, a, a], [a, a, a, a]);
    Width4(4, b, a, a);
    Width4(a, a, a, a);
  }

  lemma ShdrWidth(c: Config)
    ensures Width(ShdrWidths(c)) == c.ShdrSize()
  {
    var a := c.Addr();
    assert ShdrWidths(c) == ([4, 4, a, a] + [a, a, 4, 4]) + [a, a];
    WidthSplit([4, 4, a, a] + [a, a, 4, 4], [a, a]);
    WidthSplit([4, 4, a, a], [a, a, 4, 4]);
    Width4(4, 4, a, a);
    Width4(a, a, 4, 4);
    assert [a, a][1..] == [a];
  }

  // ----- values that fit their fields -----

  predicate EhdrOk(c: Config, h: Ehdr) {
    && |h.ident| == 16
    && h.etype < HALF && h.machine < HALF && h.version < WORD && h.entry < c.Limit() && h.phoff < c.Limit()
    && h.shoff < c.Limit() && h.flags < WORD && h.ehsize < HALF && h.phentsize < HALF && h.phnum < HALF
    && h.shentsize < HALF && h.shnum < HALF && h.shstrndx < HALF
  }

  predicate PhdrOk(c: Config, p: Phdr) {
    && p.ptype < WORD && p.flags < WORD && p.offset < c.Limit() && p.vaddr < c.Limit() && p.paddr < c.Limit()
    && p.filesz < c.Limit() && p.memsz < c.Limit() && p.align < c.Limit()
  }

  predicate ShdrOk(c: Config, s: Shdr) {
    && s.name < WORD && s.stype < WORD && s.flags < c.Limit() && s.addr < c.Limit() && s.offset < c.Limit()
    && s.size < c.Limit() && s.link < WORD && s.info < WORD && s.addralign < c.Limit() && s.entsize < c.Limit()
  }

  predicate DynOk(c: Config, d: Dyn) {
    d.tag < c.Limit() && d.val < c.Limit()
  }

  // ----- encoding and decoding -----

  function EncodeEhdr(c: Config, h: Ehdr): (s: seq<Byte>)
    requires |h.ident| == 16
    ensures |s| == c.EhdrSize()
  {
    EhdrWidth(c);
    h.ident + Pack(c.order, EhdrWidths(c), EhdrFields(h))
  }

  function DecodeEhdr(c: Config, s: seq<Byte>): (h: Ehdr)
    requires |s| == c.EhdrSize()
    ensures EhdrOk(c, h)
  {
    EhdrWidth(c);
    Pow256Values();
    UnpackFits(c.order, EhdrWidths(c), s[16..]);
    var v := Unpack(c.order, EhdrWidths(c), s[16..]);
    assert forall i :: 0 <= i < 13 ==> v[i] < Pow256(EhdrWidths(c)[i]);
    Ehdr(s[..16], v[0], v[1], v[2], v[3], v[4], v[5], v[6], v[7], v[8], v[9], v[10], v[11], v[12])
  }

  function EncodePhdr(c: Config, p: Phdr): (s: seq<Byte>)
    ensures |s| == c.PhdrSize()
  {
    PhdrWidth(c);
    Pack(c.order, PhdrWidths(c), PhdrFields(c, p))
  }

  function DecodePhdr(c: Config, s: seq<Byte>): (p: Phdr)
    requires |s| == c.PhdrSize()
    ensures PhdrOk(c, p)
  {
    PhdrWidth(c);
    Pow256Values();
    UnpackFits(c.order, PhdrWidths(c), s);
    var v := Unpack(c.order, PhdrWidths(c), s);
    assert forall i :: 0 <= i < 8 ==> v[i] < Pow256(PhdrWidths(c)[i]);
    match c.cls
    case Elf32 => Phdr(v[0], v[6], v[1], v[2], v[3], v[4], v[5], v[7])
    case Elf64 => Phdr(v[0], v[1], v[2], v[3], v[4], v[5], v[6], v[7])
  }

  function EncodeShdr(c: Config, h: Shdr): (s: seq<Byte>)
    ensures |s| == c.ShdrSize()
  {
    ShdrWidth(c);
    Pack(c.order, ShdrWidths(c), ShdrFields(h))
  }

  function DecodeShdr(c: Config, s: seq<Byte>): (h: Shdr)
    requires |s| == c.ShdrSize()
    ensures ShdrOk(c, h)
  {
    ShdrWidth(c);
    Pow256Values();
    UnpackFits(c.order, ShdrWidths(c), s);
    var v := Unpack(c.order, ShdrWidths(c), s);
    assert forall i :: 0 <= i < 10 ==> v[i] < Pow256(ShdrWidths(c)[i]);
    Shdr(v[0], v[1], v[2], v[3], v[4], v[5], v[6], v[7], v[8], v[9])
  }

  function EncodeDyn(c: Config, d: Dyn): (s: seq<Byte>)
    ensures |s| == c.DynSize()
  {
    Store(c.order, c.Addr(), d.tag) + Store(c.order, c.Addr(), d.val)
  }

  function DecodeDyn(c: Config, s: seq<Byte>): (d: Dyn)
    requires |s| == c.DynSize()
    ensures DynOk(c, d)
  {
    var a := c.Addr();
    Pow256Values();
    StoreLoad(c.order, s[..a]);
    StoreLoad(c.order, s[a..]);
    Dyn(Load(c.order, s[..a]), Load(c.order, s[a..]))
  }

  lemma EhdrRoundTrip(c: Config, h: Ehdr)
    requires EhdrOk(c, h)
    ensures DecodeEhdr(c, EncodeEhdr(c, h)) == h
  {
    Pow256Values();
    EhdrWidth(c);
    var ws, vs := EhdrWidths(c), EhdrFields(h);
    assert Fits(ws, vs);
    UnpackPack(c.order, ws, vs);
    assert EncodeEhdr(c, h)[16..] == Pack(c.order, ws, vs);
    assert EncodeEhdr(c, h)[..16] == h.ident;
  }

  lemma PhdrRoundTrip(c: Config, p: Phdr)
    requires PhdrOk(c, p)
    ensures DecodePhdr(c, EncodePhdr(c, p)) == p
  {
    Pow256Values();
    PhdrWidth(c);
    assert Fits(PhdrWidths(c), PhdrFields(c, p));
    UnpackPack(c.order, PhdrWidths(c), PhdrFields(c, p));
  }

  lemma ShdrRoundTrip(c: Config, h: Shdr)
    requires ShdrOk(c, h)
    ensures DecodeShdr(c, EncodeShdr(c, h)) == h
  {
    Pow256Values();
    ShdrWidth(c);
    assert Fits(ShdrWidths(c), ShdrFields(h));
    UnpackPack(c.order, ShdrWidths(c), ShdrFields(h));
  }

  lemma DynRoundTrip(c: Config, d: Dyn)
    requires DynOk(c, d)
    ensures DecodeDyn(c, EncodeDyn(c, d)) == d
  {
    var a := c.Addr();
    Pow256Values();
    LoadStore(c.order, a, d.tag);
    LoadStore(c.order, a, d.val);
    assert EncodeDyn(c, d)[..a] == Store(c.order, a, d.tag);
    assert EncodeDyn(c, d)[a..] == Store(c.order, a, d.val);
  }
}
