/** Reading a file into headers (patchelf.cc: patchElf, parse). */
module Parsing {
  import opened Bytes
  import opened Options
  import opened Codec
  import opened ElfTypes
  import opened Staging
  import opened Elf
  import opened Links
  import opened Tables
  import opened Steps

  const ELFMAG: seq<Byte> := [127 as char, 'E', 'L', 'F']
  const EI_CLASS := 4
  const EI_VERSION := 6
  const ELFCLASS32 := 1 as char
  const ELFCLASS64 := 2 as char
  const EV_CURRENT := 1 as char
  const ELFDATA2LSB := 1 as char

  /** The class and byte order that e_ident declares; any data encoding but ELFDATA2LSB reads as big-endian. */
  function ConfigOf(mipsel: bool, ident: seq<Byte>): Option<Config>
    requires |ident| == 16
  {
    var order := if ident[EI_DATA] == ELFDATA2LSB then Little else Big;
    if ident[..4] != ELFMAG || ident[EI_VERSION] != EV_CURRENT then None
    else if ident[EI_CLASS] == ELFCLASS32 then Some(Config(Elf32, order, mipsel))
    else if ident[EI_CLASS] == ELFCLASS64 then Some(Config(Elf64, order, mipsel))
    else None
  }

  function FileConfig(mipsel: bool, file: seq<Byte>): Option<Config> {
    if |file| < 52 then None else ConfigOf(mipsel, file[..16])
  }

  /** The end of a table in the unsigned type of Elf_Off, read as a signed 64-bit off_t. */
  function TableEnd(c: Config, off: nat, n: nat, size: nat): int {
    var end := (off + TableSize(n, size)) % c.Limit();
    if end < 0x8000_0000_0000_0000 then end else end - 0x1_0000_0000_0000_0000
  }

  /** The loop that copies the program headers. */
  function ReadPhdrs(c: Config, file: seq<Byte>, off: nat, n: nat): (r: seq<Phdr>)
    requires off + TableSize(n, c.PhdrSize()) <= |file|
    ensures |r| == n && HoldsPhdrs(c, file, off, r, n)
  {
    if n == 0 then []
    else
      SlotInside(off, n - 1, n, c.PhdrSize());
      var r := ReadPhdrs(c, file, off, n - 1);
      var h := PhdrAt(c, file, Slot(off, n - 1, c.PhdrSize()));
      HoldsPhdrSnoc(c, file, off, r, h);
      r + [h]
  }

  lemma HoldsPhdrSnoc(c: Config, file: seq<Byte>, off: nat, r: seq<Phdr>, h: Phdr)
    requires HoldsPhdrs(c, file, off, r, |r|) && Slot(off, |r|, c.PhdrSize()) + c.PhdrSize() <= |file|
    requires h == PhdrAt(c, file, Slot(off, |r|, c.PhdrSize()))
    ensures HoldsPhdrs(c, file, off, r + [h], |r| + 1)
  {
    var t := r + [h];
    forall i | 0 <= i < |t| ensures HoldsPhdr(c, file, off, t, i) {
      assert i < |r| ==> HoldsPhdr(c, file, off, r, i);
    }
  }

  function ReadShdrs(c: Config, file: seq<Byte>, off: nat, n: nat): (r: seq<Shdr>)
    requires off + TableSize(n, c.ShdrSize()) <= |file|
    ensures |r| == n && HoldsShdrs(c, file, off, r, n)
  {
    if n == 0 then []
    else
      SlotInside(off, n - 1, n, c.ShdrSize());
      var r := ReadShdrs(c, file, off, n - 1);
      var h := ShdrAt(c, file, Slot(off, n - 1, c.ShdrSize()));
      HoldsShdrSnoc(c, file, off, r, h);
      r + [h]
  }

  lemma HoldsShdrSnoc(c: Config, file: seq<Byte>, off: nat, r: seq<Shdr>, h: Shdr)
    requires HoldsShdrs(c, file, off, r, |r|) && Slot(off, |r|, c.ShdrSize()) + c.ShdrSize() <= |file|
    requires h == ShdrAt(c, file, Slot(off, |r|, c.ShdrSize()))
    ensures HoldsShdrs(c, file, off, r + [h], |r| + 1)
  {
    var t := r + [h];
    forall i | 0 <= i < |t| ensures HoldsShdr(c, file, off, t, i) {
      assert i < |r| ==> HoldsShdr(c, file, off, r, i);
    }
  }

  /** A table is determined by what the file holds. */
  lemma PhdrsDetermined(c: Config, file: seq<Byte>, off: nat, ps: seq<Phdr>)
    requires off + TableSize(|ps|, c.PhdrSize()) <= |file| && HoldsPhdrs(c, file, off, ps, |ps|)
    ensures ReadPhdrs(c, file, off, |ps|) == ps
  {
    var r := ReadPhdrs(c, file, off, |ps|);
    forall i | 0 <= i < |ps| ensures r[i] == ps[i] {
      assert HoldsPhdr(c, file, off, r, i) && HoldsPhdr(c, file, off, ps, i);
    }
  }

  lemma ShdrsDetermined(c: Config, file: seq<Byte>, off: nat, ss: seq<Shdr>)
    requires off + TableSize(|ss|, c.ShdrSize()) <= |file| && HoldsShdrs(c, file, off, ss, |ss|)
    ensures ReadShdrs(c, file, off, |ss|) == ss
  {
    var r := ReadShdrs(c, file, off, |ss|);
    forall i | 0 <= i < |ss| ensures r[i] == ss[i] {
      assert HoldsShdr(c, file, off, r, i) && HoldsShdr(c, file, off, ss, i);
    }
  }

  /** The checks of parse on the ELF header, in its order. */
  predicate HeaderOk(c: Config, file: seq<Byte>) {
    && |file| >= c.EhdrSize()
    && var h := HdrAt(c, file);
    && (h.etype == ET_EXEC || h.etype == ET_DYN)
    && TableEnd(c, h.phoff, h.phnum, h.phentsize) <= |file|
    && TableEnd(c, h.shoff, h.shnum, h.shentsize) <= |file|
    && h.phentsize == c.PhdrSize()
    // Reading past the end of the file counts as a failure here.
    && h.phoff + TableSize(h.phnum, c.PhdrSize()) <= |file|
    && h.shoff + TableSize(h.shnum, c.ShdrSize()) <= |file|
  }

  /** The section name table, as long as it is inside the file, not empty, and ends with a NUL. */
  function ReadNames(file: seq<Byte>, s: Shdr): Option<seq<Byte>> {
    var size := s.size % WORD;
    if s.offset + size <= |file| && size > 0 && file[s.offset + size - 1] == '\0'
    then Some(file[s.offset..s.offset + size]) else None
  }

  function ParseAs(c: Config, file: seq<Byte>): Option<Elf> {
    if !HeaderOk(c, file) then None
    else
      var h := HdrAt(c, file);
      var phdrs := ReadPhdrs(c, file, h.phoff, h.phnum);
      var shdrs := ReadShdrs(c, file, h.shoff, h.shnum);
      if h.shstrndx >= |shdrs| then None
      else
        var names := ReadNames(file, shdrs[h.shstrndx]);
        if names == None then None else Some(Elf(c, names.value, file, phdrs, shdrs))
  }

  function Parse(mipsel: bool, file: seq<Byte>): Option<Elf> {
    var c := FileConfig(mipsel, file);
    if c == None then None else ParseAs(c.value, file)
  }

  /** The state is in agreement with its own file: class, byte order, type and section names. */
  ghost predicate SelfDescribing(e: Elf) {
    && |e.file| >= e.cfg.EhdrSize()
    && ConfigOf(e.cfg.mipsel, Hdr(e).ident) == Some(e.cfg)
    && (Hdr(e).etype == ET_EXEC || Hdr(e).etype == ET_DYN)
    && NamesStored(e)
  }

  /** The names in memory are the body of the section e_shstrndx points at. */
  ghost predicate NamesStored(e: Elf)
    requires |e.file| >= e.cfg.EhdrSize()
  {
    && Hdr(e).shstrndx < |e.shdrs|
    && var s := e.shdrs[Hdr(e).shstrndx];
    && s.stype != SHT_NOBITS && s.size > 0 && BodyEnd(s) <= |e.file|
    && e.file[s.offset..BodyEnd(s)] == e.names && e.names[s.size - 1] == '\0'
  }

  lemma IdentIsFront(c: Config, file: seq<Byte>)
    requires |file| >= c.EhdrSize()
    ensures HdrAt(c, file).ident == file[..16]
  {
    assert file[..c.EhdrSize()][..16] == file[..16];
  }

  lemma TableEndSmall(c: Config, off: nat, n: nat, size: nat)
    requires off + TableSize(n, size) < 0x8000_0000
    ensures TableEnd(c, off, n, size) == off + TableSize(n, size)
  {
  }

  /**
   * Parsing a file yields exactly the state that is well formed, self-describing and whose header
   * tables are the ones stored in the file.
   */
  lemma ParseYields(e: Elf)
    requires Counts(e) && TablesApart(e) && |e.file| < 0x8000_0000
    requires SelfDescribing(e) && PhdrsStored(e) && ShdrsStored(e)
    ensures Parse(e.cfg.mipsel, e.file) == Some(e)
  {
    hide HoldsPhdrs, HoldsShdrs, ReadPhdrs, ReadShdrs, HdrAt, ConfigOf;
    var c, h := e.cfg, Hdr(e);
    IdentIsFront(c, e.file);
    TableEndSmall(c, h.phoff, h.phnum, h.phentsize);
    TableEndSmall(c, h.shoff, h.shnum, h.shentsize);
    PhdrsDetermined(c, e.file, h.phoff, e.phdrs);
    ShdrsDetermined(c, e.file, h.shoff, e.shdrs);
    var s := e.shdrs[h.shstrndx];
    assert e.file[s.offset..BodyEnd(s)][s.size - 1] == e.file[s.offset + s.size - 1];
    assert ReadNames(e.file, s) == Some(e.names);
  }

  /** Conversely, what is parsed agrees with the file. */
  lemma ParsedAgrees(mipsel: bool, file: seq<Byte>, e: Elf)
    requires Parse(mipsel, file) == Some(e)
    ensures e.file == file && e.cfg.mipsel == mipsel && |file| >= e.cfg.EhdrSize()
    ensures PhdrsStored(e) && ShdrsStored(e) && Hdr(e).shstrndx < |e.shdrs|
    ensures |e.phdrs| == Hdr(e).phnum && |e.shdrs| == Hdr(e).shnum && Hdr(e).phentsize == e.cfg.PhdrSize()
    ensures var s := e.shdrs[Hdr(e).shstrndx];
            s.stype != SHT_NOBITS && s.size < WORD ==> SelfDescribing(e)
  {
    hide HoldsPhdrs, HoldsShdrs, ReadPhdrs, ReadShdrs, DecodeEhdr, TableEnd;
    IdentIsFront(e.cfg, file);
  }

  // ----- which files parse -----

  /** The magic number, class and version that are accepted. */
  predicate KnownIdent(file: seq<Byte>) {
    && |file| >= 52 && file[0] == 127 as char && file[1..4] == "ELF"
    && (file[4] == 1 as char || file[4] == 2 as char) && file[6] == 1 as char
  }

  /** Byte 4 gives the class, and only a 1 in byte 5 little-endian order: anything else is read as big-endian. */
  function ConfigIn(mipsel: bool, file: seq<Byte>): Config
    requires KnownIdent(file)
  {
    Config(if file[4] == 1 as char then Elf32 else Elf64, if file[5] == 1 as char then Little else Big, mipsel)
  }

  lemma ConfigOfFile(mipsel: bool, file: seq<Byte>)
    ensures FileConfig(mipsel, file) == if KnownIdent(file) then Some(ConfigIn(mipsel, file)) else None
  {
    if |file| >= 52 {
      var ident := file[..16];
      assert ident[..4] == [file[0]] + file[1..4];
      assert ELFMAG == [127 as char] + "ELF" && ELFMAG[0] == 127 as char && ELFMAG[1..] == "ELF";
      assert ident[..4] == ELFMAG ==> ident[..4][0] == 127 as char && ident[..4][1..] == "ELF";
      assert ident[..4][1..] == file[1..4];
    }
  }

  /** A 64-bit value read as a signed one. */
  function Signed(v: nat): int {
    if v < 0x8000_0000_0000_0000 then v else v - 0x1_0000_0000_0000_0000
  }

  /**
   * The checks of parse written out: type 2 or 3, program headers of the size for the class, both tables
   * inside the file, also with the e_shentsize given, and a section-name table that exists, lies in
   * the file, is not empty and ends with a NUL.
   */
  ghost predicate Parseable(c: Config, file: seq<Byte>) {
    && |file| >= (if c.cls == Elf32 then 52 else 64)
    && var h := HdrAt(c, file);
    && var limit := if c.cls == Elf32 then 0x1_0000_0000 else 0x1_0000_0000_0000_0000;
    && var size := if c.cls == Elf32 then 40 else 64;
    && (h.etype == 2 || h.etype == 3) && h.phentsize == (if c.cls == Elf32 then 32 else 56)
    && h.phoff + h.phnum * h.phentsize <= |file|
    && Signed((h.shoff + h.shnum * h.shentsize) % limit) <= |file| && h.shoff + h.shnum * size <= |file|
    && h.shstrndx < h.shnum && h.shoff + h.shstrndx * size + size <= |file|
    && var s := ShdrAt(c, file, h.shoff + h.shstrndx * size);
    && var n := s.size % 0x1_0000_0000;
    && 0 < n && s.offset + n <= |file| && file[s.offset + n - 1] == '\0'
  }

  lemma ParsesAs(c: Config, file: seq<Byte>)
    ensures ParseAs(c, file) != None <==> Parseable(c, file)
  {
    hide ReadPhdrs, HoldsPhdrs, DecodeEhdr, DecodeShdr;
    if |file| >= c.EhdrSize() {
      var h := HdrAt(c, file);
      TableSizeIs(h.phnum, h.phentsize);
      TableSizeIs(h.shnum, h.shentsize);
      TableSizeIs(h.shnum, c.ShdrSize());
      TableSizeIs(h.shstrndx, c.ShdrSize());
      TableEndAtMost(c, h.phoff, h.phnum, h.phentsize);
      if h.shoff + TableSize(h.shnum, c.ShdrSize()) <= |file| && h.shstrndx < h.shnum {
        SlotInside(h.shoff, h.shstrndx, h.shnum, c.ShdrSize());
        assert HoldsShdr(c, file, h.shoff, ReadShdrs(c, file, h.shoff, h.shnum), h.shstrndx);
      }
    }
  }

  lemma TableEndAtMost(c: Config, off: nat, n: nat, size: nat)
    ensures TableEnd(c, off, n, size) <= off + TableSize(n, size)
  {
  }

  lemma ParsedCfg(c: Config, file: seq<Byte>)
    ensures ParseAs(c, file) != None ==> ParseAs(c, file).value.cfg == c
  {
  }

  /** Exactly these files parse. */
  lemma ParsesExactly(mipsel: bool, file: seq<Byte>)
    ensures Parse(mipsel, file) != None <==> KnownIdent(file) && Parseable(ConfigIn(mipsel, file), file)
    ensures Parse(mipsel, file) != None ==> Parse(mipsel, file).value.cfg == ConfigIn(mipsel, file)
  {
    hide ParseAs, Parseable;
    ConfigOfFile(mipsel, file);
    if KnownIdent(file) {
      ParsesAs(ConfigIn(mipsel, file), file);
      ParsedCfg(ConfigIn(mipsel, file), file);
    }
  }
}
