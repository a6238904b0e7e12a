/**
 * Where each header field is in the file: the layouts of the System V ABI, chapters 4 and 5, offset
 * by offset, for both classes.
 */
module Abi {
  import opened Bytes
  import opened Codec
  import opened ElfTypes

  /** The `w` bytes at `off` as a number in the file's order. */
  function Field(c: Config, s: seq<Byte>, off: nat, w: nat): nat
    requires off + w <= |s|
  {
    Load(c.order, s[off..off + w])
  }

  /** The low byte comes first in a little-endian file and last in a big-endian one. */
  lemma TwoBytes(a: Byte, b: Byte)
    ensures Load(Little, [a, b]) == a as int + 256 * b as int
    ensures Load(Big, [a, b]) == 256 * a as int + b as int
  {
    assert [a, b][1..] == [b] && [b][1..] == [] && [a, b][..1] == [a] && [a][..0] == [];
    assert Load(Little, [b]) == b as int;
    assert Load(Big, [a]) == a as int;
  }

  /** Value i of a record is the number at its place. */
  lemma {:induction false} UnpackAt(o: Order, ws: seq<nat>, s: seq<Byte>, i: nat, off: nat)
    requires |s| == Width(ws) && i < |ws| && off == Width(ws[..i])
    ensures off + ws[i] <= |s| && Unpack(o, ws, s)[i] == Load(o, s[off..off + ws[i]])
    decreases |ws|
  {
    UnpackFirst(o, ws, s);
    if i > 0 {
      WidthFirst(ws, i);
      hide Unpack, Width, Load;
      var w := ws[0];
      UnpackAt(o, ws[1..], s[w..], i - 1, off - w);
      TailSlice(s, w, off - w, off - w + ws[i]);
    }
  }

  lemma UnpackFirst(o: Order, ws: seq<nat>, s: seq<Byte>)
    requires |s| == Width(ws) && ws != []
    ensures ws[0] <= |s| && |s[ws[0]..]| == Width(ws[1..]) && Width(ws[..0]) == 0
    ensures Unpack(o, ws, s)[0] == Load(o, s[0..ws[0]])
    ensures forall i :: 0 < i < |ws| ==> Unpack(o, ws, s)[i] == Unpack(o, ws[1..], s[ws[0]..])[i - 1]
  {
    hide Load;
    assert s[0..ws[0]] == s[..ws[0]];
  }

  lemma WidthFirst(ws: seq<nat>, i: nat)
    requires 0 < i <= |ws|
    ensures Width(ws[..i]) == ws[0] + Width(ws[1..][..i - 1])
  {
    assert ws[..i][1..] == ws[1..][..i - 1];
  }

  lemma TailSlice(s: seq<Byte>, w: nat, lo: nat, hi: nat)
    requires lo <= hi && w + hi <= |s|
    ensures s[w..][lo..hi] == s[w + lo..w + hi]
  {
  }

  /** The width of the first i fields, counted up. */
  lemma WidthNext(ws: seq<nat>, i: nat)
    requires i < |ws|
    ensures Width(ws[..i + 1]) == Width(ws[..i]) + ws[i]
  {
    assert ws[..i + 1] == ws[..i] + [ws[i]];
    WidthSplit(ws[..i], [ws[i]]);
    WidthOne(ws[i]);
  }

  // ----- the ELF header -----

  /** Offset of field i behind e_ident. */
  function EhdrOffset(a: nat, i: nat): nat {
    if i < 3 then 2 * i else if i == 3 then 8 else if i == 4 then 8 + a else if i == 5 then 8 + 2 * a
    else if i == 6 then 8 + 3 * a else 2 * i - 2 + 3 * a
  }

  lemma {:induction false} EhdrOffsets(c: Config, i: nat)
    requires i <= 13
    ensures Width(EhdrWidths(c)[..i]) == EhdrOffset(c.Addr(), i)
  {
    if i > 0 {
      EhdrOffsets(c, i - 1);
      WidthNext(EhdrWidths(c), i - 1);
    }
  }

  lemma EhdrField(c: Config, s: seq<Byte>, i: nat)
    requires |s| == c.EhdrSize() && i < 13
    ensures |s[16..]| == Width(EhdrWidths(c))
    ensures var off, w := 16 + EhdrOffset(c.Addr(), i), EhdrWidthAt(c, i);
            off + w <= |s| && Unpack(c.order, EhdrWidths(c), s[16..])[i] == Field(c, s, off, w)
  {
    hide Unpack, Load;
    EhdrWidth(c);
    EhdrOffsets(c, i);
    var off, w := EhdrOffset(c.Addr(), i), EhdrWidthAt(c, i);
    UnpackAt(c.order, EhdrWidths(c), s[16..], i, off);
    assert s[16..][off..off + w] == s[16 + off..16 + off + w];
  }

  /** e_ident, and behind it the fields of the ELF header. */
  lemma EhdrAt(c: Config, s: seq<Byte>)
    requires |s| == c.EhdrSize()
    ensures var h, a := DecodeEhdr(c, s), if c.cls == Elf32 then 4 else 8;
            && h.ident == s[..16]
            && h.etype == Field(c, s, 16, 2) && h.machine == Field(c, s, 18, 2) && h.version == Field(c, s, 20, 4)
            && h.entry == Field(c, s, 24, a) && h.phoff == Field(c, s, 24 + a, a)
            && h.shoff == Field(c, s, 24 + 2 * a, a) && h.flags == Field(c, s, 24 + 3 * a, 4)
            && h.ehsize == Field(c, s, 28 + 3 * a, 2) && h.phentsize == Field(c, s, 30 + 3 * a, 2)
            && h.phnum == Field(c, s, 32 + 3 * a, 2) && h.shentsize == Field(c, s, 34 + 3 * a, 2)
            && h.shnum == Field(c, s, 36 + 3 * a, 2) && h.shstrndx == Field(c, s, 38 + 3 * a, 2)
  {
    hide Unpack, Field, Width;
    forall i | 0 <= i < 13
      ensures |s[16..]| == Width(EhdrWidths(c))
      ensures var off, w := 16 + EhdrOffset(c.Addr(), i), EhdrWidthAt(c, i);
              off + w <= |s| && Unpack(c.order, EhdrWidths(c), s[16..])[i] == Field(c, s, off, w)
    {
      EhdrField(c, s, i);
    }
  }

  // ----- the program headers -----

  function PhdrOffset(a: nat, i: nat): nat {
    if a == 8 then (if i == 0 then 0 else if i == 1 then 4 else 8 * i - 8) else 4 * i
  }

  lemma {:induction false} PhdrOffsets(c: Config, i: nat)
    requires i <= 8
    ensures Width(PhdrWidths(c)[..i]) == PhdrOffset(c.Addr(), i)
  {
    if i > 0 {
      PhdrOffsets(c, i - 1);
      WidthNext(PhdrWidths(c), i - 1);
    }
  }

  lemma PhdrField(c: Config, s: seq<Byte>, i: nat)
    requires |s| == c.PhdrSize() && i < 8
    ensures |s| == Width(PhdrWidths(c))
    ensures var off, w := PhdrOffset(c.Addr(), i), PhdrWidthAt(c, i);
            off + w <= |s| && Unpack(c.order, PhdrWidths(c), s)[i] == Field(c, s, off, w)
  {
    hide Unpack, Load;
    PhdrWidth(c);
    PhdrOffsets(c, i);
    UnpackAt(c.order, PhdrWidths(c), s, i, PhdrOffset(c.Addr(), i));
  }

  /** p_flags comes second in the 64-bit layout and second to last in the 32-bit one. */
  lemma PhdrAt(c: Config, s: seq<Byte>)
    requires |s| == c.PhdrSize()
    ensures var p := DecodePhdr(c, s);
            match c.cls
            case Elf32 =>
              && p.ptype == Field(c, s, 0, 4) && p.offset == Field(c, s, 4, 4) && p.vaddr == Field(c, s, 8, 4)
              && p.paddr == Field(c, s, 12, 4) && p.filesz == Field(c, s, 16, 4) && p.memsz == Field(c, s, 20, 4)
              && p.flags == Field(c, s, 24, 4) && p.align == Field(c, s, 28, 4)
            case Elf64 =>
              && p.ptype == Field(c, s, 0, 4) && p.flags == Field(c, s, 4, 4) && p.offset == Field(c, s, 8, 8)
              && p.vaddr == Field(c, s, 16, 8) && p.paddr == Field(c, s, 24, 8) && p.filesz == Field(c, s, 32, 8)
              && p.memsz == Field(c, s, 40, 8) && p.align == Field(c, s, 48, 8)
  {
    hide Unpack, Field, Width;
    forall i | 0 <= i < 8
      ensures |s| == Width(PhdrWidths(c))
      ensures var off, w := PhdrOffset(c.Addr(), i), PhdrWidthAt(c, i);
              off + w <= |s| && Unpack(c.order, PhdrWidths(c), s)[i] == Field(c, s, off, w)
    {
      PhdrField(c, s, i);
    }
  }

  // ----- the section headers -----

  function ShdrOffset(a: nat, i: nat): nat {
    if i < 2 then 4 * i else if i <= 6 then 8 + (i - 2) * a else if i == 7 then 12 + 4 * a
    else if i == 8 then 16 + 4 * a else if i == 9 then 16 + 5 * a else 16 + 6 * a
  }

  lemma {:induction false} ShdrOffsets(c: Config, i: nat)
    requires i <= 10
    ensures Width(ShdrWidths(c)[..i]) == ShdrOffset(c.Addr(), i)
  {
    if i > 0 {
      ShdrOffsets(c, i - 1);
      WidthNext(ShdrWidths(c), i - 1);
    }
  }

  lemma ShdrField(c: Config, s: seq<Byte>, i: nat)
    requires |s| == c.ShdrSize() && i < 10
    ensures |s| == Width(ShdrWidths(c))
    ensures var off, w := ShdrOffset(c.Addr(), i), ShdrWidthAt(c, i);
            off + w <= |s| && Unpack(c.order, ShdrWidths(c), s)[i] == Field(c, s, off, w)
  {
    hide Unpack, Load;
    ShdrWidth(c);
    ShdrOffsets(c, i);
    UnpackAt(c.order, ShdrWidths(c), s, i, ShdrOffset(c.Addr(), i));
  }

  lemma ShdrAt(c: Config, s: seq<Byte>)
    requires |s| == c.ShdrSize()
    ensures var h, a := DecodeShdr(c, s), if c.cls == Elf32 then 4 else 8;
            && h.name == Field(c, s, 0, 4) && h.stype == Field(c, s, 4, 4) && h.flags == Field(c, s, 8, a)
            && h.addr == Field(c, s, 8 + a, a) && h.offset == Field(c, s, 8 + 2 * a, a)
            && h.size == Field(c, s, 8 + 3 * a, a) && h.link == Field(c, s, 8 + 4 * a, 4)
            && h.info == Field(c, s, 12 + 4 * a, 4) && h.addralign == Field(c, s, 16 + 4 * a, a)
            && h.entsize == Field(c, s, 16 + 5 * a, a)
  {
    hide Unpack, Field, Width;
    forall i | 0 <= i < 10
      ensures |s| == Width(ShdrWidths(c))
      ensures var off, w := ShdrOffset(c.Addr(), i), ShdrWidthAt(c, i);
              off + w <= |s| && Unpack(c.order, ShdrWidths(c), s)[i] == Field(c, s, off, w)
    {
      ShdrField(c, s, i);
    }
  }

  // ----- dynamic entries -----

  lemma DynAt(c: Config, s: seq<Byte>)
    requires |s| == c.DynSize()
    ensures var d, a := DecodeDyn(c, s), if c.cls == Elf32 then 4 else 8;
            d.tag == Field(c, s, 0, a) && d.val == Field(c, s, a, a)
  {
    var a := c.Addr();
    assert s[..a] == s[0..a] && s[a..] == s[a..a + a];
  }
}
