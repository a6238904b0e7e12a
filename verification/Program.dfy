/** patchElf: from the bytes of a file to the bytes that are left. */
module Program {
  import opened Bytes
  import opened Options
  import opened Codec
  import opened ElfTypes
  import opened Staging
  import opened Elf
  import opened Placement
  import opened Tables
  import opened Steps
  import opened Parsing
  import opened Reparse
  import opened Outcomes
  import opened RPath
  import opened RPathSteps
  import opened RPathRun
  import opened Shrink
  import PatchElf

  /** What a file may grow by: maxSize is its size and 8 MiB. */
  const SLACK := 8 * 1024 * 1024

  /** What a run relies on, of the file as it parses. */
  ghost predicate FileReady(e: Elf, newInterpreter: seq<Byte>, op: PathOp, holds: Oracle, es: seq<Dyn>, maxSize: nat) {
    var i, str := Find(e.names, e.shdrs, INTERP), StringsOf(e);
    && (newInterpreter != [] && i > 0 ==> Readable(e.file, e.shdrs[i]))
    && (Chosen(es) >= 0 ==> Ends(str, es[Chosen(es)].val))
    && (HasInterpreter(e, newInterpreter) && Find(e.names, e.shdrs, DYNAMIC) > 0 && Find(e.names, e.shdrs, DYNSTR) > 0
        ==> PathRunReady(e, StagedInterpreter(newInterpreter), es,
                         PathWanted(op, PathOf(es, str), Needed(es, str, |es|), holds), maxSize))
  }

  /** The section-name table has file contents and is none of the sections that such a run writes. */
  ghost predicate NamesSafe(e: Elf, newInterpreter: seq<Byte>) {
    && |e.file| >= e.cfg.EhdrSize() && Hdr(e).shstrndx < |e.shdrs|
    && (var s := e.shdrs[Hdr(e).shstrndx]; s.stype != SHT_NOBITS && s.size < WORD)
    && NamesSection(e) != DYNAMIC && NamesSection(e) != DYNSTR
    && !Has(StagedInterpreter(newInterpreter), NamesSection(e))
  }

  /**
   * The outcome for a file that parsed to e: PathRan says when there is a file to be left and what it
   * holds, and it parses to exactly the state g, which has the interpreter that was set.
   */
  ghost predicate FilePatched(e: Elf, newInterpreter: seq<Byte>, op: PathOp, force: bool, holds: Oracle, es: seq<Dyn>,
                              maxSize: nat, out: Option<seq<Byte>>, r: PathRun, g: Elf) {
    && (Chosen(es) >= 0 ==> Ends(StringsOf(e), es[Chosen(es)].val))
    && (out != None ==> HasInterpreter(e, newInterpreter) && PathAllowed(e, es) && out.value == g.file)
    && (HasInterpreter(e, newInterpreter) && PathAllowed(e, es) ==>
          PathRan(e, StagedInterpreter(newInterpreter), es, op, Needed(es, StringsOf(e), |es|), force, holds, maxSize,
                  out != None, r, g))
    && (out != None && newInterpreter != [] ==> InterpreterOf(g) == Some(newInterpreter + ['\0']))
    && (out != None && NamesSafe(e, newInterpreter) && |g.file| < 0x8000_0000 ==>
          Parse(e.cfg.mipsel, g.file) == Some(g))
  }

  /**
   * A file in, a file out: the headers are parsed, a new interpreter and a path are set as asked, and
   * the file is rewritten if that changed anything.
   */
  method PatchFile(file: seq<Byte>, mipsel: bool, newInterpreter: seq<Byte>, op: PathOp, force: bool, holds: Oracle,
                   ghost es: seq<Dyn>)
    returns (out: Option<seq<Byte>>, printed: seq<Byte>, ghost r: PathRun, ghost g: Elf)
    requires OpOk(op)
    requires Parse(mipsel, file) != None ==>
      FileReady(Parse(mipsel, file).value, newInterpreter, op, holds, es, |file| + SLACK)
    ensures Parse(mipsel, file) == None ==> out == None
    ensures Parse(mipsel, file) != None ==>
      FilePatched(Parse(mipsel, file).value, newInterpreter, op, force, holds, es, |file| + SLACK, out, r, g)
    ensures Parse(mipsel, file) != None ==>
      var e := Parse(mipsel, file).value;
      HasInterpreter(e, newInterpreter) && PathAllowed(e, es) ==>
        printed == if op == RpPrint then Text(PathOf(es, StringsOf(e))) else []
  {
    hide Parse, PathRunReady, PathRan, PathAllowed, Chosen, Ends, FilePatched, Find, PathWanted, Needed, HasInterpreter,
         StringsOf, InterpreterOf, StagedInterpreter;
    out, printed := None, [];
    g := Elf(Config(Elf32, Little, mipsel), [], [], [], []);
    r := PathRun(g, [], 0, Untouched, [], []);
    var c := FileConfig(mipsel, file);
    ConfigIs(mipsel, file);
    if c == None {
      return;
    }
    var elf := new PatchElf.ElfFile(c.value, file, |file| + SLACK);
    var ok := elf.Parse();
    if !ok {
      return;
    }
    ghost var e := elf.State();
    NoneBefore(Needed(es, StringsOf(e), |es|));
    ok, printed, r := elf.PatchBoth(newInterpreter, op, force, holds, es);
    g := elf.State();
    if ok {
      out := Some(elf.File());
    }
    PatchedIs(mipsel, file, e, newInterpreter, op, force, holds, es, |file| + SLACK, out, r, g);
  }

  lemma PatchedIs(mipsel: bool, file: seq<Byte>, e: Elf, newInterpreter: seq<Byte>, op: PathOp, force: bool,
                  holds: Oracle, es: seq<Dyn>, maxSize: nat, out: Option<seq<Byte>>, r: PathRun, g: Elf)
    requires Parse(mipsel, file) == Some(e) && e.cfg.mipsel == mipsel && e.cfg == g.cfg
    requires Chosen(es) >= 0 ==> Ends(StringsOf(e), es[Chosen(es)].val)
    requires out != None ==> HasInterpreter(e, newInterpreter) && PathAllowed(e, es) && out.value == g.file
    requires HasInterpreter(e, newInterpreter) && PathAllowed(e, es) ==>
      PathRan(e, StagedInterpreter(newInterpreter), es, op, Needed(es, StringsOf(e), |es|), force, holds, maxSize,
              out != None, r, g)
    requires out != None && newInterpreter != [] ==> InterpreterOf(g) == Some(newInterpreter + ['\0'])
    ensures FilePatched(e, newInterpreter, op, force, holds, es, maxSize, out, r, g)
  {
    hide Parse, PathRan, PathAllowed, Chosen, Ends, Needed, HasInterpreter, StringsOf, InterpreterOf, ParsesAsIs,
         StagedInterpreter;
    if out != None && NamesSafe(e, newInterpreter) && |g.file| < 0x8000_0000 {
      ParsedIsAsIs(mipsel, file, e, newInterpreter);
      RanParses(e, newInterpreter, es, op, Needed(es, StringsOf(e), |es|), force, holds, maxSize, r, g);
    }
  }

  lemma NoneBefore(libs: seq<seq<Byte>>)
    ensures [] + libs == libs
  {
  }

  lemma ConfigIs(mipsel: bool, file: seq<Byte>)
    ensures var c := FileConfig(mipsel, file);
            if c == None then Parse(mipsel, file) == None else c.value.mipsel == mipsel
  {
    hide ParseAs;
  }

  /** A file that has just been parsed describes itself. */
  lemma ParsedIsAsIs(mipsel: bool, file: seq<Byte>, e: Elf, newInterpreter: seq<Byte>)
    requires Parse(mipsel, file) == Some(e) && NamesSafe(e, newInterpreter)
    ensures ParsesAsIs(e) && !Has(StagedInterpreter(newInterpreter), NamesSection(e))
  {
    hide Parse, HoldsPhdrs, HoldsShdrs, SelfDescribing;
    ParsedAgrees(mipsel, file, e);
  }

  lemma RanParses(e: Elf, newInterpreter: seq<Byte>, es: seq<Dyn>, op: PathOp, needed: seq<seq<Byte>>, force: bool,
                  holds: Oracle, maxSize: nat, r: PathRun, g: Elf)
    requires Chosen(es) >= 0 ==> Ends(StringsOf(e), es[Chosen(es)].val)
    requires PathRan(e, StagedInterpreter(newInterpreter), es, op, needed, force, holds, maxSize, true, r, g)
    requires ParsesAsIs(e) && !Has(StagedInterpreter(newInterpreter), NamesSection(e)) && |g.file| < 0x8000_0000
    ensures Parse(g.cfg.mipsel, g.file) == Some(g)
  {
    hide Parse, PathModified, Rewritten, PathTables, Misdirected, NeededKept, Succeeds, SortRecorded, Chosen, Ends,
         NamesSection, SelfDescribing, HoldsPhdrs, HoldsShdrs;
  }
}
