/**
 * The library search path (patchelf.cc: modifyRPath), on the entries of the dynamic table before
 * its DT_NULL and the contents of the dynamic string table.
 */
module RPath {
  import opened Bytes
  import opened Options
  import opened ElfTypes
  import opened Tables
  import opened Parsing

  /** Used to erase DT_RUNPATH when DT_RPATH is forced. */
  const DT_IGNORE := 0x00726e67

  /** Index of the last entry among the first n with this tag, or -1. */
  function LastTag(es: seq<Dyn>, tag: nat, n: nat): (i: int)
    requires n <= |es|
    ensures -1 <= i < n
    ensures i >= 0 ==> es[i].tag == tag
    ensures forall j :: i < j < n ==> es[j].tag != tag
  {
    if n == 0 then -1 else if es[n - 1].tag == tag then n - 1 else LastTag(es, tag, n - 1)
  }

  function LastRPath(es: seq<Dyn>): (i: int)
    ensures -1 <= i < |es|
  {
    LastTag(es, DT_RPATH, |es|)
  }

  function LastRunPath(es: seq<Dyn>): (i: int)
    ensures -1 <= i < |es|
  {
    LastTag(es, DT_RUNPATH, |es|)
  }

  /** The entry that decides: the last DT_RUNPATH, and only without one the last DT_RPATH. */
  function Chosen(es: seq<Dyn>): (i: int)
    ensures -1 <= i < |es|
  {
    if LastRunPath(es) >= 0 then LastRunPath(es) else LastRPath(es)
  }

  /** The search path that is in force. */
  function PathOf(es: seq<Dyn>, str: seq<Byte>): Option<seq<Byte>> {
    if Chosen(es) < 0 then None else Some(CString(str, es[Chosen(es)].val))
  }

  function Text(path: Option<seq<Byte>>): seq<Byte> {
    if path == None then [] else path.value
  }

  /** The value of the last DT_STRTAB among the first n entries, or 0. */
  function StrTabAddr(es: seq<Dyn>, n: nat): nat
    requires n <= |es|
  {
    if n == 0 then 0 else if es[n - 1].tag == DT_STRTAB then es[n - 1].val else StrTabAddr(es, n - 1)
  }

  /** The names of the needed libraries, in order. */
  function Needed(es: seq<Dyn>, str: seq<Byte>, n: nat): seq<seq<Byte>>
    requires n <= |es|
  {
    if n == 0 then []
    else Needed(es, str, n - 1) + (if es[n - 1].tag == DT_NEEDED then [CString(str, es[n - 1].val)] else [])
  }

  /** The string at `off` ends inside the table. */
  ghost predicate Ends(str: seq<Byte>, off: nat) {
    off + |CString(str, off)| < |str|
  }

  // ----- the same by numbers -----

  /** Entry i is the last one with this tag. */
  ghost predicate LastWith(es: seq<Dyn>, tag: nat, i: nat) {
    i < |es| && es[i].tag == tag && forall j :: i < j < |es| ==> es[j].tag != tag
  }

  ghost predicate NoneWith(es: seq<Dyn>, tag: nat) {
    forall j :: 0 <= j < |es| ==> es[j].tag != tag
  }

  /** The path in force is the last DT_RUNPATH (29), or without one the last DT_RPATH (15); otherwise there is none. */
  lemma PathInForce(es: seq<Dyn>, str: seq<Byte>, i: nat)
    ensures LastWith(es, 29, i) ==> PathOf(es, str) == Some(CString(str, es[i].val))
    ensures NoneWith(es, 29) && LastWith(es, 15, i) ==> PathOf(es, str) == Some(CString(str, es[i].val))
    ensures NoneWith(es, 29) && NoneWith(es, 15) ==> PathOf(es, str) == None
  {
    hide CString;
    if LastWith(es, 29, i) {
      LastTagIs(es, DT_RUNPATH, i);
    } else if NoneWith(es, 29) {
      LastTagNone(es, DT_RUNPATH);
      if LastWith(es, 15, i) {
        LastTagIs(es, DT_RPATH, i);
      } else if NoneWith(es, 15) {
        LastTagNone(es, DT_RPATH);
      }
    }
  }

  /** The address of the string table is that of the last DT_STRTAB (5), or 0. */
  lemma {:induction false} StringTableAt(es: seq<Dyn>, n: nat, i: nat)
    requires n <= |es|
    ensures i < n && es[i].tag == 5 && (forall j :: i < j < n ==> es[j].tag != 5) ==> StrTabAddr(es, n) == es[i].val
    ensures (forall j :: 0 <= j < n ==> es[j].tag != 5) ==> StrTabAddr(es, n) == 0
    decreases n
  {
    if n > 0 {
      StringTableAt(es, n - 1, i);
    }
  }

  lemma {:induction false} LastExists(es: seq<Dyn>, tag: nat, n: nat)
    requires n <= |es| && forall j :: n <= j < |es| ==> es[j].tag != tag
    ensures NoneWith(es, tag) || exists i: nat :: LastWith(es, tag, i)
    decreases n
  {
    if n > 0 {
      if es[n - 1].tag == tag {
        assert LastWith(es, tag, n - 1);
      } else {
        LastExists(es, tag, n - 1);
      }
    }
  }

  /** How many of the first n entries are DT_NEEDED (1). */
  function NeededBefore(es: seq<Dyn>, n: nat): nat
    requires n <= |es|
  {
    if n == 0 then 0 else NeededBefore(es, n - 1) + (if es[n - 1].tag == 1 then 1 else 0)
  }

  /** The needed libraries are the strings of exactly the DT_NEEDED entries, in their order. */
  lemma {:induction false} NeededInOrder(es: seq<Dyn>, str: seq<Byte>, n: nat, i: nat)
    requires i < n <= |es|
    ensures |Needed(es, str, n)| == NeededBefore(es, n)
    ensures NeededBefore(es, i) <= NeededBefore(es, n)
    ensures es[i].tag == 1 ==>
      NeededBefore(es, i) < NeededBefore(es, n) && Needed(es, str, n)[NeededBefore(es, i)] == CString(str, es[i].val)
    decreases n
  {
    hide CString;
    if i < n - 1 {
      NeededInOrder(es, str, n - 1, i);
    } else {
      NeededCount(es, str, n - 1);
    }
  }

  lemma {:induction false} NeededCount(es: seq<Dyn>, str: seq<Byte>, n: nat)
    requires n <= |es|
    ensures |Needed(es, str, n)| == NeededBefore(es, n)
    decreases n
  {
    hide CString;
    if n > 0 {
      NeededCount(es, str, n - 1);
    }
  }

  // ----- what setting the path does -----

  /** DT_RPATH becomes DT_RUNPATH, or with force DT_RUNPATH is made to be ignored. */
  function Converted(es: seq<Dyn>, force: bool): (r: seq<Dyn>)
    ensures |r| == |es|
  {
    var rp, run := LastRPath(es), LastRunPath(es);
    if !force && rp >= 0 && run < 0 then es[rp := es[rp].(tag := DT_RUNPATH)]
    else if force && rp >= 0 && run >= 0 then es[run := es[run].(tag := DT_IGNORE)]
    else es
  }

  /** The entries made to point at the string at `val`. */
  function Repointed(es: seq<Dyn>, rp: int, run: int, val: nat): (r: seq<Dyn>)
    requires -1 <= rp < |es| && -1 <= run < |es|
    ensures |r| == |es|
  {
    var q := if run >= 0 then es[run := es[run].(val := val)] else es;
    if rp >= 0 then q[rp := q[rp].(val := val)] else q
  }

  /** The string overwritten with 'X', so that nothing scanning the file finds the old path. */
  function Blanked(str: seq<Byte>, off: nat): (r: seq<Byte>)
    requires Ends(str, off)
    ensures |r| == |str|
  {
    Splice(str, off, Fill(|CString(str, off)|, 'X'))
  }

  function WithNul(path: seq<Byte>): (r: seq<Byte>)
    ensures |r| == |path| + 1 && r[|path|] == '\0' && forall k :: 0 <= k < |path| ==> r[k] == path[k]
  {
    path + ['\0']
  }

  /** The outcome: table, strings, and whether each had to grow. */
  datatype Edit = Edit(es: seq<Dyn>, str: seq<Byte>, grown: bool, added: bool)

  /** The old string as far as it is to be overwritten. */
  function BlankedPath(es: seq<Dyn>, str: seq<Byte>): (r: seq<Byte>)
    requires Chosen(es) >= 0 ==> Ends(str, es[Chosen(es)].val)
    ensures |r| == |str|
  {
    if Chosen(es) >= 0 then Blanked(str, es[Chosen(es)].val) else str
  }

  /** A path that does not fit goes to the end of the strings, and the path entries, or a new one, point there. */
  function Longer(es: seq<Dyn>, str: seq<Byte>, rp: int, run: int, path: seq<Byte>, force: bool): Edit
    requires -1 <= rp < |es| && -1 <= run < |es|
  {
    if rp >= 0 || run >= 0 then
      Edit(Repointed(es, rp, run, |str|), str + WithNul(path), true, false)
    else
      Edit([Dyn(if force then DT_RPATH else DT_RUNPATH, |str|)] + es, str + WithNul(path), true, true)
  }

  function SetPath(es: seq<Dyn>, str: seq<Byte>, path: seq<Byte>, force: bool): Edit
    requires Chosen(es) >= 0 ==> Ends(str, es[Chosen(es)].val)
  {
    var was := Text(PathOf(es, str));
    if was == path then Edit(es, str, false, false)
    else if |path| <= |was| then
      Edit(Converted(es, force), Splice(BlankedPath(es, str), es[Chosen(es)].val, WithNul(path)), false, false)
    else
      Longer(Converted(es, force), BlankedPath(es, str), LastRPath(es), LastRunPath(es), path, force)
  }

  // ----- reading back -----

  /** The string at `o` and the one at `off` share no byte, terminators included. */
  ghost predicate StringsApart(str: seq<Byte>, off: nat, o: nat) {
    o + |CString(str, o)| < off || off + |CString(str, off)| < o
  }

  /** The strings of all path entries end inside the table. */
  ghost predicate PathStrings(es: seq<Dyn>, str: seq<Byte>) {
    forall i :: 0 <= i < |es| && (es[i].tag == DT_RPATH || es[i].tag == DT_RUNPATH) ==> Ends(str, es[i].val)
  }

  /** The entry that decides once the tags have been converted. */
  function Deputy(es: seq<Dyn>, force: bool): (i: int)
    ensures -1 <= i < |es|
  {
    Chosen(Converted(es, force))
  }

  /** Byte k of a table in which the n bytes at `at` are to hold the path if it fits, and else nothing but 'X'. */
  function MarkedByte(str: seq<Byte>, at: nat, n: nat, path: seq<Byte>, k: nat): Byte
    requires k < |str|
  {
    if k < at || at + n <= k then str[k]
    else if n < |path| || at + |path| < k then 'X'
    else if k == at + |path| then '\0'
    else path[k - at]
  }

  ghost predicate Marked(str: seq<Byte>, at: nat, path: seq<Byte>, y: seq<Byte>) {
    |str| <= |y| && forall k :: 0 <= k < |str| ==> y[k] == MarkedByte(str, at, |CString(str, at)|, path, k)
  }

  /**
   * What a string at `o` reads once the one at `at` has been overwritten: a tail of the new path, or
   * 'X's; its own start and then the new path or 'X's; or, if the two share no byte, what it read.
   */
  function Leftover(str: seq<Byte>, at: nat, o: nat, path: seq<Byte>): seq<Byte> {
    var was, s := CString(str, at), CString(str, o);
    var fits := |path| <= |was|;
    if at <= o <= at + |was| then
      (if fits && o - at <= |path| then path[o - at..] else Fill(|was| - (o - at), 'X'))
    else if o < at <= o + |s| then s[..at - o] + Mark(str, at, path)
    else s
  }

  /** What the string at `at` reads once it has been overwritten. */
  function Mark(str: seq<Byte>, at: nat, path: seq<Byte>): seq<Byte> {
    if |path| <= |CString(str, at)| then path else Fill(|CString(str, at)|, 'X')
  }

  /**
   * The new path is written for the entries in charge before, and another one is in charge
   * afterwards, whose string then happens not to be the path either.
   */
  predicate Misdirected(es: seq<Dyn>, str: seq<Byte>, path: seq<Byte>, force: bool) {
    var was, i := Text(PathOf(es, str)), Deputy(es, force);
    && path != was && Chosen(es) >= 0 && i >= 0
    && !(|path| > |was| && (i == LastRPath(es) || i == LastRunPath(es)))
    && Leftover(str, es[Chosen(es)].val, es[i].val, path) != path
  }

  /**
   * Setting the path reads back, whichever way it was stored, exactly unless it was misdirected: for
   * any table whose path strings end in the string table.
   */
  lemma SetReadsBack(es: seq<Dyn>, str: seq<Byte>, path: seq<Byte>, force: bool)
    requires PathStrings(es, str) && '\0' !in path
    ensures var r := SetPath(es, str, path, force);
            Text(PathOf(r.es, r.str)) == path <==> !Misdirected(es, str, path, force)
  {
    hide CString, Leftover, Chosen, Deputy, LastRPath, LastRunPath, SetPath;
    ChosenEnds(es, str);
    var was := Text(PathOf(es, str));
    if was == path {
      SetNothing(es, str, path, force);
    } else if Chosen(es) < 0 {
      SetAdded(es, str, path, force);
    } else {
      DeputyEnds(es, str, force);
      if |path| <= |was| {
        SetInPlace(es, str, path, force);
      } else {
        SetGrown(es, str, path, force);
      }
    }
  }

  /** That takes force, a DT_RPATH and a DT_RUNPATH. */
  lemma MisdirectedIsForced(es: seq<Dyn>, str: seq<Byte>, path: seq<Byte>, force: bool)
    requires Misdirected(es, str, path, force)
    ensures force && LastRPath(es) >= 0 && LastRunPath(es) >= 0
  {
    hide CString;
    DeputyIs(es, force);
  }

  lemma ChosenEnds(es: seq<Dyn>, str: seq<Byte>)
    requires PathStrings(es, str)
    ensures Chosen(es) >= 0 ==> Ends(str, es[Chosen(es)].val)
  {
  }

  /** Forcing DT_RPATH where both exist leaves another entry in charge; otherwise it is the same. */
  lemma DeputyIs(es: seq<Dyn>, force: bool)
    requires Chosen(es) >= 0
    ensures var i := Deputy(es, force);
            && i >= 0 && (es[i].tag == DT_RPATH || es[i].tag == DT_RUNPATH)
            && (!(force && LastRPath(es) >= 0 && LastRunPath(es) >= 0) ==> i == Chosen(es))
  {
    var rp, run, r := LastRPath(es), LastRunPath(es), Converted(es, force);
    if !force && rp >= 0 && run < 0 {
      LastTagIs(r, DT_RUNPATH, rp);
    } else if force && rp >= 0 && run >= 0 {
      LastTagIs(r, DT_RPATH, rp);
    }
  }

  lemma DeputyEnds(es: seq<Dyn>, str: seq<Byte>, force: bool)
    requires PathStrings(es, str) && Chosen(es) >= 0
    ensures Deputy(es, force) >= 0 && Ends(str, es[Deputy(es, force)].val)
  {
    hide CString, Chosen, Deputy;
    DeputyIs(es, force);
  }

  lemma LastTagIs(es: seq<Dyn>, tag: nat, i: nat)
    requires i < |es| && es[i].tag == tag && forall j :: i < j < |es| ==> es[j].tag != tag
    ensures LastTag(es, tag, |es|) == i
  {
    assert LastTag(es, tag, |es|) >= i;
  }

  lemma LastTagNone(es: seq<Dyn>, tag: nat)
    requires forall j :: 0 <= j < |es| ==> es[j].tag != tag
    ensures LastTag(es, tag, |es|) == -1
  {
  }

  lemma {:induction false} LastTagSame(a: seq<Dyn>, b: seq<Dyn>, tag: nat, n: nat)
    requires n <= |a| == |b| && forall i :: 0 <= i < n ==> a[i].tag == b[i].tag
    ensures LastTag(a, tag, n) == LastTag(b, tag, n)
  {
    if n > 0 {
      LastTagSame(a, b, tag, n - 1);
    }
  }

  lemma RepointedChosen(es: seq<Dyn>, rp: int, run: int, val: nat)
    requires -1 <= rp < |es| && -1 <= run < |es|
    ensures Chosen(Repointed(es, rp, run, val)) == Chosen(es)
    ensures forall i :: 0 <= i < |es| ==>
      Repointed(es, rp, run, val)[i] == (if i == rp || i == run then es[i].(val := val) else es[i])
  {
    var r := Repointed(es, rp, run, val);
    LastTagSame(r, es, DT_RPATH, |es|);
    LastTagSame(r, es, DT_RUNPATH, |es|);
  }

  lemma ConvertedVals(es: seq<Dyn>, force: bool)
    ensures forall i :: 0 <= i < |es| ==> Converted(es, force)[i].val == es[i].val
  {
  }

  /** In a table marked that way, however far it goes on behind, the string at `o` is the leftover. */
  lemma LeftoverReads(str: seq<Byte>, at: nat, o: nat, path: seq<Byte>, y: seq<Byte>)
    requires Ends(str, at) && Ends(str, o) && '\0' !in path && Marked(str, at, path, y)
    ensures CString(y, o) == Leftover(str, at, o, path)
  {
    hide CString;
    var was, s, t := CString(str, at), CString(str, o), Leftover(str, at, o, path);
    if at <= o <= at + |was| {
      LeftoverInside(str, at, o, path, y);
    } else if o < at <= o + |s| {
      LeftoverBefore(str, at, o, path, y);
    } else {
      assert at > o + |s| || at + |was| < o;
      CStringFrame(str, y, o);
    }
  }

  lemma LeftoverInside(str: seq<Byte>, at: nat, o: nat, path: seq<Byte>, y: seq<Byte>)
    requires Ends(str, at) && '\0' !in path && Marked(str, at, path, y) && at <= o <= at + |CString(str, at)|
    ensures CString(y, o) == Leftover(str, at, o, path)
  {
    hide CString;
    var t := Leftover(str, at, o, path);
    assert str[at + |CString(str, at)|] == '\0';
    forall k | 0 <= k < |t| ensures y[o + k] == t[k] && t[k] != '\0' {
      assert y[o + k] == MarkedByte(str, at, |CString(str, at)|, path, o + k);
    }
    assert y[o + |t|] == MarkedByte(str, at, |CString(str, at)|, path, o + |t|);
    assert y[o..o + |t|] == t;
    CStringIs(y, o, t);
  }

  lemma LeftoverBefore(str: seq<Byte>, at: nat, o: nat, path: seq<Byte>, y: seq<Byte>)
    requires Ends(str, at) && Ends(str, o) && '\0' !in path && Marked(str, at, path, y)
    requires o < at <= o + |CString(str, o)|
    ensures CString(y, o) == CString(str, o)[..at - o] + Mark(str, at, path)
  {
    hide CString, Mark;
    var s, mark := CString(str, o), Mark(str, at, path);
    MarkReads(str, at, path, y);
    hide MarkedByte;
    FrontReads(str, at, o, path, y);
    var t := s[..at - o] + mark;
    assert y[o..o + |t|] == y[o..at] + y[at..at + |mark|] == t;
    CStringIs(y, o, t);
  }

  lemma MarkReads(str: seq<Byte>, at: nat, path: seq<Byte>, y: seq<Byte>)
    requires Ends(str, at) && '\0' !in path && Marked(str, at, path, y)
    ensures var mark := Mark(str, at, path);
            at + |mark| < |str| && y[at..at + |mark|] == mark && '\0' !in mark && y[at + |mark|] == '\0'
  {
    hide CString;
    var mark := Mark(str, at, path);
    assert str[at + |CString(str, at)|] == '\0';
    forall k | 0 <= k < |mark| ensures y[at + k] == mark[k] {
      assert y[at + k] == MarkedByte(str, at, |CString(str, at)|, path, at + k);
    }
    assert y[at + |mark|] == MarkedByte(str, at, |CString(str, at)|, path, at + |mark|);
  }

  lemma FrontReads(str: seq<Byte>, at: nat, o: nat, path: seq<Byte>, y: seq<Byte>)
    requires Ends(str, o) && Marked(str, at, path, y) && o < at <= o + |CString(str, o)|
    ensures y[o..at] == CString(str, o)[..at - o]
  {
    hide CString;
    forall k | o <= k < at ensures y[k] == str[k] {
      assert y[k] == MarkedByte(str, at, |CString(str, at)|, path, k);
    }
    assert y[o..at] == str[o..at] == str[o..o + |CString(str, o)|][..at - o];
  }

  lemma SetNothing(es: seq<Dyn>, str: seq<Byte>, path: seq<Byte>, force: bool)
    requires (Chosen(es) >= 0 ==> Ends(str, es[Chosen(es)].val)) && path == Text(PathOf(es, str))
    ensures SetPath(es, str, path, force) == Edit(es, str, false, false)
  {
  }

  lemma SetInPlace(es: seq<Dyn>, str: seq<Byte>, path: seq<Byte>, force: bool)
    requires Chosen(es) >= 0 && Ends(str, es[Chosen(es)].val) && '\0' !in path
    requires path != Text(PathOf(es, str)) && |path| <= |Text(PathOf(es, str))|
    requires Deputy(es, force) >= 0 && Ends(str, es[Deputy(es, force)].val)
    ensures var r := SetPath(es, str, path, force);
            PathOf(r.es, r.str) == Some(Leftover(str, es[Chosen(es)].val, es[Deputy(es, force)].val, path))
  {
    hide CString, Chosen, LastRPath, LastRunPath, Converted, WithNul, Leftover, MarkedByte;
    var at, r := es[Chosen(es)].val, SetPath(es, str, path, force);
    ConvertedVals(es, force);
    SetMarks(es, str, path, force);
    LeftoverReads(str, at, es[Deputy(es, force)].val, path, r.str);
  }

  lemma SetGrown(es: seq<Dyn>, str: seq<Byte>, path: seq<Byte>, force: bool)
    requires Chosen(es) >= 0 && Ends(str, es[Chosen(es)].val) && '\0' !in path
    requires |path| > |Text(PathOf(es, str))|
    requires Deputy(es, force) >= 0 && Ends(str, es[Deputy(es, force)].val)
    ensures var r, i := SetPath(es, str, path, force), Deputy(es, force);
            PathOf(r.es, r.str) == Some(if i == LastRPath(es) || i == LastRunPath(es) then path
                                        else Leftover(str, es[Chosen(es)].val, es[i].val, path))
  {
    hide CString, Chosen, LastRPath, LastRunPath, Converted, WithNul, Leftover, Repointed;
    var at, r, i := es[Chosen(es)].val, SetPath(es, str, path, force), Deputy(es, force);
    ConvertedVals(es, force);
    HasPathEntry(es);
    RepointedChosen(Converted(es, force), LastRPath(es), LastRunPath(es), |str|);
    if i == LastRPath(es) || i == LastRunPath(es) {
      AppendedReads(BlankedPath(es, str), path);
    } else {
      SetMarks(es, str, path, force);
      LeftoverReads(str, at, es[i].val, path, r.str);
    }
  }

  lemma HasPathEntry(es: seq<Dyn>)
    requires Chosen(es) >= 0
    ensures LastRPath(es) >= 0 || LastRunPath(es) >= 0
  {
  }

  lemma AppendedReads(x: seq<Byte>, path: seq<Byte>)
    requires '\0' !in path
    ensures CString(x + WithNul(path), |x|) == path
  {
    hide CString, WithNul;
    NulBehind(path);
    CStringTail(x + WithNul(path), |x|, WithNul(path), path);
  }

  lemma NulBehind(path: seq<Byte>)
    ensures WithNul(path)[..|path|] == path && WithNul(path)[|path|] == '\0'
  {
  }

  lemma SetAdded(es: seq<Dyn>, str: seq<Byte>, path: seq<Byte>, force: bool)
    requires '\0' !in path && Chosen(es) < 0 && |path| > 0
    ensures var r := SetPath(es, str, path, force); PathOf(r.es, r.str) == Some(path)
  {
    var d := Dyn(if force then DT_RPATH else DT_RUNPATH, |str|);
    var r := [d] + es;
    LastTagIs(r, d.tag, 0);
    if force { LastTagNone(r, DT_RUNPATH); }
    AppendedReads(str, path);
  }

  // ----- what setting the path keeps -----

  predicate IsPathTag(tag: nat) {
    tag == DT_RPATH || tag == DT_RUNPATH || tag == DT_IGNORE
  }

  /** Every other entry is kept, in order; the path entries stay path entries, behind the new one if there is one. */
  lemma SetKeepsEntries(es: seq<Dyn>, str: seq<Byte>, path: seq<Byte>, force: bool, i: nat)
    requires (Chosen(es) >= 0 ==> Ends(str, es[Chosen(es)].val)) && i < |es|
    ensures var r := SetPath(es, str, path, force);
            var k := if r.added then i + 1 else i;
            && |r.es| == |es| + (if r.added then 1 else 0)
            && (!IsPathTag(es[i].tag) ==> r.es[k] == es[i])
            && (IsPathTag(es[i].tag) ==> IsPathTag(r.es[k].tag))
            && (r.added ==> IsPathTag(r.es[0].tag))
  {
    hide CString, WithNul, BlankedPath, LastTag, Splice, PathOf;
    RepointedChosen(Converted(es, force), LastRPath(es), LastRunPath(es), |str|);
  }

  /**
   * Every entry of the table once another path is set.  With no path entry before there is a new one in
   * front, DT_RPATH (15) if forced and else DT_RUNPATH (29), that names the end of the old strings.
   * Otherwise a lone DT_RPATH becomes DT_RUNPATH unless forced, a DT_RUNPATH beside a DT_RPATH is
   * made to be ignored if forced, a longer path is named by the last of either kind, and nothing else
   * changes.
   */
  lemma SetEntries(es: seq<Dyn>, str: seq<Byte>, path: seq<Byte>, force: bool, i: nat)
    requires (Chosen(es) >= 0 ==> Ends(str, es[Chosen(es)].val)) && path != Text(PathOf(es, str))
    ensures var r := SetPath(es, str, path, force);
            NoneWith(es, 15) && NoneWith(es, 29) ==> r.es == [Dyn(if force then 15 else 29, |str|)] + es
    ensures var r, longer := SetPath(es, str, path, force), |path| > |Text(PathOf(es, str))|;
            i < |es| && !(NoneWith(es, 15) && NoneWith(es, 29)) ==>
              && |r.es| == |es|
              && r.es[i].tag == (if !force && LastWith(es, 15, i) && NoneWith(es, 29) then 29
                                 else if force && LastWith(es, 29, i) && !NoneWith(es, 15) then 0x00726e67
                                 else es[i].tag)
              && r.es[i].val == if longer && (LastWith(es, 15, i) || LastWith(es, 29, i)) then |str| else es[i].val
  {
    hide CString, WithNul, BlankedPath, Splice, LastTag;
    LastIs(es, 15, i);
    LastIs(es, 29, i);
    var conv := Converted(es, force);
    if LastRPath(es) >= 0 || LastRunPath(es) >= 0 {
      RepointedChosen(conv, LastRPath(es), LastRunPath(es), |str|);
    }
  }

  lemma LastIs(es: seq<Dyn>, tag: nat, i: nat)
    ensures NoneWith(es, tag) <==> LastTag(es, tag, |es|) < 0
    ensures LastWith(es, tag, i) <==> LastTag(es, tag, |es|) == i
  {
    if LastWith(es, tag, i) {
      LastTagIs(es, tag, i);
    }
    if NoneWith(es, tag) {
      LastTagNone(es, tag);
    }
  }

  /**
   * What any string of the table reads afterwards, whether it shares bytes with the old path or not:
   * the same if the path stays or there was none, and else its leftover.
   */
  lemma SetStringsRead(es: seq<Dyn>, str: seq<Byte>, path: seq<Byte>, force: bool, o: nat)
    requires (Chosen(es) >= 0 ==> Ends(str, es[Chosen(es)].val)) && Ends(str, o) && '\0' !in path
    ensures CString(SetPath(es, str, path, force).str, o)
         == if path == Text(PathOf(es, str)) || Chosen(es) < 0 then CString(str, o)
            else Leftover(str, es[Chosen(es)].val, o, path)
  {
    hide CString, Chosen, SetPath, Leftover, PathOf, MarkedByte;
    var r := SetPath(es, str, path, force);
    if path != Text(PathOf(es, str)) && Chosen(es) >= 0 {
      SetMarks(es, str, path, force);
      LeftoverReads(str, es[Chosen(es)].val, o, path, r.str);
    } else {
      SetAppends(es, str, path, force);
      CStringFrame(str, r.str, o);
    }
  }

  /** A change of path marks the string table, and may append to it. */
  lemma SetMarks(es: seq<Dyn>, str: seq<Byte>, path: seq<Byte>, force: bool)
    requires Chosen(es) >= 0 && Ends(str, es[Chosen(es)].val) && path != Text(PathOf(es, str))
    ensures Marked(str, es[Chosen(es)].val, path, SetPath(es, str, path, force).str)
  {
    hide CString, Chosen, LastRPath, LastRunPath, Converted, WithNul, Repointed, Blanked, Marked;
    var at := es[Chosen(es)].val;
    if |path| <= |CString(str, at)| {
      MarkedInPlace(str, at, path);
    } else {
      MarkedBlank(str, at, path);
    }
  }

  lemma MarkedInPlace(str: seq<Byte>, at: nat, path: seq<Byte>)
    requires Ends(str, at) && |path| <= |CString(str, at)|
    ensures Marked(str, at, path, Splice(Blanked(str, at), at, WithNul(path)))
  {
    hide CString, WithNul;
    var x := Blanked(str, at);
    var y := Splice(x, at, WithNul(path));
    assert str[at + |CString(str, at)|] == '\0';
    forall k | 0 <= k < |str| ensures y[k] == MarkedByte(str, at, |CString(str, at)|, path, k) {
      assert x[k] == if at <= k < at + |CString(str, at)| then 'X' else str[k];
    }
  }

  lemma MarkedBlank(str: seq<Byte>, at: nat, path: seq<Byte>)
    requires Ends(str, at) && |path| > |CString(str, at)|
    ensures Marked(str, at, path, Blanked(str, at) + WithNul(path))
  {
    hide CString, WithNul;
    var x := Blanked(str, at);
    forall k | 0 <= k < |str| ensures (x + WithNul(path))[k] == MarkedByte(str, at, |CString(str, at)|, path, k) {
      assert x[k] == if at <= k < at + |CString(str, at)| then 'X' else str[k];
    }
  }

  lemma SetAppends(es: seq<Dyn>, str: seq<Byte>, path: seq<Byte>, force: bool)
    requires Chosen(es) >= 0 ==> Ends(str, es[Chosen(es)].val) && path == Text(PathOf(es, str))
    ensures var r := SetPath(es, str, path, force); |str| <= |r.str| && r.str[..|str|] == str
  {
    hide CString, LastRPath, LastRunPath, Converted, WithNul, Repointed;
  }

  /** Every string that shares nothing with the old path reads the same. */
  lemma SetKeepsStrings(es: seq<Dyn>, str: seq<Byte>, path: seq<Byte>, force: bool, o: nat)
    requires (Chosen(es) >= 0 ==> Ends(str, es[Chosen(es)].val)) && Ends(str, o) && '\0' !in path
    requires Chosen(es) >= 0 ==> StringsApart(str, es[Chosen(es)].val, o)
    ensures CString(SetPath(es, str, path, force).str, o) == CString(str, o)
  {
    hide CString, SetPath, Chosen;
    SetStringsRead(es, str, path, force, o);
  }

  /** The old path is nowhere left: its bytes are overwritten whenever the path changes. */
  lemma SetBlanksOld(es: seq<Dyn>, str: seq<Byte>, path: seq<Byte>, force: bool, k: nat)
    requires Chosen(es) >= 0 && Ends(str, es[Chosen(es)].val) && path != Text(PathOf(es, str))
    requires var at := es[Chosen(es)].val; at <= k < at + |Text(PathOf(es, str))|
    ensures var r, at := SetPath(es, str, path, force), es[Chosen(es)].val;
            k < |r.str|
            && r.str[k] == if |path| > |Text(PathOf(es, str))| || k > at + |path| then 'X' else WithNul(path)[k - at]
  {
    hide CString, Chosen, SetPath, WithNul;
    SetMarks(es, str, path, force);
    assert SetPath(es, str, path, force).str[k]
        == MarkedByte(str, es[Chosen(es)].val, |Text(PathOf(es, str))|, path, k);
  }

  /** The forced case does go wrong: "/b" is stored, but DT_RPATH still says "/c". */
  lemma ForcedMisdirects(es: seq<Dyn>, str: seq<Byte>, path: seq<Byte>)
    requires es == [Dyn(DT_RPATH, 4), Dyn(DT_RUNPATH, 1)]
    requires str == ['\0', '/', 'a', '\0', '/', 'c', '\0'] && path == ['/', 'b']
    ensures PathStrings(es, str)
    ensures Text(PathOf(SetPath(es, str, path, true).es, SetPath(es, str, path, true).str)) != path
    ensures Text(PathOf(SetPath(es, str, path, false).es, SetPath(es, str, path, false).str)) == path
  {
    hide CString, SetPath, Deputy, Chosen, LastTag, LastRPath, LastRunPath, PathOf, PathStrings;
    ForcedTable(es, str);
    assert path[1] != ['/', 'a'][1] && path[1] != ['/', 'c'][1];
    SetReadsBack(es, str, path, true);
    SetReadsBack(es, str, path, false);
    if Misdirected(es, str, path, false) {
      MisdirectedIsForced(es, str, path, false);
    }
  }

  lemma ForcedTable(es: seq<Dyn>, str: seq<Byte>)
    requires es == [Dyn(DT_RPATH, 4), Dyn(DT_RUNPATH, 1)]
    requires str == ['\0', '/', 'a', '\0', '/', 'c', '\0']
    ensures PathStrings(es, str) && PathOf(es, str) == Some(['/', 'a'])
    ensures CString(str, 1) == ['/', 'a'] && CString(str, 4) == ['/', 'c']
    ensures LastRPath(es) == 0 && LastRunPath(es) == 1 && Chosen(es) == 1 && Deputy(es, true) == 0
  {
    hide CString, LastTag;
    assert str[1..3] == ['/', 'a'] && str[4..6] == ['/', 'c'];
    CStringIs(str, 1, ['/', 'a']);
    CStringIs(str, 4, ['/', 'c']);
    LastTagIs(es, DT_RPATH, 0);
    LastTagIs(es, DT_RUNPATH, 1);
    var r := es[1 := es[1].(tag := DT_IGNORE)];
    LastTagIs(r, DT_RPATH, 0);
    LastTagNone(r, DT_RUNPATH);
  }
}
