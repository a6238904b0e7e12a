/**
 * Shrinking the search path (patchelf.cc: concatToRPath, and the search in modifyRPath): which
 * directories are kept, and why every library is still found in the same place.
 */
module Shrink {
  import opened Bytes
  import opened Splitting

  type Path = seq<Byte>

  /** Whether a directory holds a library: the outcome of stat. */
  type Oracle = (Path, Path) -> bool

  // ----- splitting at colons -----

  const COLON: Byte := ':'

  /** The entries the search walks over; a final ':' starts no entry. */
  function Tokens(r: Path): (ts: seq<Path>)
    ensures r == [] <==> ts == []
  {
    Fields(r, COLON)
  }

  function Concat(acc: Path, p: Path): (r: Path)
    ensures acc == [] ==> r == p
  {
    (if acc != [] then acc + [COLON] else acc) + p
  }

  /** concatToRPath applied to one entry after the other. */
  function Join(ts: seq<Path>): Path {
    if ts == [] then [] else Concat(Join(ts[..|ts| - 1]), ts[|ts| - 1])
  }

  // ----- which entries are kept -----

  predicate Absolute(p: Path) {
    p != [] && p[0] == '/'
  }

  /** Index of the first absolute entry that holds the library, or the length. */
  function FirstAbsolute(ts: seq<Path>, lib: Path, holds: Oracle): (k: nat)
    ensures k <= |ts| && (k < |ts| ==> Absolute(ts[k]) && holds(ts[k], lib))
    ensures forall j :: 0 <= j < k ==> !(Absolute(ts[j]) && holds(ts[j], lib))
    decreases |ts|
  {
    if ts == [] then 0
    else if Absolute(ts[0]) && holds(ts[0], lib) then 0
    else
      var k := FirstAbsolute(ts[1..], lib, holds);
      assert forall j :: 1 <= j < k + 1 ==> ts[j] == ts[1..][j - 1];
      k + 1
  }

  /** An entry stays if it is relative or the first absolute one to hold some needed library. */
  predicate Keeps(ts: seq<Path>, needed: seq<Path>, holds: Oracle, i: nat)
    requires i < |ts|
  {
    !Absolute(ts[i]) || exists j :: 0 <= j < |needed| && FirstAbsolute(ts, needed[j], holds) == i
  }

  /** The entries kept among the first n. */
  function Kept(ts: seq<Path>, needed: seq<Path>, holds: Oracle, n: nat): seq<Path>
    requires n <= |ts|
  {
    if n == 0 then []
    else Kept(ts, needed, holds, n - 1) + (if Keeps(ts, needed, holds, n - 1) then [ts[n - 1]] else [])
  }

  function Shrunk(r: Path, needed: seq<Path>, holds: Oracle): Path {
    Join(Kept(Tokens(r), needed, holds, |Tokens(r)|))
  }

  // ----- the search itself -----

  /** The libraries held by one of the first n entries that are absolute. */
  ghost predicate FoundSoFar(ts: seq<Path>, needed: seq<Path>, holds: Oracle, n: nat, found: seq<bool>) {
    && n <= |ts| && |found| == |needed|
    && forall j :: 0 <= j < |found| ==> (found[j] <==> FirstAbsolute(ts, needed[j], holds) < n)
  }

  /** One absolute directory: marks what it holds among the libraries not found yet. */
  method SearchDir(dir: Path, needed: seq<Path>, holds: Oracle, found: seq<bool>) returns (now: seq<bool>, any: bool)
    requires |found| == |needed|
    ensures |now| == |found|
    ensures forall j :: 0 <= j < |found| ==> now[j] == (found[j] || holds(dir, needed[j]))
    ensures any <==> exists j :: 0 <= j < |found| && !found[j] && holds(dir, needed[j])
  {
    now, any := found, false;
    var j := 0;
    while j < |needed|
      invariant j <= |needed| == |now|
      invariant forall i :: 0 <= i < |now| ==> now[i] == (found[i] || (i < j && holds(dir, needed[i])))
      invariant any <==> exists i :: 0 <= i < j && !found[i] && holds(dir, needed[i])
    {
      if !now[j] {
        if holds(dir, needed[j]) {
          now := now[j := true];
          any := true;
        }
      }
      j := j + 1;
    }
  }

  /** The loop over the path. */
  method ShrinkPath(rpath: Path, needed: seq<Path>, holds: Oracle) returns (path: Path)
    ensures path == Shrunk(rpath, needed, holds)
  {
    ghost var ts := Tokens(rpath);
    ghost var i := 0;
    path := [];
    var found := seq(|needed|, _ => false);
    var rest := rpath;
    while rest != []
      invariant i <= |ts| && ts[i..] == Tokens(rest)
      invariant FoundSoFar(ts, needed, holds, i, found)
      invariant path == Join(Kept(ts, needed, holds, i))
      decreases |rest|
    {
      var end := Index(rest, COLON, 0);
      var dir := rest[..end];
      rest := Behind(rest, end);
      assert ts[i] == ts[i..][0] == dir && ts[i + 1..] == ts[i..][1..] == Tokens(rest);
      KeptStep(ts, needed, holds, i);
      FoundStep(ts, needed, holds, i, found);
      if !Absolute(dir) {
        path := Concat(path, dir);
      } else {
        var any;
        found, any := SearchDir(dir, needed, holds, found);
        if any {
          path := Concat(path, dir);
        }
      }
      i := i + 1;
    }
  }

  lemma KeptStep(ts: seq<Path>, needed: seq<Path>, holds: Oracle, i: nat)
    requires i < |ts|
    ensures Join(Kept(ts, needed, holds, i + 1))
         == if Keeps(ts, needed, holds, i) then Concat(Join(Kept(ts, needed, holds, i)), ts[i])
            else Join(Kept(ts, needed, holds, i))
  {
    var k := Kept(ts, needed, holds, i);
    assert (k + [ts[i]])[..|k|] == k && k + [] == k;
  }

  lemma FoundStep(ts: seq<Path>, needed: seq<Path>, holds: Oracle, i: nat, found: seq<bool>)
    requires i < |ts| && FoundSoFar(ts, needed, holds, i, found)
    ensures !Absolute(ts[i]) ==> FoundSoFar(ts, needed, holds, i + 1, found)
    ensures Absolute(ts[i]) ==>
      && (Keeps(ts, needed, holds, i) <==> exists j :: 0 <= j < |found| && !found[j] && holds(ts[i], needed[j]))
      && forall j :: 0 <= j < |found| ==>
           ((found[j] || holds(ts[i], needed[j])) <==> FirstAbsolute(ts, needed[j], holds) < i + 1)
  {
    forall j | 0 <= j < |found|
      ensures FirstAbsolute(ts, needed[j], holds) == i <==> Absolute(ts[i]) && !found[j] && holds(ts[i], needed[j])
    {
      var k := FirstAbsolute(ts, needed[j], holds);
      assert found[j] <==> k < i;
    }
    if Absolute(ts[i]) && Keeps(ts, needed, holds, i) {
      var j :| 0 <= j < |needed| && FirstAbsolute(ts, needed[j], holds) == i;
      assert !found[j] && holds(ts[i], needed[j]);
    }
    forall j | 0 <= j < |found| && Absolute(ts[i]) && !found[j] && holds(ts[i], needed[j])
      ensures Keeps(ts, needed, holds, i)
    {
      assert FirstAbsolute(ts, needed[j], holds) == i;
    }
  }

  // ----- what shrinking keeps -----

  /** The first entry, absolute or relative, in which a library is found. */
  function FirstHolder(ts: seq<Path>, lib: Path, holds: Oracle): (r: seq<Path>)
    ensures |r| <= 1
    decreases |ts|
  {
    if ts == [] then [] else if holds(ts[0], lib) then [ts[0]] else FirstHolder(ts[1..], lib, holds)
  }

  lemma {:induction false} FirstHolderSnoc(ts: seq<Path>, t: Path, lib: Path, holds: Oracle)
    ensures FirstHolder(ts + [t], lib, holds)
         == if FirstHolder(ts, lib, holds) != [] then FirstHolder(ts, lib, holds) else if holds(t, lib) then [t] else []
    decreases |ts|
  {
    if ts == [] {
      assert ([] + [t])[1..] == [];
    } else {
      assert (ts + [t])[1..] == ts[1..] + [t];
      FirstHolderSnoc(ts[1..], t, lib, holds);
    }
  }

  /** An absolute entry that holds a library comes at or after an earlier holder. */
  lemma {:induction false} HolderBefore(ts: seq<Path>, n: nat, lib: Path, holds: Oracle)
    requires n <= |ts| && FirstAbsolute(ts, lib, holds) < n
    ensures FirstHolder(ts[..n], lib, holds) != []
    decreases n
  {
    assert ts[..n] == ts[..n - 1] + [ts[n - 1]];
    FirstHolderSnoc(ts[..n - 1], ts[n - 1], lib, holds);
    if FirstAbsolute(ts, lib, holds) < n - 1 {
      HolderBefore(ts, n - 1, lib, holds);
    }
  }

  lemma {:induction false} KeptHolder(ts: seq<Path>, needed: seq<Path>, holds: Oracle, n: nat, lib: Path)
    requires n <= |ts| && lib in needed
    ensures FirstHolder(Kept(ts, needed, holds, n), lib, holds) == FirstHolder(ts[..n], lib, holds)
    decreases n
  {
    if n > 0 {
      var t := ts[n - 1];
      KeptHolder(ts, needed, holds, n - 1, lib);
      assert ts[..n] == ts[..n - 1] + [t];
      FirstHolderSnoc(ts[..n - 1], t, lib, holds);
      var k := Kept(ts, needed, holds, n - 1);
      FirstHolderSnoc(k, t, lib, holds);
      assert k + [] == k;
      if !Keeps(ts, needed, holds, n - 1) && holds(t, lib) {
        var j :| 0 <= j < |needed| && needed[j] == lib;
        assert FirstAbsolute(ts, needed[j], holds) != n - 1;
        HolderBefore(ts, n - 1, lib, holds);
      }
    }
  }

  /** Lookup: every needed library is found in the same entry, or in none, as before. */
  lemma ShrinkKeepsLookup(ts: seq<Path>, needed: seq<Path>, holds: Oracle, lib: Path)
    requires lib in needed
    ensures FirstHolder(Kept(ts, needed, holds, |ts|), lib, holds) == FirstHolder(ts, lib, holds)
  {
    KeptHolder(ts, needed, holds, |ts|, lib);
    assert ts[..|ts|] == ts;
  }

  /** The last kept entry, taken off again. */
  lemma KeptLast(ts: seq<Path>, needed: seq<Path>, holds: Oracle, n: nat)
    requires 0 < n <= |ts|
    ensures var a, b := Kept(ts, needed, holds, n), Kept(ts, needed, holds, n - 1);
            if Keeps(ts, needed, holds, n - 1) then |a| == |b| + 1 && a[..|b|] == b && a[|b|] == ts[n - 1] else a == b
  {
    var b := Kept(ts, needed, holds, n - 1);
    assert (b + [ts[n - 1]])[..|b|] == b && b + [] == b;
  }

  /** Relative entries stay, all of them and in order. */
  function Relatives(ts: seq<Path>): seq<Path> {
    if ts == [] then []
    else Relatives(ts[..|ts| - 1]) + (if Absolute(ts[|ts| - 1]) then [] else [ts[|ts| - 1]])
  }

  lemma {:induction false} RelativesKept(ts: seq<Path>, needed: seq<Path>, holds: Oracle, n: nat)
    requires n <= |ts|
    ensures Relatives(Kept(ts, needed, holds, n)) == Relatives(ts[..n])
    decreases n
  {
    if n > 0 {
      RelativesKept(ts, needed, holds, n - 1);
      assert ts[..n][..n - 1] == ts[..n - 1];
      KeptLast(ts, needed, holds, n);
    }
  }

  /** Filling the list of needed libraries twice, or in another order, keeps the same entries. */
  lemma {:induction false} SameNeeded(ts: seq<Path>, a: seq<Path>, b: seq<Path>, holds: Oracle, n: nat)
    requires n <= |ts| && (forall x :: x in a <==> x in b)
    ensures Kept(ts, a, holds, n) == Kept(ts, b, holds, n)
    decreases n
  {
    if n > 0 {
      SameNeeded(ts, a, b, holds, n - 1);
      KeepsSame(ts, a, b, holds, n - 1);
      KeepsSame(ts, b, a, holds, n - 1);
    }
  }

  lemma KeepsSame(ts: seq<Path>, a: seq<Path>, b: seq<Path>, holds: Oracle, i: nat)
    requires i < |ts| && forall x :: x in a ==> x in b
    ensures Keeps(ts, a, holds, i) ==> Keeps(ts, b, holds, i)
  {
    if Absolute(ts[i]) && Keeps(ts, a, holds, i) {
      var j :| 0 <= j < |a| && FirstAbsolute(ts, a[j], holds) == i;
      assert a[j] in b;
      var k :| 0 <= k < |b| && b[k] == a[j];
      assert FirstAbsolute(ts, b[k], holds) == i;
    }
  }

  /** A preceding print has put every needed library into the list once already. */
  lemma NeededTwice(r: Path, needed: seq<Path>, holds: Oracle)
    ensures Shrunk(r, needed + needed, holds) == Shrunk(r, needed, holds)
  {
    SameNeeded(Tokens(r), needed + needed, needed, holds, |Tokens(r)|);
  }

  // ----- nothing superfluous is kept -----

  /** The absolute entries among these. */
  function Absolutes(ts: seq<Path>): seq<Path> {
    if ts == [] then []
    else Absolutes(ts[..|ts| - 1]) + (if Absolute(ts[|ts| - 1]) then [ts[|ts| - 1]] else [])
  }

  /** The libraries whose first absolute holder is one of the first n entries. */
  function FoundLibs(ts: seq<Path>, needed: seq<Path>, holds: Oracle, n: nat): set<Path> {
    set lib | lib in needed && FirstAbsolute(ts, lib, holds) < n
  }

  /**
   * Every kept absolute entry is needed for a library of its own, so there are no more of them than
   * libraries found.
   */
  lemma {:induction false} KeptAbsolutesFew(ts: seq<Path>, needed: seq<Path>, holds: Oracle, n: nat)
    requires n <= |ts|
    ensures |Absolutes(Kept(ts, needed, holds, n))| <= |FoundLibs(ts, needed, holds, n)|
    decreases n
  {
    if n > 0 {
      var t := ts[n - 1];
      KeptAbsolutesFew(ts, needed, holds, n - 1);
      KeptLast(ts, needed, holds, n);
      var a, b := FoundLibs(ts, needed, holds, n - 1), FoundLibs(ts, needed, holds, n);
      assert a <= b;
      Smaller(a, b);
      if Keeps(ts, needed, holds, n - 1) && Absolute(t) {
        var j :| 0 <= j < |needed| && FirstAbsolute(ts, needed[j], holds) == n - 1;
        assert needed[j] in b && needed[j] !in a;
        Smaller(a + {needed[j]}, b);
      }
    }
  }

  lemma {:induction false} Smaller<T>(a: set<T>, b: set<T>)
    requires a <= b
    ensures |a| <= |b|
    decreases |a|
  {
    if a != {} {
      var x :| x in a;
      Smaller(a - {x}, b - {x});
    }
  }

  lemma {:induction false} LibsFew(ts: seq<Path>, needed: seq<Path>, holds: Oracle, n: nat)
    ensures |FoundLibs(ts, needed, holds, n)| <= |needed|
    decreases |needed|
  {
    var all := set lib | lib in needed;
    Smaller(FoundLibs(ts, needed, holds, n), all);
    SetOfSeq(needed);
  }

  lemma {:induction false} SetOfSeq(s: seq<Path>)
    ensures |set x | x in s| <= |s|
    decreases |s|
  {
    if s != [] {
      var a, b := set x | x in s, set x | x in s[1..];
      SetOfSeq(s[1..]);
      assert a == b + {s[0]};
    } else {
      assert (set x | x in s) == {};
    }
  }

  /** No more absolute entries are kept than there are needed libraries. */
  lemma ShrinkIsMinimal(ts: seq<Path>, needed: seq<Path>, holds: Oracle)
    ensures |Absolutes(Kept(ts, needed, holds, |ts|))| <= |needed|
  {
    KeptAbsolutesFew(ts, needed, holds, |ts|);
    LibsFew(ts, needed, holds, |ts|);
  }

  /** Each kept absolute entry is where some needed library is first found among absolute entries. */
  lemma {:induction false} KeptIsFirst(ts: seq<Path>, needed: seq<Path>, holds: Oracle, n: nat, p: Path)
    requires n <= |ts| && p in Kept(ts, needed, holds, n) && Absolute(p)
    ensures exists j :: 0 <= j < |needed| && FirstAbsolute(ts, needed[j], holds) < n
                        && ts[FirstAbsolute(ts, needed[j], holds)] == p
    decreases n
  {
    if p in Kept(ts, needed, holds, n - 1) {
      KeptIsFirst(ts, needed, holds, n - 1, p);
      var j :| 0 <= j < |needed| && FirstAbsolute(ts, needed[j], holds) < n - 1
               && ts[FirstAbsolute(ts, needed[j], holds)] == p;
      assert FirstAbsolute(ts, needed[j], holds) < n;
    } else {
      assert Keeps(ts, needed, holds, n - 1) && p == ts[n - 1];
      var j :| 0 <= j < |needed| && FirstAbsolute(ts, needed[j], holds) == n - 1;
    }
  }

  // ----- splitting undoes joining -----

  function DropLeading(ts: seq<Path>): seq<Path> {
    if ts != [] && ts[0] == [] then DropLeading(ts[1..]) else ts
  }

  ghost predicate ColonFree(ts: seq<Path>) {
    Without(ts, COLON)
  }

  lemma {:induction false} DropLeadingSnoc(ts: seq<Path>, t: Path)
    ensures DropLeading(ts + [t]) == if DropLeading(ts) != [] then DropLeading(ts) + [t] else DropLeading([t])
    decreases |ts|
  {
    if ts == [] {
      assert ts + [t] == [t];
    } else if ts[0] == [] {
      assert (ts + [t])[1..] == ts[1..] + [t];
      DropLeadingSnoc(ts[1..], t);
    }
  }

  /** The fields of a joined path are the entries behind any leading empty ones. */
  lemma {:induction false} SplitJoin(ts: seq<Path>)
    requires ColonFree(ts)
    ensures (Join(ts) == []) == (DropLeading(ts) == [])
    ensures Join(ts) != [] ==> Split(Join(ts), COLON) == DropLeading(ts)
    decreases |ts|
  {
    if ts != [] {
      var a, t := ts[..|ts| - 1], ts[|ts| - 1];
      assert ts == a + [t];
      SplitJoin(a);
      DropLeadingSnoc(a, t);
      if Join(a) == [] {
        assert Join(ts) == t;
        SplitOne(t, COLON);
        assert DropLeading([t]) == if t == [] then [] else [t];
      } else {
        SplitConcat(Join(a), COLON, t);
        SplitOne(t, COLON);
      }
    }
  }

  /** Exactly what is lost when a path is joined and split again: leading empty entries and a final one. */
  lemma TokensOfJoin(ts: seq<Path>)
    requires ColonFree(ts)
    ensures Tokens(Join(ts)) == DropLast(DropLeading(ts))
  {
    SplitJoin(ts);
    FieldsAreSplit(Join(ts), COLON);
  }

  /** So splitting inverts joining exactly on lists that neither start nor end with an empty entry. */
  lemma TokensInvertJoin(ts: seq<Path>)
    requires ColonFree(ts)
    ensures Tokens(Join(ts)) == ts <==> ts == [] || (ts[0] != [] && ts[|ts| - 1] != [])
  {
    hide Tokens, Join;
    TokensOfJoin(ts);
    DropLeadingShorter(ts);
    DropLastShorter(DropLeading(ts));
  }

  lemma DropLastShorter(ts: seq<Path>)
    ensures |DropLast(ts)| <= |ts| && (DropLast(ts) == ts <==> ts == [] || ts[|ts| - 1] != [])
    ensures DropLast(ts) != ts ==> |DropLast(ts)| < |ts|
  {
  }

  lemma {:induction false} DropLeadingShorter(ts: seq<Path>)
    ensures |DropLeading(ts)| <= |ts| && (ts != [] && ts[0] == [] ==> |DropLeading(ts)| < |ts|)
    decreases |ts|
  {
    if ts != [] && ts[0] == [] {
      DropLeadingShorter(ts[1..]);
    }
  }

  lemma {:induction false} KeptIsFrom(ts: seq<Path>, needed: seq<Path>, holds: Oracle, n: nat, p: Path)
    requires n <= |ts| && p in Kept(ts, needed, holds, n)
    ensures exists i :: 0 <= i < n && ts[i] == p
    decreases n
  {
    if p in Kept(ts, needed, holds, n - 1) {
      KeptIsFrom(ts, needed, holds, n - 1, p);
    }
  }

  lemma KeptColonFree(r: Path, needed: seq<Path>, holds: Oracle)
    ensures ColonFree(Kept(Tokens(r), needed, holds, |Tokens(r)|))
  {
    var ts := Tokens(r);
    var ks := Kept(ts, needed, holds, |ts|);
    FieldsWithout(r, COLON);
    forall i | 0 <= i < |ks| ensures ':' !in ks[i] {
      KeptIsFrom(ts, needed, holds, |ts|, ks[i]);
    }
  }

  // ----- the same on whole paths -----

  /** Position of the first entry that holds the library, or the length. */
  ghost function HolderIndex(ts: seq<Path>, lib: Path, holds: Oracle): (k: nat)
    ensures k <= |ts| && (k < |ts| ==> holds(ts[k], lib)) && forall j :: 0 <= j < k ==> !holds(ts[j], lib)
    ensures FirstHolder(ts, lib, holds) == if k < |ts| then [ts[k]] else []
    decreases |ts|
  {
    if ts == [] || holds(ts[0], lib) then 0
    else
      var k := HolderIndex(ts[1..], lib, holds);
      assert forall j :: 1 <= j < k + 1 ==> ts[j] == ts[1..][j - 1];
      k + 1
  }

  lemma HolderIs(ts: seq<Path>, lib: Path, holds: Oracle, k: nat)
    requires k < |ts| && holds(ts[k], lib) && forall j :: 0 <= j < k ==> !holds(ts[j], lib)
    ensures FirstHolder(ts, lib, holds) == [ts[k]]
  {
    assert HolderIndex(ts, lib, holds) == k;
  }

  /** The first n entries are empty, and no more. */
  ghost predicate Leading(ts: seq<Path>, n: nat) {
    n <= |ts| && (n < |ts| ==> ts[n] != []) && forall j :: 0 <= j < n ==> ts[j] == []
  }

  lemma {:induction false} DropLeadingIs(ts: seq<Path>) returns (n: nat)
    ensures Leading(ts, n) && DropLeading(ts) == ts[n..]
    decreases |ts|
  {
    n := 0;
    if ts != [] && ts[0] == [] {
      var rest := ts[1..];
      var m := DropLeadingIs(rest);
      n := m + 1;
      assert forall j :: 1 <= j < |ts| ==> ts[j] == rest[j - 1];
      assert rest[m..] == ts[n..];
    }
  }

  /**
   * Entry i is empty and colons keep it: a proper entry comes before it and some entry behind it.
   * It is where the library is found, as far as the proper entries before it go.
   */
  ghost predicate Survives(ts: seq<Path>, lib: Path, holds: Oracle, i: nat) {
    && i + 1 < |ts| && ts[i] == [] && (exists j :: 0 <= j < i && ts[j] != [])
    && forall j :: 0 <= j < i && ts[j] != [] ==> !holds(ts[j], lib)
  }

  /** An entry that is left once a list has been joined and split. */
  lemma TrimmedEntry(ts: seq<Path>, lead: nat, i: nat)
    requires lead <= i < |ts| && (i + 1 < |ts| || ts[i] != [])
    ensures var d := DropLast(ts[lead..]); i - lead < |d| && forall j :: 0 <= j <= i - lead ==> d[j] == ts[lead + j]
  {
  }

  /** A proper first holder is not trimmed, and nothing comes to hold the library that did not. */
  lemma ProperHolderStays(ts: seq<Path>, lib: Path, holds: Oracle)
    requires FirstHolder(ts, lib, holds) != [[]]
    ensures FirstHolder(DropLast(DropLeading(ts)), lib, holds) == FirstHolder(ts, lib, holds)
  {
    hide DropLeading, FirstHolder, HolderIndex;
    var lead := DropLeadingIs(ts);
    var k, d := HolderIndex(ts, lib, holds), DropLast(ts[lead..]);
    if k < |ts| {
      assert ts[k] != [];
      TrimmedEntry(ts, lead, k);
      HolderIs(d, lib, holds, k - lead);
    } else {
      assert forall j :: 0 <= j < |d| ==> d[j] == ts[lead + j];
      var x := HolderIndex(d, lib, holds);
    }
  }

  lemma EmptyHolderStays(ts: seq<Path>, lib: Path, holds: Oracle, i: nat)
    requires holds([], lib) && Survives(ts, lib, holds, i)
    ensures FirstHolder(DropLast(DropLeading(ts)), lib, holds) == [[]]
  {
    hide DropLeading, FirstHolder, HolderIndex;
    var lead := DropLeadingIs(ts);
    var d := DropLast(ts[lead..]);
    TrimmedEntry(ts, lead, i);
    var x := HolderIndex(d, lib, holds);
    assert d[i - lead] == [];
    if x < i - lead { assert d[x] == ts[lead + x]; }
  }

  lemma EmptyHolderSurvived(ts: seq<Path>, lib: Path, holds: Oracle) returns (i: nat)
    requires FirstHolder(DropLast(DropLeading(ts)), lib, holds) == [[]]
    ensures Survives(ts, lib, holds, i)
  {
    hide DropLeading, FirstHolder, HolderIndex;
    var lead := DropLeadingIs(ts);
    var d := DropLast(ts[lead..]);
    var x := HolderIndex(d, lib, holds);
    i := lead + x;
    assert forall j :: 0 <= j < |d| ==> d[j] == ts[lead + j];
    assert ts[lead] != [] && x > 0;
    forall j | 0 <= j < i && ts[j] != [] ensures !holds(ts[j], lib) {
      assert ts[j] == d[j - lead];
    }
  }

  /** Joining and splitting keeps a first holder unless it is an empty entry of which no other survives. */
  lemma TrimmedLookup(ts: seq<Path>, lib: Path, holds: Oracle)
    ensures FirstHolder(DropLast(DropLeading(ts)), lib, holds) == FirstHolder(ts, lib, holds)
        <==> FirstHolder(ts, lib, holds) != [[]] || exists i: nat :: Survives(ts, lib, holds, i)
  {
    hide DropLast, DropLeading, Survives, FirstHolder;
    var k := HolderIndex(ts, lib, holds);
    if FirstHolder(ts, lib, holds) != [[]] {
      ProperHolderStays(ts, lib, holds);
    } else if i: nat :| Survives(ts, lib, holds, i) {
      assert [ts[k]] == [[]] && ts[k] == [ts[k]][0];
      EmptyHolderStays(ts, lib, holds, i);
    } else if FirstHolder(DropLast(DropLeading(ts)), lib, holds) == [[]] {
      var i := EmptyHolderSurvived(ts, lib, holds);
    }
  }

  /** The library is found in a proper entry, or nowhere, or an empty entry survives that is as good. */
  ghost predicate LookupSurvives(r: Path, needed: seq<Path>, holds: Oracle, lib: Path) {
    var ts := Tokens(r);
    FirstHolder(ts, lib, holds) != [[]]
    || exists i: nat :: Survives(Kept(ts, needed, holds, |ts|), lib, holds, i)
  }

  /**
   * Reading the shrunk path finds a needed library where reading the old one did, if and only if
   * that was not an empty entry of which none survives.
   */
  lemma ShrunkKeepsLookup(r: Path, needed: seq<Path>, holds: Oracle, lib: Path)
    requires lib in needed
    ensures FirstHolder(Tokens(Shrunk(r, needed, holds)), lib, holds) == FirstHolder(Tokens(r), lib, holds)
        <==> LookupSurvives(r, needed, holds, lib)
  {
    hide Tokens, Kept, Join, DropLast, DropLeading, Survives;
    var ts := Tokens(r);
    var ks := Kept(ts, needed, holds, |ts|);
    KeptColonFree(r, needed, holds);
    TokensOfJoin(ks);
    ShrinkKeepsLookup(ts, needed, holds, lib);
    TrimmedLookup(ks, lib, holds);
  }

  lemma NoEmpty(ts: seq<Path>, needed: seq<Path>, holds: Oracle, ks: seq<Path>)
    requires [] !in ts && ks == Kept(ts, needed, holds, |ts|)
    ensures DropLeading(ks) == ks && DropLast(ks) == ks
  {
    forall i | 0 <= i < |ks| ensures ks[i] != [] {
      KeptIsFrom(ts, needed, holds, |ts|, ks[i]);
    }
  }

  /** An empty entry that holds a library is lost: ":/a" shrinks to a path that does not have it. */
  lemma EmptyEntryLost(lib: Path, holds: Oracle)
    requires holds([], lib)
    ensures FirstHolder(Tokens([':', '/', 'a']), lib, holds) == [[]]
    ensures [] !in Tokens(Shrunk([':', '/', 'a'], [lib], holds))
  {
    hide Join, Absolute, Keeps;
    var r: Path := [':', '/', 'a'];
    var t: Path := ['/', 'a'];
    ColonAndA(r, t);
    KeptColonFree(r, [lib], holds);
    var ks := Kept(Tokens(r), [lib], holds, 2);
    KeptLast(Tokens(r), [lib], holds, 2);
    KeptLast(Tokens(r), [lib], holds, 1);
    assert ks == [] || ks == [[]] || ks == [t] || ks == [[], t];
    TokensOfJoin(ks);
  }

  lemma ColonAndA(r: Path, t: Path)
    requires r == [':', '/', 'a'] && t == ['/', 'a']
    ensures Tokens(r) == [[], t]
  {
    IndexIs(r, COLON, 0);
    IndexIs(t, COLON, 2);
    assert r[1..] == t && t[..2] == t;
    assert Fields(t, COLON) == [t];
  }

  // ----- shrinking never makes a path longer -----

  /** Length of the entries with a colon each. */
  function Weight(ts: seq<Path>): nat {
    if ts == [] then 0 else Weight(ts[..|ts| - 1]) + |ts[|ts| - 1]| + 1
  }

  lemma {:induction false} WeightCons(t: Path, ts: seq<Path>)
    ensures Weight([t] + ts) == |t| + 1 + Weight(ts)
    decreases |ts|
  {
    var x := [t] + ts;
    if ts == [] {
      assert x[..|x| - 1] == ts;
    } else {
      WeightCons(t, ts[..|ts| - 1]);
      assert x[..|x| - 1] == [t] + ts[..|ts| - 1];
    }
  }

  lemma {:induction false} JoinWeight(ts: seq<Path>)
    ensures |Join(ts)| <= if ts == [] then 0 else Weight(ts) - 1
    decreases |ts|
  {
    if ts != [] {
      JoinWeight(ts[..|ts| - 1]);
    }
  }

  lemma {:induction false} KeptWeight(ts: seq<Path>, needed: seq<Path>, holds: Oracle, n: nat)
    requires n <= |ts|
    ensures Weight(Kept(ts, needed, holds, n)) <= Weight(ts[..n])
    decreases n
  {
    if n > 0 {
      KeptWeight(ts, needed, holds, n - 1);
      KeptLast(ts, needed, holds, n);
      assert ts[..n][..n - 1] == ts[..n - 1];
    }
  }

  lemma {:induction false} TokensWeight(r: Path)
    ensures Weight(Tokens(r)) <= |r| + 1
    decreases |r|
  {
    if r != [] {
      var k := Index(r, COLON, 0);
      TokensWeight(Behind(r, k));
      WeightCons(r[..k], Tokens(Behind(r, k)));
    }
  }

  /** So a shrunk path always fits in place of the old one. */
  lemma ShrunkNoLonger(r: Path, needed: seq<Path>, holds: Oracle)
    ensures |Shrunk(r, needed, holds)| <= |r|
  {
    var ts := Tokens(r);
    TokensWeight(r);
    KeptWeight(ts, needed, holds, |ts|);
    assert ts[..|ts|] == ts;
    JoinWeight(Kept(ts, needed, holds, |ts|));
  }

  lemma {:induction false} FieldsFrom(r: Path, c: Byte)
    requires c !in r
    ensures forall i :: 0 <= i < |Tokens(r)| ==> c !in Tokens(r)[i]
    decreases |r|
  {
    if r != [] {
      var k := Index(r, COLON, 0);
      var ts := Tokens(Behind(r, k));
      FieldsFrom(Behind(r, k), c);
      forall i | 0 <= i < |Tokens(r)| ensures c !in Tokens(r)[i] {
        assert Tokens(r)[i] == if i == 0 then r[..k] else ts[i - 1];
      }
    }
  }

  lemma {:induction false} JoinFrom(ts: seq<Path>, c: Byte)
    requires c != COLON && forall i :: 0 <= i < |ts| ==> c !in ts[i]
    ensures c !in Join(ts)
    decreases |ts|
  {
    if ts != [] {
      JoinFrom(ts[..|ts| - 1], c);
    }
  }

  /** Nor does it have a byte, other than colons, that the old one had not. */
  lemma ShrunkFrom(r: Path, needed: seq<Path>, holds: Oracle, c: Byte)
    requires c !in r && c != COLON
    ensures c !in Shrunk(r, needed, holds)
  {
    var ts := Tokens(r);
    var ks := Kept(ts, needed, holds, |ts|);
    FieldsFrom(r, c);
    forall i | 0 <= i < |ks| ensures c !in ks[i] {
      KeptIsFrom(ts, needed, holds, |ts|, ks[i]);
    }
    JoinFrom(ks, c);
  }

  // ----- shrinking again -----

  /** Every entry is kept. */
  ghost predicate Stable(ts: seq<Path>, needed: seq<Path>, holds: Oracle) {
    forall i :: 0 <= i < |ts| ==> Keeps(ts, needed, holds, i)
  }

  lemma {:induction false} StableKept(ts: seq<Path>, needed: seq<Path>, holds: Oracle, n: nat)
    requires Stable(ts, needed, holds) && n <= |ts|
    ensures Kept(ts, needed, holds, n) == ts[..n]
    decreases n
  {
    if n > 0 {
      StableKept(ts, needed, holds, n - 1);
    }
  }

  lemma FirstAbsoluteIs(ts: seq<Path>, lib: Path, holds: Oracle, k: nat)
    requires k < |ts| && Absolute(ts[k]) && holds(ts[k], lib)
    requires forall j :: 0 <= j < k ==> !(Absolute(ts[j]) && holds(ts[j], lib))
    ensures FirstAbsolute(ts, lib, holds) == k
  {
  }

  /** What is kept is kept again. */
  lemma {:induction false} KeptIsStable(ts: seq<Path>, needed: seq<Path>, holds: Oracle, n: nat)
    requires n <= |ts|
    ensures Stable(Kept(ts, needed, holds, n), needed, holds)
    decreases n
  {
    if n > 0 {
      KeptIsStable(ts, needed, holds, n - 1);
      KeptLast(ts, needed, holds, n);
      if Keeps(ts, needed, holds, n - 1) {
        StableSnoc(ts, needed, holds, n);
      }
    }
  }

  lemma StableSnoc(ts: seq<Path>, needed: seq<Path>, holds: Oracle, n: nat)
    requires 0 < n <= |ts| && Keeps(ts, needed, holds, n - 1) && Stable(Kept(ts, needed, holds, n - 1), needed, holds)
    ensures Stable(Kept(ts, needed, holds, n), needed, holds)
  {
    var b, a := Kept(ts, needed, holds, n - 1), Kept(ts, needed, holds, n);
    KeptLast(ts, needed, holds, n);
    forall i | 0 <= i < |a| ensures Keeps(a, needed, holds, i) {
      assert i < |b| ==> a[i] == b[i];
      if i < |b| && Absolute(b[i]) {
        assert Keeps(b, needed, holds, i);
        var j :| 0 <= j < |needed| && FirstAbsolute(b, needed[j], holds) == i;
        FirstAbsoluteIs(a, needed[j], holds, i);
      } else if i == |b| && Absolute(a[i]) {
        var j :| 0 <= j < |needed| && FirstAbsolute(ts, needed[j], holds) == n - 1;
        forall x | 0 <= x < i ensures !(Absolute(a[x]) && holds(a[x], needed[j])) {
          KeptIsFrom(ts, needed, holds, n - 1, b[x]);
        }
        FirstAbsoluteIs(a, needed[j], holds, i);
      }
    }
  }

  /** Dropping relative entries at the ends does not matter. */
  lemma StableSlice(ts: seq<Path>, needed: seq<Path>, holds: Oracle, lo: nat, hi: nat)
    requires Stable(ts, needed, holds) && lo <= hi <= |ts| && forall i :: 0 <= i < lo ==> !Absolute(ts[i])
    ensures Stable(ts[lo..hi], needed, holds)
  {
    var s := ts[lo..hi];
    forall i | 0 <= i < |s| ensures Keeps(s, needed, holds, i) {
      assert s[i] == ts[lo + i] && Keeps(ts, needed, holds, lo + i);
      if Absolute(s[i]) {
        var j :| 0 <= j < |needed| && FirstAbsolute(ts, needed[j], holds) == lo + i;
        forall x | 0 <= x < i ensures !(Absolute(s[x]) && holds(s[x], needed[j])) {
          assert s[x] == ts[lo + x];
        }
        FirstAbsoluteIs(s, needed[j], holds, i);
      }
    }
  }

  predicate EndsInColon(r: Path) {
    r != [] && r[|r| - 1] == ':'
  }

  lemma {:induction false} JoinBehind(ts: seq<Path>)
    requires ColonFree(ts)
    ensures Join(DropLeading(ts)) == Join(ts)
    decreases |ts|
  {
    if ts != [] {
      var a, t := ts[..|ts| - 1], ts[|ts| - 1];
      assert ts == a + [t];
      JoinBehind(a);
      DropLeadingSnoc(a, t);
      SplitJoin(a);
      if DropLeading(a) != [] {
        assert (DropLeading(a) + [t])[..|DropLeading(a)|] == DropLeading(a);
      } else if t != [] {
        var none: seq<Path> := [];
        assert [t][..0] == none;
      }
    }
  }

  /** The joined path ends in a colon exactly when an empty entry ends the list behind something else. */
  lemma JoinEnds(ts: seq<Path>)
    requires ColonFree(ts) && DropLeading(ts) == ts && ts != []
    ensures EndsInColon(Join(ts)) <==> ts[|ts| - 1] == []
    ensures ts[|ts| - 1] == [] ==> |Join(ts[..|ts| - 1])| < |Join(ts)|
  {
    hide Split, DropLeading;
    var a, t := ts[..|ts| - 1], ts[|ts| - 1];
    assert t != [] ==> t[|t| - 1] in t;
    if t == [] {
      BehindEmpty(ts);
    }
  }

  /** A list that starts with a proper entry and ends with an empty one joins to something and a colon. */
  lemma BehindEmpty(ts: seq<Path>)
    requires ColonFree(ts) && DropLeading(ts) == ts && ts != [] && ts[|ts| - 1] == []
    ensures Join(ts[..|ts| - 1]) != []
  {
    var a, t := ts[..|ts| - 1], ts[|ts| - 1];
    assert ts == a + [t];
    DropLeadingSnoc(a, t);
    var none: seq<Path> := [];
    assert [t][1..] == none && DropLeading([t]) == none;
    SplitJoin(a);
  }

  lemma {:induction false} StableBehind(ts: seq<Path>, needed: seq<Path>, holds: Oracle)
    requires Stable(ts, needed, holds)
    ensures Stable(DropLeading(ts), needed, holds)
    decreases |ts|
  {
    hide Stable;
    if ts != [] && ts[0] == [] {
      StableSlice(ts, needed, holds, 1, |ts|);
      assert ts[1..|ts|] == ts[1..];
      StableBehind(ts[1..], needed, holds);
    }
  }

  lemma StableFront(ts: seq<Path>, needed: seq<Path>, holds: Oracle)
    requires Stable(ts, needed, holds)
    ensures Stable(DropLast(ts), needed, holds)
  {
    hide Stable;
    if ts != [] {
      StableSlice(ts, needed, holds, 0, |ts| - 1);
      assert ts[0..|ts| - 1] == ts[..|ts| - 1];
    }
  }

  /** The second shrinking keeps every entry that the colons still separate. */
  lemma ShrunkAgain(r: Path, needed: seq<Path>, holds: Oracle, ks: seq<Path>)
    requires ks == Kept(Tokens(r), needed, holds, |Tokens(r)|)
    ensures Shrunk(Shrunk(r, needed, holds), needed, holds) == Join(DropLast(DropLeading(ks)))
  {
    hide Kept, DropLeading, DropLast, Join, Tokens;
    KeptColonFree(r, needed, holds);
    KeptIsStable(Tokens(r), needed, holds, |Tokens(r)|);
    TokensOfJoin(ks);
    StableBehind(ks, needed, holds);
    StableFront(DropLeading(ks), needed, holds);
    var t := DropLast(DropLeading(ks));
    StableKept(t, needed, holds, |t|);
    assert t[..|t|] == t;
  }

  /** An empty entry comes last, behind some proper one. */
  predicate EndsEmpty(ks: seq<Path>) {
    DropLeading(ks) != [] && ks[|ks| - 1] == []
  }

  lemma LastBehind(ks: seq<Path>)
    ensures DropLeading(ks) != [] ==>
      ks != [] && DropLeading(ks)[|DropLeading(ks)| - 1] == ks[|ks| - 1]
  {
    hide DropLeading;
    var n := DropLeadingIs(ks);
  }

  /** A joined path ends in a colon exactly when an empty entry comes last behind a proper one. */
  lemma JoinEndsInColon(ks: seq<Path>)
    requires ColonFree(ks)
    ensures EndsInColon(Join(ks)) <==> EndsEmpty(ks)
    ensures Join(DropLast(DropLeading(ks))) == Join(ks) <==> !EndsEmpty(ks)
  {
    var d := DropLeading(ks);
    JoinBehind(ks);
    DropLeadingTwice(ks);
    LastBehind(ks);
    if d != [] {
      JoinEnds(d);
    }
  }

  /**
   * Shrinking again changes nothing if and only if no empty entry follows the last proper entry
   * kept, which is when the first result does not end in a colon.
   */
  lemma ShrinkTwice(r: Path, needed: seq<Path>, holds: Oracle)
    ensures var x, ks := Shrunk(r, needed, holds), Kept(Tokens(r), needed, holds, |Tokens(r)|);
            (Shrunk(x, needed, holds) == x <==> !EndsEmpty(ks)) && (EndsInColon(x) <==> EndsEmpty(ks))
  {
    hide Kept, DropLeading, DropLast, Join, Tokens, EndsEmpty;
    var ks := Kept(Tokens(r), needed, holds, |Tokens(r)|);
    KeptColonFree(r, needed, holds);
    ShrunkAgain(r, needed, holds, ks);
    JoinEndsInColon(ks);
  }

  /** With one library, held by "/c" alone, "/a:b:/c" shrinks to "b:/c": only a leading '/' makes an entry absolute. */
  lemma ShrinksByExample(lib: Path, holds: Oracle)
    requires holds(['/', 'c'], lib) && !holds(['/', 'a'], lib)
    ensures Shrunk(['/', 'a', ':', 'b', ':', '/', 'c'], [lib], holds) == ['b', ':', '/', 'c']
  {
    hide Join, Tokens, FirstAbsolute;
    var a: Path, b: Path, c: Path := ['/', 'a'], ['b'], ['/', 'c'];
    var ts := [a, b, c];
    ThreeTokens(['/', 'a', ':', 'b', ':', '/', 'c'], a, b, c);
    ThirdHolds(a, b, c, lib, holds);
    KeptLast(ts, [lib], holds, 3);
    KeptLast(ts, [lib], holds, 2);
    KeptLast(ts, [lib], holds, 1);
    assert Keeps(ts, [lib], holds, 2) by { assert FirstAbsolute(ts, [lib][0], holds) == 2; }
    assert Kept(ts, [lib], holds, 3) == [b, c];
    JoinTwo(b, c);
  }

  lemma ThirdHolds(a: Path, b: Path, c: Path, lib: Path, holds: Oracle)
    requires a == ['/', 'a'] && b == ['b'] && c == ['/', 'c'] && holds(c, lib) && !holds(a, lib)
    ensures FirstAbsolute([a, b, c], lib, holds) == 2
  {
    assert [a, b, c][1..] == [b, c] && [b, c][1..] == [c];
    assert FirstAbsolute([c], lib, holds) == 0;
    assert FirstAbsolute([b, c], lib, holds) == 1;
  }

  lemma JoinTwo(b: Path, c: Path)
    requires b != []
    ensures Join([b, c]) == b + [COLON] + c
  {
    assert [b, c][..1] == [b] && [b][..0] == [];
    assert Join([b]) == b;
  }

  lemma ThreeTokens(r: Path, a: Path, b: Path, c: Path)
    requires a == ['/', 'a'] && b == ['b'] && c == ['/', 'c'] && r == ['/', 'a', ':', 'b', ':', '/', 'c']
    ensures Tokens(r) == [a, b, c]
  {
    var r1: Path := ['b', ':', '/', 'c'];
    IndexIs(r, COLON, 2);
    IndexIs(r1, COLON, 1);
    IndexIs(c, COLON, 2);
    assert r[..2] == a && r[3..] == r1 && r1[..1] == b && r1[2..] == c && c[..2] == c;
    assert Fields(c, COLON) == [c];
    assert Fields(r1, COLON) == [b] + Fields(c, COLON);
  }

  /** "a::" shrinks to "a:", and that to "a". */
  lemma ShrinksTwice(needed: seq<Path>, holds: Oracle)
    ensures var x := Shrunk(['a', ':', ':'], needed, holds);
            EndsInColon(x) && Shrunk(x, needed, holds) != x
  {
    hide Join, DropLast;
    var r: Path := ['a', ':', ':'];
    var a: Path := ['a'];
    AAndEmpty(r, a);
    KeptLast([a, []], needed, holds, 2);
    KeptLast([a, []], needed, holds, 1);
    var ks := Kept(Tokens(r), needed, holds, 2);
    assert ks == [a, []];
    ShrinkTwice(r, needed, holds);
  }

  lemma AAndEmpty(r: Path, a: Path)
    requires r == ['a', ':', ':'] && a == ['a']
    ensures Tokens(r) == [a, []]
  {
    IndexIs(r, COLON, 1);
    IndexIs([COLON], COLON, 0);
    assert r[..1] == a && r[2..] == [COLON] && [COLON][1..] == [] && [COLON][..0] == [];
    assert Fields([COLON], COLON) == [[]];
  }

  lemma {:induction false} DropLeadingTwice(ts: seq<Path>)
    requires ColonFree(ts)
    ensures DropLeading(DropLeading(ts)) == DropLeading(ts) && ColonFree(DropLeading(ts))
    decreases |ts|
  {
    if ts != [] && ts[0] == [] {
      assert forall i :: 0 <= i < |ts[1..]| ==> ts[1..][i] == ts[i + 1];
      DropLeadingTwice(ts[1..]);
    }
  }

  /** A path without empty entries keeps none. */
  lemma ShrinkIdempotent(r: Path, needed: seq<Path>, holds: Oracle)
    requires [] !in Tokens(r)
    ensures var x := Shrunk(r, needed, holds); Shrunk(x, needed, holds) == x
  {
    hide Kept, Join, Tokens, Shrunk;
    var ts := Tokens(r);
    var ks := Kept(ts, needed, holds, |ts|);
    NoEmpty(ts, needed, holds, ks);
    LastBehind(ks);
    ShrinkTwice(r, needed, holds);
  }
}
