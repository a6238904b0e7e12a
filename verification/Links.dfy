/** What sorting the section headers does to the indices stored in them. */
module Links {
  import opened Bytes
  import opened Codec
  import opened ElfTypes
  import opened Staging
  import opened Sorting
  import opened Elf

  /** The two header fields that can hold a section index. */
  datatype Kind = Link | Info

  /** The section index in the field, or 0; sh_info is an index only in relocation sections. */
  function Target(kind: Kind, s: Shdr): nat {
    match kind
    case Link => s.link
    case Info => if IsRel(s) then s.info else 0
  }

  function WithTarget(kind: Kind, s: Shdr, v: nat): Shdr {
    match kind
    case Link => s.(link := v)
    case Info => s.(info := v)
  }

  /** The field after every section index i has become p[i]. */
  function Moved(kind: Kind, s: Shdr, p: seq<nat>): Shdr
    requires Target(kind, s) < |p|
  {
    if Target(kind, s) == 0 then s else WithTarget(kind, s, p[Target(kind, s)])
  }

  function Relinked(s: Shdr, p: seq<nat>): Shdr
    requires s.link < |p| && (IsRel(s) ==> s.info < |p|) && |p| > 0
  {
    Moved(Info, Moved(Link, s, p), p)
  }

  /** The name each header from 1 to n - 1 points at through this field. */
  ghost predicate NamesTargets(kind: Kind, names: seq<Byte>, a: seq<Shdr>, n: nat, m: map<Name, Name>) {
    n <= |a| && LinksInRange(a) && forall i :: 1 <= i < n && Target(kind, a[i]) != 0 ==>
      NameOf(names, a[i]) in m && m[NameOf(names, a[i])] == NameOf(names, a[Target(kind, a[i])])
  }

  /** The position of a sorted section is found again through its name. */
  lemma FindMoved(names: seq<Byte>, a: seq<Shdr>, t: seq<Shdr>, cur: seq<Shdr>, p: seq<nat>, inv: seq<nat>, i: nat)
    requires Rearranged(a, t, p, inv) && DistinctNames(names, a) && i < |a|
    requires |cur| == |t| && forall j :: 0 <= j < |t| ==> cur[j].name == t[j].name
    ensures Find(names, cur, NameOf(names, a[i])) == p[i]
  {
    forall x, y | 0 <= x < y < |t| ensures inv[x] != inv[y] {
      BijectionInjective(p, inv, |a|, x, y);
    }
    DistinctUnderSort(names, a, t, inv);
    FindUnique(names, t, p[i]);
    FindSame(names, cur, t, NameOf(names, a[i]));
  }

  /** `b` is `a` in order of offset, with every link and relocation target following its section. */
  ghost predicate SortedShdrs(a: seq<Shdr>, b: seq<Shdr>, p: seq<nat>, inv: seq<nat>) {
    && |b| == |a| > 0 && Bijection(p, inv, |a|) && LinksInRange(a)
    && (forall i :: 0 <= i < |a| ==> b[p[i]] == Relinked(a[i], p))
    && (forall j :: 0 <= j < |b| ==> b[j] == Relinked(a[inv[j]], p))
    && (forall i, j :: 0 <= i < j < |b| ==> b[i].offset <= b[j].offset)
  }

  function OffsetKeys(shdrs: seq<Shdr>): (k: seq<int>)
    ensures |k| == |shdrs| && forall i :: 0 <= i < |k| ==> k[i] == shdrs[i].offset
  {
    seq(|shdrs|, i requires 0 <= i < |shdrs| => shdrs[i].offset)
  }

  lemma NullSortsFirst(a: seq<Shdr>, t: seq<Shdr>, p: seq<nat>, inv: seq<nat>)
    requires Rearranged(a, t, p, inv) && NullFirst(a) && Ascending(OffsetKeys(a), inv)
    ensures p[0] == 0 && inv[0] == 0 && t[0] == a[0]
  {
    assert inv[p[0]] == 0 && p[inv[0]] == 0;
    assert OffsetKeys(a)[inv[0]] <= OffsetKeys(a)[inv[p[0]]];
  }

  /** What the sort needs of the headers: indices resolve by name. */
  ghost predicate Resolvable(e: Elf) {
    && Counts(e) && NullFirst(e.shdrs) && DistinctNames(e.names, e.shdrs) && LinksInRange(e.shdrs)
  }

  lemma BijectionInjective(p: seq<nat>, inv: seq<nat>, n: nat, i: nat, j: nat)
    requires Bijection(p, inv, n) && i < n && j < n && i != j
    ensures p[i] != p[j] && inv[i] != inv[j]
  {
    assert inv[p[i]] == i && inv[p[j]] == j && p[inv[i]] == i && p[inv[j]] == j;
  }

  lemma DistinctUnderSort(names: seq<Byte>, a: seq<Shdr>, b: seq<Shdr>, inv: seq<nat>)
    requires DistinctNames(names, a) && |b| == |a| == |inv|
    requires forall j :: 0 <= j < |b| ==> inv[j] < |a| && b[j].name == a[inv[j]].name
    requires forall i, j :: 0 <= i < j < |b| ==> inv[i] != inv[j]
    ensures DistinctNames(names, b)
  {
    forall i, j | 0 <= i < j < |b| ensures NameOf(names, b[i]) != NameOf(names, b[j]) {
      assert inv[i] < inv[j] || inv[j] < inv[i];
    }
  }

  /** Searching by name looks only at the sh_name fields. */
  lemma {:induction false} FindFromSame(names: seq<Byte>, a: seq<Shdr>, b: seq<Shdr>, name: Name, i: nat)
    requires 1 <= i && |a| == |b| && forall j :: 0 <= j < |a| ==> a[j].name == b[j].name
    ensures FindFrom(names, a, name, i) == FindFrom(names, b, name, i)
    decreases |a| - i
  {
    if i < |a| {
      FindFromSame(names, a, b, name, i + 1);
    }
  }

  lemma FindSame(names: seq<Byte>, a: seq<Shdr>, b: seq<Shdr>, name: Name)
    requires |a| == |b| && forall j :: 0 <= j < |a| ==> a[j].name == b[j].name
    ensures Find(names, a, name) == Find(names, b, name)
  {
    FindFromSame(names, a, b, name, 1);
  }

  /** Every section starts behind the one before it. */
  ghost predicate StrictlyOrdered(shdrs: seq<Shdr>) {
    forall i, j :: 0 <= i < j < |shdrs| ==> shdrs[i].offset < shdrs[j].offset
  }

  lemma {:induction false} IncreasingAtLeast(q: seq<nat>, j: nat)
    requires j < |q| && forall i, k :: 0 <= i < k < |q| ==> q[i] < q[k]
    ensures q[j] >= j
    decreases j
  {
    if j > 0 {
      IncreasingAtLeast(q, j - 1);
    }
  }

  lemma OrderedPair(a: seq<Shdr>, b: seq<Shdr>, p: seq<nat>, inv: seq<nat>, i: nat, j: nat)
    requires SortedShdrs(a, b, p, inv) && StrictlyOrdered(a) && i < j < |a|
    ensures inv[i] < inv[j]
  {
    BijectionInjective(p, inv, |a|, i, j);
    assert b[i].offset == a[inv[i]].offset && b[j].offset == a[inv[j]].offset;
  }

  /** Sections that are in strict order already are left where they are, with all their links. */
  lemma OrderedStays(a: seq<Shdr>, b: seq<Shdr>, p: seq<nat>, inv: seq<nat>)
    requires SortedShdrs(a, b, p, inv) && StrictlyOrdered(a)
    ensures b == a && forall i :: 0 <= i < |a| ==> p[i] == inv[i] == i
  {
    forall i, j | 0 <= i < j < |a| ensures inv[i] < inv[j] {
      OrderedPair(a, b, p, inv, i, j);
    }
    forall i, j | 0 <= i < j < |a| ensures p[i] < p[j] {
      BijectionInjective(p, inv, |a|, i, j);
    }
    forall i | 0 <= i < |a| ensures p[i] == inv[i] == i {
      IncreasingAtLeast(inv, i);
      IncreasingAtLeast(p, inv[i]);
    }
    forall i | 0 <= i < |a| ensures b[i] == a[i] {
      assert b[i] == Relinked(a[inv[i]], p);
    }
  }

  /** Whatever order the sort chose among equal offsets, the null section stays at index 0. */
  lemma NullStaysFirst(a: seq<Shdr>, b: seq<Shdr>, p: seq<nat>, inv: seq<nat>)
    requires SortedShdrs(a, b, p, inv) && NullFirst(a)
    ensures p[0] == 0 && inv[0] == 0 && NullFirst(b)
  {
    assert b[p[0]].offset == 0;
    assert b[0].offset <= b[p[0]].offset;
    assert b[0] == Relinked(a[inv[0]], p);
    assert inv[p[0]] == 0;
    forall j | 1 <= j < |b| ensures b[j].offset > 0 {
      BijectionInjective(p, inv, |a|, 0, j);
    }
  }

  /**
   * Link preservation, for every sorted rearrangement: each section keeps its contents and place
   * in the file, and every index that named section i now names the section that i became.
   */
  lemma LinksFollowSections(names: seq<Byte>, a: seq<Shdr>, b: seq<Shdr>, p: seq<nat>, inv: seq<nat>, i: nat)
    requires SortedShdrs(a, b, p, inv) && NullFirst(a) && DistinctNames(names, a) && i < |a|
    ensures p[i] < |b| && NameOf(names, b[p[i]]) == NameOf(names, a[i])
    ensures b[p[i]].offset == a[i].offset && b[p[i]].size == a[i].size
    ensures (a[i].link == 0) == (b[p[i]].link == 0) && b[p[i]].link < |b|
    ensures NameOf(names, b[b[p[i]].link]) == NameOf(names, a[a[i].link])
    ensures IsRel(a[i]) ==> b[p[i]].info < |b|
                            && NameOf(names, b[b[p[i]].info]) == NameOf(names, a[a[i].info])
    ensures !IsRel(a[i]) ==> b[p[i]].info == a[i].info
  {
    NullStaysFirst(a, b, p, inv);
    var l := a[i].link;
    assert b[p[l]] == Relinked(a[l], p);
    if l != 0 { BijectionInjective(p, inv, |a|, l, 0); }
    if IsRel(a[i]) {
      assert b[p[a[i].info]] == Relinked(a[a[i].info], p);
    }
  }

  /** The state after sortShdrs. */
  ghost predicate SortStep(e: Elf, f: Elf, p: seq<nat>, inv: seq<nat>) {
    && Counts(e) && SortedShdrs(e.shdrs, f.shdrs, p, inv)
    && f == e.(shdrs := f.shdrs, file := WithHdr(e.cfg, e.file, SortedHdr(e, p)))
  }

  ghost function SortedHdr(e: Elf, p: seq<nat>): (h: Ehdr)
    requires Counts(e) && |p| == |e.shdrs| && forall i :: 0 <= i < |p| ==> p[i] < |p|
    ensures EhdrOk(e.cfg, h)
  {
    Hdr(e).(shstrndx := p[Hdr(e).shstrndx])
  }

  lemma SortKeepsWellFormed(e: Elf, f: Elf, p: seq<nat>, inv: seq<nat>)
    requires WellFormed(e) && SortStep(e, f, p, inv)
    ensures WellFormed(f)
    ensures Hdr(f) == Hdr(e).(shstrndx := p[Hdr(e).shstrndx])
  {
    SortKeepsResolvable(e, f, p, inv);
    assert Hdr(f).phoff == Hdr(e).phoff && Hdr(f).shoff == Hdr(e).shoff;
    assert PhEnd(f) == PhEnd(e) && ShEnd(f) == ShEnd(e);
    SortKeepsBodies(e, f, p, inv);
  }

  lemma SortKeepsBodies(e: Elf, f: Elf, p: seq<nat>, inv: seq<nat>)
    requires SortedShdrs(e.shdrs, f.shdrs, p, inv)
    requires |f.file| == |e.file| >= e.cfg.EhdrSize() && e.cfg == f.cfg
    requires Hdr(f).phoff == Hdr(e).phoff && Hdr(f).shoff == Hdr(e).shoff
    requires PhEnd(f) == PhEnd(e) && ShEnd(f) == ShEnd(e)
    requires BodiesInFile(e) && BodiesDisjoint(e.shdrs)
    ensures BodiesInFile(f) && BodiesDisjoint(f.shdrs)
  {
    forall i, k | 0 <= i < |f.shdrs| && InBody(f.shdrs[i], k)
      ensures e.cfg.EhdrSize() <= k < |f.file|
      ensures !(Hdr(f).phoff <= k < PhEnd(f)) && !(Hdr(f).shoff <= k < ShEnd(f))
    {
      assert InBody(e.shdrs[inv[i]], k);
    }
    forall i, j, k | 0 <= i < |f.shdrs| && 0 <= j < |f.shdrs| && InBody(f.shdrs[i], k) && InBody(f.shdrs[j], k)
      ensures i == j
    {
      assert InBody(e.shdrs[inv[i]], k) && InBody(e.shdrs[inv[j]], k);
      assert inv[i] == inv[j] && p[inv[i]] == i && p[inv[j]] == j;
    }
  }

  lemma SortKeepsResolvable(e: Elf, f: Elf, p: seq<nat>, inv: seq<nat>)
    requires Resolvable(e) && SortStep(e, f, p, inv)
    ensures Resolvable(f)
    ensures Hdr(f) == Hdr(e).(shstrndx := p[Hdr(e).shstrndx])
  {
    hide DecodeEhdr, EncodeEhdr, NameOf;
    NullStaysFirst(e.shdrs, f.shdrs, p, inv);
    forall i, j | 0 <= i < j < |f.shdrs| ensures inv[i] != inv[j] {
      BijectionInjective(p, inv, |e.shdrs|, i, j);
    }
    DistinctUnderSort(e.names, e.shdrs, f.shdrs, inv);
    RelinkedFits(e, f, p, inv);
  }

  lemma RelinkedFits(e: Elf, f: Elf, p: seq<nat>, inv: seq<nat>)
    requires SortStep(e, f, p, inv)
    ensures LinksInRange(f.shdrs)
    ensures forall j :: 0 <= j < |f.shdrs| ==> ShdrOk(e.cfg, f.shdrs[j])
  {
    forall j | 0 <= j < |f.shdrs|
      ensures ShdrOk(e.cfg, f.shdrs[j])
      ensures f.shdrs[j].link < |f.shdrs| && (IsRel(f.shdrs[j]) ==> f.shdrs[j].info < |f.shdrs|)
    {
      RelinkedOk(e.cfg, e.shdrs[inv[j]], p, |e.shdrs|);
    }
  }

  lemma RelinkedOk(c: Config, s: Shdr, p: seq<nat>, n: nat)
    requires ShdrOk(c, s) && |p| == n && 0 < n <= WORD && forall i :: 0 <= i < n ==> p[i] < n
    requires s.link < n && (IsRel(s) ==> s.info < n)
    ensures ShdrOk(c, Relinked(s, p)) && Relinked(s, p).link < n
    ensures IsRel(Relinked(s, p)) ==> Relinked(s, p).info < n
  {
  }

  lemma NamesTargetsStep(kind: Kind, names: seq<Byte>, a: seq<Shdr>, i: nat, m: map<Name, Name>, n: map<Name, Name>)
    requires DistinctNames(names, a) && 1 <= i < |a| && NamesTargets(kind, names, a, i, m)
    requires n == if Target(kind, a[i]) == 0 then m
                  else m[NameOf(names, a[i]) := NameOf(names, a[Target(kind, a[i])])]
    ensures NamesTargets(kind, names, a, i + 1, n)
  {
    forall j | 1 <= j < i + 1 && Target(kind, a[j]) != 0
      ensures NameOf(names, a[j]) in n && n[NameOf(names, a[j])] == NameOf(names, a[Target(kind, a[j])])
    {
    }
  }

  /** Headers that still hold their old targets from `i` on, and the moved ones before. */
  ghost predicate PartlyMoved(kind: Kind, was: seq<Shdr>, cur: seq<Shdr>, p: seq<nat>, i: nat) {
    && |cur| == |was|
    && (forall j :: 0 <= j < |was| ==> Target(kind, was[j]) < |p| && cur[j].name == was[j].name)
    && (forall j :: 0 <= j < i && j < |was| ==> cur[j] == Moved(kind, was[j], p))
    && (forall j :: i <= j < |was| ==> cur[j] == was[j])
  }

  /** The name noted before the sort leads to the section's new index. */
  lemma TargetFoundAgain(kind: Kind, names: seq<Byte>, m: map<Name, Name>, a: seq<Shdr>, t: seq<Shdr>,
                         cur: seq<Shdr>, p: seq<nat>, inv: seq<nat>, i: nat)
    requires NamesTargets(kind, names, a, |a|, m) && Rearranged(a, t, p, inv) && DistinctNames(names, a)
    requires 1 <= i < |t| && inv[0] == 0 && |cur| == |t| && Target(kind, t[i]) != 0
    requires forall j :: 0 <= j < |t| ==> cur[j].name == t[j].name
    ensures NameOf(names, cur[i]) in m && Target(kind, t[i]) < |p|
    ensures Find(names, cur, m[NameOf(names, cur[i])]) == p[Target(kind, t[i])]
  {
    var k := inv[i];
    assert t[i] == a[k];
    BijectionInjective(p, inv, |a|, i, 0);
    assert k != 0;
    FindMoved(names, a, t, cur, p, inv, Target(kind, a[k]));
  }

  lemma PartlyMovedStep(kind: Kind, was: seq<Shdr>, cur: seq<Shdr>, p: seq<nat>, i: nat)
    requires PartlyMoved(kind, was, cur, p, i) && i < |was|
    ensures Target(kind, cur[i]) != 0 ==>
      PartlyMoved(kind, was, cur[i := WithTarget(kind, cur[i], p[Target(kind, was[i])])], p, i + 1)
    ensures Target(kind, cur[i]) == 0 ==> PartlyMoved(kind, was, cur, p, i + 1)
  {
  }

  ghost predicate SameTargets(kind: Kind, was: seq<Shdr>, t: seq<Shdr>) {
    |was| == |t| && forall j :: 0 <= j < |t| ==> was[j].name == t[j].name && Target(kind, was[j]) == Target(kind, t[j])
  }

  /** The sorted headers are ready for their links to be restored, and then their infos. */
  lemma ReadyForLinks(a: seq<Shdr>, t: seq<Shdr>, p: seq<nat>, inv: seq<nat>)
    requires Rearranged(a, t, p, inv) && NullFirst(a) && LinksInRange(a) && t[0] == a[0]
    ensures SameTargets(Link, t, t) && PartlyMoved(Link, t, t, p, 1)
  {
    forall j | 0 <= j < |t| ensures Target(Link, t[j]) < |p| {
      assert t[j] == a[inv[j]];
    }
  }

  lemma ReadyForInfos(a: seq<Shdr>, t: seq<Shdr>, u: seq<Shdr>, p: seq<nat>, inv: seq<nat>)
    requires Rearranged(a, t, p, inv) && NullFirst(a) && LinksInRange(a) && t[0] == a[0]
    requires PartlyMoved(Link, t, u, p, |t|)
    ensures SameTargets(Info, u, t) && PartlyMoved(Info, u, u, p, 1)
  {
    forall j | 0 <= j < |t| ensures Target(Info, u[j]) == Target(Info, t[j]) < |p| {
      assert t[j] == a[inv[j]];
      assert u[j] == Moved(Link, t[j], p);
    }
  }

  lemma RestoredIsSorted(a: seq<Shdr>, t: seq<Shdr>, u: seq<Shdr>, b: seq<Shdr>, p: seq<nat>, inv: seq<nat>)
    requires Rearranged(a, t, p, inv) && LinksInRange(a) && Ascending(OffsetKeys(a), inv) && |a| > 0
    requires PartlyMoved(Link, t, u, p, |t|) && PartlyMoved(Info, u, b, p, |t|)
    ensures SortedShdrs(a, b, p, inv)
    ensures forall j :: 0 <= j < |b| ==> b[j].name == t[j].name
  {
    forall j | 0 <= j < |b| ensures b[j] == Relinked(a[inv[j]], p) {
      assert t[j] == a[inv[j]] && u[j] == Moved(Link, t[j], p) && b[j] == Moved(Info, u[j], p);
    }
    forall i | 0 <= i < |a| ensures b[p[i]] == Relinked(a[i], p) {
      assert inv[p[i]] == i;
    }
    forall i, j | 0 <= i < j < |b| ensures b[i].offset <= b[j].offset {
      assert OffsetKeys(a)[inv[i]] <= OffsetKeys(a)[inv[j]];
    }
  }

  /** A section is found under its name before the sort exactly when it is found after it. */
  lemma FoundSorted(names: seq<Byte>, a: seq<Shdr>, b: seq<Shdr>, p: seq<nat>, inv: seq<nat>, name: Name)
    requires SortedShdrs(a, b, p, inv) && NullFirst(a) && DistinctNames(names, a)
    ensures var i, j := Find(names, a, name), Find(names, b, name);
            (i == 0) == (j == 0) && (i > 0 ==> j == p[i] && b[j] == Relinked(a[i], p))
    ensures DistinctNames(names, b)
  {
    NullStaysFirst(a, b, p, inv);
    forall i, j | 0 <= i < j < |b| ensures inv[i] != inv[j] {
      BijectionInjective(p, inv, |a|, i, j);
    }
    DistinctUnderSort(names, a, b, inv);
    var i, j := Find(names, a, name), Find(names, b, name);
    if i > 0 {
      assert b[p[i]] == Relinked(a[i], p);
      BijectionInjective(p, inv, |a|, i, 0);
      FindUnique(names, b, p[i]);
    }
    if j > 0 {
      assert b[j] == Relinked(a[inv[j]], p);
      BijectionInjective(p, inv, |a|, j, 0);
      FindUnique(names, a, inv[j]);
    }
  }

  lemma FoundAfterSort(e: Elf, f: Elf, p: seq<nat>, inv: seq<nat>, name: Name)
    requires Resolvable(e) && SortStep(e, f, p, inv)
    ensures var i, j := Find(e.names, e.shdrs, name), Find(f.names, f.shdrs, name);
            (i == 0) == (j == 0) && (i > 0 ==> j == p[i] && f.shdrs[j] == Relinked(e.shdrs[i], p))
  {
    FoundSorted(e.names, e.shdrs, f.shdrs, p, inv, name);
  }
}
