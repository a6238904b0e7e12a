/** The list of installed files kept for each application, as text (database-internal.vala). */
module FileList {
  import opened Options
  import opened Splitting

  /** An entry of a package's file list; the installed name may be missing. */
  datatype FileEntry = FileEntry(hash: string, installed: Option<string>) {
    predicate IsInstalled() {
      installed.Some? && installed.value != ""
    }
  }

  const NOHASH := "NOHASH"

  // ----- writing -----

  function Header(name: string): (h: string)
    ensures |h| >= 2 && h[|h| - 1] == '\n'
  {
    "# File list for " + name + "\n\n"
  }

  function StoredHash(hash: string): string {
    if hash == "" then NOHASH else hash
  }

  function Line(fe: FileEntry): string
    requires fe.IsInstalled()
  {
    StoredHash(fe.hash) + [' '] + fe.installed.value
  }

  /** The lines for the installed ones among the first n entries. */
  function Body(flist: seq<FileEntry>, n: nat): (b: string)
    requires n <= |flist|
    ensures b == "" || b[|b| - 1] == '\n'
  {
    if n == 0 then ""
    else Body(flist, n - 1) + (if flist[n - 1].IsInstalled() then Line(flist[n - 1]) + ['\n'] else "")
  }

  function Written(name: string, flist: seq<FileEntry>): string {
    Header(name) + Body(flist, |flist|)
  }

  method Write(name: string, flist: seq<FileEntry>) returns (text: string)
    ensures text == Written(name, flist)
  {
    text := "# File list for " + name + "\n\n";
    var i := 0;
    while i < |flist|
      invariant i <= |flist| && text == Header(name) + Body(flist, i)
    {
      var fe := flist[i];
      if fe.IsInstalled() {
        var hash := fe.hash;
        if hash == "" {
          hash := NOHASH;
        }
        assert hash == StoredHash(fe.hash);
        text := text + (hash + [' '] + fe.installed.value + ['\n']);
      }
      i := i + 1;
    }
  }

  // ----- reading -----

  /** What strip removes at both ends. */
  predicate IsSpace(c: char) {
    c == ' ' || c == '\t' || c == '\n' || c == '\r' || c == 12 as char
  }

  /** Nothing is left after strip. */
  predicate Blank(line: string) {
    forall i :: 0 <= i < |line| ==> IsSpace(line[i])
  }

  predicate Skipped(line: string) {
    (line != "" && line[0] == '#') || Blank(line)
  }

  /** The entry on a line; without a space in the line there is no file name. */
  function EntryOf(line: string): FileEntry {
    var parts := SplitMax(line, ' ', 2);
    FileEntry(parts[0], if |parts| == 2 then Some(parts[1]) else None)
  }

  function EntriesOf(lines: seq<string>, n: nat): seq<FileEntry>
    requires n <= |lines|
  {
    if n == 0 then []
    else EntriesOf(lines, n - 1) + (if Skipped(lines[n - 1]) then [] else [EntryOf(lines[n - 1])])
  }

  function ReadAll(text: string): seq<FileEntry> {
    var lines := Fields(text, '\n');
    EntriesOf(lines, |lines|)
  }

  /** The loop over the lines of the stream. */
  method Read(text: string) returns (flist: seq<FileEntry>)
    ensures flist == ReadAll(text)
  {
    hide Fields, Index;
    ghost var lines := Fields(text, '\n');
    ghost var i := 0;
    flist := [];
    FieldsNone<char>([], '\n');
    var rest := text;
    while rest != ""
      invariant i <= |lines| && lines[i..] == Fields(rest, '\n') && flist == EntriesOf(lines, i)
      decreases |rest|
    {
      NextField(rest, '\n');
      var end := Index(rest, '\n', 0);
      var line := rest[..end];
      rest := Behind(rest, end);
      assert lines[i] == lines[i..][0] == line && lines[i + 1..] == lines[i..][1..];
      if !(line != "" && line[0] == '#') && !Blank(line) {
        var parts := SplitMax(line, ' ', 2);
        flist := flist + [FileEntry(parts[0], if |parts| == 2 then Some(parts[1]) else None)];
      }
      i := i + 1;
    }
  }

  // ----- the text by example -----

  /** One entry with a hash, one without, and one that is not installed. */
  lemma WrittenText(name: string, f: string, hash: string, g: string)
    requires f != "" && g != "" && hash != ""
    ensures Written(name, [FileEntry("", Some(f)), FileEntry(hash, Some(g)), FileEntry(hash, None)])
         == "# File list for " + name + "\n\n" + ("NOHASH " + f + "\n") + (hash + " " + g + "\n")
  {
    var flist := [FileEntry("", Some(f)), FileEntry(hash, Some(g)), FileEntry(hash, None)];
    assert Body(flist, 1) == "" + (Line(flist[0]) + ['\n']) == "NOHASH " + f + "\n";
    assert Body(flist, 2) == Body(flist, 1) + (Line(flist[1]) + ['\n']) == Body(flist, 1) + (hash + " " + g + "\n");
    assert Body(flist, 3) == Body(flist, 2) + "";
  }

  /** A line is read as its text before and behind the first space; comments and white space are skipped. */
  lemma LineRead(line: string, hash: string, f: string)
    ensures ' ' !in hash && line == hash + " " + f ==> EntryOf(line) == FileEntry(hash, Some(f))
    ensures ' ' !in line ==> EntryOf(line) == FileEntry(line, None)
    ensures Skipped(line) <==>
      (|line| > 0 && line[0] == '#')
      || forall c :: c in line ==> c == ' ' || c == '\t' || c == '\n' || c == '\r' || c == 12 as char
  {
    forall i | 0 <= i < |line| ensures line[i] in line {
    }
    SplitTwo(line, ' ');
    if ' ' !in line {
      IndexIs(line, ' ', |line|);
    }
    if ' ' !in hash && line == hash + " " + f {
      IndexIs(line, ' ', |hash|);
      assert line[..|hash|] == hash && line[|hash| + 1..] == f;
    }
  }

  // ----- the round trip -----

  /** What is expected back: the installed entries, in order, with their stored hashes. */
  function Installed(flist: seq<FileEntry>, n: nat): seq<FileEntry>
    requires n <= |flist|
  {
    if n == 0 then []
    else Installed(flist, n - 1)
         + (if flist[n - 1].IsInstalled() then [flist[n - 1].(hash := StoredHash(flist[n - 1].hash))] else [])
  }

  /** The entry survives: no line break, no space in the hash, not a comment, not a blank line. */
  predicate Storable(fe: FileEntry) {
    && fe.installed.Some? && '\n' !in fe.hash && '\n' !in fe.installed.value
    && ' ' !in fe.hash && (fe.hash == "" || fe.hash[0] != '#')
    && !(Blank(fe.hash) && Blank(fe.installed.value) && fe.hash != "")
  }

  /** Every line of the name behind its first is a comment or blank, so its header adds no entries. */
  predicate QuietName(name: string) {
    var lines := Split(name, '\n');
    forall i :: 1 <= i < |lines| ==> Skipped(lines[i])
  }

  lemma LineFields(line: string)
    requires '\n' !in line
    ensures Fields(line + ['\n'], '\n') == [line]
  {
    var text := line + ['\n'];
    IndexIs(text, '\n', |line|);
    assert text[..|line|] == line;
    FieldsNone(Behind(text, |line|), '\n');
  }

  lemma {:induction false} EntriesConcat(a: seq<string>, b: seq<string>, n: nat)
    requires n <= |b|
    ensures EntriesOf(a + b, |a| + n) == EntriesOf(a, |a|) + EntriesOf(b, n)
    decreases n
  {
    hide Skipped, EntryOf;
    if n == 0 {
      EntriesPrefix(a, b, |a|);
    } else {
      EntriesConcat(a, b, n - 1);
      assert (a + b)[|a| + n - 1] == b[n - 1];
    }
  }

  lemma {:induction false} EntriesPrefix(a: seq<string>, b: seq<string>, n: nat)
    requires n <= |a|
    ensures EntriesOf(a + b, n) == EntriesOf(a, n)
    decreases n
  {
    if n > 0 {
      EntriesPrefix(a, b, n - 1);
    }
  }

  /** Texts that end with a line break are read one after the other. */
  lemma ReadConcat(a: string, b: string)
    requires a == "" || a[|a| - 1] == '\n'
    ensures ReadAll(a + b) == ReadAll(a) + ReadAll(b)
  {
    hide Fields, EntriesOf;
    FieldsConcat(a, '\n', b);
    EntriesConcat(Fields(a, '\n'), Fields(b, '\n'), |Fields(b, '\n')|);
  }

  /** One line read on its own. */
  lemma ReadLine(line: string)
    requires '\n' !in line
    ensures ReadAll(line + ['\n']) == if Skipped(line) then [] else [EntryOf(line)]
  {
    hide Fields, Skipped, EntryOf;
    var lines := [line];
    LineFields(line);
    assert EntriesOf(lines, 0) == [];
    assert EntriesOf(lines, 1) == if Skipped(line) then [] else [EntryOf(line)];
  }

  lemma {:induction false} NoEntries(lines: seq<string>, n: nat)
    requires n <= |lines|
    ensures EntriesOf(lines, n) == [] <==> forall i :: 0 <= i < n ==> Skipped(lines[i])
    decreases n
  {
    hide Skipped, EntryOf;
    if n > 0 {
      NoEntries(lines, n - 1);
    }
  }

  /** The lines of the header: the first one with the start of the name, the rest of the name, and a blank one. */
  lemma HeaderLines(name: string)
    ensures var lines := Split(name, '\n');
            Fields(Header(name), '\n') == ["# File list for " + lines[0]] + lines[1..] + [""]
  {
    hide Fields, Split;
    var first, lines := "# File list for ", Split(name, '\n');
    var a := first + name;
    var none: string := "";
    assert Header(name) == a + ['\n'] + ['\n'];
    assert (a + ['\n'])[..|a|] == a && Header(name)[..|a| + 1] == a + ['\n'];
    SplitEnds(a + ['\n'], '\n');
    SplitEnds(Header(name), '\n');
    FieldsAreSplit(Header(name), '\n');
    SplitPrefix(first, name, '\n');
    DropLastConcat(Split(a, '\n') + [none], [none]);
  }

  /** The header is read as no entries exactly for quiet names. */
  lemma HeaderReads(name: string)
    ensures ReadAll(Header(name)) == [] <==> QuietName(name)
  {
    hide Fields, Split, EntriesOf, Skipped;
    var lines, all := Split(name, '\n'), Fields(Header(name), '\n');
    HeaderLines(name);
    NoEntries(all, |all|);
    assert Skipped(all[0]) && Skipped(all[|all| - 1]) by { FirstAndLast(all, lines[0]); }
    if QuietName(name) {
      forall i | 0 <= i < |all| ensures Skipped(all[i]) {
        assert 1 <= i < |lines| ==> all[i] == lines[i];
      }
    }
    if forall i :: 0 <= i < |all| ==> Skipped(all[i]) {
      forall i | 1 <= i < |lines| ensures Skipped(lines[i]) {
        assert all[i] == lines[i];
      }
    }
  }

  lemma FirstAndLast(all: seq<string>, line: string)
    requires |all| > 1 && all[0] == "# File list for " + line && all[|all| - 1] == ""
    ensures Skipped(all[0]) && Skipped(all[|all| - 1])
  {
  }

  lemma NameWithoutBreaks(name: string)
    requires '\n' !in name
    ensures QuietName(name)
  {
    SplitOne(name, '\n');
  }

  lemma StorableLine(fe: FileEntry)
    requires fe.IsInstalled() && Storable(fe)
    ensures '\n' !in Line(fe) && !Skipped(Line(fe)) && EntryOf(Line(fe)) == fe.(hash := StoredHash(fe.hash))
  {
    hide SplitMax;
    var h, f, line := StoredHash(fe.hash), fe.installed.value, Line(fe);
    assert h[0] != '#' && line[0] == h[0];
    IndexIs(line, ' ', |h|);
    SplitTwo(line, ' ');
    assert line[..|h|] == h && line[|h| + 1..] == f;
    assert forall i :: 0 <= i < |h| ==> h[i] == line[i];
    assert forall i :: 0 <= i < |f| ==> f[i] == line[|h| + 1 + i];
    assert !IsSpace(NOHASH[0]);
  }

  /** The text of one more entry, read behind the others. */
  lemma EntryReadsBack(flist: seq<FileEntry>, n: nat)
    requires 0 < n <= |flist| && (flist[n - 1].IsInstalled() ==> Storable(flist[n - 1]))
    ensures ReadAll(Body(flist, n)) == ReadAll(Body(flist, n - 1))
      + if flist[n - 1].IsInstalled() then [flist[n - 1].(hash := StoredHash(flist[n - 1].hash))] else []
  {
    hide ReadAll, Line, Skipped, EntryOf, Storable;
    var fe, b := flist[n - 1], Body(flist, n - 1);
    if fe.IsInstalled() {
      StorableLine(fe);
      ReadLine(Line(fe));
      ReadConcat(b, Line(fe) + ['\n']);
    } else {
      assert Body(flist, n) == b + "" == b;
    }
  }

  lemma {:induction false} BodyReadsBack(flist: seq<FileEntry>, n: nat)
    requires n <= |flist| && forall i :: 0 <= i < n && flist[i].IsInstalled() ==> Storable(flist[i])
    ensures ReadAll(Body(flist, n)) == Installed(flist, n)
    decreases n
  {
    hide ReadAll, Storable;
    if n == 0 {
      ReadNothing();
    } else {
      hide Body;
      BodyReadsBack(flist, n - 1);
      EntryReadsBack(flist, n);
    }
  }

  lemma ReadNothing()
    ensures ReadAll("") == []
  {
  }

  /** Only storable entries are ever read. */
  lemma {:induction false} ReadIsStorable(lines: seq<string>, n: nat, fe: FileEntry)
    requires n <= |lines| && Without(lines, '\n') && fe in EntriesOf(lines, n) && fe.installed.Some? && fe.hash != ""
    ensures Storable(fe)
    decreases n
  {
    if fe in EntriesOf(lines, n - 1) {
      ReadIsStorable(lines, n - 1, fe);
    } else {
      LineIsStorable(lines[n - 1]);
    }
  }

  lemma LineIsStorable(line: string)
    requires '\n' !in line && !Skipped(line) && EntryOf(line).installed.Some? && EntryOf(line).hash != ""
    ensures Storable(EntryOf(line))
  {
    SplitTwo(line, ' ');
    var k, fe := Index(line, ' ', 0), EntryOf(line);
    assert fe.hash == line[..k] && fe.installed.value == line[k + 1..];
    assert fe.hash[0] == line[0];
    BlankParts(line, k);
  }

  lemma BlankParts(line: string, k: nat)
    requires k < |line| && line[k] == ' '
    ensures Blank(line[..k]) && Blank(line[k + 1..]) ==> Blank(line)
  {
    var a, b := line[..k], line[k + 1..];
    assert forall i :: 0 <= i < k ==> line[i] == a[i];
    assert forall i :: k < i < |line| ==> line[i] == b[i - k - 1];
  }

  lemma {:induction false} InstalledHas(flist: seq<FileEntry>, n: nat, i: nat)
    requires i < n <= |flist| && flist[i].IsInstalled()
    ensures flist[i].(hash := StoredHash(flist[i].hash)) in Installed(flist, n)
    decreases n
  {
    if i < n - 1 {
      InstalledHas(flist, n - 1, i);
    }
  }

  /**
   * Reading the list back yields exactly the installed entries, in order and with NOHASH for an
   * empty hash, if and only if every one of them is storable and the name adds none of its own.
   */
  lemma FileListRoundTrip(name: string, flist: seq<FileEntry>)
    ensures ReadAll(Written(name, flist)) == Installed(flist, |flist|)
        <==> QuietName(name) && forall i :: 0 <= i < |flist| && flist[i].IsInstalled() ==> Storable(flist[i])
  {
    hide ReadAll, Storable, QuietName, EntriesOf, Fields;
    ReadConcat(Header(name), Body(flist, |flist|));
    HeaderReads(name);
    if forall i :: 0 <= i < |flist| && flist[i].IsInstalled() ==> Storable(flist[i]) {
      BodyReadsBack(flist, |flist|);
    } else if ReadAll(Written(name, flist)) == Installed(flist, |flist|) {
      ReadBackStorable(Written(name, flist), flist);
    }
  }

  /** Entries that are read back as they were expected are storable. */
  lemma ReadBackStorable(text: string, flist: seq<FileEntry>)
    requires ReadAll(text) == Installed(flist, |flist|)
    ensures forall i :: 0 <= i < |flist| && flist[i].IsInstalled() ==> Storable(flist[i])
  {
    hide ReadAll, Installed, Storable;
    forall i | 0 <= i < |flist| && flist[i].IsInstalled() ensures Storable(flist[i]) {
      InstalledHas(flist, |flist|, i);
      ReadStorable(text, flist[i].(hash := StoredHash(flist[i].hash)));
    }
  }

  lemma ReadStorable(text: string, fe: FileEntry)
    requires fe in ReadAll(text) && fe.IsInstalled() && fe.hash != ""
    ensures Storable(fe) && forall h :: StoredHash(h) == fe.hash ==> Storable(fe.(hash := h))
  {
    hide Fields, EntriesOf;
    FieldsWithout(text, '\n');
    ReadIsStorable(Fields(text, '\n'), |Fields(text, '\n')|, fe);
  }

  /** A name with a line break can add an entry that was never installed. */
  lemma NameCanAddEntries()
    ensures !QuietName("a\nb c") && ReadAll(Written("a\nb c", [])) != []
  {
    hide ReadAll, Split, Written;
    var name, first, second := "a\nb c", "a", "b c";
    assert name == first + ['\n'] + second;
    SplitConcat(first, '\n', second);
    SplitOne(first, '\n');
    SplitOne(second, '\n');
    var lines := Split(name, '\n');
    assert lines[1] == second && !IsSpace(second[0]) && second[0] != '#';
    FileListRoundTrip(name, []);
  }
}
