/** The items a dependency has installed, as one text (dependency.vala). */
module InstallData {
  import opened Splitting

  /** A line that can be read as an item: it has at least two semicolons. */
  predicate IsItem(line: string) {
    |SplitMax(line, ';', 3)| == 3
  }

  /** The order lists each element of the set once. */
  ghost predicate Enumerates(order: seq<string>, items: set<string>) {
    && (forall s :: s in order <==> s in items)
    && forall i, j :: 0 <= i < j < |order| ==> order[i] != order[j]
  }

  /** Each item on a line of its own. */
  function Printed(order: seq<string>): string {
    if order == [] then "" else Printed(order[..|order| - 1]) + order[|order| - 1] + ['\n']
  }

  /** The items read from line i on: empty lines are skipped, the first bad one ends the reading. */
  function ItemsFrom(lines: seq<string>, i: nat): (items: set<string>)
    requires i <= |lines|
    ensures forall s :: s in items ==> s in lines && IsItem(s)
    decreases |lines| - i
  {
    if i == |lines| then {}
    else if lines[i] == "" then ItemsFrom(lines, i + 1)
    else if !IsItem(lines[i]) then {}
    else {lines[i]} + ItemsFrom(lines, i + 1)
  }

  /** A text without line breaks is one item. */
  function ItemsOf(str: string): set<string> {
    if '\n' !in str then (if str != "" && IsItem(str) then {str} else {})
    else ItemsFrom(Split(str, '\n'), 0)
  }

  class Dependency {
    var installedItems: set<string>

    /** Prints the items in whatever order the set yields them. */
    method GetInstalledItemsAsString() returns (res: string)
      ensures exists order :: Enumerates(order, installedItems) && res == Printed(order)
    {
      res := "";
      ghost var order: seq<string> := [];
      var rest := installedItems;
      while rest != {}
        invariant rest <= installedItems && Enumerates(order, installedItems - rest) && res == Printed(order)
        decreases |rest|
      {
        var s: string :| s in rest;
        PrintedSnoc(order, s);
        res := res + s + ['\n'];
        order := order + [s];
        rest := rest - {s};
      }
      assert installedItems - {} == installedItems;
    }

    method AddInstalledItem(item: string) returns (added: bool)
      modifies this
      ensures installedItems == old(installedItems) + {item} && added == (item !in old(installedItems))
    {
      added := item !in installedItems;
      installedItems := installedItems + {item};
    }

    /** _add_itemstr_instdata_save: the line is taken apart, checked and put together again. */
    method AddItemLine(line: string) returns (ok: bool)
      modifies this
      ensures ok == IsItem(line)
      ensures installedItems == old(installedItems) + if ok then {line} else {}
    {
      var cmp := SplitMax(line, ';', 3);
      ok := |cmp| == 3;
      if ok {
        SplitThree(line, ';');
        var item := cmp[0] + [';'] + (cmp[1] + [';'] + cmp[2]);
        var _ := AddInstalledItem(item);
      }
    }

    method SetInstalldataFromString(str: string)
      modifies this
      ensures installedItems == old(installedItems) + ItemsOf(str)
    {
      hide IsItem, Split;
      if '\n' !in str {
        if str != "" {
          var _ := AddItemLine(str);
        }
        return;
      }
      var lines := Split(str, '\n');
      var i := 0;
      while i < |lines|
        invariant i <= |lines|
        invariant installedItems + ItemsFrom(lines, i) == old(installedItems) + ItemsFrom(lines, 0)
      {
        if lines[i] != "" {
          var ok := AddItemLine(lines[i]);
          if !ok {
            return;
          }
        }
        i := i + 1;
      }
    }
  }

  /** Two items, each on a line of its own. */
  lemma PrintedText(a: string, b: string)
    ensures Printed([a, b]) == a + "\n" + b + "\n"
  {
    assert [a, b][..1] == [a] && [a][..0] == [];
    assert Printed([a]) == "" + a + ['\n'] == a + "\n";
  }

  /** An item is a line with at least two semicolons. */
  lemma ItemHasTwo(line: string)
    ensures IsItem(line) <==> exists i, j :: 0 <= i < j < |line| && line[i] == ';' && line[j] == ';'
  {
    hide IsItem;
    var k := Index(line, ';', 0);
    ItemIs(line);
    if k < |line| && ';' in line[k + 1..] {
      var j :| 0 <= j < |line[k + 1..]| && line[k + 1..][j] == ';';
      assert line[k] == ';' && line[k + 1 + j] == ';';
    }
    if i, j :| 0 <= i < j < |line| && line[i] == ';' && line[j] == ';' {
      assert k <= i;
      assert line[k + 1..][j - k - 1] == ';';
    }
  }

  lemma ItemIs(line: string)
    ensures var k := Index(line, ';', 0); IsItem(line) <==> k < |line| && ';' in line[k + 1..]
  {
    SplitThree(line, ';');
  }

  /** Line k is s, not empty, and no line from i up to it is bad. */
  ghost predicate ReadsAt(lines: seq<string>, i: nat, k: nat, s: string) {
    && i <= k < |lines| && lines[k] == s && s != ""
    && forall j :: i <= j <= k ==> lines[j] == "" || IsItem(lines[j])
  }

  /** Which lines are read: those that are not empty, up to the first that is no item. */
  lemma {:induction false} ReadUpTo(lines: seq<string>, i: nat, s: string)
    requires i <= |lines|
    ensures s in ItemsFrom(lines, i) <==> exists k: nat :: ReadsAt(lines, i, k, s)
    decreases |lines| - i
  {
    hide IsItem;
    if i < |lines| {
      var next := i + 1;
      ReadUpTo(lines, next, s);
      if lines[i] == "" || IsItem(lines[i]) {
        if k: nat :| ReadsAt(lines, next, k, s) {
          assert ReadsAt(lines, i, k, s);
        }
        if lines[i] == s && s != "" {
          assert ReadsAt(lines, i, i, s);
        }
        if k: nat :| ReadsAt(lines, i, k, s) {
          assert i < k ==> ReadsAt(lines, next, k, s);
        }
      }
    }
  }

  /** Of any text, with or without line breaks, those lines are the items. */
  lemma ItemsAre(str: string, s: string)
    ensures s in ItemsOf(str) <==> exists k: nat :: ReadsAt(Split(str, '\n'), 0, k, s)
  {
    hide IsItem, Split, ItemsFrom;
    var lines := Split(str, '\n');
    if '\n' in str {
      ReadUpTo(lines, 0, s);
    } else {
      SplitOne(str, '\n');
      if s in ItemsOf(str) {
        assert ReadsAt(lines, 0, 0, s);
      }
    }
  }

  lemma PrintedSnoc(order: seq<string>, s: string)
    ensures Printed(order + [s]) == Printed(order) + s + ['\n']
  {
    assert (order + [s])[..|order|] == order;
  }

  /** Items without line breaks are the lines of the text, behind which comes an empty one. */
  lemma {:induction false} PrintedLines(order: seq<string>)
    requires Without(order, '\n')
    ensures Split(Printed(order), '\n') == order + [""]
    decreases |order|
  {
    if order == [] {
      SplitOne("", '\n');
    } else {
      var a, s := order[..|order| - 1], order[|order| - 1];
      PrintedLines(a);
      assert order == a + [s];
      LineBehind(Printed(a), a, s);
    }
  }

  lemma LineBehind(text: string, lines: seq<string>, s: string)
    requires Split(text, '\n') == lines + [""] && '\n' !in s
    requires text == "" || text[|text| - 1] == '\n'
    ensures Split(text + s + ['\n'], '\n') == lines + [s] + [""]
  {
    hide Split;
    var t, u := text + s, text + s + ['\n'];
    assert u[..|u| - 1] == t;
    SplitEnds(u, '\n');
    SplitOne(s, '\n');
    if text == "" {
      SplitOne(text, '\n');
      assert lines == [] && t == s;
    } else {
      var c := text[..|text| - 1];
      SplitEnds(text, '\n');
      assert (lines + [""])[..|lines|] == lines && (Split(c, '\n') + [""])[..|Split(c, '\n')|] == Split(c, '\n');
      assert t == c + ['\n'] + s;
      SplitConcat(c, '\n', s);
    }
  }

  lemma PrintedEnds(order: seq<string>)
    ensures Printed(order) == "" || Printed(order)[|Printed(order)| - 1] == '\n'
    ensures order != [] ==> '\n' in Printed(order)
  {
  }

  /** From a list of good lines all of them are read. */
  lemma {:induction false} AllRead(lines: seq<string>, i: nat)
    requires i <= |lines| && forall k :: 0 <= k < |lines| ==> lines[k] == "" || IsItem(lines[k])
    ensures forall k :: i <= k < |lines| && lines[k] != "" ==> lines[k] in ItemsFrom(lines, i)
    decreases |lines| - i
  {
    hide IsItem;
    if i < |lines| {
      AllRead(lines, i + 1);
    }
  }

  /** Whatever is read is free of line breaks and has its two semicolons. */
  lemma ReadIsClean(str: string, s: string)
    requires s in ItemsOf(str)
    ensures IsItem(s) && '\n' !in s
  {
    if '\n' in str {
      SplitWithout(str, '\n');
      assert s in Split(str, '\n');
    }
  }

  /**
   * The round trip, for every order of iteration: reading what was printed restores the set exactly
   * when every item is free of line breaks and has at least two semicolons.
   */
  lemma InstallDataRoundTrip(items: set<string>, order: seq<string>)
    requires Enumerates(order, items)
    ensures ItemsOf(Printed(order)) == items <==> forall s :: s in items ==> IsItem(s) && '\n' !in s
  {
    var read := ItemsOf(Printed(order));
    forall s | s in read ensures IsItem(s) && '\n' !in s {
      ReadIsClean(Printed(order), s);
    }
    if forall s :: s in items ==> IsItem(s) && '\n' !in s {
      ReadsAll(items, order);
    }
  }

  lemma ReadsAll(items: set<string>, order: seq<string>)
    requires Enumerates(order, items) && forall s :: s in items ==> IsItem(s) && '\n' !in s
    ensures ItemsOf(Printed(order)) == items
  {
    hide IsItem, Split;
    if order != [] {
      PrintedEnds(order);
      forall i | 0 <= i < |order| ensures '\n' !in order[i] && IsItem(order[i]) {
        assert order[i] in items;
      }
      PrintedLines(order);
      var lines := order + [""];
      AllRead(lines, 0);
      NoSemicolons();
      forall s | s in items ensures s in ItemsFrom(lines, 0) {
        var i :| 0 <= i < |order| && order[i] == s;
        assert lines[i] == s;
      }
      forall s | s in ItemsFrom(lines, 0) ensures s in items {
        assert s in lines && s != "";
        assert s in order;
      }
    }
  }

  lemma NoSemicolons()
    ensures !IsItem("")
  {
    SplitThree("", ';');
  }
}
