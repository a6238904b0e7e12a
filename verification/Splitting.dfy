/** Splitting at a separator, as strchr loops, read_line and GLib's strsplit do it. */
module Splitting {

  /** Position of the first `c` from i on, or the length. */
  function Index<T(==)>(s: seq<T>, c: T, i: nat): (k: nat)
    requires i <= |s|
    ensures i <= k <= |s| && (k < |s| ==> s[k] == c)
    ensures forall j :: i <= j < k ==> s[j] != c
    decreases |s| - i
  {
    if i == |s| || s[i] == c then i else Index(s, c, i + 1)
  }

  /** What is left behind position k. */
  function Behind<T>(s: seq<T>, k: nat): (r: seq<T>)
    requires k <= |s|
    ensures k < |s| ==> |r| == |s| - k - 1
  {
    if k < |s| then s[k + 1..] else []
  }

  /** Successive fields; a final separator starts no further field. */
  function Fields<T(==)>(s: seq<T>, sep: T): (ts: seq<seq<T>>)
    ensures s == [] <==> ts == []
    decreases |s|
  {
    if s == [] then []
    else [s[..Index(s, sep, 0)]] + Fields(Behind(s, Index(s, sep, 0)), sep)
  }

  /** All fields between separators, a final empty one included. */
  function Split<T(==)>(s: seq<T>, sep: T): (ts: seq<seq<T>>)
    ensures ts != []
    decreases |s|
  {
    var k := Index(s, sep, 0);
    if k == |s| then [s] else [s[..k]] + Split(s[k + 1..], sep)
  }

  /** At most n fields, the last with all the rest in it. */
  function SplitMax<T(==)>(s: seq<T>, sep: T, n: nat): (ts: seq<seq<T>>)
    requires n > 0
    ensures 0 < |ts| <= n
    decreases n
  {
    var k := Index(s, sep, 0);
    if n == 1 || k == |s| then [s] else [s[..k]] + SplitMax(s[k + 1..], sep, n - 1)
  }

  /** No field contains the separator. */
  ghost predicate Without<T>(ts: seq<seq<T>>, sep: T) {
    forall i :: 0 <= i < |ts| ==> sep !in ts[i]
  }

  function DropLast<T(==)>(ts: seq<seq<T>>): seq<seq<T>> {
    if ts != [] && ts[|ts| - 1] == [] then ts[..|ts| - 1] else ts
  }

  lemma IndexIs<T>(s: seq<T>, c: T, k: nat)
    requires k <= |s| && (k < |s| ==> s[k] == c) && forall j :: 0 <= j < k ==> s[j] != c
    ensures Index(s, c, 0) == k
  {
  }

  lemma {:induction false} FieldsAreSplit<T>(s: seq<T>, sep: T)
    ensures Fields(s, sep) == DropLast(Split(s, sep))
    decreases |s|
  {
    var k := Index(s, sep, 0);
    FieldsStep(s, sep);
    SplitStep(s, sep);
    if k < |s| {
      var r := s[k + 1..];
      FieldsAreSplit(r, sep);
      hide Fields, Split, Index;
      DropLastConcat([s[..k]], Split(r, sep));
    }
  }

  lemma FieldsStep<T>(s: seq<T>, sep: T)
    ensures var k := Index(s, sep, 0);
            Fields(s, sep) == if k < |s| then [s[..k]] + Fields(s[k + 1..], sep) else DropLast([s])
  {
    hide Index;
    var k := Index(s, sep, 0);
    if k == |s| {
      assert s[..k] == s;
      FieldsNone(Behind(s, k), sep);
    }
  }

  lemma SplitStep<T>(s: seq<T>, sep: T)
    ensures var k := Index(s, sep, 0);
            Split(s, sep) == if k < |s| then [s[..k]] + Split(s[k + 1..], sep) else [s]
  {
    hide Index;
  }

  lemma {:induction false} SplitWithout<T>(s: seq<T>, sep: T)
    ensures Without(Split(s, sep), sep)
    decreases |s|
  {
    var k := Index(s, sep, 0);
    if k < |s| {
      var ts := Split(s[k + 1..], sep);
      SplitWithout(s[k + 1..], sep);
      var all := [s[..k]] + ts;
      forall i | 0 <= i < |all| ensures sep !in all[i] {
        if i > 0 { assert all[i] == ts[i - 1]; }
      }
    }
  }

  lemma FieldsWithout<T>(s: seq<T>, sep: T)
    ensures Without(Fields(s, sep), sep)
  {
    FieldsAreSplit(s, sep);
    SplitWithout(s, sep);
  }

  lemma {:induction false} SplitConcat<T>(a: seq<T>, sep: T, b: seq<T>)
    ensures Split(a + [sep] + b, sep) == Split(a, sep) + Split(b, sep)
    decreases |a|
  {
    var s, k := a + [sep] + b, Index(a, sep, 0);
    IndexIs(s, sep, k);
    if k == |a| {
      assert s[..k] == a && s[k + 1..] == b;
    } else {
      assert s[..k] == a[..k] && s[k + 1..] == a[k + 1..] + [sep] + b;
      SplitConcat(a[k + 1..], sep, b);
    }
  }

  /** What comes before the first field without a separator joins it. */
  lemma SplitPrefix<T>(a: seq<T>, b: seq<T>, sep: T)
    requires sep !in a
    ensures Split(a + b, sep) == [a + Split(b, sep)[0]] + Split(b, sep)[1..]
  {
    var s, k := a + b, Index(b, sep, 0);
    IndexIs(s, sep, |a| + k);
    assert s[..|a| + k] == a + b[..k];
    if k < |b| {
      assert s[|a| + k + 1..] == b[k + 1..];
    } else {
      assert b[..k] == b;
    }
  }

  /** A text that ends with the separator, or is empty, is read before what follows it. */
  lemma FieldsConcat<T>(a: seq<T>, sep: T, b: seq<T>)
    requires a == [] || a[|a| - 1] == sep
    ensures Fields(a + b, sep) == Fields(a, sep) + Fields(b, sep)
  {
    hide Fields, Split;
    if a == [] {
      assert a + b == b;
      FieldsNone(a, sep);
    } else {
      var c := a[..|a| - 1];
      assert a + b == c + [sep] + b;
      SplitConcat(c, sep, b);
      SplitEnds(a, sep);
      FieldsAreSplit(a + b, sep);
      FieldsAreSplit(a, sep);
      FieldsAreSplit(b, sep);
      DropLastConcat(Split(c, sep), Split(b, sep));
      DropLastConcat(Split(c, sep), [[]]);
    }
  }

  /** One step of a loop over the fields. */
  lemma NextField<T>(s: seq<T>, sep: T)
    requires s != []
    ensures var k := Index(s, sep, 0);
            Fields(s, sep) != [] && Fields(s, sep)[0] == s[..k] && Fields(s, sep)[1..] == Fields(Behind(s, k), sep)
    ensures |Behind(s, Index(s, sep, 0))| < |s|
  {
  }

  lemma FieldsNone<T>(s: seq<T>, sep: T)
    requires s == []
    ensures Fields(s, sep) == []
  {
  }

  lemma SplitEnds<T>(a: seq<T>, sep: T)
    requires a != [] && a[|a| - 1] == sep
    ensures Split(a, sep) == Split(a[..|a| - 1], sep) + [[]]
  {
    var c := a[..|a| - 1];
    var none: seq<T> := [];
    assert a == c + [sep] + none;
    SplitConcat(c, sep, none);
    SplitOne(none, sep);
  }

  lemma DropLastConcat<T>(x: seq<seq<T>>, y: seq<seq<T>>)
    requires y != []
    ensures DropLast(x + y) == x + DropLast(y)
  {
    var z := x + y;
    assert z[|z| - 1] == y[|y| - 1];
    assert z[..|z| - 1] == x + y[..|y| - 1];
  }

  /** A text without the separator is one field. */
  lemma SplitOne<T>(s: seq<T>, sep: T)
    requires sep !in s
    ensures Split(s, sep) == [s]
  {
    IndexIs(s, sep, |s|);
  }

  /** Two fields: before and behind the first separator. */
  lemma SplitTwo<T>(s: seq<T>, sep: T)
    ensures var ts, k := SplitMax(s, sep, 2), Index(s, sep, 0);
            if k == |s| then |ts| == 1 && ts[0] == s
            else |ts| == 2 && ts[0] == s[..k] && ts[1] == s[k + 1..]
  {
    var k := Index(s, sep, 0);
    if k < |s| {
      assert SplitMax(s[k + 1..], sep, 1) == [s[k + 1..]];
    }
  }

  /** Three fields, when the text has two separators. */
  lemma SplitThree<T>(s: seq<T>, sep: T)
    ensures var ts, k := SplitMax(s, sep, 3), Index(s, sep, 0);
            && (|ts| == 3 <==> k < |s| && sep in s[k + 1..])
            && (|ts| == 3 ==> s == ts[0] + [sep] + (ts[1] + [sep] + ts[2]))
  {
    hide Index;
    var k := Index(s, sep, 0);
    if k < |s| {
      var r := s[k + 1..];
      SplitTwo(r, sep);
      Rejoin(s, k);
      var j := Index(r, sep, 0);
      if j < |r| {
        Rejoin(r, j);
      }
    }
  }

  lemma Rejoin<T>(s: seq<T>, k: nat)
    requires k < |s|
    ensures s == s[..k] + [s[k]] + s[k + 1..]
  {
  }
}
