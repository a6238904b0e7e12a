/**
 * The staged section bodies (patchelf.cc: ReplacedSections).  A std::map is kept as a list in
 * strictly increasing order of name, which is also the order in which it is iterated.
 */
module Staging {
  import opened Bytes

  type Name = seq<Byte>

  datatype Entry = Entry(name: Name, data: seq<Byte>)

  /** Lexicographic order of std::string. */
  predicate Less(a: Name, b: Name) {
    if b == [] then false
    else if a == [] then true
    else a[0] < b[0] || (a[0] == b[0] && Less(a[1..], b[1..]))
  }

  lemma {:induction false} LessTransitive(a: Name, b: Name, c: Name)
    requires Less(a, b) && Less(b, c)
    ensures Less(a, c)
  {
    if a != [] && a[0] == b[0] && b[0] == c[0] {
      LessTransitive(a[1..], b[1..], c[1..]);
    }
  }

  lemma {:induction false} LessTotal(a: Name, b: Name)
    ensures Less(a, b) || a == b || Less(b, a)
    ensures !Less(a, a)
  {
    if a != [] {
      if b != [] && a[0] == b[0] {
        LessTotal(a[1..], b[1..]);
        assert a[1..] == b[1..] ==> a == [a[0]] + a[1..] == b;
      } else {
        LessTotal(a[1..], a[1..]);
      }
    }
  }

  ghost predicate Sorted(rs: seq<Entry>) {
    forall i, j :: 0 <= i < j < |rs| ==> Less(rs[i].name, rs[j].name)
  }

  /** No name is staged twice. */
  ghost predicate Distinct(rs: seq<Entry>) {
    forall i, j :: 0 <= i < j < |rs| ==> rs[i].name != rs[j].name
  }

  lemma SortedDistinct(rs: seq<Entry>)
    requires Sorted(rs)
    ensures Distinct(rs)
  {
    forall i, j | 0 <= i < j < |rs| ensures rs[i].name != rs[j].name {
      LessTotal(rs[i].name, rs[j].name);
    }
  }

  /** Position of `name`, or the length when it is not staged. */
  function IndexOf(rs: seq<Entry>, name: Name): (i: nat)
    ensures i <= |rs|
    ensures i < |rs| ==> rs[i].name == name
    ensures forall j :: 0 <= j < i ==> rs[j].name != name
  {
    IndexFrom(rs, name, 0)
  }

  function IndexFrom(rs: seq<Entry>, name: Name, from: nat): (i: nat)
    requires from <= |rs|
    ensures from <= i <= |rs|
    ensures i < |rs| ==> rs[i].name == name
    ensures forall j :: from <= j < i ==> rs[j].name != name
    decreases |rs| - from
  {
    if from == |rs| || rs[from].name == name then from else IndexFrom(rs, name, from + 1)
  }

  predicate Has(rs: seq<Entry>, name: Name) {
    IndexOf(rs, name) < |rs|
  }

  function Get(rs: seq<Entry>, name: Name): seq<Byte>
    requires Has(rs, name)
  {
    rs[IndexOf(rs, name)].data
  }

  lemma IndexUnique(rs: seq<Entry>, i: nat)
    requires Distinct(rs) && i < |rs|
    ensures IndexOf(rs, rs[i].name) == i
  {
    if IndexOf(rs, rs[i].name) < i {
      assert false;
    }
  }

  /** Assignment through operator[]. */
  function Put(rs: seq<Entry>, name: Name, data: seq<Byte>): seq<Entry> {
    if rs == [] then [Entry(name, data)]
    else if rs[0].name == name then [Entry(name, data)] + rs[1..]
    else if Less(name, rs[0].name) then [Entry(name, data)] + rs
    else [rs[0]] + Put(rs[1..], name, data)
  }

  /** Every entry after Put is the new one or was there before under another name. */
  lemma {:induction false} PutEntries(rs: seq<Entry>, name: Name, data: seq<Byte>, x: Entry)
    requires Sorted(rs)
    ensures x in Put(rs, name, data) <==> x == Entry(name, data) || (x in rs && x.name != name)
  {
    if rs != [] {
      SortedDistinct(rs);
      assert x in rs <==> x == rs[0] || x in rs[1..];
      if rs[0].name == name {
        assert forall y :: y in rs[1..] ==> y.name != name;
      } else if Less(name, rs[0].name) {
        forall y | y in rs ensures y.name != name {
          LessTotal(name, name);
          if y != rs[0] { LessTransitive(name, rs[0].name, y.name); }
        }
      } else {
        PutEntries(rs[1..], name, data, x);
      }
    }
  }

  lemma {:induction false} PutSorted(rs: seq<Entry>, name: Name, data: seq<Byte>)
    requires Sorted(rs)
    ensures Sorted(Put(rs, name, data))
  {
    if rs != [] {
      var r := Put(rs, name, data);
      if rs[0].name == name {
      } else if Less(name, rs[0].name) {
        forall j | 0 < j < |r| ensures Less(name, r[j].name) {
          if j > 1 { LessTransitive(name, rs[0].name, rs[j - 1].name); }
        }
      } else {
        LessTotal(rs[0].name, name);
        PutSorted(rs[1..], name, data);
        forall j | 0 < j < |r| ensures Less(rs[0].name, r[j].name) {
          PutEntries(rs[1..], name, data, r[j]);
          assert r[j] == Put(rs[1..], name, data)[j - 1];
        }
      }
    }
  }

  /** What the map reads after an assignment. */
  lemma PutGet(rs: seq<Entry>, name: Name, data: seq<Byte>, other: Name)
    requires Sorted(rs)
    ensures var r := Put(rs, name, data);
            Sorted(r) && Has(r, name) && Get(r, name) == data
            && (other != name ==> Has(r, other) == Has(rs, other)
                                  && (Has(rs, other) ==> Get(r, other) == Get(rs, other)))
  {
    var r := Put(rs, name, data);
    PutSorted(rs, name, data);
    PutEntries(rs, name, data, Entry(name, data));
    EntryHas(r, Entry(name, data));
    if other != name {
      if Has(rs, other) {
        var x := rs[IndexOf(rs, other)];
        PutEntries(rs, name, data, x);
        EntryHas(r, x);
      }
      if Has(r, other) {
        var x := r[IndexOf(r, other)];
        PutEntries(rs, name, data, x);
        EntryHas(rs, x);
      }
    }
  }

  /** A second assignment replaces the first. */
  lemma {:induction false} PutPut(rs: seq<Entry>, name: Name, data: seq<Byte>, other: seq<Byte>)
    ensures Put(Put(rs, name, data), name, other) == Put(rs, name, other)
  {
    if rs != [] && rs[0].name != name && !Less(name, rs[0].name) {
      PutPut(rs[1..], name, data, other);
      assert Put(rs, name, data)[1..] == Put(rs[1..], name, data);
    }
  }

  lemma OneStaged(name: Name, data: seq<Byte>)
    ensures Has([Entry(name, data)], name) && Get([Entry(name, data)], name) == data
  {
  }

  lemma EntryHas(rs: seq<Entry>, x: Entry)
    requires Sorted(rs) && x in rs
    ensures Has(rs, x.name) && Get(rs, x.name) == x.data
  {
    SortedDistinct(rs);
    var i :| 0 <= i < |rs| && rs[i] == x;
    IndexUnique(rs, i);
  }

  /** The names agree up to position i, where a ends, or has the smaller byte. */
  ghost predicate FirstDiffers(a: Name, b: Name, i: nat) {
    && i <= |a| && i < |b| && (forall k :: 0 <= k < i ==> a[k] == b[k])
    && (i == |a| || a[i] < b[i])
  }

  /** The order of the map: at the first place where two names differ the smaller byte, or the end, comes first. */
  lemma {:induction false} LessIs(a: Name, b: Name)
    ensures Less(a, b) <==> exists i: nat :: FirstDiffers(a, b, i)
  {
    if b != [] && a == [] {
      assert FirstDiffers(a, b, 0);
    } else if b != [] && a[0] < b[0] {
      assert FirstDiffers(a, b, 0);
    } else if b != [] && a[0] == b[0] {
      LessIs(a[1..], b[1..]);
      if Less(a, b) {
        var i: nat :| FirstDiffers(a[1..], b[1..], i);
        assert FirstDiffers(a, b, i + 1);
      }
      if i: nat :| FirstDiffers(a, b, i) {
        assert i > 0;
        assert forall k :: 0 <= k < i - 1 ==> a[1..][k] == a[k + 1] && b[1..][k] == b[k + 1];
        assert FirstDiffers(a[1..], b[1..], i - 1);
      }
    }
  }
}
