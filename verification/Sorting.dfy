/**
 * std::sort.  Its order among equal keys is unspecified, so callers see only that the result is
 * some ordered rearrangement; the permutation is returned both ways round.
 */
module Sorting {

  /** t is s rearranged: element i of s is element p[i] of t, and inv undoes p. */
  ghost predicate Rearranged<T>(s: seq<T>, t: seq<T>, p: seq<nat>, inv: seq<nat>) {
    && |t| == |s| && Bijection(p, inv, |s|)
    && (forall i :: 0 <= i < |s| ==> t[p[i]] == s[i])
    && (forall j :: 0 <= j < |s| ==> t[j] == s[inv[j]])
  }

  ghost predicate Bijection(p: seq<nat>, inv: seq<nat>, n: nat) {
    && |p| == n && |inv| == n
    && (forall i :: 0 <= i < n ==> p[i] < n)
    && (forall j :: 0 <= j < n ==> inv[j] < n)
    && (forall i :: 0 <= i < n ==> inv[p[i]] == i)
    && (forall j :: 0 <= j < n ==> p[inv[j]] == j)
  }

  ghost predicate Ascending(keys: seq<int>, inv: seq<nat>)
    requires forall j :: 0 <= j < |inv| ==> inv[j] < |keys|
  {
    forall i, j :: 0 <= i < j < |inv| ==> keys[inv[i]] <= keys[inv[j]]
  }

  /** The permutation after inserting a new last element at position `at`. */
  ghost function InsertAt(inv: seq<nat>, at: nat): seq<nat>
    requires at <= |inv|
  {
    inv[..at] + [|inv|] + inv[at..]
  }

  ghost function MakeRoom(p: seq<nat>, at: nat): seq<nat> {
    seq(|p|, i requires 0 <= i < |p| => if p[i] < at then p[i] else p[i] + 1) + [at]
  }

  lemma InsertBijection(p: seq<nat>, inv: seq<nat>, at: nat, n: nat)
    requires Bijection(p, inv, n) && at <= n
    ensures Bijection(MakeRoom(p, at), InsertAt(inv, at), n + 1)
  {
    var q, v := MakeRoom(p, at), InsertAt(inv, at);
    forall i | 0 <= i < n ensures q[i] < n + 1 && v[q[i]] == i {
      assert inv[p[i]] == i;
    }
    forall j | 0 <= j <= n && j != at ensures v[j] < n && q[v[j]] == j {
      var j0 := if j < at then j else j - 1;
      assert v[j] == inv[j0] && p[inv[j0]] == j0;
    }
  }

  lemma InsertAscending(keys: seq<int>, inv: seq<nat>, at: nat)
    requires |inv| < |keys| && at <= |inv|
    requires forall j :: 0 <= j < |inv| ==> inv[j] < |keys|
    requires Ascending(keys, inv)
    requires forall j :: 0 <= j < at ==> keys[inv[j]] <= keys[|inv|]
    requires at < |inv| ==> keys[|inv|] <= keys[inv[at]]
    ensures var v := InsertAt(inv, at);
            (forall j :: 0 <= j < |v| ==> v[j] < |keys|) && Ascending(keys, v)
  {
    var v := InsertAt(inv, at);
    forall i, j | 0 <= i < j < |v| ensures keys[v[i]] <= keys[v[j]] {
      if i == at && j > at {
        assert at == j - 1 || keys[inv[at]] <= keys[inv[j - 1]];
      }
    }
  }

  method Position(keys: seq<int>, inv: seq<nat>) returns (at: nat)
    requires |inv| < |keys| && forall j :: 0 <= j < |inv| ==> inv[j] < |keys|
    ensures at <= |inv|
    ensures forall j :: 0 <= j < at ==> keys[inv[j]] <= keys[|inv|]
    ensures at < |inv| ==> keys[|inv|] <= keys[inv[at]]
  {
    at := 0;
    while at < |inv| && keys[inv[at]] <= keys[|inv|]
      invariant at <= |inv| && forall j :: 0 <= j < at ==> keys[inv[j]] <= keys[|inv|]
    {
      at := at + 1;
    }
  }

  method Sort<T>(s: seq<T>, keys: seq<int>) returns (t: seq<T>, ghost p: seq<nat>, inv: seq<nat>)
    requires |keys| == |s|
    ensures Rearranged(s, t, p, inv) && Ascending(keys, inv)
  {
    inv, p := [], [];
    var k := 0;
    while k < |s|
      invariant k <= |s| && Bijection(p, inv, k)
      invariant Ascending(keys, inv)
    {
      var at := Position(keys, inv);
      InsertBijection(p, inv, at, k);
      InsertAscending(keys, inv, at);
      p := MakeRoom(p, at);
      inv := inv[..at] + [|inv|] + inv[at..];
      k := k + 1;
    }
    t := seq(|s|, j requires 0 <= j < |s| => s[inv[j]]);
  }
}
