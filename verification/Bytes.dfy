/** File contents as sequences of bytes, and the one way every write changes them. */
module Bytes {

  /** One byte of the file.  Using characters lets names and paths be plain strings. */
  type Byte = c: char | c as int < 256 witness '\0'

  /** `s` with the block `b` written at offset `off`: the effect of memcpy, memset and memmove. */
  function Splice<T>(s: seq<T>, off: nat, b: seq<T>): (r: seq<T>)
    requires off + |b| <= |s|
    ensures |r| == |s|
    ensures forall k :: 0 <= k < |s| ==> r[k] == if off <= k < off + |b| then b[k - off] else s[k]
  {
    seq(|s|, k requires 0 <= k < |s| => if off <= k < off + |b| then b[k - off] else s[k])
  }

  /** `n` copies of `c`. */
  function Fill(n: nat, c: Byte): (r: seq<Byte>)
    ensures |r| == n
    ensures forall k :: 0 <= k < n ==> r[k] == c
  {
    seq(n, _ => c)
  }

  lemma SpliceReadBack<T>(s: seq<T>, off: nat, b: seq<T>)
    requires off + |b| <= |s|
    ensures Splice(s, off, b)[off..off + |b|] == b
  {
    assert Splice(s, off, b)[off..off + |b|] == b;
  }

  lemma SpliceFrame<T>(s: seq<T>, off: nat, b: seq<T>, lo: nat, hi: nat)
    requires off + |b| <= |s| && lo <= hi <= |s|
    requires hi <= off || off + |b| <= lo
    ensures Splice(s, off, b)[lo..hi] == s[lo..hi]
  {
    assert Splice(s, off, b)[lo..hi] == s[lo..hi];
  }

  /** Byte x of block b is in f at `off`. */
  ghost predicate HasByte(f: seq<Byte>, off: nat, b: seq<Byte>, x: nat) {
    x < |b| && off + x < |f| && f[off + x] == b[x]
  }

  /** A block is in the file when each of its bytes is. */
  lemma BlockOfBytes(f: seq<Byte>, off: nat, b: seq<Byte>)
    requires forall x :: 0 <= x < |b| ==> HasByte(f, off, b, x)
    ensures |b| > 0 ==> off + |b| <= |f| && f[off..off + |b|] == b
  {
    if |b| > 0 {
      assert HasByte(f, off, b, |b| - 1);
      forall x | 0 <= x < |b| ensures f[off..off + |b|][x] == b[x] {
        assert HasByte(f, off, b, x);
      }
    }
  }

  /** f and g agree outside the range [lo, hi). */
  ghost predicate SameOutside(f: seq<Byte>, g: seq<Byte>, lo: int, hi: int) {
    |f| == |g| && forall k :: 0 <= k < |f| && !(lo <= k < hi) ==> f[k] == g[k]
  }

  lemma SameSlice(f: seq<Byte>, g: seq<Byte>, lo: int, hi: int, a: nat, b: nat)
    requires SameOutside(f, g, lo, hi) && a <= b <= |f| && (b <= lo || hi <= a)
    ensures f[a..b] == g[a..b]
  {
  }

  /** Equal blocks have equal parts. */
  lemma SubBlock(a: seq<Byte>, x: nat, b: seq<Byte>, y: nat, len: nat, at: nat, n: nat)
    requires x + len <= |a| && y + len <= |b| && b[y..y + len] == a[x..x + len] && at + n <= len
    ensures b[y + at..y + at + n] == a[x + at..x + at + n]
  {
    SliceOfSlice(a, x, len, at, n);
    SliceOfSlice(b, y, len, at, n);
  }

  lemma SliceOfSlice(a: seq<Byte>, x: nat, len: nat, at: nat, n: nat)
    requires x + len <= |a| && at + n <= len
    ensures a[x..x + len][at..at + n] == a[x + at..x + at + n]
  {
    var u, v := a[x..x + len][at..at + n], a[x + at..x + at + n];
    assert |u| == |v| == n;
    assert forall k :: 0 <= k < n ==> u[k] == v[k];
  }

  lemma SameWiden(f: seq<Byte>, g: seq<Byte>, lo: int, hi: int, a: int, b: int)
    requires SameOutside(f, g, lo, hi) && a <= lo && hi <= b
    ensures SameOutside(f, g, a, b)
  {
  }

  lemma SameTransitive(f: seq<Byte>, g: seq<Byte>, h: seq<Byte>, lo: int, hi: int)
    requires SameOutside(f, g, lo, hi) && SameOutside(g, h, lo, hi)
    ensures SameOutside(f, h, lo, hi)
  {
  }

  /** The NUL-terminated string at offset `off`, as the C library reads it. */
  function CString(s: seq<Byte>, off: nat): (r: seq<Byte>)
    ensures '\0' !in r
    ensures off <= |s| ==> off + |r| <= |s| && r == s[off..off + |r|]
    ensures off <= |s| && off + |r| < |s| ==> s[off + |r|] == '\0'
    decreases |s| - off
  {
    if off >= |s| || s[off] == '\0' then [] else [s[off]] + CString(s, off + 1)
  }

  /** The string at `off` is determined by its terminator and the bytes before it. */
  lemma {:induction false} CStringIs(s: seq<Byte>, off: nat, t: seq<Byte>)
    requires off + |t| < |s| && s[off..off + |t|] == t
    requires '\0' !in t && s[off + |t|] == '\0'
    ensures CString(s, off) == t
    decreases |t|
  {
    if |t| == 0 {
    } else {
      assert s[off] == s[off..off + |t|][0] == t[0];
      assert t[0] in t;
      assert s[off + 1..off + 1 + |t[1..]|] == t[1..];
      CStringIs(s, off + 1, t[1..]);
      assert t == [t[0]] + t[1..];
    }
  }

  /** The string in what is left behind `off`. */
  lemma CStringTail(s: seq<Byte>, off: nat, b: seq<Byte>, t: seq<Byte>)
    requires off <= |s| && s[off..] == b && |t| < |b| && b[..|t|] == t
    requires '\0' !in t && b[|t|] == '\0'
    ensures CString(s, off) == t
  {
    assert s[off..off + |t|] == b[..|t|];
    CStringIs(s, off, t);
  }

  /** Two files that agree on a string and its terminator read the same string. */
  lemma {:induction false} CStringFrame(s: seq<Byte>, t: seq<Byte>, off: nat)
    requires off + |CString(s, off)| < |s| && |s| <= |t|
    requires forall k :: off <= k <= off + |CString(s, off)| ==> s[k] == t[k]
    ensures CString(t, off) == CString(s, off)
  {
    var c := CString(s, off);
    assert t[off..off + |c|] == s[off..off + |c|] == c;
    CStringIs(t, off, c);
  }
}
