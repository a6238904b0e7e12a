/**
 * Integers in a file of either byte order, read and written by a host of either byte order
 * (patchelf.cc: rdi and wri), and the fixed-width records made of them.
 */
module Codec {
  import opened Bytes

  datatype Order = Little | Big

  function Pow256(w: nat): (p: nat)
    ensures p >= 1
  {
    if w == 0 then 1 else 256 * Pow256(w - 1)
  }

  lemma Pow256Values()
    ensures Pow256(2) == 0x1_0000 && Pow256(4) == 0x1_0000_0000 && Pow256(8) == 0x1_0000_0000_0000_0000
  {
    assert Pow256(3) == 0x100_0000;
    assert Pow256(5) == 0x100_0000_0000;
    assert Pow256(7) == 0x100_0000_0000_0000;
  }

  /** The low `w` bytes of `v` in memory order `o`. */
  function Store(o: Order, w: nat, v: nat): (s: seq<Byte>)
    ensures |s| == w
  {
    if w == 0 then []
    else
      var low := (v % 256) as char;
      match o
      case Little => [low] + Store(o, w - 1, v / 256)
      case Big => Store(o, w - 1, v / 256) + [low]
  }

  /** The value of the bytes `s` in memory order `o`. */
  function Load(o: Order, s: seq<Byte>): (v: nat)
  {
    if s == [] then 0
    else match o
      case Little => s[0] as int + 256 * Load(o, s[1..])
      case Big => s[|s| - 1] as int + 256 * Load(o, s[..|s| - 1])
  }

  lemma {:induction false} LoadStore(o: Order, w: nat, v: nat)
    requires v < Pow256(w)
    ensures Load(o, Store(o, w, v)) == v
    decreases w
  {
    if w > 0 {
      LoadStore(o, w - 1, v / 256);
      var s := Store(o, w, v);
      assert o == Little ==> s[1..] == Store(o, w - 1, v / 256);
      assert o == Big ==> s[..|s| - 1] == Store(o, w - 1, v / 256);
    }
  }

  lemma {:induction false} StoreLoad(o: Order, s: seq<Byte>)
    ensures Load(o, s) < Pow256(|s|)
    ensures Store(o, |s|, Load(o, s)) == s
    decreases |s|
  {
    if s != [] {
      hide Store, Load;
      var n := |s| - 1;
      var low, rest := if o == Little then s[0] else s[n], if o == Little then s[1..] else s[..n];
      StoreLoad(o, rest);
      LoadStep(o, s, low, rest);
      LowByte(low, Load(o, rest), Load(o, s));
      StoreStep(o, n, Load(o, s), low, Load(o, rest));
    } else {
      assert Load(o, s) == 0;
    }
  }

  lemma LoadStep(o: Order, s: seq<Byte>, low: Byte, rest: seq<Byte>)
    requires s == if o == Little then [low] + rest else rest + [low]
    ensures Load(o, s) == low as int + 256 * Load(o, rest)
  {
    assert o == Little ==> s[1..] == rest;
    assert o == Big ==> s[..|s| - 1] == rest;
  }

  /** One byte more of a value, put where the order has its low byte. */
  lemma StoreStep(o: Order, n: nat, v: nat, low: Byte, high: nat)
    requires v / 256 == high && (v % 256) as char == low
    ensures Store(o, n + 1, v) == if o == Little then [low] + Store(o, n, high) else Store(o, n, high) + [low]
  {
  }

  lemma LowByte(low: Byte, high: nat, v: nat)
    requires v == low as int + 256 * high
    ensures v / 256 == high && (v % 256) as char == low
  {
  }

  function Reverse(s: seq<Byte>): (r: seq<Byte>)
    ensures |r| == |s|
  {
    if s == [] then [] else Reverse(s[1..]) + [s[0]]
  }

  lemma {:induction false} StoreOtherOrder(w: nat, v: nat)
    ensures Store(Big, w, v) == Reverse(Store(Little, w, v))
    decreases w
  {
    if w > 0 {
      StoreOtherOrder(w - 1, v / 256);
      assert Store(Little, w, v)[1..] == Store(Little, w - 1, v / 256);
    }
  }

  /**
   * rdi on a host of order `host` for a file of order `file`: the value held in memory is read
   * back byte by byte in the file's order.
   */
  function Convert(file: Order, host: Order, w: nat, i: nat): nat {
    Load(file, Store(host, w, i))
  }

  /** The loop of rdi: byte n of the value in memory is or-ed in at the position the file order gives it. */
  method Rdi(file: Order, host: Order, w: nat, i: nat) returns (r: nat)
    ensures r == Convert(file, host, w, i)
  {
    var mem := Store(host, w, i);
    r := 0;
    var n := 0;
    while n < w
      invariant n <= w
      invariant r == Partial(file, mem, n)
    {
      // The bits or-ed in are all clear in r, so the or is a sum.
      PartialStep(file, mem, n);
      r := r + mem[n] as int * (if file == Little then Pow256(n) else Pow256(w - n - 1));
      n := n + 1;
    }
    assert mem[..w] == mem;
  }

  /** What rdi has accumulated after n bytes. */
  ghost function Partial(file: Order, mem: seq<Byte>, n: nat): nat
    requires n <= |mem|
  {
    if file == Little then Load(Little, mem[..n]) else Load(Big, mem[..n]) * Pow256(|mem| - n)
  }

  lemma PartialStep(file: Order, mem: seq<Byte>, n: nat)
    requires n < |mem|
    ensures Partial(file, mem, n + 1)
         == Partial(file, mem, n) + mem[n] as int * (if file == Little then Pow256(n) else Pow256(|mem| - n - 1))
  {
    var s := mem[..n + 1];
    assert s[..n] == mem[..n] && s[n] == mem[n];
    if file == Little {
      LoadLittleSnoc(s);
    } else {
      Distribute(mem[n] as int, Load(Big, mem[..n]), Pow256(|mem| - n - 1));
    }
  }

  lemma Distribute(b: nat, h: nat, p: nat)
    ensures (b + 256 * h) * p == h * (256 * p) + b * p
  {
  }

  lemma {:induction false} LoadLittleSnoc(s: seq<Byte>)
    requires s != []
    ensures Load(Little, s) == Load(Little, s[..|s| - 1]) + s[|s| - 1] as int * Pow256(|s| - 1)
    decreases |s|
  {
    if |s| == 1 {
      assert s[1..] == [];
      assert s[..0] == [];
    } else {
      LoadLittleSnoc(s[1..]);
      assert s[1..][..|s| - 2] == s[..|s| - 1][1..];
      var x, y := s[|s| - 1] as int, Pow256(|s| - 2);
      assert 256 * (x * y) == x * (256 * y);
    }
  }

  /** rdi is an involution for every pair of byte orders: rdi after wri returns the value. */
  lemma RdiInvolution(file: Order, host: Order, w: nat, v: nat)
    requires v < Pow256(w)
    ensures Convert(file, host, w, v) < Pow256(w)
    ensures Convert(file, host, w, Convert(file, host, w, v)) == v
  {
    var mem := Store(host, w, v);
    StoreLoad(file, mem);
    var c := Load(file, mem);
    if file == host {
      LoadStore(host, w, v);
    } else {
      StoreOtherOrder(w, v);
      StoreOtherOrder(w, c);
      // Both in-memory images of c and v are reversals of each other.
      assert Store(file, w, c) == mem;
      if file == Big {
        ReverseTwice(Store(Little, w, c));
        assert Store(host, w, c) == Reverse(mem) == Store(file, w, v);
      } else {
        assert Store(host, w, c) == Reverse(mem);
        ReverseTwice(Store(Little, w, v));
        assert Reverse(mem) == Store(file, w, v);
      }
      LoadStore(file, w, v);
    }
  }

  lemma {:induction false} ReverseTwice(s: seq<Byte>)
    ensures Reverse(Reverse(s)) == s
    decreases |s|
  {
    if s != [] {
      ReverseSnoc(Reverse(s[1..]), s[0]);
      ReverseTwice(s[1..]);
    }
  }

  lemma {:induction false} ReverseSnoc(s: seq<Byte>, b: Byte)
    ensures Reverse(s + [b]) == [b] + Reverse(s)
    decreases |s|
  {
    if s != [] {
      assert (s + [b])[1..] == s[1..] + [b];
      ReverseSnoc(s[1..], b);
    } else {
      assert s + [b] == [b];
    }
  }

  /**
   * What wri leaves in memory is the value in the file's byte order, whatever the host, so a
   * struct copied to the file needs no further conversion.
   */
  lemma WriStoresFileOrder(file: Order, host: Order, w: nat, v: nat)
    requires v < Pow256(w)
    ensures Store(host, w, Convert(file, host, w, v)) == Store(file, w, v)
  {
    RdiInvolution(file, host, w, v);
    var c := Convert(file, host, w, v);
    StoreLoad(file, Store(host, w, c));
    assert Load(file, Store(host, w, c)) == v;
  }

  // ----- records of fixed-width fields -----

  function Width(ws: seq<nat>): nat {
    if ws == [] then 0 else ws[0] + Width(ws[1..])
  }

  /** Every value fits its field. */
  predicate Fits(ws: seq<nat>, vs: seq<nat>) {
    |ws| == |vs| && forall i :: 0 <= i < |ws| ==> vs[i] < Pow256(ws[i])
  }

  function Pack(o: Order, ws: seq<nat>, vs: seq<nat>): (s: seq<Byte>)
    requires |ws| == |vs|
    ensures |s| == Width(ws)
  {
    if ws == [] then [] else Store(o, ws[0], vs[0]) + Pack(o, ws[1..], vs[1..])
  }

  function Unpack(o: Order, ws: seq<nat>, s: seq<Byte>): (vs: seq<nat>)
    requires |s| == Width(ws)
    ensures |vs| == |ws|
  {
    if ws == [] then [] else [Load(o, s[..ws[0]])] + Unpack(o, ws[1..], s[ws[0]..])
  }

  lemma {:induction false} UnpackPack(o: Order, ws: seq<nat>, vs: seq<nat>)
    requires Fits(ws, vs)
    ensures Unpack(o, ws, Pack(o, ws, vs)) == vs
    decreases |ws|
  {
    if ws != [] {
      var s := Pack(o, ws, vs);
      LoadStore(o, ws[0], vs[0]);
      assert s[..ws[0]] == Store(o, ws[0], vs[0]);
      assert s[ws[0]..] == Pack(o, ws[1..], vs[1..]);
      UnpackPack(o, ws[1..], vs[1..]);
      assert vs == [vs[0]] + vs[1..];
    }
  }

  lemma {:induction false} UnpackFits(o: Order, ws: seq<nat>, s: seq<Byte>)
    requires |s| == Width(ws)
    ensures Fits(ws, Unpack(o, ws, s))
    decreases |ws|
  {
    if ws != [] {
      StoreLoad(o, s[..ws[0]]);
      UnpackFits(o, ws[1..], s[ws[0]..]);
    }
  }
}
