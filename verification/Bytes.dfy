/** Bytes and their little-endian reading. */
module Bytes {

  type byte = x: nat | x < 256

  datatype Option<+T> = None | Some(value: T)

  const U32_MAX: nat := 0xFFFF_FFFF
  const U64_MAX: nat := 0xFFFF_FFFF_FFFF_FFFF

  function Min(a: nat, b: nat): nat {
    if a <= b then a else b
  }

  function Max(a: nat, b: nat): nat {
    if a <= b then b else a
  }

  /** 256 to the power n: the number of values n bytes can hold. */
  function Pow256(n: nat): (p: nat)
    ensures p >= 1
  {
    if n == 0 then 1 else 256 * Pow256(n - 1)
  }

  /** The w low-order bytes of n, least significant first. */
  function LE(n: nat, w: nat): (bs: seq<byte>)
    ensures |bs| == w
  {
    if w == 0 then [] else [n % 256] + LE(n / 256, w - 1)
  }

  function UnLE(bs: seq<byte>): nat {
    if bs == [] then 0 else bs[0] + 256 * UnLE(bs[1..])
  }

  lemma {:induction false} UnLEBound(bs: seq<byte>)
    ensures UnLE(bs) < Pow256(|bs|)
  {
    if bs != [] {
      UnLEBound(bs[1..]);
    }
  }

  /** Reading back what was written gives the number, when it fits. */
  lemma {:induction false} UnLEOfLE(n: nat, w: nat)
    requires n < Pow256(w)
    ensures UnLE(LE(n, w)) == n
  {
    if w > 0 {
      assert n / 256 < Pow256(w - 1);
      UnLEOfLE(n / 256, w - 1);
      assert LE(n, w)[1..] == LE(n / 256, w - 1);
    }
  }

  /** Every byte string is the little-endian form of the number it reads as. */
  lemma {:induction false} LEOfUnLE(bs: seq<byte>)
    ensures LE(UnLE(bs), |bs|) == bs
  {
    if bs != [] {
      LEOfUnLE(bs[1..]);
      var n := UnLE(bs);
      assert n % 256 == bs[0] && n / 256 == UnLE(bs[1..]);
      assert bs == [bs[0]] + bs[1..];
    }
  }

  lemma {:induction false} PowMono(a: nat, b: nat)
    requires a <= b
    ensures Pow256(a) <= Pow256(b)
  {
    if a < b {
      PowMono(a, b - 1);
    }
  }

  lemma PowValues()
    ensures Pow256(0) == 1 && Pow256(1) == 0x100 && Pow256(2) == 0x1_0000
    ensures Pow256(3) == 0x100_0000 && Pow256(4) == U32_MAX + 1
    ensures Pow256(8) == U64_MAX + 1
  {
    assert Pow256(1) == 256 && Pow256(2) == 0x1_0000 && Pow256(3) == 0x100_0000;
    assert Pow256(4) == 0x1_0000_0000;
    assert Pow256(5) == 0x100_0000_0000 && Pow256(6) == 0x1_0000_0000_0000;
    assert Pow256(7) == 0x100_0000_0000_0000;
  }

  lemma CutCat(bs: seq<byte>, i: nat, s: seq<byte>)
    requires i <= |bs|
    ensures bs + s == bs[..i] + (bs[i..] + s)
  {
  }

  lemma CutCut(bs: seq<byte>, i: nat, j: nat)
    requires i + j <= |bs|
    ensures bs[..i + j] == bs[..i] + bs[i..][..j] && bs[i..][j..] == bs[i + j..]
  {
  }

  lemma Halves(bs: seq<byte>, i: nat)
    requires i <= |bs|
    ensures bs == bs[..i] + bs[i..]
  {
  }

  function Pow2(n: nat): (p: nat)
    ensures p >= 1
  {
    if n == 0 then 1 else 2 * Pow2(n - 1)
  }

  lemma {:induction false} Pow2Octets(w: nat)
    ensures Pow2(8 * w) == Pow256(w)
  {
    if w > 0 {
      Pow2Octets(w - 1);
      var m := 8 * (w - 1);
      assert Pow2(m + 4) == 16 * Pow2(m) by {
        assert Pow2(m + 2) == 4 * Pow2(m);
      }
      assert Pow2(m + 8) == 16 * Pow2(m + 4) by {
        assert Pow2(m + 6) == 4 * Pow2(m + 4);
      }
    }
  }

  /** Bitwise or. */
  function Or(a: nat, b: nat): nat {
    if a == 0 then b
    else if b == 0 then a
    else Max(a % 2, b % 2) + 2 * Or(a / 2, b / 2)
  }

  /** Numbers without a common bit: below bit m, and from bit m on. */
  lemma {:induction false} OrDisjoint(a: nat, b: nat, m: nat)
    requires a < Pow2(m)
    ensures Or(a, b * Pow2(m)) == Or(b * Pow2(m), a) == a + b * Pow2(m)
    decreases m
  {
    if m > 0 {
      var c := b * Pow2(m - 1);
      assert b * Pow2(m) == 2 * c;
      OrDisjoint(a / 2, b, m - 1);
      OrEven(a, c);
    }
  }

  lemma OrEven(a: nat, c: nat)
    ensures Or(a, 2 * c) == a % 2 + 2 * Or(a / 2, c) && Or(2 * c, a) == a % 2 + 2 * Or(c, a / 2)
  {
    var e := 2 * c;
    assert e % 2 == 0 && e / 2 == c;
    OrStep(a, e);
    OrStep(e, a);
  }

  lemma OrStep(a: nat, b: nat)
    ensures Or(a, b) == Max(a % 2, b % 2) + 2 * Or(a / 2, b / 2)
  {
    if a == 0 {
      assert Or(0, b) == b && Or(0, b / 2) == b / 2;
    } else if b == 0 {
      assert Or(a, 0) == a && Or(a / 2, 0) == a / 2;
    }
  }

  /** The mode bits of a compact integer, under the shifted number. */
  lemma OrMode(n: nat, mode: nat)
    requires mode < 4
    ensures Or(4 * n, mode) == 4 * n + mode
  {
    assert Pow2(2) == 4;
    OrDisjoint(mode, n, 2);
  }

  /** A byte above i others. */
  lemma OrByte(a: nat, b: byte, i: nat)
    requires a < Pow256(i)
    ensures Or(a, b * Pow256(i)) == a + b * Pow256(i)
  {
    Pow2Octets(i);
    OrDisjoint(a, b, 8 * i);
  }

  lemma MulStep(m: nat, n: nat)
    ensures m * (n + 1) == m * n + m
  {
  }

  lemma MulMono(a: nat, b: nat, c: nat)
    requires a <= b
    ensures a * c <= b * c
  {
  }

  lemma DivUnique(x: nat, d: nat, q: nat, r: nat)
    requires d > 0 && r < d && x == q * d + r
    ensures x / d == q
  {
    var z := x / d - q;
    assert x == d * (x / d) + x % d;
    assert z * d == r - x % d by {
      assert z * d == d * (x / d) - q * d;
    }
    if z > 0 {
      MulLeast(z, d);
    } else if z < 0 {
      assert (-z) * d == -(z * d);
      MulLeast(-z, d);
    }
  }

  lemma MulLeast(z: int, d: int)
    requires z > 0 && d > 0
    ensures z * d >= d
  {
  }

  /** Byte i of the little-endian form is digit i of the number in base 256. */
  lemma {:induction false} LEAt(n: nat, w: nat, i: nat)
    requires i < w
    ensures LE(n, w)[i] == n / Pow256(i) % 256
    decreases w
  {
    if i > 0 {
      LEAt(n / 256, w - 1, i - 1);
      DivFirst(n, Pow256(i - 1));
    }
  }

  lemma DivFirst(n: nat, m: nat)
    requires m > 0
    ensures n / (256 * m) == n / 256 / m
  {
    var h := n / 256;
    var q, r := h / m, h % m;
    assert h == q * m + r;
    assert n == q * (256 * m) + (256 * r + n % 256);
    DivUnique(n, 256 * m, q, 256 * r + n % 256);
  }
}
