/** What a String may hold: the UTF-8 forms of Unicode scalar values, section 3 of RFC 3629. */
module Unicode {
  import opened Bytes
  import opened Types

  predicate Scalar(c: nat) {
    c < 0xD800 || 0xE000 <= c < 0x110000
  }

  /** One scalar value: its bits in groups of six, most significant first, behind a leading byte. */
  function Utf8Form(c: nat): (bs: seq<byte>)
    requires Scalar(c)
    ensures 1 <= |bs| <= 4
  {
    if c < 0x80 then [c]
    else if c < 0x800 then [0xC0 + c / 64, 0x80 + c % 64]
    else if c < 0x10000 then [0xE0 + c / 4096, 0x80 + c / 64 % 64, 0x80 + c % 64]
    else [0xF0 + c / 262144, 0x80 + c / 4096 % 64, 0x80 + c / 64 % 64, 0x80 + c % 64]
  }

  predicate Scalars(cs: seq<nat>) {
    forall i :: 0 <= i < |cs| ==> Scalar(cs[i])
  }

  function Utf8Text(cs: seq<nat>): seq<byte>
    requires Scalars(cs)
  {
    if cs == [] then [] else Utf8Form(cs[0]) + Utf8Text(cs[1..])
  }

  /** A string holds exactly the texts: overlong forms, surrogates and values past 0x10FFFF are refused. */
  lemma Utf8Exact(bs: seq<byte>)
    ensures Utf8(bs) <==> exists cs :: Scalars(cs) && Utf8Text(cs) == bs
  {
    hide Utf8, Utf8Text;
    if Utf8(bs) {
      var cs := TextOf(bs);
    }
    if cs :| Scalars(cs) && Utf8Text(cs) == bs {
      TextIsUtf8(cs);
    }
  }

  lemma {:induction false} TextIsUtf8(cs: seq<nat>)
    requires Scalars(cs)
    ensures Utf8(Utf8Text(cs))
    decreases |cs|
  {
    hide Utf8, Utf8Form;
    if cs == [] {
      NoText();
    } else {
      TextIsUtf8(cs[1..]);
      FormFirst(cs[0], Utf8Text(cs[1..]));
    }
  }

  lemma NoText()
    ensures Utf8([])
  {
  }

  /** A form in front of a valid text makes a valid text. */
  lemma FormFirst(c: nat, rest: seq<byte>)
    requires Scalar(c) && Utf8(rest)
    ensures Utf8(Utf8Form(c) + rest)
  {
    hide Utf8;
    var f := Utf8Form(c);
    var bs := f + rest;
    assert bs[|f|..] == rest && forall i :: 0 <= i < |f| ==> bs[i] == f[i];
    if c < 0x80 {
      One(bs);
    } else if c < 0x800 {
      Two(bs);
    } else if c < 0x10000 {
      Three(bs);
    } else {
      Four(bs);
    }
  }

  lemma One(bs: seq<byte>)
    requires |bs| >= 1 && bs[0] < 0x80 && Utf8(bs[1..])
    ensures Utf8(bs)
  {
  }

  lemma Two(bs: seq<byte>)
    requires |bs| >= 2 && 0xC2 <= bs[0] < 0xE0 && Tail(bs[1]) && Utf8(bs[2..])
    ensures Utf8(bs)
  {
  }

  lemma Three(bs: seq<byte>)
    requires |bs| >= 3 && 0xE0 <= bs[0] < 0xF0 && Tail(bs[1]) && Tail(bs[2]) && Utf8(bs[3..])
    requires (bs[0] == 0xE0 ==> bs[1] >= 0xA0) && (bs[0] == 0xED ==> bs[1] < 0xA0)
    ensures Utf8(bs)
  {
  }

  lemma Four(bs: seq<byte>)
    requires |bs| >= 4 && 0xF0 <= bs[0] < 0xF5 && Tail(bs[1]) && Tail(bs[2]) && Tail(bs[3]) && Utf8(bs[4..])
    requires (bs[0] == 0xF0 ==> bs[1] >= 0x90) && (bs[0] == 0xF4 ==> bs[1] < 0x90)
    ensures Utf8(bs)
  {
  }

  /** Four groups of six bits. */
  lemma Groups(a: nat, b: nat, c: nat, d: nat)
    requires b < 64 && c < 64 && d < 64
    ensures var n := 262144 * a + 4096 * b + 64 * c + d;
      n / 262144 == a && n / 4096 % 64 == b && n / 64 % 64 == c && n % 64 == d && n / 4096 == 64 * a + b
  {
    var n := 262144 * a + 4096 * b + 64 * c + d;
    assert n / 64 == 4096 * a + 64 * b + c;
    assert n / 4096 == 64 * a + b;
    assert n / 262144 == a;
  }

  /** The scalar value in front of a valid text. */
  lemma First(bs: seq<byte>) returns (c: nat, n: nat)
    requires Utf8(bs) && bs != []
    ensures Scalar(c) && 0 < n <= |bs| && Utf8Form(c) == bs[..n] && Utf8(bs[n..])
  {
    if bs[0] < 0x80 {
      c, n := bs[0], 1;
    } else if bs[0] < 0xE0 {
      c := FirstOfTwo(bs[0], bs[1]);
      n := 2;
    } else if bs[0] < 0xF0 {
      c := FirstOfThree(bs[0], bs[1], bs[2]);
      n := 3;
    } else {
      c := FirstOfFour(bs[0], bs[1], bs[2], bs[3]);
      n := 4;
    }
    hide Utf8, Utf8Form, Scalar;
    assert bs[..n] == if n == 1 then [bs[0]] else if n == 2 then [bs[0], bs[1]]
      else if n == 3 then [bs[0], bs[1], bs[2]] else [bs[0], bs[1], bs[2], bs[3]];
  }

  lemma FirstOfTwo(x: nat, y: nat) returns (c: nat)
    requires 0xC2 <= x < 0xE0 && 0x80 <= y < 0xC0
    ensures Scalar(c) && Utf8Form(c) == [x, y]
  {
    c := 64 * (x - 0xC0) + (y - 0x80);
    Groups(0, 0, x - 0xC0, y - 0x80);
  }

  lemma FirstOfThree(x: nat, y: nat, z: nat) returns (c: nat)
    requires 0xE0 <= x < 0xF0 && 0x80 <= y < 0xC0 && 0x80 <= z < 0xC0
    requires (x == 0xE0 ==> y >= 0xA0) && (x == 0xED ==> y < 0xA0)
    ensures Scalar(c) && Utf8Form(c) == [x, y, z]
  {
    c := 4096 * (x - 0xE0) + 64 * (y - 0x80) + (z - 0x80);
    Groups(0, x - 0xE0, y - 0x80, z - 0x80);
  }

  lemma FirstOfFour(x: nat, y: nat, z: nat, u: nat) returns (c: nat)
    requires 0xF0 <= x < 0xF5 && 0x80 <= y < 0xC0 && 0x80 <= z < 0xC0 && 0x80 <= u < 0xC0
    requires (x == 0xF0 ==> y >= 0x90) && (x == 0xF4 ==> y < 0x90)
    ensures Scalar(c) && Utf8Form(c) == [x, y, z, u]
  {
    c := 262144 * (x - 0xF0) + 4096 * (y - 0x80) + 64 * (z - 0x80) + (u - 0x80);
    Groups(x - 0xF0, y - 0x80, z - 0x80, u - 0x80);
  }

  lemma {:induction false} TextOf(bs: seq<byte>) returns (cs: seq<nat>)
    requires Utf8(bs)
    ensures Scalars(cs) && Utf8Text(cs) == bs
    decreases |bs|
  {
    hide Utf8, Utf8Form;
    if bs == [] {
      cs := [];
    } else {
      var c, n := First(bs);
      var rest := TextOf(bs[n..]);
      cs := [c] + rest;
      assert cs[1..] == rest;
      assert bs == bs[..n] + bs[n..];
    }
  }
}
