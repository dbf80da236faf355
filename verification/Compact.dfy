/** Compact integers: one encoder for all widths, and the decoder of each width. */
module CompactCodec {
  import opened Bytes
  import opened Types
  import opened Input

  const MAX6: nat := 0x3F              // 0b0011_1111
  const MAX14: nat := 0x3FFF           // 0b0011_1111_1111_1111
  const MAX30: nat := 0x3FFF_FFFF      // u32::MAX >> 2

  function BitLen(n: nat): nat {
    if n == 0 then 0 else 1 + BitLen(n / 2)
  }

  /** uN::leading_zeros for an integer of w bytes. */
  function LeadingZeros(w: nat, n: nat): int {
    8 * w - BitLen(n)
  }

  /** How many bytes hold n. */
  function NumBytes(n: nat): (b: nat)
    ensures n < Pow256(b)
    ensures n > 0 ==> b > 0 && Pow256(b - 1) <= n
  {
    if n == 0 then 0 else 1 + NumBytes(n / 256)
  }

  /** The wire form of n, whatever the width of its type. */
  function CompactEnc(n: nat): (bs: seq<byte>)
    requires NumBytes(n) <= 16
    ensures |bs| > 0
  {
    if n <= MAX6 then [4 * n]
    else if n <= MAX14 then LE(4 * n + 1, 2)
    else if n <= MAX30 then LE(4 * n + 2, 4)
    else
      NumBytesAtLeast(n);
      [3 + 4 * (NumBytes(n) - 4)] + LE(n, NumBytes(n))
  }

  lemma {:induction false} NumBytesFits(n: nat, w: nat)
    requires n < Pow256(w)
    ensures NumBytes(n) <= w
  {
    var b := NumBytes(n);
    if b > w {
      PowMono(w, b - 1);
    }
  }

  lemma NumBytesAtLeast(n: nat)
    ensures n > MAX30 ==> NumBytes(n) >= 4
  {
    if n > MAX30 && NumBytes(n) < 4 {
      PowValues();
      PowMono(NumBytes(n), 3);
    }
  }

  /** The number of bytes is the only one between whose powers n lies. */
  lemma NumBytesUnique(n: nat, b: nat)
    requires b > 0 && Pow256(b - 1) <= n < Pow256(b)
    ensures NumBytes(n) == b
  {
    if NumBytes(n) < b {
      PowMono(NumBytes(n), b - 1);
    } else if NumBytes(n) > b {
      PowMono(b, NumBytes(n) - 1);
    }
  }

  /** x >> (k * 8). */
  function ShiftRight(x: nat, k: nat): nat
    decreases k
  {
    if k == 0 then x else ShiftRight(x / 256, k - 1)
  }

  /** The byte-assembling decoders' guard, uN::MAX >> ((w - b + 1) * 8). */
  function Floor(w: nat, b: nat): nat
    requires 0 < b <= w
  {
    ShiftRight(Pow256(w) - 1, w - b + 1)
  }

  lemma {:induction false} ShiftRightOfMax(w: nat, k: nat)
    requires k <= w
    ensures ShiftRight(Pow256(w) - 1, k) == Pow256(w - k) - 1
    decreases k
  {
    if k > 0 {
      assert (Pow256(w) - 1) / 256 == Pow256(w - 1) - 1;
      ShiftRightOfMax(w - 1, k - 1);
    }
  }

  /** Compact<uW>::decode. */
  function RunCompact(w: nat, st: St): (o: Out<nat>)
    requires IsWidth(w)
    ensures o.st.depth == st.depth && o.st.used == st.used
  {
    var (st1, p) :- ReadByte(st);
    if p % 4 == 0 then Ok(st1, p / 4)
    else if p % 4 == 1 then RunWord(p, 1, MAX6, if w == 1 then 255 else MAX14, st1)
    else if p % 4 == 2 then
      if w == 1 then Fail(st1)
      else RunWord(p, 3, MAX14, if w == 2 then 65535 else MAX30, st1)
    else RunBig(w, p / 4 + 4, st1)
  }

  /** A word of 1 + more bytes, its first byte given back by PrefixInput; mode bits shifted out. */
  function RunWord(p: byte, more: nat, low: nat, high: nat, st: St): (o: Out<nat>)
    ensures o.st.depth == st.depth && o.st.used == st.used
  {
    var (st1, bs) :- Read(st, more);
    var x := UnLE([p] + bs) / 4;
    if low < x <= high then Ok(st1, x) else Fail(st1)
  }

  /** The form with mode bits 3: b little-endian bytes follow. */
  function RunBig(w: nat, b: nat, st: St): (o: Out<nat>)
    requires IsWidth(w) && b >= 4
    ensures o.st.depth == st.depth && o.st.used == st.used
  {
    if w <= 2 || b > w then Fail(st)
    else if b == 4 then
      var (st1, bs) :- Read(st, 4);
      if UnLE(bs) > MAX30 then Ok(st1, UnLE(bs)) else Fail(st1)
    else if b == 8 || b == 16 then
      var (st1, bs) :- Read(st, b);
      if UnLE(bs) > (Pow256(b) - 1) / 256 then Ok(st1, UnLE(bs)) else Fail(st1)
    else
      // read_byte by read_byte
      var (st1, bs) :- ReadEach(st, b);
      if UnLE(bs) > Floor(w, b) then Ok(st1, UnLE(bs)) else Fail(st1)
  }

  /** The form with mode bits 3 carries the number in the bytes after the first. */
  lemma BigForm(n: nat, b: nat, bs: seq<byte>)
    requires 4 <= b <= 16 && |bs| == b && UnLE(bs) == n
    requires n > MAX30 && n >= Pow256(b - 1)
    ensures NumBytes(n) == b && CompactEnc(n) == [3 + 4 * (b - 4)] + bs
  {
    UnLEBound(bs);
    NumBytesUnique(n, b);
    LEOfUnLE(bs);
  }

  /** The long form is accepted exactly when no shorter form could carry the number. */
  lemma RunBigExact(w: nat, b: nat, st: St)
    requires IsWidth(w) && b >= 4
    ensures var o := RunBig(w, b, st);
      && (o.Ok? <==>
          w > 2 && b <= w && b <= |st.bytes| && UnLE(st.bytes[..b]) > MAX30
          && UnLE(st.bytes[..b]) >= Pow256(b - 1))
      && (o.Ok? ==> o.v == UnLE(st.bytes[..b]) && o.st.bytes == st.bytes[b..])
  {
    hide UnLE, ReadEach;
    ReadEachIsRead(st, b);
    if w > 2 && b <= w && b <= |st.bytes| {
      PowValues();
      ShiftRightOfMax(w, w - b + 1);
      assert Pow256(b) == 256 * Pow256(b - 1);
      if b > 4 {
        PowMono(4, b - 1);
      }
    }
  }

  /** A word form is the word written for its number, mode bits included. */
  lemma RunWordSound(p: byte, more: nat, low: nat, high: nat, st: St)
    requires RunWord(p, more, low, high, st).Ok?
    ensures var o := RunWord(p, more, low, high, st);
      && low < o.v <= high
      && [p] + st.bytes == LE(4 * o.v + p % 4, more + 1) + o.st.bytes
  {
    hide LE, Pow256;
    var bs := [p] + st.bytes[..more];
    var n := UnLE(bs);
    assert n == p + 256 * UnLE(bs[1..]);
    assert 4 * (n / 4) + p % 4 == n;
    LEOfUnLE(bs);
    assert [p] + st.bytes == bs + st.bytes[more..];
  }

  lemma RunWordComplete(p: byte, more: nat, low: nat, high: nat, st: St, x: nat, r: seq<byte>)
    requires low < x <= high && 4 * x + p % 4 < Pow256(more + 1)
    requires [p] + st.bytes == LE(4 * x + p % 4, more + 1) + r
    ensures var o := RunWord(p, more, low, high, st); o.Ok? && o.v == x && o.st.bytes == r
  {
    var e := LE(4 * x + p % 4, more + 1);
    UnLEOfLE(4 * x + p % 4, more + 1);
    var all := [p] + st.bytes;
    assert all[..more + 1] == e && all[more + 1..] == r;
    assert all[1..] == st.bytes;
    assert [p] + st.bytes[..more] == e;
    assert st.bytes[more..] == r;
  }

  /** A successful decode has read the wire form of its result, and the result fits the width. */
  lemma CompactSound(w: nat, st: St)
    requires IsWidth(w) && RunCompact(w, st).Ok?
    ensures var o := RunCompact(w, st);
      && o.v < Pow256(w) && NumBytes(o.v) <= 16
      && st.bytes == CompactEnc(o.v) + o.st.bytes
  {
    hide UnLE, LE, Pow256, NumBytes, RunBig, RunWord, CompactEnc;
    var p := st.bytes[0];
    var st1 := ReadByte(st).st;
    assert st.bytes == [p] + st1.bytes;
    if p % 4 == 3 {
      BigSound(w, p, st1);
    } else {
      SmallSound(w, p, st);
    }
  }

  lemma BigSound(w: nat, p: byte, st: St)
    requires IsWidth(w) && p % 4 == 3 && RunBig(w, p / 4 + 4, st).Ok?
    ensures var o := RunBig(w, p / 4 + 4, st);
      && o.v < Pow256(w) && NumBytes(o.v) <= 16
      && [p] + st.bytes == CompactEnc(o.v) + o.st.bytes
  {
    hide UnLE, Pow256, RunBig, NumBytes, LE;
    var b := p / 4 + 4;
    assert p == 3 + 4 * (b - 4);
    RunBigExact(w, b, st);
    var bs := st.bytes[..b];
    var n := UnLE(bs);
    UnLEBound(bs);
    PowMono(b, w);
    BigForm(n, b, bs);
    var e := CompactEnc(n);
    assert e == [p] + bs;
    assert [p] + st.bytes == e + st.bytes[b..];
  }

  lemma SmallSound(w: nat, p: byte, st: St)
    requires IsWidth(w) && RunCompact(w, st).Ok?
    requires st.bytes != [] && st.bytes[0] == p && p % 4 != 3
    ensures var o := RunCompact(w, st);
      && o.v < Pow256(w) && NumBytes(o.v) <= 16
      && st.bytes == CompactEnc(o.v) + o.st.bytes
  {
    hide UnLE, LE, Pow256, RunBig, RunWord, NumBytes, CompactEnc, IsWidth;
    var st1 := ReadByte(st).st;
    assert st.bytes == [p] + st1.bytes;
    SmallBounds(w);
    if p % 4 == 0 {
      NumBytesFits(p / 4, w);
      SingleForm(p);
    } else {
      var low := if p % 4 == 1 then MAX6 else MAX14;
      var high := if p % 4 == 1 then (if w == 1 then 255 else MAX14) else (if w == 2 then 65535 else MAX30);
      var more := if p % 4 == 1 then 1 else 3;
      assert RunCompact(w, st) == RunWord(p, more, low, high, st1);
      RunWordSound(p, more, low, high, st1);
      var n := RunCompact(w, st).v;
      NumBytesFits(n, w);
      WordForm(n, p % 4, more + 1);
    }
  }

  lemma SingleForm(p: byte)
    requires p % 4 == 0 && NumBytes(p / 4) <= 16
    ensures CompactEnc(p / 4) == [p]
  {
  }

  lemma WordForm(n: nat, mode: nat, w: nat)
    requires NumBytes(n) <= 16
    requires (mode == 1 && w == 2 && MAX6 < n <= MAX14) || (mode == 2 && w == 4 && MAX14 < n <= MAX30)
    ensures CompactEnc(n) == LE(4 * n + mode, w)
  {
    hide LE;
  }

  lemma SmallBounds(w: nat)
    requires IsWidth(w)
    ensures 1 <= w <= 16
    ensures MAX6 < Pow256(w) && (w > 1 ==> MAX14 < Pow256(w)) && (w > 2 ==> MAX30 < Pow256(w))
    ensures w == 1 ==> Pow256(w) == 256
    ensures w == 2 ==> Pow256(w) == 65536
    ensures 4 * MAX14 + 3 < Pow256(2) && 4 * MAX30 + 3 < Pow256(4)
  {
    PowValues();
    PowMono(1, w);
    if w > 1 {
      PowMono(2, w);
    }
    if w > 2 {
      PowMono(4, w);
    }
  }

  /** The wire form of a number that fits the width decodes to it and leaves the rest. */
  lemma CompactComplete(w: nat, st: St, n: nat, r: seq<byte>)
    requires IsWidth(w) && n < Pow256(w) && NumBytes(n) <= 16
    requires st.bytes == CompactEnc(n) + r
    ensures RunCompact(w, st).Ok? && RunCompact(w, st).v == n && RunCompact(w, st).st.bytes == r
  {
    hide UnLE, LE, Pow256, RunBig, RunWord, NumBytes;
    var e := CompactEnc(n);
    var p := e[0];
    var st1 := ReadByte(st).st;
    assert st.bytes == [p] + st1.bytes;
    if n > MAX30 {
      NumBytesAtLeast(n);
      assert p == 3 + 4 * (NumBytes(n) - 4);
      assert st1.bytes == LE(n, NumBytes(n)) + r;
      BigComplete(w, st1, n, r);
    } else if n > MAX14 {
      WordComplete(w, st, n, 2, 3, r);
    } else if n > MAX6 {
      WordComplete(w, st, n, 1, 1, r);
    } else {
      assert st1.bytes == r;
    }
  }

  lemma WordComplete(w: nat, st: St, n: nat, mode: nat, more: nat, r: seq<byte>)
    requires IsWidth(w) && n < Pow256(w)
    requires (mode == 1 && more == 1 && MAX6 < n <= MAX14) || (mode == 2 && more == 3 && MAX14 < n <= MAX30)
    requires st.bytes == LE(4 * n + mode, more + 1) + r
    ensures RunCompact(w, st).Ok? && RunCompact(w, st).v == n && RunCompact(w, st).st.bytes == r
  {
    hide UnLE, Pow256, RunBig, RunWord;
    SmallBounds(w);
    var p := st.bytes[0];
    assert p == (4 * n + mode) % 256;
    var low := if mode == 1 then MAX6 else MAX14;
    var high := if mode == 1 then (if w == 1 then 255 else MAX14) else (if w == 2 then 65535 else MAX30);
    var st1 := ReadByte(st).st;
    assert st.bytes == [p] + st1.bytes;
    RunWordComplete(p, more, low, high, st1, n, r);
    assert p % 4 == mode;
    assert RunCompact(w, st) == RunWord(p, more, low, high, st1);
  }

  lemma BigComplete(w: nat, st: St, n: nat, r: seq<byte>)
    requires IsWidth(w) && MAX30 < n < Pow256(w)
    requires st.bytes == LE(n, NumBytes(n)) + r
    ensures NumBytes(n) >= 4
    ensures var o := RunBig(w, NumBytes(n), st); o.Ok? && o.v == n && o.st.bytes == r
  {
    hide UnLE, LE, Pow256, RunBig;
    var b := NumBytes(n);
    NumBytesFits(n, w);
    NumBytesAtLeast(n);
    UnLEOfLE(n, b);
    assert st.bytes[..b] == LE(n, b) && st.bytes[b..] == r;
    RunBigExact(w, b, st);
  }
}
