/** The encoders of each width, their shift loop, and compact_len. */
module CompactWidths {
  import opened Bytes
  import opened Types
  import opened Input
  import opened CompactCodec
  import opened Encode

  /** The arms of the u8, u16 and u32 encoders. */
  function NarrowEnc(w: nat, n: nat): seq<byte>
    requires (w == 1 || w == 2 || w == 4) && n < Pow256(w)
  {
    if n <= MAX6 then [4 * n]
    else if w == 1 || n <= MAX14 then LE(Or(4 * n, 1), 2)
    else if w == 2 || n <= MAX30 then LE(Or(4 * n, 2), 4)
    else [3] + LE(n, 4)
  }

  /** The narrow encoders write what the general form prescribes. */
  lemma NarrowIsCompact(w: nat, n: nat)
    requires (w == 1 || w == 2 || w == 4) && n < Pow256(w)
    ensures NarrowEnc(w, n) == CompactOf(w, n)
  {
    hide LE, Pow256, NumBytes, Or;
    OrMode(n, 1);
    OrMode(n, 2);
    SmallBounds(w);
    NumBytesFits(n, w);
    NumBytesAtLeast(n);
  }

  lemma {:induction false} BitLenBytes(n: nat)
    ensures n > 0 ==> 8 * (NumBytes(n) - 1) < BitLen(n) <= 8 * NumBytes(n)
  {
    if n >= 256 {
      BitLenBytes(n / 256);
      BitLenOctet(n);
    } else if n > 0 {
      assert NumBytes(n) == 1 + NumBytes(n / 256) && NumBytes(n / 256) == 0;
      BitLenSmall(n, 8);
    }
  }

  /** leading_zeros leaves the bits of n: n lies between the powers of two around its length. */
  lemma {:induction false} BitLenExact(n: nat)
    requires n > 0
    ensures BitLen(n) > 0 && Pow2(BitLen(n) - 1) <= n < Pow2(BitLen(n))
  {
    if n > 1 {
      BitLenExact(n / 2);
    }
  }

  lemma {:induction false} BitLenSmall(n: nat, bits: nat)
    requires n < Pow2(bits)
    ensures BitLen(n) <= bits
    decreases bits
  {
    if n > 0 {
      BitLenSmall(n / 2, bits - 1);
    }
  }

  lemma BitLenOctet(n: nat)
    requires n >= 256
    ensures BitLen(n) == 8 + BitLen(n / 256)
  {
    var a := n / 2;
    var b := a / 2;
    var c := b / 2;
    var d := c / 2;
    var e := d / 2;
    var f := e / 2;
    var g := f / 2;
    assert g / 2 == n / 256;
    assert BitLen(n) == 1 + BitLen(a) && BitLen(a) == 1 + BitLen(b) && BitLen(b) == 1 + BitLen(c);
    assert BitLen(c) == 1 + BitLen(d) && BitLen(d) == 1 + BitLen(e) && BitLen(e) == 1 + BitLen(f);
    assert BitLen(f) == 1 + BitLen(g) && BitLen(g) == 1 + BitLen(g / 2);
  }

  /** w - leading_zeros / 8 is the number of bytes that hold n. */
  lemma BytesNeeded(w: nat, n: nat)
    requires 0 < n < Pow256(w)
    ensures w - LeadingZeros(w, n) / 8 == NumBytes(n)
  {
    hide Pow256, NumBytes, BitLen;
    NumBytesFits(n, w);
    BitLenBytes(n);
  }

  lemma {:induction false} LESnoc(n: nat, i: nat)
    ensures LE(n, i + 1) == LE(n, i) + [ShiftRight(n, i) % 256]
    ensures ShiftRight(n, i + 1) == ShiftRight(n, i) / 256
    decreases i
  {
    if i > 0 {
      LESnoc(n / 256, i - 1);
      assert LE(n, i + 1) == [n % 256] + LE(n / 256, i);
      assert LE(n, i) == [n % 256] + LE(n / 256, i - 1);
    } else {
      assert LE(n / 256, 0) == [] && LE(n, 0) == [];
    }
  }

  lemma {:induction false} ShiftedOut(n: nat, b: nat)
    requires n < Pow256(b)
    ensures ShiftRight(n, b) == 0
    decreases b
  {
    if b > 0 {
      ShiftedOut(n / 256, b - 1);
    }
  }

  /** The u64 and u128 encoders; both of their assertions hold on every input. */
  method EncodeWide(w: nat, n: nat) returns (dest: seq<byte>)
    requires (w == 8 || w == 16) && n < Pow256(w)
    ensures dest == CompactOf(w, n)
  {
    hide Pow256, NumBytes, LE, LeadingZeros, ShiftRight, Or;
    NumBytesFits(n, w);
    OrMode(n, 1);
    OrMode(n, 2);
    if n <= MAX6 {
      dest := [4 * n];
    } else if n <= MAX14 {
      dest := LE(Or(4 * n, 1), 2);
    } else if n <= MAX30 {
      dest := LE(Or(4 * n, 2), 4);
    } else {
      BytesNeeded(w, n);
      NumBytesAtLeast(n);
      var bytesNeeded := w - LeadingZeros(w, n) / 8;
      assert bytesNeeded >= 4;
      var head: byte := 3 + 4 * (bytesNeeded - 4);
      dest := [head];
      var v := n;
      Unshifted(n);
      for i := 0 to bytesNeeded
        invariant dest == [head] + LE(n, i)
        invariant v == ShiftRight(n, i)
      {
        LESnoc(n, i);
        assert [head] + (LE(n, i) + [v % 256]) == [head] + LE(n, i) + [v % 256];
        dest := dest + [v % 256];
        v := v / 256;
      }
      ShiftedOut(n, NumBytes(n));
      assert v == 0;
    }
  }

  lemma Unshifted(n: nat)
    ensures ShiftRight(n, 0) == n && LE(n, 0) == []
  {
  }

  /** compact_len. */
  function CompactLen(w: nat, n: nat): nat
    requires IsWidth(w) && n < Pow256(w)
  {
    if n <= MAX6 then 1
    else if w == 1 || n <= MAX14 then 2
    else if w == 2 || n <= MAX30 then 4
    else if w == 4 then 5
    else
      BytesNeeded(w, n);
      w - LeadingZeros(w, n) / 8 + 1
  }

  /** The capacity of the ArrayVec each width encodes into. */
  function Capacity(w: nat): nat {
    if w == 1 then 2 else if w == 2 then 4 else if w == 4 then 5 else if w == 8 then 9 else 17
  }

  /** compact_len is the exact length, and it fits the buffer of its width. */
  lemma CompactLenExact(w: nat, n: nat)
    requires IsWidth(w) && n < Pow256(w)
    ensures CompactLen(w, n) == |CompactOf(w, n)| <= Capacity(w)
  {
    hide LE, Pow256, NumBytes, LeadingZeros;
    SmallBounds(w);
    NumBytesFits(n, w);
    NumBytesAtLeast(n);
    if n > 0 {
      BytesNeeded(w, n);
    }
  }

  /** Larger numbers never have shorter encodings. */
  lemma CompactLenMonotone(w: nat, n: nat, m: nat)
    requires IsWidth(w) && n <= m < Pow256(w)
    ensures CompactLen(w, n) <= CompactLen(w, m)
  {
    hide LE, Pow256, LeadingZeros;
    SmallBounds(w);
    NumBytesAtLeast(n);
    NumBytesAtLeast(m);
    if m > 0 {
      BytesNeeded(w, m);
    }
    if n > 0 {
      BytesNeeded(w, n);
      NumBytesFits(n, NumBytes(m));
    }
  }

  /** A decoder of w bytes accepts exactly what the u128 decoder accepts and w bytes can hold. */
  lemma WidthsAgree(w: nat, st: St, n: nat, r: seq<byte>)
    requires IsWidth(w)
    ensures (RunCompact(w, st).Ok? && RunCompact(w, st).v == n && RunCompact(w, st).st.bytes == r) <==>
      (RunCompact(16, st).Ok? && RunCompact(16, st).v == n && RunCompact(16, st).st.bytes == r && n < Pow256(w))
  {
    hide RunCompact, CompactEnc, Pow256, NumBytes;
    if RunCompact(w, st).Ok? {
      CompactSound(w, st);
      var m, s := RunCompact(w, st).v, RunCompact(w, st).st.bytes;
      PowMono(w, 16);
      CompactComplete(16, st, m, s);
    }
    if RunCompact(16, st).Ok? && RunCompact(16, st).v < Pow256(w) {
      CompactSound(16, st);
      CompactComplete(w, st, RunCompact(16, st).v, RunCompact(16, st).st.bytes);
    }
  }
}
