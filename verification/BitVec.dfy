/** Bit vectors: a bit count, then whole elements, in either bit order. */
module BitVec {
  import opened Bytes
  import opened Types
  import opened Input
  import opened CompactCodec
  import opened Encode
  import opened Decode
  import opened Lengths
  import opened Soundness
  import opened Completeness

  const MAX_BITS: nat := 0x1FFF_FFFF     // ARCH32BIT_BITSLICE_MAX_BITS

  datatype Order = Lsb0 | Msb0

  function Reverse(bs: seq<bool>): (r: seq<bool>)
    ensures |r| == |bs|
    ensures forall i :: 0 <= i < |bs| ==> r[i] == bs[|bs| - 1 - i]
  {
    seq(|bs|, i requires 0 <= i < |bs| => bs[|bs| - 1 - i])
  }

  /** The bits of an element in the order a BitSlice shows them, from the bits of its value. */
  function Arrange(order: Order, bs: seq<bool>): (r: seq<bool>)
    ensures |r| == |bs|
  {
    if order.Lsb0? then bs else Reverse(bs)
  }

  lemma ArrangeTwice(order: Order, bs: seq<bool>)
    ensures Arrange(order, Arrange(order, bs)) == bs
  {
  }

  /** The m low bits of n, least significant first. */
  function BitsOf(n: nat, m: nat): (bs: seq<bool>)
    ensures |bs| == m
    decreases m
  {
    if m == 0 then [] else [n % 2 == 1] + BitsOf(n / 2, m - 1)
  }

  function FromBits(bs: seq<bool>): nat {
    if bs == [] then 0 else (if bs[0] then 1 else 0) + 2 * FromBits(bs[1..])
  }

  lemma {:induction false} FromBitsBound(bs: seq<bool>)
    ensures FromBits(bs) < Pow2(|bs|)
  {
    if bs != [] {
      FromBitsBound(bs[1..]);
    }
  }

  lemma {:induction false} BitsOfFromBits(bs: seq<bool>)
    ensures BitsOf(FromBits(bs), |bs|) == bs
  {
    if bs != [] {
      BitsOfFromBits(bs[1..]);
      var n := FromBits(bs);
      assert n / 2 == FromBits(bs[1..]) && (n % 2 == 1) == bs[0];
      assert bs == [bs[0]] + bs[1..];
    }
  }

  function Zeros(n: nat): (zs: seq<bool>)
    ensures |zs| == n
  {
    seq(n, _ => false)
  }

  /** An element whose first bits are the chunk and whose other bits are zero. */
  function Pack(order: Order, w: nat, chunk: seq<bool>): nat
    requires |chunk| <= 8 * w
  {
    FromBits(Arrange(order, chunk + Zeros(8 * w - |chunk|)))
  }

  /** view_bits of an element. */
  function View(order: Order, w: nat, n: nat): (bs: seq<bool>)
    ensures |bs| == 8 * w
  {
    Arrange(order, BitsOf(n, 8 * w))
  }

  lemma ViewPack(order: Order, w: nat, chunk: seq<bool>)
    requires |chunk| <= 8 * w
    ensures View(order, w, Pack(order, w, chunk)) == chunk + Zeros(8 * w - |chunk|)
    ensures Pack(order, w, chunk) < Pow256(w)
  {
    hide Pow2, Pow256, BitsOf, FromBits;
    var padded := chunk + Zeros(8 * w - |chunk|);
    var bs := Arrange(order, padded);
    BitsOfFromBits(bs);
    FromBitsBound(bs);
    Pow2Octets(w);
    ArrangeTwice(order, padded);
  }

  /** bitvec::mem::elts: how many elements n bits take. */
  function Elts(w: nat, n: nat): nat
    requires w > 0
  {
    (n + 8 * w - 1) / (8 * w)
  }

  lemma EltsStep(w: nat, n: nat)
    requires w > 0
    ensures n == 0 ==> Elts(w, n) == 0
    ensures 0 < n <= 8 * w ==> Elts(w, n) == 1
    ensures n > 8 * w ==> Elts(w, n) == 1 + Elts(w, n - 8 * w)
  {
    var d := 8 * w;
    if n > d {
      AddDiv(n - 1, d);
    } else if n > 0 {
      AddDiv(n - 1, d);
      SmallDiv(n - 1, d);
    } else {
      SmallDiv(d - 1, d);
    }
  }

  lemma AddDiv(a: nat, d: nat)
    requires d > 0
    ensures (a + d) / d == a / d + 1
  {
    DivUnique(a + d, d, a / d + 1, a % d);
  }

  lemma SmallDiv(a: nat, d: nat)
    requires a < d
    ensures a / d == 0
  {
  }

  /** The elements written: one per chunk of 8 * w bits, the last one padded with zeros. */
  function Words(order: Order, w: nat, bits: seq<bool>): seq<nat>
    requires w > 0
    decreases |bits|
  {
    if bits == [] then []
    else if |bits| <= 8 * w then [Pack(order, w, bits)]
    else [Pack(order, w, bits[..8 * w])] + Words(order, w, bits[8 * w..])
  }

  /** The bits of a sequence of elements. */
  function Unpack(order: Order, w: nat, ns: seq<nat>): (bs: seq<bool>)
    ensures |bs| == 8 * w * |ns|
  {
    if ns == [] then []
    else
      MulStep(8 * w, |ns| - 1);
      View(order, w, ns[0]) + Unpack(order, w, ns[1..])
  }

  /** Elements written for bits show these bits, then zeros up to the end of the last element. */
  lemma {:induction false} UnpackWords(order: Order, w: nat, bits: seq<bool>)
    requires w > 0
    ensures var ns := Words(order, w, bits);
      && |ns| == Elts(w, |bits|) && |bits| <= 8 * w * |ns|
      && Unpack(order, w, ns) == bits + Zeros(8 * w * |ns| - |bits|)
      && forall i :: 0 <= i < |ns| ==> ns[i] < Pow256(w)
    decreases |bits|
  {
    hide Pow256, View, Pack, Elts;
    EltsStep(w, |bits|);
    var d := 8 * w;
    var ns := Words(order, w, bits);
    if bits == [] {
    } else if |bits| <= d {
      ViewPack(order, w, bits);
      assert ns[1..] == [];
      assert Unpack(order, w, ns) == View(order, w, ns[0]) + [];
    } else {
      var rest := bits[d..];
      ViewPack(order, w, bits[..d]);
      UnpackWords(order, w, rest);
      var ms := Words(order, w, rest);
      assert ns[1..] == ms;
      MulStep(d, |ms|);
      assert bits[..d] + Zeros(0) == bits[..d];
      assert bits[..d] + (rest + Zeros(d * |ms| - |rest|)) == bits + Zeros(d * |ns| - |bits|);
    }
  }

  function Nums(ns: seq<nat>): (vs: seq<Val>)
    ensures |vs| == |ns|
  {
    seq(|ns|, i requires 0 <= i < |ns| => Num(ns[i]))
  }

  lemma NumsTyped(env: Env, w: nat, ns: seq<nat>)
    requires WFEnv(env) && IsWidth(w) && forall i :: 0 <= i < |ns| ==> ns[i] < Pow256(w)
    ensures AllTyped(env, 0, Prim(w), Nums(ns))
  {
    hide WFEnv, Pow256;
  }

  /** The encoding of a bit vector. */
  function BitsEnc(env: Env, order: Order, w: nat, bits: seq<bool>): seq<byte>
    requires WFEnv(env) && IsWidth(w) && |bits| <= MAX_BITS
  {
    UnpackWords(order, w, bits);
    NumsTyped(env, w, Words(order, w, bits));
    LenPrefix(|bits|) + EncAll(env, 0, Prim(w), Nums(Words(order, w, bits)))
  }

  /** BitSlice::encode_to: chunk by chunk, each into an element that starts out as zero. */
  method EncodeBits(env: Env, order: Order, w: nat, bits: seq<bool>) returns (dest: seq<byte>)
    requires WFEnv(env) && IsWidth(w) && |bits| <= MAX_BITS
    ensures dest == BitsEnc(env, order, w, bits)
  {
    hide WFEnv, Pow256, LE, Pack, LenPrefix, Elts, View, Words, EncAll, AllTyped, Nums, Unpack, IsWidth;
    dest := LenPrefix(|bits|);
    var left := bits;
    ghost var done: seq<nat> := [];
    WidthRange(w);
    ghost var words := Words(order, w, bits);
    UnpackWords(order, w, bits);
    NumsTyped(env, w, words);
    NumsTyped(env, w, done);
    NothingYet(env, order, w);
    assert [] + words == words;
    while left != []
      invariant words == done + Words(order, w, left)
      invariant forall i :: 0 <= i < |done| ==> done[i] < Pow256(w)
      invariant AllTyped(env, 0, Prim(w), Nums(done))
      invariant dest == LenPrefix(|bits|) + EncAll(env, 0, Prim(w), Nums(done))
      invariant |left| <= |bits|
      decreases |left|
    {
      var c := Min(8 * w, |left|);
      var element := Pack(order, w, left[..c]);
      ViewPack(order, w, left[..c]);
      WordsStep(order, w, left, c);
      NumsTyped(env, w, done + [element]);
      SnocNum(env, w, done, element);
      dest := dest + LE(element, w);
      left := left[c..];
      assert done + ([element] + Words(order, w, left)) == done + [element] + Words(order, w, left);
      done := done + [element];
    }
    assert done + [] == done;
  }

  lemma NothingYet(env: Env, order: Order, w: nat)
    requires WFEnv(env) && IsWidth(w)
    ensures Words(order, w, []) == [] && AllTyped(env, 0, Prim(w), Nums([]))
    ensures EncAll(env, 0, Prim(w), Nums([])) == []
  {
    hide WFEnv;
    assert Nums([]) == [];
  }

  lemma WordsStep(order: Order, w: nat, bits: seq<bool>, c: nat)
    requires w > 0 && bits != [] && c == Min(8 * w, |bits|)
    ensures Words(order, w, bits) == [Pack(order, w, bits[..c])] + Words(order, w, bits[c..])
  {
    hide Pack;
    if |bits| <= 8 * w {
      assert bits[..c] == bits && bits[c..] == [];
    }
  }

  lemma SnocNum(env: Env, w: nat, ns: seq<nat>, n: nat)
    requires WFEnv(env) && IsWidth(w)
    requires AllTyped(env, 0, Prim(w), Nums(ns)) && AllTyped(env, 0, Prim(w), Nums(ns + [n]))
    ensures EncAll(env, 0, Prim(w), Nums(ns + [n])) == EncAll(env, 0, Prim(w), Nums(ns)) + LE(n, w)
    decreases |ns|
  {
    hide WFEnv, Pow256, LE;
    if ns == [] {
      assert Nums(ns + [n]) == [Num(n)] && [Num(n)][1..] == [] && Nums(ns) == [];
      assert EncAll(env, 0, Prim(w), [Num(n)]) == LE(n, w) + EncAll(env, 0, Prim(w), []);
    } else {
      assert Nums(ns + [n])[1..] == Nums(ns[1..] + [n]) && Nums(ns)[1..] == Nums(ns[1..]);
      SnocNum(env, w, ns[1..], n);
      Assoc(LE(ns[0], w), EncAll(env, 0, Prim(w), Nums(ns[1..])), LE(n, w));
    }
  }

  /** The values of decoded elements. */
  function Numbers(vs: seq<Val>): (ns: seq<nat>)
    requires forall i :: 0 <= i < |vs| ==> vs[i].Num?
    ensures |ns| == |vs|
  {
    seq(|vs|, i requires 0 <= i < |vs| => vs[i].n)
  }

  lemma {:induction false} SplitIsNum(bs: seq<byte>, w: nat, len: nat)
    requires |bs| == len * w
    ensures forall i :: 0 <= i < len ==> Split(bs, w, len)[i].Num?
    decreases len
  {
    hide UnLE;
    if len > 0 {
      assert |bs| == w + (len - 1) * w;
      SplitIsNum(bs[w..], w, len - 1);
    }
  }

  /** BitVec::decode: whole elements are read and the vector is truncated to the bit count. */
  function RunBits(env: Env, cfg: Cfg, order: Order, w: nat, st: St): Out<seq<bool>>
    requires WFEnv(env) && IsWidth(w)
  {
    var (st1, n) :- RunCompact(4, st);
    if n > MAX_BITS then Fail(st1)
    else
      var len := Elts(w, n);
      var (st2, bs) :- RunBulk(env, cfg, w, len, st1);
      SplitIsNum(bs, w, len);
      var all := Unpack(order, w, Numbers(Split(bs, w, len)));
      EnoughBits(w, n);
      Ok(st2, all[..n])
  }

  lemma EnoughBits(w: nat, n: nat)
    requires w > 0
    ensures n <= 8 * w * Elts(w, n) < n + 8 * w
  {
    var d := 8 * w;
    var x := n + d - 1;
    assert x == d * (x / d) + x % d;
  }

  lemma SizeFits(env: Env, w: nat, n: nat)
    requires WFEnv(env) && IsWidth(w) && n <= MAX_BITS
    ensures Elts(w, n) <= U32_MAX && Elts(w, n) * w <= UsizeMax(env)
  {
    hide Elts;
    EnoughBits(w, n);
    var e := Elts(w, n);
    assert 8 * w * e == 8 * (e * w);
    assert e * w < n + 8 * w;
    assert e <= e * w;
    PowValues();
    PowMono(4, env.word);
  }

  /** Elements written are read back as the same numbers. */
  lemma WordsBack(env: Env, cfg: Cfg, w: nat, ns: seq<nat>, st: St, s: seq<byte>)
    requires WFEnv(env) && WFCfg(env, cfg) && IsWidth(w) && st.depth <= cfg.maxDepth
    requires AllTyped(env, 0, Prim(w), Nums(ns)) && |ns| * w <= UsizeMax(env)
    requires st.bytes == EncAll(env, 0, Prim(w), Nums(ns)) + s
    requires Fits(cfg, st, Heap(|ns| > 0, |ns| * w))
    ensures var o := RunBulk(env, cfg, w, |ns|, st);
      && o.Ok? && o.st.bytes == s
      && Split(o.v, w, |ns|) == Nums(ns)
      && (forall i :: 0 <= i < |ns| ==> Nums(ns)[i].Num?) && Numbers(Nums(ns)) == ns
  {
    hide WFEnv, WFCfg, RunBulk, UsizeMax, EncAll, Split, Fits, Charged, AllTyped, Nums, Numbers;
    var vs := Nums(ns);
    EncAllToIsEncAll(env, 0, Prim(w), vs, s);
    SplitComplete(env, 0, w, vs, s);
    var m := |ns| * w;
    Halves(st.bytes, m);
    BulkComplete(env, cfg, w, st, st.bytes[..m], |ns|, s);
    NumbersOfNums(ns);
  }

  lemma NumbersOfNums(ns: seq<nat>)
    ensures forall i :: 0 <= i < |ns| ==> Nums(ns)[i].Num?
    ensures Numbers(Nums(ns)) == ns
  {
  }

  /** Decoding inverts encoding for every element width, both bit orders and every length. */
  lemma BitsRoundTrip(env: Env, cfg: Cfg, order: Order, w: nat, bits: seq<bool>, st: St, s: seq<byte>)
    requires WFEnv(env) && WFCfg(env, cfg) && IsWidth(w) && |bits| <= MAX_BITS && st.depth <= cfg.maxDepth
    requires st.bytes == BitsEnc(env, order, w, bits) + s
    requires Fits(cfg, st, Heap(|bits| > 0, Elts(w, |bits|) * w))
    ensures var o := RunBits(env, cfg, order, w, st); o.Ok? && o.v == bits && o.st.bytes == s
  {
    hide WFEnv, WFCfg, Pow256, RunCompact, RunBulk, LenPrefix, Elts, UsizeMax, Words, Unpack, EncAll, Split, Fits,
      Charged, AllTyped, Nums, Numbers;
    var n, ns := |bits|, Words(order, w, bits);
    UnpackWords(order, w, bits);
    NumsTyped(env, w, ns);
    var body := EncAll(env, 0, Prim(w), Nums(ns));
    Assoc(LenPrefix(n), body, s);
    LenComplete(st, n, body + s);
    var st1 := RunCompact(4, st).st;
    SizeFits(env, w, n);
    EltsPositive(w, n);
    FitsSame(cfg, st, st1, Heap(|ns| > 0, |ns| * w));
    WordsBack(env, cfg, w, ns, st1, s);
    assert (bits + Zeros(8 * w * |ns| - n))[..n] == bits;
  }

  lemma EltsPositive(w: nat, n: nat)
    requires w > 0
    ensures Elts(w, n) > 0 <==> n > 0
  {
    hide Elts;
    EltsStep(w, n);
  }

  /**
   Re-encoding what was accepted gives the input back with only the padding bits cleared: raw
   are the elements the input held, and the elements written instead show the same bits up to
   the bit count and zeros after it.
   */
  lemma BitsReencode(env: Env, cfg: Cfg, order: Order, w: nat, st: St) returns (raw: seq<nat>)
    requires WFEnv(env) && WFCfg(env, cfg) && IsWidth(w) && st.depth <= cfg.maxDepth
    requires RunBits(env, cfg, order, w, st).Ok?
    ensures var o := RunBits(env, cfg, order, w, st);
      var n, ns := |o.v|, Words(order, w, o.v);
      && n <= MAX_BITS && AllTyped(env, 0, Prim(w), Nums(raw))
      && st.bytes == LenPrefix(n) + (EncAll(env, 0, Prim(w), Nums(raw)) + o.st.bytes)
      && |ns| == |raw| == Elts(w, n) && n <= 8 * w * |raw|
      && Unpack(order, w, ns) == Unpack(order, w, raw)[..n] + Zeros(8 * w * |raw| - n)
      && |st.bytes| == |BitsEnc(env, order, w, o.v)| + |o.st.bytes|
  {
    hide WFEnv, WFCfg, Pow256, RunCompact, RunBulk, LenPrefix, Elts, UsizeMax, Words, Unpack, EncAll, Split, Fits,
      Charged, AllTyped, Nums, Numbers;
    var o := RunBits(env, cfg, order, w, st);
    var o1 := RunCompact(4, st);
    LenSound(st);
    var n := o1.v;
    EnoughBits(w, n);
    UnpackWords(order, w, o.v);
    var o2 := RunBulk(env, cfg, w, Elts(w, n), o1.st);
    SizeFits(env, w, n);
    BulkSound(env, cfg, w, Elts(w, n), o1.st);
    raw := RawWords(env, w, Elts(w, n), o2.v, o2.st.bytes);
    BitsLength(env, order, w, o.v);
  }

  lemma RawWords(env: Env, w: nat, len: nat, bs: seq<byte>, s: seq<byte>) returns (raw: seq<nat>)
    requires WFEnv(env) && IsWidth(w) && |bs| == len * w
    ensures |raw| == len && AllTyped(env, 0, Prim(w), Nums(raw))
    ensures bs + s == EncAll(env, 0, Prim(w), Nums(raw)) + s
    ensures (forall i :: 0 <= i < len ==> Split(bs, w, len)[i].Num?) && raw == Numbers(Split(bs, w, len))
  {
    hide WFEnv, EncAll, Split, AllTyped;
    SplitIsNum(bs, w, len);
    var vs := Split(bs, w, len);
    raw := Numbers(vs);
    assert Nums(raw) == vs;
    SplitSound(env, 0, w, len, bs, s);
    EncAllToIsEncAll(env, 0, Prim(w), vs, s);
  }

  /** The length of an encoding: the bit count's prefix and whole elements. */
  lemma BitsLength(env: Env, order: Order, w: nat, bits: seq<bool>)
    requires WFEnv(env) && IsWidth(w) && |bits| <= MAX_BITS
    ensures |BitsEnc(env, order, w, bits)| == |LenPrefix(|bits|)| + Elts(w, |bits|) * w
  {
    hide WFEnv, Pow256, LenPrefix, Elts, Words, Unpack, EncAll;
    var ns := Words(order, w, bits);
    UnpackWords(order, w, bits);
    NumsTyped(env, w, ns);
    PrimsLength(env, 0, w, Nums(ns));
  }

  lemma {:induction false} BitsOfAt(n: nat, m: nat, p: nat)
    requires p < m
    ensures BitsOf(n, m)[p] <==> n / Pow2(p) % 2 == 1
    decreases m
  {
    if p > 0 {
      BitsOfAt(n / 2, m - 1, p - 1);
      HalfFirst(n, Pow2(p - 1));
    }
  }

  lemma HalfFirst(n: nat, m: nat)
    requires m > 0
    ensures n / (2 * m) == n / 2 / m
  {
    var h := n / 2;
    var q, r := h / m, h % m;
    assert h == q * m + r;
    assert n == q * (2 * m) + (2 * r + n % 2);
    DivUnique(n, 2 * m, q, 2 * r + n % 2);
  }

  /** Bit p of a number of w bytes, from its least significant end or from its most significant. */
  predicate BitIs(order: Order, w: nat, n: nat, p: nat)
    requires p < 8 * w
  {
    n / Pow2(if order.Lsb0? then p else 8 * w - 1 - p) % 2 == 1
  }

  lemma ViewAt(order: Order, w: nat, n: nat, p: nat)
    requires p < 8 * w
    ensures View(order, w, n)[p] <==> BitIs(order, w, n, p)
  {
    hide BitsOf, Pow2;
    BitsOfAt(n, 8 * w, if order.Lsb0? then p else 8 * w - 1 - p);
  }

  lemma {:induction false} UnpackAt(order: Order, w: nat, ns: seq<nat>, q: nat, p: nat)
    requires w > 0 && q < |ns| && p < 8 * w
    ensures 8 * w * q + p < 8 * w * |ns|
    ensures Unpack(order, w, ns)[8 * w * q + p] <==> BitIs(order, w, ns[q], p)
    decreases |ns|
  {
    hide View, BitIs;
    var d := 8 * w;
    MulStep(d, |ns| - 1);
    if q == 0 {
      ViewAt(order, w, ns[0], p);
    } else {
      MulStep(d, q - 1);
      UnpackAt(order, w, ns[1..], q - 1, p);
    }
  }

  /**
   The numbers written: bit 8w * q + p is bit p of element q, counted from the least significant
   end in Lsb0 order and from the most significant in Msb0; the bits after the last are zero.
   */
  lemma WordBits(order: Order, w: nat, bits: seq<bool>, q: nat, p: nat)
    requires w > 0 && q < |Words(order, w, bits)| && p < 8 * w
    ensures 8 * w * q + p < |bits| && bits[8 * w * q + p] <==> BitIs(order, w, Words(order, w, bits)[q], p)
  {
    hide Words, Unpack, BitIs, Pow256, Elts;
    UnpackWords(order, w, bits);
    UnpackAt(order, w, Words(order, w, bits), q, p);
  }

  /** The converse on the elements read: every bit returned is that bit of its element. */
  lemma BitsRead(env: Env, cfg: Cfg, order: Order, w: nat, st: St) returns (raw: seq<nat>)
    requires WFEnv(env) && WFCfg(env, cfg) && IsWidth(w) && st.depth <= cfg.maxDepth
    requires RunBits(env, cfg, order, w, st).Ok?
    ensures var o := RunBits(env, cfg, order, w, st);
      && |o.v| <= 0x1FFF_FFFF && |o.v| <= 8 * w * |raw| && AllTyped(env, 0, Prim(w), Nums(raw))
      && st.bytes == LenPrefix(|o.v|) + (EncAll(env, 0, Prim(w), Nums(raw)) + o.st.bytes)
      && ShowsBits(order, w, raw, o.v)
  {
    hide WFEnv, WFCfg, RunBits, LenPrefix, EncAll, AllTyped, Nums, Words, Unpack, Pow256, Elts, BitsEnc, IsWidth, ShowsBits;
    WidthRange(w);
    var o := RunBits(env, cfg, order, w, st);
    raw := BitsReencode(env, cfg, order, w, st);
    UnpackWords(order, w, o.v);
    var n := |o.v|;
    assert Unpack(order, w, Words(order, w, o.v))[..n] == o.v;
    assert o.v == Unpack(order, w, raw)[..n];
    FirstBits(order, w, raw, o.v);
  }

  /** The bits are those of the elements, in order. */
  ghost predicate ShowsBits(order: Order, w: nat, raw: seq<nat>, bits: seq<bool>) {
    forall q, p :: 0 <= q < |raw| && 0 <= p < 8 * w && 8 * w * q + p < |bits| ==>
      (bits[8 * w * q + p] <==> BitIs(order, w, raw[q], p))
  }

  lemma FirstBits(order: Order, w: nat, raw: seq<nat>, bits: seq<bool>)
    requires w > 0 && |bits| <= 8 * w * |raw| && bits == Unpack(order, w, raw)[..|bits|]
    ensures ShowsBits(order, w, raw, bits)
  {
    hide Unpack, BitIs;
    forall q, p | 0 <= q < |raw| && 0 <= p < 8 * w && 8 * w * q + p < |bits|
      ensures bits[8 * w * q + p] <==> BitIs(order, w, raw[q], p)
    {
      UnpackAt(order, w, raw, q, p);
    }
  }

  /** More bits than a 32-bit target can address are refused before an element is read. */
  lemma TooManyBits(env: Env, cfg: Cfg, order: Order, w: nat, st: St)
    requires WFEnv(env) && IsWidth(w) && RunCompact(4, st).Ok? && RunCompact(4, st).v > 0x1FFF_FFFF
    ensures RunBits(env, cfg, order, w, st) == Fail(RunCompact(4, st).st)
  {
    hide WFEnv, RunCompact;
  }
}
