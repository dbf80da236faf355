/** Static lengths: MaxEncodedLen, ConstEncodedLen, encoded_fixed_size, and skip. */
module Lengths {
  import opened Bytes
  import opened Types
  import opened Input
  import opened Encode
  import opened Decode
  import opened Soundness
  import opened Completeness
  import opened CompactWidths

  /** A usize that saturates. */
  function Sat(env: Env, n: nat): nat {
    Min(UsizeMax(env), n)
  }

  /**
   max_encoded_len, None where the trait is not implemented. A type that reaches itself
   through a Box has no value here: its max_encoded_len does not return.
   */
  function MaxLen(env: Env, k: nat, ty: Ty): Option<nat>
    requires WFEnv(env)
    decreases k, ty
  {
    match ty
    case Prim(w) => Some(w)
    case NonZero(w) => Some(w)
    case Bool => Some(1)
    case Compact(w) => Some(Capacity(w))
    case Duration => Some(12)
    case Unit => Some(0)
    case Skip(d) => Some(0)
    case Pair(a, b) => Plus(env, MaxLen(env, k, a), MaxLen(env, k, b))
    case Opt(t) => Plus(env, MaxLen(env, k, t), Some(1))
    case Res(t, e) => Plus(env, Larger(MaxLen(env, k, t), MaxLen(env, k, e)), Some(1))
    case Array(t, n) =>
      var m := MaxLen(env, k, t);
      if m.Some? then Some(Sat(env, m.value * n)) else None
    case Box(t) => MaxLen(env, k, t)
    case Enum(vs) => Plus(env, MaxLenVariants(env, k, vs), Some(1))
    case Named(j) => if j < k && j < |env.defs| then MaxLen(env, j, env.defs[j]) else None
    case _ => None
  }

  /** The longest variant that is not skipped. */
  function MaxLenVariants(env: Env, k: nat, vs: Variants): Option<nat>
    requires WFEnv(env)
    decreases k, vs
  {
    if vs.VNil? then Some(0)
    else if vs.skip then MaxLenVariants(env, k, vs.tail)
    else Larger(MaxLen(env, k, vs.ty), MaxLenVariants(env, k, vs.tail))
  }

  function Plus(env: Env, a: Option<nat>, b: Option<nat>): Option<nat> {
    if a.Some? && b.Some? then Some(Sat(env, a.value + b.value)) else None
  }

  function Larger(a: Option<nat>, b: Option<nat>): Option<nat> {
    if a.Some? && b.Some? then Some(Max(a.value, b.value)) else None
  }

  /** The most elements a vector of w-byte primitives can have. */
  function MostItems(env: Env, w: nat): nat {
    if w == 0 then U32_MAX else Min(U32_MAX, UsizeMax(env) / w)
  }

  /** A length prefix of five bytes and u32::MAX elements. */
  function Listed(env: Env, m: Option<nat>): Option<nat> {
    if m.Some? then Some(Sat(env, 5 + m.value * U32_MAX)) else None
  }

  /**
   The length of the longest encoding, as a usize that saturates, whether or not the source
   implements MaxEncodedLen. None for sets and maps and for types that reach themselves.
   */
  function Longest(env: Env, k: nat, ty: Ty): Option<nat>
    requires WFEnv(env)
    decreases k, ty
  {
    match ty
    case Prim(w) => Some(w)
    case NonZero(w) => Some(w)
    case Bool => Some(1)
    case OptBool => Some(1)
    case Compact(w) => Some(Capacity(w))
    case Duration => Some(12)
    case Str => Listed(env, Some(1))
    case Blob => Listed(env, Some(1))
    case Unit => Some(0)
    case Skip(d) => Some(0)
    case Pair(a, b) => Plus(env, Longest(env, k, a), Longest(env, k, b))
    case Opt(t) => Plus(env, Longest(env, k, t), Some(1))
    case Res(t, e) => Plus(env, Larger(Longest(env, k, t), Longest(env, k, e)), Some(1))
    case Array(t, n) =>
      var m := Longest(env, k, t);
      if m.Some? then Some(Sat(env, m.value * n)) else None
    case Vec(t) =>
      if t.Prim? then
        var n := MostItems(env, t.w);
        Some(Sat(env, |LenPrefix(n)| + n * t.w))
      else Listed(env, Longest(env, k, t))
    case Coll(kind, t) => if kind.ListKind? then Listed(env, Longest(env, k, t)) else None
    case Box(t) => Longest(env, k, t)
    case Enum(vs) => Plus(env, LongestVariants(env, k, vs), Some(1))
    case Named(j) => if j < k && j < |env.defs| then Longest(env, j, env.defs[j]) else None
  }

  function LongestVariants(env: Env, k: nat, vs: Variants): Option<nat>
    requires WFEnv(env)
    decreases k, vs
  {
    if vs.VNil? then Some(0)
    else if vs.skip then LongestVariants(env, k, vs.tail)
    else Larger(Longest(env, k, vs.ty), LongestVariants(env, k, vs.tail))
  }

  /** Where max_encoded_len is implemented, it is the length of the longest encoding. */
  lemma {:induction false} MaxLenIsLongest(env: Env, k: nat, ty: Ty)
    requires WFEnv(env) && MaxLen(env, k, ty).Some?
    ensures Longest(env, k, ty) == MaxLen(env, k, ty)
    decreases k, ty
  {
    hide WFEnv, UsizeMax, LenPrefix;
    match ty
    case Pair(a, b) =>
      MaxLenIsLongest(env, k, a);
      MaxLenIsLongest(env, k, b);
    case Opt(t) => MaxLenIsLongest(env, k, t);
    case Res(t, e) =>
      MaxLenIsLongest(env, k, t);
      MaxLenIsLongest(env, k, e);
    case Array(t, n) => MaxLenIsLongest(env, k, t);
    case Box(t) => MaxLenIsLongest(env, k, t);
    case Enum(vs) => VariantsAreLongest(env, k, vs);
    case Named(j) => MaxLenIsLongest(env, j, env.defs[j]);
    case _ =>
  }

  lemma {:induction false} VariantsAreLongest(env: Env, k: nat, vs: Variants)
    requires WFEnv(env) && MaxLenVariants(env, k, vs).Some?
    ensures LongestVariants(env, k, vs) == MaxLenVariants(env, k, vs)
    decreases k, vs
  {
    hide WFEnv, MaxLen, Longest;
    if vs.VCons? {
      if !vs.skip {
        MaxLenIsLongest(env, k, vs.ty);
      }
      VariantsAreLongest(env, k, vs.tail);
    }
  }

  /**
   No value encodes to more than max_encoded_len bytes; where the sum saturates, the bound is
   usize::MAX and says as much as a usize can.
   */
  lemma MaxLenSound(env: Env, k: nat, at: nat, ty: Ty, v: Val)
    requires WFEnv(env) && WF(env, at, ty) && Typed(env, at, ty, v) && MaxLen(env, k, ty).Some?
    ensures Sat(env, |Enc(env, at, ty, v)|) <= MaxLen(env, k, ty).value
  {
    hide WFEnv, WF, Typed, Enc, MaxLen, Longest, Sat;
    MaxLenIsLongest(env, k, ty);
    LongestSound(env, k, at, ty, v);
  }

  /** No value encodes to more bytes than the longest. */
  lemma {:induction false} LongestSound(env: Env, k: nat, at: nat, ty: Ty, v: Val)
    requires WFEnv(env) && WF(env, at, ty) && Typed(env, at, ty, v) && Longest(env, k, ty).Some?
    ensures Sat(env, |Enc(env, at, ty, v)|) <= Longest(env, k, ty).value
    decreases k, ty, 1
  {
    hide WFEnv, WF, Typed, Enc, Longest, UsizeMax, Sat;
    match ty
    case Pair(a, b) => PairLongest(env, k, at, ty, v);
    case Opt(t) => OneLongest(env, k, at, ty, v);
    case Res(t, e) => OneLongest(env, k, at, ty, v);
    case Array(t, n) => ArrayLongest(env, k, at, ty, v);
    case Vec(t) => VecLongest(env, k, at, ty, v);
    case Coll(kind, t) => ListLongest(env, k, at, ty, v);
    case Box(t) => OneLongest(env, k, at, ty, v);
    case Enum(vs) => EnumLongest(env, k, at, ty, v);
    case Named(j) => NamedLongest(env, k, at, ty, v);
    case _ => LeafLongest(env, k, at, ty, v);
  }

  lemma LeafLongest(env: Env, k: nat, at: nat, ty: Ty, v: Val)
    requires WFEnv(env) && WF(env, at, ty) && Typed(env, at, ty, v) && Longest(env, k, ty).Some? && IsLeaf(ty)
    ensures Sat(env, |Enc(env, at, ty, v)|) <= Longest(env, k, ty).value
  {
    hide WFEnv, Pow256, LE, CompactOf, LenPrefix, UsizeMax, Utf8;
    match ty
    case Compact(w) => CompactLenExact(w, v.n);
    case Str => PrefixAtMost(|v.bs|);
    case Blob => PrefixAtMost(|v.bs|);
    case _ =>
  }

  lemma PrefixAtMost(n: nat)
    requires n <= U32_MAX
    ensures |LenPrefix(n)| <= 5
  {
    hide CompactOf, CompactLen;
    PowValues();
    CompactLenExact(4, n);
  }

  lemma PrefixMonotone(n: nat, m: nat)
    requires n <= m <= U32_MAX
    ensures |LenPrefix(n)| <= |LenPrefix(m)|
  {
    hide CompactOf, CompactLen;
    PowValues();
    CompactLenExact(4, n);
    CompactLenExact(4, m);
    CompactLenMonotone(4, n, m);
  }

  lemma PairLongest(env: Env, k: nat, at: nat, ty: Ty, v: Val)
    requires WFEnv(env) && WF(env, at, ty) && Typed(env, at, ty, v) && Longest(env, k, ty).Some? && ty.Pair?
    ensures Sat(env, |Enc(env, at, ty, v)|) <= Longest(env, k, ty).value
    decreases k, ty, 0
  {
    hide WFEnv, UsizeMax;
    LongestSound(env, k, at, ty.a, v.a);
    LongestSound(env, k, at, ty.b, v.b);
  }

  lemma OneLongest(env: Env, k: nat, at: nat, ty: Ty, v: Val)
    requires WFEnv(env) && WF(env, at, ty) && Typed(env, at, ty, v) && Longest(env, k, ty).Some?
    requires ty.Opt? || ty.Res? || ty.Box?
    ensures Sat(env, |Enc(env, at, ty, v)|) <= Longest(env, k, ty).value
    decreases k, ty, 0
  {
    hide WFEnv, UsizeMax;
    if v.SomeV? || v.OkV? {
      LongestSound(env, k, at, ty.t, v.v);
    } else if v.ErrV? {
      LongestSound(env, k, at, ty.e, v.v);
    } else if v.Ref? {
      LongestSound(env, k, |env.defs|, ty.t, v.v);
    }
  }

  lemma ArrayLongest(env: Env, k: nat, at: nat, ty: Ty, v: Val)
    requires WFEnv(env) && WF(env, at, ty) && Typed(env, at, ty, v) && Longest(env, k, ty).Some? && ty.Array?
    ensures Sat(env, |Enc(env, at, ty, v)|) <= Longest(env, k, ty).value
    decreases k, ty, 0
  {
    hide WFEnv, UsizeMax, EncAll, AllTyped;
    LongestAll(env, k, at, ty.t, v.vs);
  }

  lemma VecLongest(env: Env, k: nat, at: nat, ty: Ty, v: Val)
    requires WFEnv(env) && WF(env, at, ty) && Typed(env, at, ty, v) && Longest(env, k, ty).Some? && ty.Vec?
    ensures Sat(env, |Enc(env, at, ty, v)|) <= Longest(env, k, ty).value
    decreases k, ty, 0
  {
    hide WFEnv, UsizeMax, EncAll, AllTyped, LenPrefix;
    var t, d := ty.t, |env.defs|;
    if t.Prim? {
      PrimsLength(env, d, t.w, v.vs);
      FewItems(env, t.w, |v.vs|);
      PrefixMonotone(|v.vs|, MostItems(env, t.w));
      MulMono(|v.vs|, MostItems(env, t.w), t.w);
    } else {
      LongestAll(env, k, d, t, v.vs);
      ListedBound(env, Longest(env, k, t).value, |v.vs|, |EncAll(env, d, t, v.vs)|);
    }
  }

  lemma ListLongest(env: Env, k: nat, at: nat, ty: Ty, v: Val)
    requires WFEnv(env) && WF(env, at, ty) && Typed(env, at, ty, v) && Longest(env, k, ty).Some? && ty.Coll?
    ensures Sat(env, |Enc(env, at, ty, v)|) <= Longest(env, k, ty).value
    decreases k, ty, 0
  {
    hide WFEnv, UsizeMax, EncAll, AllTyped, LenPrefix;
    var d := |env.defs|;
    LongestAll(env, k, d, ty.t, v.vs);
    ListedBound(env, Longest(env, k, ty.t).value, |v.vs|, |EncAll(env, d, ty.t, v.vs)|);
  }

  lemma ListedBound(env: Env, m: nat, n: nat, all: nat)
    requires n <= U32_MAX && Sat(env, all) <= Sat(env, m * n)
    ensures Sat(env, |LenPrefix(n)| + all) <= Sat(env, 5 + m * U32_MAX)
  {
    hide UsizeMax, LenPrefix;
    PrefixAtMost(n);
    MulMono(n, U32_MAX, m);
  }

  lemma FewItems(env: Env, w: nat, n: nat)
    requires w > 0 && n <= U32_MAX && n * w <= UsizeMax(env)
    ensures n <= MostItems(env, w) && MostItems(env, w) * w <= UsizeMax(env)
  {
    hide UsizeMax;
    var q := UsizeMax(env) / w;
    assert q * w <= UsizeMax(env) < (q + 1) * w;
    if n > q {
      MulMono(q + 1, n, w);
    }
    MulMono(MostItems(env, w), q, w);
  }

  lemma {:induction false} PrimsLength(env: Env, k: nat, w: nat, vs: seq<Val>)
    requires WFEnv(env) && IsWidth(w) && AllTyped(env, k, Prim(w), vs)
    ensures |EncAll(env, k, Prim(w), vs)| == |vs| * w
    decreases |vs|
  {
    hide WFEnv, Pow256, LE;
    if vs != [] {
      PrimsLength(env, k, w, vs[1..]);
      MulStep(w, |vs| - 1);
    }
  }

  lemma EnumLongest(env: Env, k: nat, at: nat, ty: Ty, v: Val)
    requires WFEnv(env) && WF(env, at, ty) && Typed(env, at, ty, v) && Longest(env, k, ty).Some? && ty.Enum?
    ensures Sat(env, |Enc(env, at, ty, v)|) <= Longest(env, k, ty).value
    decreases k, ty, 0
  {
    hide WFEnv, UsizeMax, EncVariant, TypedVariant;
    VariantLongest(env, k, at, ty.vs, v.i, v.v);
  }

  lemma NamedLongest(env: Env, k: nat, at: nat, ty: Ty, v: Val)
    requires WFEnv(env) && WF(env, at, ty) && Typed(env, at, ty, v) && Longest(env, k, ty).Some? && ty.Named?
    ensures Sat(env, |Enc(env, at, ty, v)|) <= Longest(env, k, ty).value
    decreases k, ty, 0
  {
    LongestSound(env, ty.j, ty.j, env.defs[ty.j], v);
  }

  lemma {:induction false} LongestAll(env: Env, k: nat, at: nat, t: Ty, vs: seq<Val>)
    requires WFEnv(env) && WF(env, at, t) && AllTyped(env, at, t, vs) && Longest(env, k, t).Some?
    ensures Sat(env, |EncAll(env, at, t, vs)|) <= Sat(env, Longest(env, k, t).value * |vs|)
    decreases k, t, 2, |vs|
  {
    hide WFEnv, WF, Typed, Enc, Longest, UsizeMax, Sat;
    if vs != [] {
      var m := Longest(env, k, t).value;
      LongestSound(env, k, at, t, vs[0]);
      LongestAll(env, k, at, t, vs[1..]);
      MulStep(m, |vs[1..]|);
      SatBelow(env, |Enc(env, at, t, vs[0])|, |EncAll(env, at, t, vs[1..])|, m, m * |vs[1..]|);
    }
  }

  lemma SatBelow(env: Env, a: nat, b: nat, m: nat, p: nat)
    requires Sat(env, a) <= m && Sat(env, b) <= Sat(env, p)
    ensures Sat(env, a + b) <= Sat(env, p + m)
  {
    hide UsizeMax;
  }

  lemma SatEqual(env: Env, a: nat, b: nat, m: nat, p: nat)
    requires Sat(env, a) == Sat(env, m) && Sat(env, b) == Sat(env, p)
    ensures Sat(env, a + b) == Sat(env, p + m)
  {
    hide UsizeMax;
  }

  lemma {:induction false} VariantLongest(env: Env, k: nat, at: nat, vs: Variants, i: nat, v: Val)
    requires WFEnv(env) && WFVariants(env, at, vs) && TypedVariant(env, at, vs, i, v)
    requires LongestVariants(env, k, vs).Some?
    ensures Sat(env, |EncVariant(env, at, vs, i, v)|) <= Sat(env, LongestVariants(env, k, vs).value + 1)
    decreases k, vs, 1
  {
    hide WFEnv, WF, Typed, Enc, Longest, UsizeMax;
    if i > 0 {
      VariantLongest(env, k, at, vs.tail, i - 1, v);
    } else if !vs.skip {
      LongestSound(env, k, at, vs.ty, v);
    }
  }

  /** The types marked ConstEncodedLen. */
  predicate ConstLen(ty: Ty) {
    match ty
    case Prim(w) => true
    case NonZero(w) => true
    case Bool => true
    case Duration => true
    case Unit => true
    case Pair(a, b) => ConstLen(a) && ConstLen(b)
    case Array(t, n) => ConstLen(t)
    case Box(t) => ConstLen(t)
    case _ => false
  }

  /** All values of a ConstEncodedLen type have the same length, the maximum. */
  lemma {:induction false} ConstLenExact(env: Env, k: nat, at: nat, ty: Ty, v: Val)
    requires WFEnv(env) && WF(env, at, ty) && Typed(env, at, ty, v) && ConstLen(ty)
    ensures MaxLen(env, k, ty).Some?
    ensures Sat(env, |Enc(env, at, ty, v)|) == Sat(env, MaxLen(env, k, ty).value)
    decreases ty, 1
  {
    hide WFEnv, Pow256, LE, UsizeMax;
    match ty
    case Pair(a, b) =>
      ConstLenExact(env, k, at, a, v.a);
      ConstLenExact(env, k, at, b, v.b);
    case Array(t, n) =>
      MaxLenDefined(env, k, t);
      ConstLenAll(env, k, at, t, v.vs);
    case Box(t) => ConstLenExact(env, k, |env.defs|, t, v.v);
    case _ =>
  }

  lemma {:induction false} MaxLenDefined(env: Env, k: nat, ty: Ty)
    requires WFEnv(env) && ConstLen(ty)
    ensures MaxLen(env, k, ty).Some?
    decreases ty
  {
    hide WFEnv, UsizeMax;
    match ty
    case Pair(a, b) =>
      MaxLenDefined(env, k, a);
      MaxLenDefined(env, k, b);
    case Array(t, n) => MaxLenDefined(env, k, t);
    case Box(t) => MaxLenDefined(env, k, t);
    case _ =>
  }

  lemma {:induction false} ConstLenAll(env: Env, k: nat, at: nat, t: Ty, vs: seq<Val>)
    requires WFEnv(env) && WF(env, at, t) && AllTyped(env, at, t, vs) && ConstLen(t)
    requires MaxLen(env, k, t).Some?
    ensures Sat(env, |EncAll(env, at, t, vs)|) == Sat(env, MaxLen(env, k, t).value * |vs|)
    decreases t, 2, |vs|
  {
    hide WFEnv, WF, Typed, Enc, MaxLen, UsizeMax, ConstLen, Sat;
    if vs != [] {
      ConstLenExact(env, k, at, t, vs[0]);
      ConstLenAll(env, k, at, t, vs[1..]);
      MulStep(MaxLen(env, k, t).value, |vs[1..]|);
      SatEqual(env, |Enc(env, at, t, vs[0])|, |EncAll(env, at, t, vs[1..])|,
               MaxLen(env, k, t).value, MaxLen(env, k, t).value * |vs[1..]|);
    }
  }

  /** encoded_fixed_size: u8 and i8 keep the default None. */
  function FixedSize(ty: Ty): Option<nat> {
    match ty
    case Prim(w) => if w == 1 then None else Some(w)
    case Bool => Some(1)
    case Array(t, n) =>
      var s := FixedSize(t);
      if s.Some? then Some(s.value * n) else None
    case _ => None
  }

  /** A fixed size is the length of every encoding. */
  lemma {:induction false} FixedSizeExact(env: Env, k: nat, ty: Ty, v: Val)
    requires WFEnv(env) && WF(env, k, ty) && Typed(env, k, ty, v) && FixedSize(ty).Some?
    ensures |Enc(env, k, ty, v)| == FixedSize(ty).value
    decreases ty, 0
  {
    hide WFEnv, Pow256, LE;
    if ty.Array? {
      FixedSizeAll(env, k, ty.t, v.vs);
    }
  }

  lemma {:induction false} FixedSizeAll(env: Env, k: nat, t: Ty, vs: seq<Val>)
    requires WFEnv(env) && WF(env, k, t) && AllTyped(env, k, t, vs) && FixedSize(t).Some?
    ensures |EncAll(env, k, t, vs)| == FixedSize(t).value * |vs|
    decreases t, 1, |vs|
  {
    hide WFEnv, WF, Typed, Enc, FixedSize;
    if vs != [] {
      FixedSizeExact(env, k, t, vs[0]);
      FixedSizeAll(env, k, t, vs[1..]);
      MulStep(FixedSize(t).value, |vs[1..]|);
    }
  }

  /** skip: an array of fixed size skips its elements, everything else decodes. */
  function RunSkip(env: Env, cfg: Cfg, k: nat, ty: Ty, st: St): (o: Out<()>)
    requires WFEnv(env) && WF(env, k, ty) && st.depth <= cfg.maxDepth
    ensures o.Ok? ==> o.st.depth == st.depth
    decreases ty, 0, 0
  {
    if ty.Array? && FixedSize(ty).Some? then RunSkips(env, cfg, k, ty.t, ty.n, st)
    else
      var (st1, _) :- Run(env, cfg, k, ty, st);
      Ok(st1, ())
  }

  function RunSkips(env: Env, cfg: Cfg, k: nat, t: Ty, n: nat, st: St): (o: Out<()>)
    requires WFEnv(env) && WF(env, k, t) && st.depth <= cfg.maxDepth
    ensures o.Ok? ==> o.st.depth == st.depth
    decreases t, 1, n
  {
    if n == 0 then Ok(st, ())
    else
      var (st1, _) :- RunSkip(env, cfg, k, t, st);
      RunSkips(env, cfg, k, t, n - 1, st1)
  }

  /** Two outcomes agree on success and, then, on what is left of the input. */
  predicate SameEnd<T, U>(a: Out<T>, b: Out<U>) {
    a.Ok? == b.Ok? && (a.Ok? ==> a.st.bytes == b.st.bytes && a.st.depth == b.st.depth && a.st.used == b.st.used)
  }

  /** skip succeeds exactly when decode does, and consumes the same bytes. */
  lemma {:induction false} SkipIsDecode(env: Env, cfg: Cfg, k: nat, ty: Ty, st: St)
    requires WFEnv(env) && WFCfg(env, cfg) && WF(env, k, ty) && st.depth <= cfg.maxDepth
    ensures SameEnd(RunSkip(env, cfg, k, ty, st), Run(env, cfg, k, ty, st))
    decreases ty, 0, 0
  {
    hide WFEnv, WFCfg, RunItems, RunSkips, FixedSize;
    if ty.Array? && FixedSize(ty).Some? {
      SkipsAreItems(env, cfg, k, ty.t, ty.n, st, st);
      if ty.t.Prim? {
        ArrayBulkIsItems(env, cfg, k, ty.t.w, ty.n, st);
      }
    }
  }

  lemma {:induction false} SkipsAreItems(env: Env, cfg: Cfg, k: nat, t: Ty, n: nat, st: St, st': St)
    requires WFEnv(env) && WFCfg(env, cfg) && WF(env, k, t) && st.depth <= cfg.maxDepth
    requires st'.bytes == st.bytes && st'.depth == st.depth && st'.used == st.used
    ensures SameEnd(RunSkips(env, cfg, k, t, n, st), RunItems(env, cfg, k, t, n, st'))
    decreases t, 1, n
  {
    hide WFEnv, WFCfg, WF, Run, RunSkip;
    if n > 0 {
      SkipIsDecode(env, cfg, k, t, st);
      CounterIrrelevant(env, cfg, k, t, st, st');
      var o, o' := RunSkip(env, cfg, k, t, st), Run(env, cfg, k, t, st');
      if o.Ok? {
        SkipsAreItems(env, cfg, k, t, n - 1, o.st, o'.st);
      }
    }
  }

  /** The byte counter never influences a decode. */
  lemma CounterIrrelevant(env: Env, cfg: Cfg, k: nat, ty: Ty, st: St, st': St)
    requires WFEnv(env) && WFCfg(env, cfg) && WF(env, k, ty) && st.depth <= cfg.maxDepth
    requires st'.bytes == st.bytes && st'.depth == st.depth && st'.used == st.used
    ensures SameEnd(Run(env, cfg, k, ty, st), Run(env, cfg, k, ty, st'))
  {
    hide WFEnv, WFCfg, WF, Typed, Reach, Reset, EncTo, Needs, Fits, Run, Charged;
    var o, o' := Run(env, cfg, k, ty, st), Run(env, cfg, k, ty, st');
    if o.Ok? {
      RunSound(env, cfg, k, ty, st);
      FitsSame(cfg, st, st', Needs(env, k, ty, o.v));
      RunComplete(env, cfg, k, ty, st', o.v, o.st.bytes);
    } else if o'.Ok? {
      RunSound(env, cfg, k, ty, st');
      FitsSame(cfg, st', st, Needs(env, k, ty, o'.v));
      RunComplete(env, cfg, k, ty, st, o'.v, o'.st.bytes);
    }
  }

  /** One read for a whole array of primitives agrees with reading them one by one. */
  lemma ArrayBulkIsItems(env: Env, cfg: Cfg, k: nat, w: nat, n: nat, st: St)
    requires WFEnv(env) && WFCfg(env, cfg) && WF(env, k, Prim(w)) && st.depth <= cfg.maxDepth
    ensures SameEnd(Read(st, n * w), RunItems(env, cfg, k, Prim(w), n, st))
  {
    hide WFEnv, WFCfg, WF, RunItems, EncAllTo, AllTyped, AllReach, ResetAll, NeedsAll, Charged, Fits;
    var m, each := n * w, RunItems(env, cfg, k, Prim(w), n, st);
    if m <= |st.bytes| {
      var bs := st.bytes[..m];
      assert st.bytes == bs + st.bytes[m..];
      SplitSound(env, k, w, n, bs, st.bytes[m..]);
      FitsNothing(cfg, st);
      ItemsComplete(env, cfg, k, Prim(w), st, Split(bs, w, n), st.bytes[m..]);
    } else if each.Ok? {
      ItemsSound(env, cfg, k, Prim(w), n, st);
      SplitComplete(env, k, w, each.v, each.st.bytes);
    }
  }

  /** The types that implement MaxEncodedLen, through the fields of their encoded variants. */
  predicate HasMaxLen(env: Env, k: nat, ty: Ty)
    decreases k, ty
  {
    && !ty.OptBool? && !ty.Str? && !ty.Blob? && !ty.Vec? && !ty.Coll?
    && (ty.Pair? ==> HasMaxLen(env, k, ty.a) && HasMaxLen(env, k, ty.b))
    && (ty.Opt? || ty.Res? || ty.Array? || ty.Box? ==> HasMaxLen(env, k, ty.t))
    && (ty.Res? ==> HasMaxLen(env, k, ty.e))
    && (ty.Enum? ==> HaveMaxLen(env, k, ty.vs))
    && (ty.Named? ==> ty.j < k && ty.j < |env.defs| && HasMaxLen(env, ty.j, env.defs[ty.j]))
  }

  predicate HaveMaxLen(env: Env, k: nat, vs: Variants)
    decreases k, vs
  {
    vs.VCons? ==> (vs.skip || HasMaxLen(env, k, vs.ty)) && HaveMaxLen(env, k, vs.tail)
  }

  /** Only strings, vectors, collections, OptionBool and endless types go without a bound. */
  lemma {:induction false} MaxLenImplemented(env: Env, k: nat, ty: Ty)
    requires WFEnv(env)
    ensures MaxLen(env, k, ty).Some? <==> HasMaxLen(env, k, ty)
    decreases k, ty
  {
    hide WFEnv, UsizeMax;
    match ty
    case Pair(a, b) =>
      MaxLenImplemented(env, k, a);
      MaxLenImplemented(env, k, b);
    case Opt(t) => MaxLenImplemented(env, k, t);
    case Res(t, e) =>
      MaxLenImplemented(env, k, t);
      MaxLenImplemented(env, k, e);
    case Array(t, n) => MaxLenImplemented(env, k, t);
    case Box(t) => MaxLenImplemented(env, k, t);
    case Enum(vs) => MaxLensImplemented(env, k, vs);
    case Named(j) => if j < k && j < |env.defs| { MaxLenImplemented(env, j, env.defs[j]); }
    case _ =>
  }

  lemma {:induction false} MaxLensImplemented(env: Env, k: nat, vs: Variants)
    requires WFEnv(env)
    ensures MaxLenVariants(env, k, vs).Some? <==> HaveMaxLen(env, k, vs)
    decreases k, vs
  {
    hide WFEnv, MaxLen, HasMaxLen;
    if vs.VCons? {
      MaxLenImplemented(env, k, vs.ty);
      MaxLensImplemented(env, k, vs.tail);
    }
  }

  /** The type itself and the types it is built of. */
  function Within(ty: Ty): set<Ty> {
    match ty
    case Pair(a, b) => {ty} + Within(a) + Within(b)
    case Opt(t) => {ty} + Within(t)
    case Res(t, e) => {ty} + Within(t) + Within(e)
    case Array(t, n) => {ty} + Within(t)
    case Vec(t) => {ty} + Within(t)
    case Coll(kind, t) => {ty} + Within(t)
    case Box(t) => {ty} + Within(t)
    case _ => {ty}
  }

  /** Marked constant are exactly the types without a sum, a vector, a string or a compact integer inside. */
  lemma {:induction false} ConstLenIff(ty: Ty)
    ensures ConstLen(ty) <==>
      forall t :: t in Within(ty) ==>
        t.Prim? || t.NonZero? || t.Bool? || t.Duration? || t.Unit? || t.Pair? || t.Array? || t.Box?
  {
    assert ty in Within(ty);
    match ty
    case Pair(a, b) =>
      ConstLenIff(a);
      ConstLenIff(b);
    case Array(t, n) => ConstLenIff(t);
    case Box(t) => ConstLenIff(t);
    case _ =>
  }

  /** Arrays of arrays, the outermost length first. */
  function ArrayOf(base: Ty, dims: seq<nat>): Ty {
    if dims == [] then base else Array(ArrayOf(base, dims[1..]), dims[0])
  }

  /** A fixed size is claimed exactly for bool, for primitives wider than a byte, and for arrays of these. */
  lemma {:induction false} FixedSizeIff(ty: Ty)
    ensures FixedSize(ty).Some? <==>
      exists base, dims :: ty == ArrayOf(base, dims) && (base.Bool? || (base.Prim? && base.w != 1))
  {
    if FixedSize(ty).Some? {
      var base, dims := Unnested(ty);
      assert ty == ArrayOf(base, dims);
    }
    if base, dims :| ty == ArrayOf(base, dims) && (base.Bool? || (base.Prim? && base.w != 1)) {
      NestedFixed(base, dims);
    }
  }

  lemma {:induction false} Unnested(ty: Ty) returns (base: Ty, dims: seq<nat>)
    requires FixedSize(ty).Some?
    ensures ty == ArrayOf(base, dims) && (base.Bool? || (base.Prim? && base.w != 1))
  {
    if ty.Array? {
      base, dims := Unnested(ty.t);
      var inner := dims;
      dims := [ty.n] + inner;
      assert dims[1..] == inner;
    } else {
      base, dims := ty, [];
    }
  }

  lemma {:induction false} NestedFixed(base: Ty, dims: seq<nat>)
    requires base.Bool? || (base.Prim? && base.w != 1)
    ensures FixedSize(ArrayOf(base, dims)).Some?
    decreases |dims|
  {
    if dims != [] {
      NestedFixed(base, dims[1..]);
    }
  }
}
