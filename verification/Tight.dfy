/** The length bounds are the least ones: some value of the type is as long as its bound. */
module Tight {
  import opened Bytes
  import opened Types
  import opened CompactCodec
  import opened CompactWidths
  import opened Encode
  import opened Lengths

  /** No enum without variants inside: such a type has no value to attain its bound. */
  predicate Inhabited(env: Env, k: nat, ty: Ty)
    decreases k, ty
  {
    match ty
    case Pair(a, b) => Inhabited(env, k, a) && Inhabited(env, k, b)
    case Opt(t) => Inhabited(env, k, t)
    case Res(t, e) => Inhabited(env, k, t) && Inhabited(env, k, e)
    case Array(t, n) => Inhabited(env, k, t)
    case Vec(t) => Inhabited(env, k, t)
    case Coll(kind, t) => Inhabited(env, k, t)
    case Box(t) => Inhabited(env, k, t)
    case Enum(vs) => HasArm(vs) && InhabitedVariants(env, k, vs)
    case Named(j) => j < k && j < |env.defs| && Inhabited(env, j, env.defs[j])
    case _ => true
  }

  predicate InhabitedVariants(env: Env, k: nat, vs: Variants)
    decreases k, vs
  {
    vs.VCons? ==> (vs.skip || Inhabited(env, k, vs.ty)) && InhabitedVariants(env, k, vs.tail)
  }

  /** The value of type ty encodes to as many bytes as the longest one, as far as a usize can tell. */
  ghost predicate Attains(env: Env, k: nat, at: nat, ty: Ty, v: Val)
    requires WFEnv(env) && WF(env, at, ty) && Longest(env, k, ty).Some?
  {
    Typed(env, at, ty, v) && Sat(env, |Enc(env, at, ty, v)|) == Sat(env, Longest(env, k, ty).value)
  }

  /** max_encoded_len is attained: some value of the type is that long. */
  lemma MaxLenTight(env: Env, k: nat, at: nat, ty: Ty) returns (v: Val)
    requires WFEnv(env) && WF(env, at, ty) && MaxLen(env, k, ty).Some? && Inhabited(env, k, ty)
    ensures Typed(env, at, ty, v) && Sat(env, |Enc(env, at, ty, v)|) == Sat(env, MaxLen(env, k, ty).value)
  {
    hide WFEnv, WF, Typed, Enc, MaxLen, Longest, Inhabited, Sat;
    MaxLenIsLongest(env, k, ty);
    v := LongestTight(env, k, at, ty);
  }

  /** Some value of the type is as long as the longest is said to be. */
  lemma {:induction false} LongestTight(env: Env, k: nat, at: nat, ty: Ty) returns (v: Val)
    requires WFEnv(env) && WF(env, at, ty) && Longest(env, k, ty).Some? && Inhabited(env, k, ty)
    ensures Attains(env, k, at, ty, v)
    decreases k, ty, 1
  {
    hide WFEnv, WF, Pow256, LE, CompactOf, UsizeMax, Enc, Typed;
    match ty
    case Pair(a, b) =>
      WF1(env, at, ty);
      var x := LongestTight(env, k, at, a);
      var y := LongestTight(env, k, at, b);
      v := PairV(x, y);
      PairAttains(env, k, at, a, b, x, y);
    case Opt(t) =>
      WF1(env, at, ty);
      var x := LongestTight(env, k, at, t);
      v := SomeV(x);
      OptAttains(env, k, at, t, x);
    case Res(t, e) =>
      WF1(env, at, ty);
      var x := LongestTight(env, k, at, t);
      var y := LongestTight(env, k, at, e);
      v := if Longest(env, k, t).value >= Longest(env, k, e).value then OkV(x) else ErrV(y);
      ResAttains(env, k, at, t, e, x, y);
    case Array(t, n) =>
      WF1(env, at, ty);
      var x := LongestTight(env, k, at, t);
      v := Items(seq(n, _ => x));
      ArrayAttains(env, k, at, t, x, n);
    case Vec(t) =>
      WF1(env, at, ty);
      if t.Prim? {
        v := Items(seq(MostItems(env, t.w), _ => Num(1)));
        PrimsAttain(env, k, at, t.w);
      } else {
        var x := LongestTight(env, k, |env.defs|, t);
        v := Items(seq(U32_MAX, _ => x));
        VecAttains(env, k, at, t, x);
      }
    case Coll(kind, t) =>
      WF1(env, at, ty);
      var x := LongestTight(env, k, |env.defs|, t);
      v := Items(seq(U32_MAX, _ => x));
      ListAttains(env, k, at, t, x);
    case Box(t) =>
      WF1(env, at, ty);
      var x := LongestTight(env, k, |env.defs|, t);
      v := Ref(x);
      BoxAttains(env, k, at, t, x);
    case Enum(vs) =>
      WF1(env, at, ty);
      var i, x := VariantTight(env, k, at, vs);
      v := Variant(i, x);
      EnumAttains(env, k, at, vs, i, x);
    case Named(j) =>
      v := NamedTight(env, k, at, j);
    case _ =>
      v := LeafTight(env, k, at, ty);
  }

  lemma WF1(env: Env, k: nat, ty: Ty)
    requires WF(env, k, ty)
    ensures ty.Pair? ==> WF(env, k, ty.a) && WF(env, k, ty.b)
    ensures ty.Opt? ==> WF(env, k, ty.t)
    ensures ty.Res? ==> WF(env, k, ty.t) && WF(env, k, ty.e)
    ensures ty.Array? ==> WF(env, k, ty.t)
    ensures ty.Box? ==> WF(env, |env.defs|, ty.t)
    ensures ty.Vec? ==> WF(env, |env.defs|, ty.t)
    ensures ty.Coll? ==> WF(env, |env.defs|, ty.t)
    ensures ty.Enum? ==> WFVariants(env, k, ty.vs)
  {
  }

  lemma LeafTight(env: Env, k: nat, at: nat, ty: Ty) returns (v: Val)
    requires WFEnv(env) && WF(env, at, ty) && Longest(env, k, ty).Some? && IsLeaf(ty)
    ensures Attains(env, k, at, ty, v)
  {
    hide WFEnv, UsizeMax, CompactOf, LE, Pow256, LenPrefix, Utf8;
    match ty
    case Prim(w) => PowAbove(w); v := Num(1);
    case NonZero(w) => PowAbove(w); v := Num(1);
    case Bool => v := Flag(true);
    case Compact(w) =>
      PowAbove(w);
      v := Num(Pow256(w) - 1);
      LargestLength(w);
    case Duration => PowAbove(8); v := Dur(1, 0);
    case OptBool => v := Tri(None);
    case Str =>
      var bs: seq<byte> := seq(U32_MAX, _ => 97);
      Ascii(bs);
      LongestPrefix();
      v := Raw(bs);
    case Blob =>
      LongestPrefix();
      v := Raw(seq(U32_MAX, _ => 97));
    case Unit => v := UnitV;
    case Skip(d) => v := d;
  }

  /** A string of ASCII letters. */
  lemma {:induction false} Ascii(bs: seq<byte>)
    requires forall i :: 0 <= i < |bs| ==> bs[i] == 97
    ensures Utf8(bs)
    decreases |bs|
  {
    if bs != [] {
      Ascii(bs[1..]);
    }
  }

  lemma LongestPrefix()
    ensures |LenPrefix(U32_MAX)| == 5
  {
    hide CompactOf;
    PowValues();
    LargestLength(4);
  }

  lemma PowAbove(w: nat)
    requires IsWidth(w)
    ensures Pow256(w) >= 256
  {
    PowValues();
    PowMono(1, w);
  }

  /** The largest number of each width fills the buffer of that width. */
  lemma LargestLength(w: nat)
    requires IsWidth(w)
    ensures Pow256(w) >= 1 && |CompactOf(w, Pow256(w) - 1)| == Capacity(w)
  {
    hide CompactOf, NumBytes, Pow256, LeadingZeros;
    var n := Pow256(w) - 1;
    SmallBounds(w);
    CompactLenExact(w, n);
    BytesNeeded(w, n);
    if w >= 4 {
      LargestBytes(w);
    }
  }

  lemma LargestBytes(w: nat)
    requires IsWidth(w) && w >= 4
    ensures Pow256(w) - 1 > MAX30 && NumBytes(Pow256(w) - 1) == w
  {
    PowValues();
    PowMono(4, w);
    assert Pow256(w) == 256 * Pow256(w - 1);
    hide Pow256;
    NumBytesUnique(Pow256(w) - 1, w);
  }

  lemma PairAttains(env: Env, k: nat, at: nat, a: Ty, b: Ty, x: Val, y: Val)
    requires WFEnv(env) && WF(env, at, Pair(a, b)) && Longest(env, k, Pair(a, b)).Some?
    requires WF(env, at, a) && Longest(env, k, a).Some? && Attains(env, k, at, a, x)
    requires WF(env, at, b) && Longest(env, k, b).Some? && Attains(env, k, at, b, y)
    ensures Attains(env, k, at, Pair(a, b), PairV(x, y))
  {
    hide WFEnv, WF, UsizeMax;
  }

  lemma OptAttains(env: Env, k: nat, at: nat, t: Ty, x: Val)
    requires WFEnv(env) && WF(env, at, Opt(t)) && Longest(env, k, Opt(t)).Some?
    requires WF(env, at, t) && Longest(env, k, t).Some? && Attains(env, k, at, t, x)
    ensures Attains(env, k, at, Opt(t), SomeV(x))
  {
    hide WFEnv, WF, UsizeMax;
  }

  lemma ResAttains(env: Env, k: nat, at: nat, t: Ty, e: Ty, x: Val, y: Val)
    requires WFEnv(env) && WF(env, at, Res(t, e)) && Longest(env, k, Res(t, e)).Some?
    requires WF(env, at, t) && Longest(env, k, t).Some? && Attains(env, k, at, t, x)
    requires WF(env, at, e) && Longest(env, k, e).Some? && Attains(env, k, at, e, y)
    ensures Attains(env, k, at, Res(t, e),
                    if Longest(env, k, t).value >= Longest(env, k, e).value then OkV(x) else ErrV(y))
  {
    hide WFEnv, WF, UsizeMax;
  }

  lemma BoxAttains(env: Env, k: nat, at: nat, t: Ty, x: Val)
    requires WFEnv(env) && WF(env, at, Box(t)) && Longest(env, k, Box(t)).Some?
    requires WF(env, |env.defs|, t) && Longest(env, k, t).Some? && Attains(env, k, |env.defs|, t, x)
    ensures Attains(env, k, at, Box(t), Ref(x))
  {
    hide WFEnv, WF, UsizeMax;
  }

  lemma ArrayAttains(env: Env, k: nat, at: nat, t: Ty, x: Val, n: nat)
    requires WFEnv(env) && WF(env, at, Array(t, n)) && Longest(env, k, Array(t, n)).Some?
    requires WF(env, at, t) && Longest(env, k, t).Some? && Attains(env, k, at, t, x)
    ensures Attains(env, k, at, Array(t, n), Items(seq(n, _ => x)))
  {
    hide WFEnv, WF, UsizeMax;
    CopiesAttain(env, Longest(env, k, t).value, at, t, x, seq(n, _ => x));
  }

  lemma VecAttains(env: Env, k: nat, at: nat, t: Ty, x: Val)
    requires WFEnv(env) && WF(env, at, Vec(t)) && Longest(env, k, Vec(t)).Some? && !t.Prim?
    requires WF(env, |env.defs|, t) && Longest(env, k, t).Some? && Attains(env, k, |env.defs|, t, x)
    ensures Attains(env, k, at, Vec(t), Items(seq(U32_MAX, _ => x)))
  {
    hide WFEnv, WF, UsizeMax, LenPrefix, EncAll, AllTyped;
    var vs := seq(U32_MAX, _ => x);
    CopiesAttain(env, Longest(env, k, t).value, |env.defs|, t, x, vs);
    LongestPrefix();
    SatShift(env, 5, |EncAll(env, |env.defs|, t, vs)|, Longest(env, k, t).value * U32_MAX);
  }

  lemma ListAttains(env: Env, k: nat, at: nat, t: Ty, x: Val)
    requires WFEnv(env) && WF(env, at, Coll(ListKind, t)) && Longest(env, k, Coll(ListKind, t)).Some?
    requires WF(env, |env.defs|, t) && Longest(env, k, t).Some? && Attains(env, k, |env.defs|, t, x)
    ensures Attains(env, k, at, Coll(ListKind, t), Items(seq(U32_MAX, _ => x)))
  {
    hide WFEnv, WF, UsizeMax, LenPrefix, EncAll, AllTyped;
    var vs := seq(U32_MAX, _ => x);
    CopiesAttain(env, Longest(env, k, t).value, |env.defs|, t, x, vs);
    LongestPrefix();
    SatShift(env, 5, |EncAll(env, |env.defs|, t, vs)|, Longest(env, k, t).value * U32_MAX);
  }

  lemma SatShift(env: Env, p: nat, a: nat, b: nat)
    requires Sat(env, a) == Sat(env, b)
    ensures Sat(env, p + a) == Sat(env, p + b)
  {
    hide UsizeMax;
  }

  lemma PrimsAttain(env: Env, k: nat, at: nat, w: nat)
    requires WFEnv(env) && WF(env, at, Vec(Prim(w))) && Longest(env, k, Vec(Prim(w))).Some?
    requires WF(env, |env.defs|, Prim(w))
    ensures Attains(env, k, at, Vec(Prim(w)), Items(seq(MostItems(env, w), _ => Num(1))))
  {
    hide WFEnv, UsizeMax, LenPrefix, EncAll, Pow256;
    var vs := seq(MostItems(env, w), _ => Num(1));
    PowAbove(w);
    FewItems(env, w, 0);
    assert AllTyped(env, |env.defs|, Prim(w), vs);
    hide AllTyped;
    PrimsLength(env, |env.defs|, w, vs);
  }

  /** Copies of a value of m bytes take m bytes each. */
  lemma {:induction false} CopiesAttain(env: Env, m: nat, at: nat, t: Ty, x: Val, vs: seq<Val>)
    requires WFEnv(env) && WF(env, at, t) && Typed(env, at, t, x) && Sat(env, |Enc(env, at, t, x)|) == Sat(env, m)
    requires forall i :: 0 <= i < |vs| ==> vs[i] == x
    ensures AllTyped(env, at, t, vs) && Sat(env, |EncAll(env, at, t, vs)|) == Sat(env, m * |vs|)
    decreases |vs|
  {
    hide WFEnv, WF, Typed, Enc, UsizeMax, Sat;
    if vs != [] {
      CopiesAttain(env, m, at, t, x, vs[1..]);
      MulStep(m, |vs[1..]|);
      SatEqual(env, |Enc(env, at, t, vs[0])|, |EncAll(env, at, t, vs[1..])|, m, m * |vs[1..]|);
    }
  }

  lemma NamedTight(env: Env, k: nat, at: nat, j: nat) returns (v: Val)
    requires WFEnv(env) && WF(env, at, Named(j)) && Longest(env, k, Named(j)).Some? && Inhabited(env, k, Named(j))
    ensures Attains(env, k, at, Named(j), v)
    decreases k, Named(j), 0
  {
    v := LongestTight(env, j, j, env.defs[j]);
  }

  lemma EnumAttains(env: Env, k: nat, at: nat, vs: Variants, i: nat, x: Val)
    requires WFEnv(env) && WF(env, at, Enum(vs)) && Longest(env, k, Enum(vs)).Some?
    requires WFVariants(env, at, vs) && LongestVariants(env, k, vs).Some? && VariantAttains(env, k, at, vs, i, x)
    ensures Attains(env, k, at, Enum(vs), Variant(i, x))
  {
    hide WFEnv, WF, UsizeMax;
  }

  ghost predicate VariantAttains(env: Env, k: nat, at: nat, vs: Variants, i: nat, v: Val)
    requires WFEnv(env) && WFVariants(env, at, vs) && LongestVariants(env, k, vs).Some?
  {
    && TypedVariant(env, at, vs, i, v)
    && Sat(env, |EncVariant(env, at, vs, i, v)|) == Sat(env, LongestVariants(env, k, vs).value + 1)
  }

  lemma {:induction false} VariantTight(env: Env, k: nat, at: nat, vs: Variants) returns (i: nat, v: Val)
    requires WFEnv(env) && WFVariants(env, at, vs) && LongestVariants(env, k, vs).Some?
    requires HasArm(vs) && InhabitedVariants(env, k, vs)
    ensures VariantAttains(env, k, at, vs, i, v)
    decreases k, vs, 0
  {
    hide WFEnv, WF, Typed, Enc, Longest, UsizeMax, Inhabited;
    if vs.skip {
      i, v := VariantTight(env, k, at, vs.tail);
      i := i + 1;
    } else {
      v := LongestTight(env, k, at, vs.ty);
      i := 0;
      if HasArm(vs.tail) {
        var i', v' := VariantTight(env, k, at, vs.tail);
        if LongestVariants(env, k, vs.tail).value > Longest(env, k, vs.ty).value {
          i, v := i' + 1, v';
        }
      } else {
        NoArm(env, k, vs.tail);
      }
    }
  }

  lemma {:induction false} NoArm(env: Env, k: nat, vs: Variants)
    requires WFEnv(env) && !HasArm(vs)
    ensures LongestVariants(env, k, vs) == Some(0)
    decreases vs
  {
    if vs.VCons? {
      NoArm(env, k, vs.tail);
    }
  }
}
