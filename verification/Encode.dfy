/** The encoder, and what decoding an encoded value will ask of the input's limits. */
module Encode {
  import opened Bytes
  import opened Types
  import opened Input
  import opened CompactCodec

  /** Compact(n) for an integer type of w bytes. */
  function CompactOf(w: nat, n: nat): seq<byte>
    requires IsWidth(w) && n < Pow256(w)
  {
    NumBytesFits(n, w);
    CompactEnc(n)
  }

  /** compact_encode_len_to. */
  function LenPrefix(n: nat): seq<byte>
    requires n <= U32_MAX
  {
    PowValues();
    CompactOf(4, n)
  }

  function TriByte(o: Option<bool>): byte {
    match o
    case None => 0
    case Some(true) => 1
    case Some(false) => 2
  }

  /** The bytes encode_to appends for v. A value of a skipped variant appends nothing. */
  function Enc(env: Env, k: nat, ty: Ty, v: Val): seq<byte>
    requires WFEnv(env) && WF(env, k, ty) && Typed(env, k, ty, v)
    decreases v, k, ty
  {
    match ty
    case Prim(w) => LE(v.n, w)
    case NonZero(w) => LE(v.n, w)
    case Bool => [if v.on then 1 else 0]
    case OptBool => [TriByte(v.tri)]
    case Compact(w) => CompactOf(w, v.n)
    case Duration => LE(v.secs, 8) + LE(v.nanos, 4)
    case Str => LenPrefix(|v.bs|) + v.bs
    case Blob => LenPrefix(|v.bs|) + v.bs
    case Unit => []
    case Pair(a, b) => Enc(env, k, a, v.a) + Enc(env, k, b, v.b)
    case Opt(t) => if v.NoneV? then [0] else [1] + Enc(env, k, t, v.v)
    case Res(t, e) => if v.OkV? then [0] + Enc(env, k, t, v.v) else [1] + Enc(env, k, e, v.v)
    case Array(t, n) => EncAll(env, k, t, v.vs)
    case Vec(t) => LenPrefix(|v.vs|) + EncAll(env, |env.defs|, t, v.vs)
    case Coll(kind, t) => LenPrefix(|v.vs|) + EncAll(env, |env.defs|, t, v.vs)
    case Box(t) => Enc(env, |env.defs|, t, v.v)
    case Skip(d) => []
    case Enum(vs) => EncVariant(env, k, vs, v.i, v.v)
    case Named(j) => Enc(env, j, env.defs[j], v)
  }

  /** encode_slice_no_len. */
  function EncAll(env: Env, k: nat, t: Ty, vs: seq<Val>): seq<byte>
    requires WFEnv(env) && WF(env, k, t) && AllTyped(env, k, t, vs)
    decreases vs, k, t
  {
    if vs == [] then [] else Enc(env, k, t, vs[0]) + EncAll(env, k, t, vs[1..])
  }

  function EncVariant(env: Env, k: nat, vs: Variants, i: nat, v: Val): seq<byte>
    requires WFEnv(env) && WFVariants(env, k, vs) && TypedVariant(env, k, vs, i, v)
    decreases v, k, vs
  {
    if i > 0 then EncVariant(env, k, vs.tail, i - 1, v)
    else if vs.skip then []
    else [vs.tag] + Enc(env, k, vs.ty, v)
  }

  /** Enc(v) + s, built from the right: it keeps concatenations nested the way a decoder reads. */
  function EncTo(env: Env, k: nat, ty: Ty, v: Val, s: seq<byte>): seq<byte>
    requires WFEnv(env) && WF(env, k, ty) && Typed(env, k, ty, v)
    decreases v, k, ty
  {
    match ty
    case Prim(w) => LE(v.n, w) + s
    case NonZero(w) => LE(v.n, w) + s
    case Bool => [if v.on then 1 else 0] + s
    case OptBool => [TriByte(v.tri)] + s
    case Compact(w) => CompactOf(w, v.n) + s
    case Duration => LE(v.secs, 8) + (LE(v.nanos, 4) + s)
    case Str => LenPrefix(|v.bs|) + (v.bs + s)
    case Blob => LenPrefix(|v.bs|) + (v.bs + s)
    case Unit => s
    case Pair(a, b) => EncTo(env, k, a, v.a, EncTo(env, k, b, v.b, s))
    case Opt(t) => if v.NoneV? then [0] + s else [1] + EncTo(env, k, t, v.v, s)
    case Res(t, e) => if v.OkV? then [0] + EncTo(env, k, t, v.v, s) else [1] + EncTo(env, k, e, v.v, s)
    case Array(t, n) => EncAllTo(env, k, t, v.vs, s)
    case Vec(t) => LenPrefix(|v.vs|) + EncAllTo(env, |env.defs|, t, v.vs, s)
    case Coll(kind, t) => LenPrefix(|v.vs|) + EncAllTo(env, |env.defs|, t, v.vs, s)
    case Box(t) => EncTo(env, |env.defs|, t, v.v, s)
    case Skip(d) => s
    case Enum(vs) => EncVariantTo(env, k, vs, v.i, v.v, s)
    case Named(j) => EncTo(env, j, env.defs[j], v, s)
  }

  function EncAllTo(env: Env, k: nat, t: Ty, vs: seq<Val>, s: seq<byte>): seq<byte>
    requires WFEnv(env) && WF(env, k, t) && AllTyped(env, k, t, vs)
    decreases vs, k, t
  {
    if vs == [] then s else EncTo(env, k, t, vs[0], EncAllTo(env, k, t, vs[1..], s))
  }

  function EncVariantTo(env: Env, k: nat, vs: Variants, i: nat, v: Val, s: seq<byte>): seq<byte>
    requires WFEnv(env) && WFVariants(env, k, vs) && TypedVariant(env, k, vs, i, v)
    decreases v, k, vs
  {
    if i > 0 then EncVariantTo(env, k, vs.tail, i - 1, v, s)
    else if vs.skip then s
    else [vs.tag] + EncTo(env, k, vs.ty, v, s)
  }

  lemma {:induction false} EncToIsEnc(env: Env, k: nat, ty: Ty, v: Val, s: seq<byte>)
    requires WFEnv(env) && WF(env, k, ty) && Typed(env, k, ty, v)
    ensures EncTo(env, k, ty, v, s) == Enc(env, k, ty, v) + s
    decreases v, k, ty
  {
    match ty
    case Pair(a, b) =>
      EncToIsEnc(env, k, b, v.b, s);
      EncToIsEnc(env, k, a, v.a, EncTo(env, k, b, v.b, s));
      Assoc(Enc(env, k, a, v.a), Enc(env, k, b, v.b), s);
    case Opt(t) =>
      if v.SomeV? {
        EncToIsEnc(env, k, t, v.v, s);
        Assoc([1], Enc(env, k, t, v.v), s);
      }
    case Res(t, e) =>
      if v.OkV? {
        EncToIsEnc(env, k, t, v.v, s);
        Assoc([0], Enc(env, k, t, v.v), s);
      } else {
        EncToIsEnc(env, k, e, v.v, s);
        Assoc([1], Enc(env, k, e, v.v), s);
      }
    case Array(t, n) => EncAllToIsEncAll(env, k, t, v.vs, s);
    case Vec(t) =>
      EncAllToIsEncAll(env, |env.defs|, t, v.vs, s);
      Assoc(LenPrefix(|v.vs|), EncAll(env, |env.defs|, t, v.vs), s);
    case Coll(kind, t) =>
      EncAllToIsEncAll(env, |env.defs|, t, v.vs, s);
      Assoc(LenPrefix(|v.vs|), EncAll(env, |env.defs|, t, v.vs), s);
    case Box(t) => EncToIsEnc(env, |env.defs|, t, v.v, s);
    case Enum(vs) => EncVariantToIsEnc(env, k, vs, v.i, v.v, s);
    case Named(j) => EncToIsEnc(env, j, env.defs[j], v, s);
    case Duration => Assoc(LE(v.secs, 8), LE(v.nanos, 4), s);
    case Str => Assoc(LenPrefix(|v.bs|), v.bs, s);
    case Blob => Assoc(LenPrefix(|v.bs|), v.bs, s);
    case _ =>
  }

  lemma Assoc(a: seq<byte>, b: seq<byte>, c: seq<byte>)
    ensures a + (b + c) == (a + b) + c
  {
  }

  lemma {:induction false} EncAllToIsEncAll(env: Env, k: nat, t: Ty, vs: seq<Val>, s: seq<byte>)
    requires WFEnv(env) && WF(env, k, t) && AllTyped(env, k, t, vs)
    ensures EncAllTo(env, k, t, vs, s) == EncAll(env, k, t, vs) + s
    decreases vs, k, t
  {
    if vs != [] {
      EncAllToIsEncAll(env, k, t, vs[1..], s);
      EncToIsEnc(env, k, t, vs[0], EncAllTo(env, k, t, vs[1..], s));
      Assoc(Enc(env, k, t, vs[0]), EncAll(env, k, t, vs[1..]), s);
    }
  }

  lemma {:induction false} EncVariantToIsEnc(env: Env, k: nat, vs: Variants, i: nat, v: Val, s: seq<byte>)
    requires WFEnv(env) && WFVariants(env, k, vs) && TypedVariant(env, k, vs, i, v)
    ensures EncVariantTo(env, k, vs, i, v, s) == EncVariant(env, k, vs, i, v) + s
    decreases v, k, vs
  {
    if i > 0 {
      EncVariantToIsEnc(env, k, vs.tail, i - 1, v, s);
    } else if !vs.skip {
      EncToIsEnc(env, k, vs.ty, v, s);
      Assoc([vs.tag], Enc(env, k, vs.ty, v), s);
    }
  }

  /** mem_size_of_btree, before saturation. */
  function BtreeSize(env: Env, t: Ty, len: nat): nat {
    if len == 0 then 0
    else if len / 10 == 0 then env.leafSize(t)
    else (len / 10) * (env.leafSize(t) + 12 * env.word)
  }

  /** The heap bytes a collection of len elements announces, before saturation. */
  function CollSize(env: Env, kind: Kind, t: Ty, len: nat): nat {
    if kind.ListKind? then len * env.nodeSize(t) else BtreeSize(env, t, len)
  }

  /**
   The nesting and the heap bytes of v: one level for each Box, collection or vector of
   non-primitives around its deepest part, and the sum of all sizes announced.
   */
  function Needs(env: Env, k: nat, ty: Ty, v: Val): (d: Demand)
    requires WFEnv(env) && WF(env, k, ty) && Typed(env, k, ty, v)
    ensures !d.asks ==> d.bytes == 0
    decreases v, k, ty
  {
    match ty
    case Str => Heap(|v.bs| > 0, |v.bs|)
    case Blob => Heap(|v.bs| > 0, |v.bs|)
    case Pair(a, b) => Join(Needs(env, k, a, v.a), Needs(env, k, b, v.b))
    case Opt(t) => if v.SomeV? then Needs(env, k, t, v.v) else NOTHING
    case Res(t, e) => if v.OkV? then Needs(env, k, t, v.v) else Needs(env, k, e, v.v)
    case Array(t, n) => NeedsAll(env, k, t, v.vs)
    case Vec(t) => VecNeeds(env, t, |v.vs|, NeedsAll(env, |env.defs|, t, v.vs))
    case Coll(kind, t) =>
      Under(Join(Heap(true, CollSize(env, kind, t, |v.vs|)), NeedsAll(env, |env.defs|, t, v.vs)))
    case Box(t) => Under(Join(Heap(true, env.sizeOf(t)), Needs(env, |env.defs|, t, v.v)))
    case Enum(vs) => NeedsVariant(env, k, vs, v.i, v.v)
    case Named(j) => Needs(env, j, env.defs[j], v)
    case _ => NOTHING
  }

  /** A vector announces len elements in all; reading primitives in bulk opens no level. */
  function VecNeeds(env: Env, t: Ty, len: nat, items: Demand): (d: Demand)
    requires !items.asks ==> items.bytes == 0
    ensures !d.asks ==> d.bytes == 0
  {
    if t.Prim? then Heap(len > 0, len * t.w)
    else Under(Join(Heap(len > 0, len * env.sizeOf(t)), items))
  }

  function NeedsAll(env: Env, k: nat, t: Ty, vs: seq<Val>): (d: Demand)
    requires WFEnv(env) && WF(env, k, t) && AllTyped(env, k, t, vs)
    ensures !d.asks ==> d.bytes == 0
    decreases vs, k, t
  {
    if vs == [] then NOTHING
    else Join(Needs(env, k, t, vs[0]), NeedsAll(env, k, t, vs[1..]))
  }

  function NeedsVariant(env: Env, k: nat, vs: Variants, i: nat, v: Val): (d: Demand)
    requires WFEnv(env) && WFVariants(env, k, vs) && TypedVariant(env, k, vs, i, v)
    ensures !d.asks ==> d.bytes == 0
    decreases v, k, vs
  {
    if i == 0 then Needs(env, k, vs.ty, v) else NeedsVariant(env, k, vs.tail, i - 1, v)
  }

  /** Splitting a sequence of values splits its encoding, its demand and its reset. */
  lemma AllAppend(env: Env, k: nat, t: Ty, xs: seq<Val>, ys: seq<Val>, s: seq<byte>)
    requires WFEnv(env) && WF(env, k, t)
    requires AllTyped(env, k, t, xs) && AllTyped(env, k, t, ys)
    ensures AllTyped(env, k, t, xs + ys)
    ensures EncAllTo(env, k, t, xs + ys, s) == EncAllTo(env, k, t, xs, EncAllTo(env, k, t, ys, s))
    ensures NeedsAll(env, k, t, xs + ys) == Join(NeedsAll(env, k, t, xs), NeedsAll(env, k, t, ys))
    ensures ResetAll(env, k, t, xs + ys) == ResetAll(env, k, t, xs) + ResetAll(env, k, t, ys)
  {
    hide *;
    AllTypedAppend(env, k, t, xs, ys);
    EncAllAppend(env, k, t, xs, ys, s);
    NeedsAllAppend(env, k, t, xs, ys);
    ResetAllAppend(env, k, t, xs, ys);
  }

  lemma AllTypedAppend(env: Env, k: nat, t: Ty, xs: seq<Val>, ys: seq<Val>)
    requires WFEnv(env) && WF(env, k, t)
    ensures AllTyped(env, k, t, xs + ys) <==> AllTyped(env, k, t, xs) && AllTyped(env, k, t, ys)
  {
    hide Typed, WF, WFEnv;
    if AllTyped(env, k, t, xs + ys) {
      forall i | 0 <= i < |xs| ensures Typed(env, k, t, xs[i]) {
        assert (xs + ys)[i] == xs[i];
      }
      forall i | 0 <= i < |ys| ensures Typed(env, k, t, ys[i]) {
        assert (xs + ys)[|xs| + i] == ys[i];
      }
    }
  }

  lemma {:induction false} EncAllAppend(env: Env, k: nat, t: Ty, xs: seq<Val>, ys: seq<Val>, s: seq<byte>)
    requires WFEnv(env) && WF(env, k, t)
    requires AllTyped(env, k, t, xs) && AllTyped(env, k, t, ys) && AllTyped(env, k, t, xs + ys)
    ensures EncAllTo(env, k, t, xs + ys, s) == EncAllTo(env, k, t, xs, EncAllTo(env, k, t, ys, s))
    decreases |xs|
  {
    hide Typed, EncTo, WF, WFEnv;
    if xs == [] {
      assert xs + ys == ys;
    } else {
      assert (xs + ys)[1..] == xs[1..] + ys;
      EncAllAppend(env, k, t, xs[1..], ys, s);
    }
  }

  lemma {:induction false} NeedsAllAppend(env: Env, k: nat, t: Ty, xs: seq<Val>, ys: seq<Val>)
    requires WFEnv(env) && WF(env, k, t)
    requires AllTyped(env, k, t, xs) && AllTyped(env, k, t, ys) && AllTyped(env, k, t, xs + ys)
    ensures NeedsAll(env, k, t, xs + ys) == Join(NeedsAll(env, k, t, xs), NeedsAll(env, k, t, ys))
    decreases |xs|
  {
    hide Typed, Needs, WF, WFEnv, Join;
    if xs == [] {
      assert xs + ys == ys;
      JoinNothing(NeedsAll(env, k, t, ys));
    } else {
      assert (xs + ys)[1..] == xs[1..] + ys;
      NeedsAllAppend(env, k, t, xs[1..], ys);
      JoinAssoc(Needs(env, k, t, xs[0]), NeedsAll(env, k, t, xs[1..]), NeedsAll(env, k, t, ys));
    }
  }

  lemma {:induction false} ResetAllAppend(env: Env, k: nat, t: Ty, xs: seq<Val>, ys: seq<Val>)
    requires WFEnv(env) && WF(env, k, t)
    requires AllTyped(env, k, t, xs) && AllTyped(env, k, t, ys) && AllTyped(env, k, t, xs + ys)
    ensures ResetAll(env, k, t, xs + ys) == ResetAll(env, k, t, xs) + ResetAll(env, k, t, ys)
    decreases |xs|
  {
    hide Typed, Reset, WF, WFEnv;
    if xs == [] {
      assert xs + ys == ys;
    } else {
      assert (xs + ys)[1..] == xs[1..] + ys;
      ResetAllAppend(env, k, t, xs[1..], ys);
      hide AllTyped;
      var x, r, s := Reset(env, k, t, xs[0]), ResetAll(env, k, t, xs[1..]), ResetAll(env, k, t, ys);
      assert ResetAll(env, k, t, xs + ys) == [x] + (r + s);
      hide ResetAll;
      assert [x] + (r + s) == ([x] + r) + s;
    }
  }

  lemma OneNeeds(env: Env, k: nat, t: Ty, x: Val)
    requires WFEnv(env) && WF(env, k, t) && Typed(env, k, t, x)
    ensures AllTyped(env, k, t, [x]) && NeedsAll(env, k, t, [x]) == Needs(env, k, t, x)
  {
    hide WFEnv, WF, Typed, Needs;
    assert [x][1..] == [];
    assert NeedsAll(env, k, t, [x]) == Join(Needs(env, k, t, x), NeedsAll(env, k, t, []));
  }
}
