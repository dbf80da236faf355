/** The values decoders return, sets and maps collected from the entries on the wire. */
module Built {
  import opened Bytes
  import opened Types
  import opened Input
  import opened Encode
  import opened Decode
  import opened Theorems
  import opened Collect
  import opened Normal

  /** The decoder returns n and leaves r. */
  ghost predicate Builds(env: Env, ord: Orders, cfg: Cfg, k: nat, ty: Ty, st: St, n: Val, r: seq<byte>)
    requires WFEnv(env) && WF(env, k, ty) && st.depth <= cfg.maxDepth
  {
    var o := Run(env, cfg, k, ty, st);
    o.Ok? && Norm(env, ord, k, ty, o.v) == n && o.st.bytes == r
  }

  /** Every set and map inside v lists its entries strictly sorted by key, as iterating over one does. */
  ghost predicate Ordered(env: Env, ord: Orders, k: nat, ty: Ty, v: Val)
    requires WFEnv(env) && WF(env, k, ty) && Typed(env, k, ty, v)
    decreases v, k, ty
  {
    match ty
    case Pair(a, b) => Ordered(env, ord, k, a, v.a) && Ordered(env, ord, k, b, v.b)
    case Opt(t) => v.SomeV? ==> Ordered(env, ord, k, t, v.v)
    case Res(t, e) => if v.OkV? then Ordered(env, ord, k, t, v.v) else Ordered(env, ord, k, e, v.v)
    case Array(t, n) => AllOrdered(env, ord, k, t, v.vs)
    case Vec(t) => AllOrdered(env, ord, |env.defs|, t, v.vs)
    case Coll(kind, t) =>
      && AllOrdered(env, ord, |env.defs|, t, v.vs)
      && (kind.ListKind? || Sorted(ord(KeyTy(kind, t)), kind, v.vs))
    case Box(t) => Ordered(env, ord, |env.defs|, t, v.v)
    case Enum(vs) => OrderedVariant(env, ord, k, vs, v.i, v.v)
    case Named(j) => Ordered(env, ord, j, env.defs[j], v)
    case _ => true
  }

  ghost predicate AllOrdered(env: Env, ord: Orders, k: nat, t: Ty, vs: seq<Val>)
    requires WFEnv(env) && WF(env, k, t) && AllTyped(env, k, t, vs)
    decreases vs, k, t
  {
    forall i :: 0 <= i < |vs| ==> Ordered(env, ord, k, t, vs[i])
  }

  ghost predicate OrderedVariant(env: Env, ord: Orders, k: nat, vs: Variants, i: nat, v: Val)
    requires WFEnv(env) && WFVariants(env, k, vs) && TypedVariant(env, k, vs, i, v)
    decreases v, k, vs
  {
    if i == 0 then Ordered(env, ord, k, vs.ty, v) else OrderedVariant(env, ord, k, vs.tail, i - 1, v)
  }

  /** Collecting changes nothing exactly when every set and map is sorted already. */
  lemma {:induction false} NormFixed(env: Env, ord: Orders, k: nat, ty: Ty, v: Val)
    requires WFEnv(env) && WF(env, k, ty) && AllTotal(ord) && Decodable(env, k, ty, v)
    ensures Norm(env, ord, k, ty, v) == v <==> Ordered(env, ord, k, ty, v)
    decreases v, k, ty, 1
  {
    hide Run, WF, WFEnv, AllTotal, Decodable, Typed, Norm, Ordered;
    DecodableTyped(env, k, ty, v);
    match ty
    case Pair(a, b) => PairFixed(env, ord, k, ty, v);
    case Opt(t) => OneFixed(env, ord, k, ty, v);
    case Res(t, e) => OneFixed(env, ord, k, ty, v);
    case Array(t, n) => SeqFixed(env, ord, k, ty, v);
    case Vec(t) => SeqFixed(env, ord, k, ty, v);
    case Coll(kind, t) => CollFixed(env, ord, k, ty, v);
    case Box(t) => OneFixed(env, ord, k, ty, v);
    case Enum(vs) => EnumFixed(env, ord, k, ty, v);
    case Named(j) => NamedFixed(env, ord, k, ty, v);
    case _ => LeafFixed(env, ord, k, ty, v);
  }

  lemma LeafFixed(env: Env, ord: Orders, k: nat, ty: Ty, v: Val)
    requires WFEnv(env) && WF(env, k, ty) && Decodable(env, k, ty, v) && IsLeaf(ty)
    ensures Norm(env, ord, k, ty, v) == v <==> Ordered(env, ord, k, ty, v)
  {
    hide WFEnv, Typed, Reach, Reset;
  }

  lemma PairFixed(env: Env, ord: Orders, k: nat, ty: Ty, v: Val)
    requires WFEnv(env) && WF(env, k, ty) && AllTotal(ord) && Decodable(env, k, ty, v) && ty.Pair?
    ensures Norm(env, ord, k, ty, v) == v <==> Ordered(env, ord, k, ty, v)
    decreases v, k, ty, 0
  {
    hide WFEnv, AllTotal;
    NormFixed(env, ord, k, ty.a, v.a);
    NormFixed(env, ord, k, ty.b, v.b);
  }

  lemma OneFixed(env: Env, ord: Orders, k: nat, ty: Ty, v: Val)
    requires WFEnv(env) && WF(env, k, ty) && AllTotal(ord) && Decodable(env, k, ty, v)
    requires ty.Opt? || ty.Res? || ty.Box?
    ensures Norm(env, ord, k, ty, v) == v <==> Ordered(env, ord, k, ty, v)
    decreases v, k, ty, 0
  {
    hide WFEnv, AllTotal;
    if v.SomeV? || v.OkV? {
      NormFixed(env, ord, k, ty.t, v.v);
    } else if v.ErrV? {
      NormFixed(env, ord, k, ty.e, v.v);
    } else if v.Ref? {
      NormFixed(env, ord, |env.defs|, ty.t, v.v);
    }
  }

  lemma NamedFixed(env: Env, ord: Orders, k: nat, ty: Ty, v: Val)
    requires WFEnv(env) && WF(env, k, ty) && AllTotal(ord) && Decodable(env, k, ty, v) && ty.Named?
    ensures Norm(env, ord, k, ty, v) == v <==> Ordered(env, ord, k, ty, v)
    decreases v, k, ty, 0
  {
    hide AllTotal;
    NormFixed(env, ord, ty.j, env.defs[ty.j], v);
  }

  lemma EnumFixed(env: Env, ord: Orders, k: nat, ty: Ty, v: Val)
    requires WFEnv(env) && WF(env, k, ty) && AllTotal(ord) && Decodable(env, k, ty, v) && ty.Enum?
    ensures Norm(env, ord, k, ty, v) == v <==> Ordered(env, ord, k, ty, v)
    decreases v, k, ty, 0
  {
    hide WFEnv, AllTotal, TypedVariant, ReachVariant, ResetVariant, NormVariant, OrderedVariant, Reachable;
    VariantFixed(env, ord, k, ty.vs, v.i, v.v);
  }

  lemma {:induction false} VariantFixed(env: Env, ord: Orders, k: nat, vs: Variants, i: nat, v: Val)
    requires WFEnv(env) && WFVariants(env, k, vs) && AllTotal(ord)
    requires TypedVariant(env, k, vs, i, v) && ReachVariant(env, k, vs, i, v) && ResetVariant(env, k, vs, i, v) == v
    ensures NormVariant(env, ord, k, vs, i, v) == v <==> OrderedVariant(env, ord, k, vs, i, v)
    decreases v, k, vs, 0
  {
    hide WFEnv, WF, AllTotal, Typed, Reach, Reset, Norm, Ordered;
    if i == 0 {
      NormFixed(env, ord, k, vs.ty, v);
    } else {
      VariantFixed(env, ord, k, vs.tail, i - 1, v);
    }
  }

  lemma SeqFixed(env: Env, ord: Orders, k: nat, ty: Ty, v: Val)
    requires WFEnv(env) && WF(env, k, ty) && AllTotal(ord) && Decodable(env, k, ty, v) && (ty.Array? || ty.Vec?)
    ensures Norm(env, ord, k, ty, v) == v <==> Ordered(env, ord, k, ty, v)
    decreases v, k, ty, 0
  {
    hide WFEnv, AllTotal, UsizeMax, AllTyped, AllReach, ResetAll, NormAll, AllOrdered;
    AllFixed(env, ord, if ty.Array? then k else |env.defs|, ty.t, v.vs);
  }

  lemma {:induction false} AllFixed(env: Env, ord: Orders, k: nat, t: Ty, vs: seq<Val>)
    requires WFEnv(env) && WF(env, k, t) && AllTotal(ord) && DecodableAll(env, k, t, vs)
    ensures NormAll(env, ord, k, t, vs) == vs <==> AllOrdered(env, ord, k, t, vs)
    decreases vs, k, t, 2
  {
    hide WFEnv, WF, AllTotal, Typed, Norm, Ordered, Decodable, AllReach, ResetAll, AllTyped;
    if vs != [] {
      HeadDecodable(env, k, t, vs);
      NormFixed(env, ord, k, t, vs[0]);
      AllFixed(env, ord, k, t, vs[1..]);
      OrderedCons(env, ord, k, t, vs);
      var ns := NormAll(env, ord, k, t, vs);
      assert ns[0] == Norm(env, ord, k, t, vs[0]) && ns[1..] == NormAll(env, ord, k, t, vs[1..]);
      assert vs == [vs[0]] + vs[1..] && ns == [ns[0]] + ns[1..];
    }
  }

  lemma OrderedCons(env: Env, ord: Orders, k: nat, t: Ty, vs: seq<Val>)
    requires WFEnv(env) && WF(env, k, t) && AllTyped(env, k, t, vs) && vs != []
    ensures AllTyped(env, k, t, vs[1..])
    ensures AllOrdered(env, ord, k, t, vs) <==>
      Ordered(env, ord, k, t, vs[0]) && AllOrdered(env, ord, k, t, vs[1..])
  {
    hide WFEnv, WF, Typed, Ordered;
    if Ordered(env, ord, k, t, vs[0]) && AllOrdered(env, ord, k, t, vs[1..]) {
      forall i | 0 <= i < |vs| ensures Ordered(env, ord, k, t, vs[i]) {
        assert i > 0 ==> vs[i] == vs[1..][i - 1];
      }
    }
  }

  lemma CollFixed(env: Env, ord: Orders, k: nat, ty: Ty, v: Val)
    requires WFEnv(env) && WF(env, k, ty) && AllTotal(ord) && Decodable(env, k, ty, v) && ty.Coll?
    ensures Norm(env, ord, k, ty, v) == v <==> Ordered(env, ord, k, ty, v)
    decreases v, k, ty, 0
  {
    hide WFEnv, AllTotal, AllTyped, AllReach, ResetAll, NormAll, AllOrdered, Build, Sorted;
    var d := |env.defs|;
    AllFixed(env, ord, d, ty.t, v.vs);
    NormAllSettled(env, ord, d, ty.t, v.vs);
    BuildFixed(env, ord, ty.kind, d, ty.t, v.vs);
  }

  /** The constructor gives the list back exactly when its entries are collected and sorted by key. */
  lemma BuildFixed(env: Env, ord: Orders, kind: Kind, k: nat, t: Ty, vs: seq<Val>)
    requires WFEnv(env) && WF(env, k, t) && AllTotal(ord)
    requires AllSettled(env, ord, k, t, NormAll(env, ord, k, t, vs))
    ensures Build(ord, kind, t, NormAll(env, ord, k, t, vs)) == vs <==>
      && NormAll(env, ord, k, t, vs) == vs
      && (kind.ListKind? || Sorted(ord(KeyTy(kind, t)), kind, vs))
  {
    hide WFEnv, WF, Total, Norm, Decodable, FromIter, Sorted;
    var less, ns := ord(KeyTy(kind, t)), NormAll(env, ord, k, t, vs);
    if !kind.ListKind? {
      FromIterSorted(less, kind, ns);
      if FromIter(less, kind, ns) == vs {
        forall i | 0 <= i < |vs| ensures ns[i] == vs[i] {
          assert vs[i] in vs;
          NormAllAt(env, ord, k, t, vs, i);
        }
        assert ns == vs;
      }
      if ns == vs && Sorted(less, kind, vs) {
        FromIterOfSorted(less, kind, vs);
      }
    }
  }

  /** The decoder returns n exactly when the input lists, within the limits, entries that collect to n. */
  lemma BuildsExact(env: Env, ord: Orders, cfg: Cfg, k: nat, ty: Ty, st: St, n: Val, r: seq<byte>)
    requires WFEnv(env) && WFCfg(env, cfg) && WF(env, k, ty) && st.depth <= cfg.maxDepth
    ensures Builds(env, ord, cfg, k, ty, st, n, r) <==>
      exists v :: Holds(env, cfg, k, ty, st, v, r) && Norm(env, ord, k, ty, v) == n
  {
    hide WFEnv, WFCfg, WF, Run, Holds, Norm;
    var o := Run(env, cfg, k, ty, st);
    if o.Ok? {
      DecodeExact(env, cfg, k, ty, st, o.v, o.st.bytes);
    }
    forall v | Holds(env, cfg, k, ty, st, v, r) ensures Accepts(env, cfg, k, ty, st, v, r) {
      DecodeExact(env, cfg, k, ty, st, v, r);
    }
  }

  /** Some limit lets the decoder return n and leave r: what decoding without a limit means. */
  ghost predicate Returns(env: Env, ord: Orders, k: nat, ty: Ty, b: seq<byte>, n: Val, r: seq<byte>)
    requires WFEnv(env) && WF(env, k, ty)
  {
    exists d: nat :: Builds(env, ord, Plain(d), k, ty, Start(b), n, r)
  }

  /** Without limits, the decoder returns exactly what listings of entries collect to. */
  lemma ReturnsExact(env: Env, ord: Orders, k: nat, ty: Ty, b: seq<byte>, n: Val, r: seq<byte>)
    requires WFEnv(env) && WF(env, k, ty)
    ensures Returns(env, ord, k, ty, b, n, r) <==>
      exists v :: Begins(env, k, ty, b, v, r) && Norm(env, ord, k, ty, v) == n
  {
    hide WFEnv, WF, Norm, Begins, Builds;
    if d: nat :| Builds(env, ord, Plain(d), k, ty, Start(b), n, r) {
      var v := ReadAs(env, ord, d, k, ty, b, n, r);
    }
    if v :| Begins(env, k, ty, b, v, r) && Norm(env, ord, k, ty, v) == n {
      var d := DeepEnough(env, ord, k, ty, b, v, r);
    }
  }

  lemma ReadAs(env: Env, ord: Orders, d: nat, k: nat, ty: Ty, b: seq<byte>, n: Val, r: seq<byte>) returns (v: Val)
    requires WFEnv(env) && WF(env, k, ty) && Builds(env, ord, Plain(d), k, ty, Start(b), n, r)
    ensures Begins(env, k, ty, b, v, r) && Norm(env, ord, k, ty, v) == n
  {
    hide WFEnv, WF, Run, Norm, Begins, NestOf;
    v := Run(env, Plain(d), k, ty, Start(b)).v;
    PlainHolds(env, d, k, ty, b, v, r);
  }

  lemma DeepEnough(env: Env, ord: Orders, k: nat, ty: Ty, b: seq<byte>, v: Val, r: seq<byte>) returns (d: nat)
    requires WFEnv(env) && WF(env, k, ty) && Begins(env, k, ty, b, v, r)
    ensures Builds(env, ord, Plain(d), k, ty, Start(b), Norm(env, ord, k, ty, v), r)
  {
    hide WFEnv, WF, Run, Norm, Begins, NestOf;
    BeginsTyped(env, k, ty, b, v, r);
    d := NestOf(env, k, ty, v);
    PlainHolds(env, d, k, ty, b, v, r);
  }

  lemma BeginsTyped(env: Env, k: nat, ty: Ty, b: seq<byte>, v: Val, r: seq<byte>)
    requires WFEnv(env) && WF(env, k, ty) && Begins(env, k, ty, b, v, r)
    ensures Typed(env, k, ty, v)
  {
  }

  /**
   Of an accepted input: it is the encoding of the value returned exactly when the entries of
   every set and map in it came strictly sorted by key.
   */
  lemma CanonicalIff(env: Env, ord: Orders, cfg: Cfg, k: nat, ty: Ty, st: St, v: Val, r: seq<byte>)
    requires WFEnv(env) && WFCfg(env, cfg) && WF(env, k, ty) && AllTotal(ord) && st.depth <= cfg.maxDepth
    requires Accepts(env, cfg, k, ty, st, v, r)
    ensures var n := Norm(env, ord, k, ty, v);
      && Typed(env, k, ty, v) && Typed(env, k, ty, n)
      && (st.bytes == Enc(env, k, ty, n) + r <==> Ordered(env, ord, k, ty, v))
  {
    hide WFEnv, WFCfg, WF, AllTotal, Run, Typed, Reach, Reset, Enc, Needs, Fits, Norm, Ordered, Below;
    DecodeExact(env, cfg, k, ty, st, v, r);
    NormSettled(env, ord, k, ty, v);
    NormFixed(env, ord, k, ty, v);
    var n := Norm(env, ord, k, ty, v);
    if st.bytes == Enc(env, k, ty, n) + r {
      PrefixFree(env, k, ty, v, r, n, r);
    }
  }

  /**
   Encoding then decoding, before any suffix, returns what the sets and maps make of the value
   with its skipped fields reset; that is this value itself exactly when resetting leaves the keys
   of every set and map in order, and apart.
   */
  lemma RoundTrip(env: Env, ord: Orders, cfg: Cfg, k: nat, ty: Ty, v: Val, s: seq<byte>)
    requires WFEnv(env) && WFCfg(env, cfg) && WF(env, k, ty) && AllTotal(ord)
    requires Typed(env, k, ty, v) && Reach(env, k, ty, v)
    requires Fits(cfg, Start([]), Needs(env, k, ty, v))
    ensures var st, w := Start(Enc(env, k, ty, v) + s), Reset(env, k, ty, v);
      && Builds(env, ord, cfg, k, ty, st, Norm(env, ord, k, ty, w), s)
      && Typed(env, k, ty, w)
      && (Builds(env, ord, cfg, k, ty, st, w, s) <==> Ordered(env, ord, k, ty, w))
  {
    hide WFEnv, WFCfg, WF, AllTotal, Run, Typed, Reach, Reset, Enc, Needs, Fits, Norm, Ordered;
    var st, w := Start(Enc(env, k, ty, v) + s), Reset(env, k, ty, v);
    WireRoundTrip(env, cfg, k, ty, v, s);
    DecodeExact(env, cfg, k, ty, st, w, s);
    NormFixed(env, ord, k, ty, w);
  }

  /** A value comes back unchanged exactly when it is decodable and its sets and maps are in order. */
  lemma RoundTripIff(env: Env, ord: Orders, cfg: Cfg, k: nat, ty: Ty, v: Val, s: seq<byte>)
    requires WFEnv(env) && WFCfg(env, cfg) && WF(env, k, ty) && AllTotal(ord) && Typed(env, k, ty, v)
    requires Fits(cfg, Start([]), Needs(env, k, ty, v))
    ensures Builds(env, ord, cfg, k, ty, Start(Enc(env, k, ty, v) + s), v, s) <==>
      Decodable(env, k, ty, v) && Ordered(env, ord, k, ty, v)
  {
    hide WFEnv, WFCfg, WF, AllTotal, Run, Typed, Reach, Reset, Enc, Needs, Fits, Norm, Ordered, Below;
    var st := Start(Enc(env, k, ty, v) + s);
    FitsAnywhere(cfg, st, Needs(env, k, ty, v));
    if Builds(env, ord, cfg, k, ty, st, v, s) {
      var o := Run(env, cfg, k, ty, st);
      DecodeExact(env, cfg, k, ty, st, o.v, s);
      NormSettled(env, ord, k, ty, o.v);
    }
    if Decodable(env, k, ty, v) {
      DecodeExact(env, cfg, k, ty, st, v, s);
      NormFixed(env, ord, k, ty, v);
    }
  }

  lemma FitsAnywhere(cfg: Cfg, st: St, d: Demand)
    requires st.depth == 0 && st.used == 0 && Fits(cfg, Start([]), d)
    ensures Fits(cfg, st, d)
  {
  }

  /** decode_all. */
  function DecodeAll(env: Env, ord: Orders, cfg: Cfg, k: nat, ty: Ty, b: seq<byte>): Option<Val>
    requires WFEnv(env) && WF(env, k, ty)
  {
    var o := Run(env, cfg, k, ty, Start(b));
    if o.Ok? && o.st.bytes == [] then Some(Norm(env, ord, k, ty, o.v)) else None
  }

  /** b is the encoding of the decodable value v and the limits have room for it. */
  ghost predicate Encodes(env: Env, cfg: Cfg, k: nat, ty: Ty, b: seq<byte>, v: Val)
    requires WFEnv(env) && WF(env, k, ty)
  {
    Decodable(env, k, ty, v) && b == Enc(env, k, ty, v) && Fits(cfg, Start(b), Needs(env, k, ty, v))
  }

  lemma EncodesHolds(env: Env, cfg: Cfg, k: nat, ty: Ty, b: seq<byte>, v: Val)
    requires WFEnv(env) && WF(env, k, ty)
    ensures Encodes(env, cfg, k, ty, b, v) <==> Holds(env, cfg, k, ty, Start(b), v, [])
  {
    hide WFEnv, WF, Typed, Reach, Reset, Enc, Needs, Fits;
    if Decodable(env, k, ty, v) {
      assert Enc(env, k, ty, v) + [] == Enc(env, k, ty, v);
    }
  }

  /** decode_all accepts exactly the listings of entries that fit the limits, each as what it collects to. */
  lemma DecodeAllExact(env: Env, ord: Orders, cfg: Cfg, k: nat, ty: Ty, b: seq<byte>, n: Val)
    requires WFEnv(env) && WFCfg(env, cfg) && WF(env, k, ty)
    ensures DecodeAll(env, ord, cfg, k, ty, b) == Some(n) <==>
      exists v :: Encodes(env, cfg, k, ty, b, v) && Norm(env, ord, k, ty, v) == n
  {
    hide WFEnv, WFCfg, WF, Run, Norm, Holds, Encodes;
    BuildsExact(env, ord, cfg, k, ty, Start(b), n, []);
    forall v ensures Encodes(env, cfg, k, ty, b, v) <==> Holds(env, cfg, k, ty, Start(b), v, []) {
      EncodesHolds(env, cfg, k, ty, b, v);
    }
  }

  /** Of an encoding that fits the limits, decode_all returns the encoded value exactly when it is in order. */
  lemma DecodeAllOfEncoding(env: Env, ord: Orders, cfg: Cfg, k: nat, ty: Ty, b: seq<byte>, v: Val)
    requires WFEnv(env) && WFCfg(env, cfg) && WF(env, k, ty) && AllTotal(ord) && Encodes(env, cfg, k, ty, b, v)
    ensures DecodeAll(env, ord, cfg, k, ty, b) == Some(Norm(env, ord, k, ty, v)) && Typed(env, k, ty, v)
    ensures DecodeAll(env, ord, cfg, k, ty, b) == Some(v) <==> Ordered(env, ord, k, ty, v)
  {
    hide WFEnv, WFCfg, WF, AllTotal, Run, Typed, Reach, Reset, Enc, Needs, Fits, Norm, Ordered, Holds;
    EncodesHolds(env, cfg, k, ty, b, v);
    DecodeExact(env, cfg, k, ty, Start(b), v, []);
    NormFixed(env, ord, k, ty, v);
  }

  /** No set and no map inside, and none inside the derived types in scope. */
  ghost predicate SetFree(env: Env, ty: Ty) {
    NoSets(ty) && forall j :: 0 <= j < |env.defs| ==> NoSets(env.defs[j])
  }

  predicate NoSets(ty: Ty) {
    match ty
    case Pair(a, b) => NoSets(a) && NoSets(b)
    case Opt(t) => NoSets(t)
    case Res(t, e) => NoSets(t) && NoSets(e)
    case Array(t, n) => NoSets(t)
    case Vec(t) => NoSets(t)
    case Coll(kind, t) => kind.ListKind? && NoSets(t)
    case Box(t) => NoSets(t)
    case Enum(vs) => NoSetsIn(vs)
    case _ => true
  }

  predicate NoSetsIn(vs: Variants) {
    vs.VCons? ==> NoSets(vs.ty) && NoSetsIn(vs.tail)
  }

  lemma {:induction false} SetFreeNorm(env: Env, ord: Orders, k: nat, ty: Ty, v: Val)
    requires SetFree(env, ty)
    ensures Norm(env, ord, k, ty, v) == v
    decreases v, k, ty
  {
    match ty
    case Pair(a, b) =>
      if v.PairV? {
        SetFreeNorm(env, ord, k, a, v.a);
        SetFreeNorm(env, ord, k, b, v.b);
      }
    case Opt(t) => if v.SomeV? { SetFreeNorm(env, ord, k, t, v.v); }
    case Res(t, e) =>
      if v.OkV? {
        SetFreeNorm(env, ord, k, t, v.v);
      } else if v.ErrV? {
        SetFreeNorm(env, ord, k, e, v.v);
      }
    case Array(t, n) => if v.Items? { SetFreeNormAll(env, ord, k, t, v.vs); }
    case Vec(t) => if v.Items? { SetFreeNormAll(env, ord, |env.defs|, t, v.vs); }
    case Coll(kind, t) => if v.Items? { SetFreeNormAll(env, ord, |env.defs|, t, v.vs); }
    case Box(t) => if v.Ref? { SetFreeNorm(env, ord, |env.defs|, t, v.v); }
    case Enum(vs) => if v.Variant? { SetFreeNormVariant(env, ord, k, vs, v.i, v.v); }
    case Named(j) => if j < k && j < |env.defs| { SetFreeNorm(env, ord, j, env.defs[j], v); }
    case _ =>
  }

  lemma {:induction false} SetFreeNormAll(env: Env, ord: Orders, k: nat, t: Ty, vs: seq<Val>)
    requires SetFree(env, t)
    ensures NormAll(env, ord, k, t, vs) == vs
    decreases vs, k, t
  {
    hide Norm, SetFree;
    if vs != [] {
      SetFreeNorm(env, ord, k, t, vs[0]);
      SetFreeNormAll(env, ord, k, t, vs[1..]);
    }
  }

  lemma {:induction false} SetFreeNormVariant(env: Env, ord: Orders, k: nat, vs: Variants, i: nat, v: Val)
    requires NoSetsIn(vs) && forall j :: 0 <= j < |env.defs| ==> NoSets(env.defs[j])
    ensures NormVariant(env, ord, k, vs, i, v) == v
    decreases v, k, vs
  {
    hide Norm;
    if vs.VCons? && i == 0 {
      SetFreeNorm(env, ord, k, vs.ty, v);
    } else if vs.VCons? {
      SetFreeNormVariant(env, ord, k, vs.tail, i - 1, v);
    }
  }

  /**
   Types without sets and maps are canonical: the decoder returns n exactly when the input is the
   encoding of n followed by the rest, within the limits.
   */
  lemma SetFreeExact(env: Env, ord: Orders, cfg: Cfg, k: nat, ty: Ty, st: St, n: Val, r: seq<byte>)
    requires WFEnv(env) && WFCfg(env, cfg) && WF(env, k, ty) && st.depth <= cfg.maxDepth && SetFree(env, ty)
    ensures Builds(env, ord, cfg, k, ty, st, n, r) <==> Holds(env, cfg, k, ty, st, n, r)
  {
    hide WFEnv, WFCfg, WF, Run, Norm, Holds, SetFree;
    var o := Run(env, cfg, k, ty, st);
    if o.Ok? {
      SetFreeNorm(env, ord, k, ty, o.v);
    }
    DecodeExact(env, cfg, k, ty, st, n, r);
  }

  /** For these types decode_all succeeds on exactly the encodings. */
  lemma SetFreeDecodeAll(env: Env, ord: Orders, cfg: Cfg, k: nat, ty: Ty, b: seq<byte>, n: Val)
    requires WFEnv(env) && WFCfg(env, cfg) && WF(env, k, ty) && SetFree(env, ty)
    ensures DecodeAll(env, ord, cfg, k, ty, b) == Some(n) <==> Encodes(env, cfg, k, ty, b, n)
  {
    hide WFEnv, WFCfg, WF, Run, Norm, Holds, SetFree, Encodes;
    SetFreeExact(env, ord, cfg, k, ty, Start(b), n, []);
    EncodesHolds(env, cfg, k, ty, b, n);
  }

  /** Two inputs that list the same entries with distinct keys, in whatever order, build the same collection. */
  lemma OrderOfEntries(env: Env, ord: Orders, cfg: Cfg, k: nat, kind: Kind, t: Ty, b: seq<byte>, b': seq<byte>)
    requires WFEnv(env) && WFCfg(env, cfg) && WF(env, k, Coll(kind, t)) && AllTotal(ord) && !kind.ListKind?
    requires var o, o' := Run(env, cfg, k, Coll(kind, t), Start(b)), Run(env, cfg, k, Coll(kind, t), Start(b'));
      && o.Ok? && o'.Ok? && o.v.Items? && o'.v.Items?
      && multiset(o.v.vs) == multiset(o'.v.vs)
      && DistinctKeys(kind, NormAll(env, ord, |env.defs|, t, o.v.vs))
    ensures var o, o' := Run(env, cfg, k, Coll(kind, t), Start(b)), Run(env, cfg, k, Coll(kind, t), Start(b'));
      Norm(env, ord, k, Coll(kind, t), o.v) == Norm(env, ord, k, Coll(kind, t), o'.v)
  {
    hide WFEnv, WFCfg, WF, Run, Total, FromIter, DistinctKeys, NormAll;
    var xs, ys := Run(env, cfg, k, Coll(kind, t), Start(b)).v.vs, Run(env, cfg, k, Coll(kind, t), Start(b')).v.vs;
    NormAllPermutes(env, ord, |env.defs|, t, xs, ys);
    OrderIrrelevant(ord(KeyTy(kind, t)), kind, NormAll(env, ord, |env.defs|, t, xs), NormAll(env, ord, |env.defs|, t, ys));
  }

  lemma {:induction false} NormAllPermutes(env: Env, ord: Orders, k: nat, t: Ty, xs: seq<Val>, ys: seq<Val>)
    requires multiset(xs) == multiset(ys)
    ensures multiset(NormAll(env, ord, k, t, xs)) == multiset(NormAll(env, ord, k, t, ys))
    decreases |xs|
  {
    hide Norm, NormAll;
    if xs == [] {
      assert |multiset(ys)| == 0;
      assert ys == [];
    } else {
      var x := xs[0];
      assert x in multiset(ys);
      var i :| 0 <= i < |ys| && ys[i] == x;
      TakeOut(xs, 0);
      TakeOut(ys, i);
      Cancel(x, multiset(xs[..0] + xs[1..]), multiset(ys[..i] + ys[i + 1..]));
      NormAllPermutes(env, ord, k, t, xs[..0] + xs[1..], ys[..i] + ys[i + 1..]);
      NormTakeOut(env, ord, k, t, xs, 0);
      NormTakeOut(env, ord, k, t, ys, i);
    }
  }

  lemma Cancel(x: Val, a: multiset<Val>, b: multiset<Val>)
    requires multiset{x} + a == multiset{x} + b
    ensures a == b
  {
    assert a == (multiset{x} + a) - multiset{x};
    assert b == (multiset{x} + b) - multiset{x};
  }

  lemma TakeOut(xs: seq<Val>, i: nat)
    requires i < |xs|
    ensures multiset(xs) == multiset{xs[i]} + multiset(xs[..i] + xs[i + 1..])
  {
    assert xs == xs[..i] + [xs[i]] + xs[i + 1..];
  }

  lemma NormTakeOut(env: Env, ord: Orders, k: nat, t: Ty, xs: seq<Val>, i: nat)
    requires i < |xs|
    ensures multiset(NormAll(env, ord, k, t, xs)) ==
      multiset{Norm(env, ord, k, t, xs[i])} + multiset(NormAll(env, ord, k, t, xs[..i] + xs[i + 1..]))
  {
    hide Norm, NormAll;
    var ns, rest := NormAll(env, ord, k, t, xs), xs[..i] + xs[i + 1..];
    NormAllAt(env, ord, k, t, xs, i);
    forall j | 0 <= j < |rest| ensures NormAll(env, ord, k, t, rest)[j] == (ns[..i] + ns[i + 1..])[j] {
      NormAllAt(env, ord, k, t, rest, j);
      NormAllAt(env, ord, k, t, xs, if j < i then j else j + 1);
    }
    assert NormAll(env, ord, k, t, rest) == ns[..i] + ns[i + 1..];
    TakeOut(ns, i);
  }

  /** An entry that is written as the byte 1 and is as decoding it leaves it. */
  ghost predicate OneByte(env: Env, ord: Orders, t: Ty, e: Val)
    requires WFEnv(env) && WF(env, |env.defs|, t)
  {
    var d := |env.defs|;
    && Decodable(env, d, t, e) && Norm(env, ord, d, t, e) == e
    && Enc(env, d, t, e) == [1] && Needs(env, d, t, e) == NOTHING
  }

  lemma TwoEntries(env: Env, k: nat, t: Ty, x: Val, y: Val)
    requires WFEnv(env) && WF(env, k, t) && Typed(env, k, t, x) && Typed(env, k, t, y)
    ensures AllTyped(env, k, t, [x, y])
    ensures EncAll(env, k, t, [x, y]) == Enc(env, k, t, x) + Enc(env, k, t, y)
    ensures NeedsAll(env, k, t, [x, y]) == Join(Needs(env, k, t, x), Needs(env, k, t, y))
    ensures ResetAll(env, k, t, [x, y]) == [Reset(env, k, t, x), Reset(env, k, t, y)]
    ensures Reach(env, k, t, x) && Reach(env, k, t, y) ==> AllReach(env, k, t, [x, y])
  {
    hide WFEnv, WF, Typed, Enc, Needs, Reset, Reach;
    assert [x, y][1..] == [y] && [y][1..] == [];
    OneNeeds(env, k, t, y);
    assert EncAll(env, k, t, [y]) == Enc(env, k, t, y) + EncAll(env, k, t, []);
    assert ResetAll(env, k, t, [y]) == [Reset(env, k, t, y)] + ResetAll(env, k, t, []);
  }

  /** Two entries of one byte each, as a set on the wire. */
  lemma TwoOnWire(env: Env, k: nat, t: Ty, x: Val, y: Val)
    requires WFEnv(env) && WF(env, |env.defs|, t)
    requires Typed(env, |env.defs|, t, x) && Enc(env, |env.defs|, t, x) == [1]
    requires Typed(env, |env.defs|, t, y) && Enc(env, |env.defs|, t, y) == [1]
    ensures WF(env, k, Coll(SetKind, t)) && Typed(env, k, Coll(SetKind, t), Items([x, y]))
    ensures Enc(env, k, Coll(SetKind, t), Items([x, y])) == [8, 1, 1]
  {
    hide WFEnv, WF, EncAll, AllTyped, Typed, Enc, LenPrefix, Reset, Reach, Needs, NeedsAll, ResetAll, AllReach;
    TwoEntries(env, |env.defs|, t, x, y);
    var vs := [x, y];
    SetUnfold(env, k, t, vs);
    SmallPrefixes();
  }

  lemma SmallPrefixes()
    ensures LenPrefix(1) == [4] && LenPrefix(2) == [8]
  {
  }

  lemma SetUnfold(env: Env, k: nat, t: Ty, vs: seq<Val>)
    requires WFEnv(env) && WF(env, |env.defs|, t) && AllTyped(env, |env.defs|, t, vs) && |vs| <= U32_MAX
    ensures WF(env, k, Coll(SetKind, t)) && Typed(env, k, Coll(SetKind, t), Items(vs))
    ensures Enc(env, k, Coll(SetKind, t), Items(vs)) == LenPrefix(|vs|) + EncAll(env, |env.defs|, t, vs)
    ensures Reach(env, k, Coll(SetKind, t), Items(vs)) == AllReach(env, |env.defs|, t, vs)
    ensures Reset(env, k, Coll(SetKind, t), Items(vs)) == Items(ResetAll(env, |env.defs|, t, vs))
    ensures Needs(env, k, Coll(SetKind, t), Items(vs)).nest == NeedsAll(env, |env.defs|, t, vs).nest + 1
  {
  }

  /** Listed twice, an entry is read twice and kept once. */
  lemma TwiceKeptOnce(env: Env, ord: Orders, k: nat, t: Ty, e: Val)
    requires WFEnv(env) && WF(env, |env.defs|, t) && OneByte(env, ord, t, e)
    ensures WF(env, k, Coll(SetKind, t))
    ensures DecodeAll(env, ord, Plain(1), k, Coll(SetKind, t), [8, 1, 1]) == Some(Items([e]))
  {
    hide WFEnv, Typed, Reach, Reset, Enc, Needs, Norm;
    var ty, v := Coll(SetKind, t), Items([e, e]);
    TwoOnWire(env, k, t, e, e);
    TwiceDecodable(env, k, t, e);
    EncodesHolds(env, Plain(1), k, ty, [8, 1, 1], v);
    DecodeExact(env, Plain(1), k, ty, Start([8, 1, 1]), v, []);
    TwiceCollected(env, ord, k, t, e);
  }

  lemma TwiceDecodable(env: Env, k: nat, t: Ty, e: Val)
    requires WFEnv(env) && WF(env, |env.defs|, t) && Decodable(env, |env.defs|, t, e)
    requires Needs(env, |env.defs|, t, e) == NOTHING && WF(env, k, Coll(SetKind, t))
    ensures Decodable(env, k, Coll(SetKind, t), Items([e, e]))
    ensures Needs(env, k, Coll(SetKind, t), Items([e, e])).nest == 1
  {
    hide WFEnv, WF, EncAll, ResetAll, NeedsAll, AllTyped, AllReach, Typed, Enc, Reach, Reset, Needs;
    TwoEntries(env, |env.defs|, t, e, e);
    var vs := [e, e];
    assert ResetAll(env, |env.defs|, t, vs) == vs;
    assert NeedsAll(env, |env.defs|, t, vs).nest == 0;
    SetDecodable(env, k, t, vs);
  }

  lemma SetDecodable(env: Env, k: nat, t: Ty, vs: seq<Val>)
    requires WFEnv(env) && WF(env, |env.defs|, t) && AllTyped(env, |env.defs|, t, vs) && |vs| <= U32_MAX
    requires AllReach(env, |env.defs|, t, vs) && ResetAll(env, |env.defs|, t, vs) == vs
    requires NeedsAll(env, |env.defs|, t, vs).nest == 0
    ensures WF(env, k, Coll(SetKind, t)) && Decodable(env, k, Coll(SetKind, t), Items(vs))
    ensures Needs(env, k, Coll(SetKind, t), Items(vs)).nest == 1
  {
    hide WFEnv, EncAll, ResetAll, NeedsAll, AllTyped, AllReach, Typed, Enc, Reach, Reset, Needs;
    SetUnfold(env, k, t, vs);
  }

  lemma TwiceCollected(env: Env, ord: Orders, k: nat, t: Ty, e: Val)
    requires Norm(env, ord, |env.defs|, t, e) == e
    ensures Norm(env, ord, k, Coll(SetKind, t), Items([e, e])) == Items([e])
  {
    var d := |env.defs|;
    assert [e, e][1..] == [e] && [e][1..] == [];
    assert NormAll(env, ord, d, t, [e]) == [e] + NormAll(env, ord, d, t, []);
    assert NormAll(env, ord, d, t, [e, e]) == [e, e];
    var less := ord(KeyTy(SetKind, t));
    assert [e, e][..1] == [e] && [e][..0] == [];
    assert FromIter(less, SetKind, [e]) == [e];
    assert FromIter(less, SetKind, [e, e]) == [e];
  }

  /** A set of bytes that lists 1 twice is accepted and returned as the set of 1, whose encoding is another. */
  lemma RepeatedEntry(env: Env, ord: Orders, k: nat)
    requires WFEnv(env)
    ensures var ty, n := Coll(SetKind, Prim(1)), Items([Num(1)]);
      && WF(env, k, ty) && Typed(env, k, ty, n) && Enc(env, k, ty, n) == [4, 1]
      && DecodeAll(env, ord, Plain(1), k, ty, [8, 1, 1]) == Some(n)
  {
    hide WFEnv;
    assert OneByte(env, ord, Prim(1), Num(1));
    TwiceKeptOnce(env, ord, k, Prim(1), Num(1));
    SmallPrefixes();
    assert [Num(1)][1..] == [];
    assert EncAll(env, |env.defs|, Prim(1), [Num(1)]) == [1] + EncAll(env, |env.defs|, Prim(1), []);
  }
}
