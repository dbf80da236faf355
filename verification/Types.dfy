/**
 The universe of SCALE types, the values that travel over the wire, and what the
 target machine fixes about them.
 */
module Types {
  import opened Bytes

  /** Collections that announce their whole allocation before decoding the first element. */
  datatype Kind = ListKind | SetKind | MapKind

  datatype Ty =
    | Prim(w: nat)                  // u8..u128, i8..i128, f32, f64 as w-byte patterns
    | NonZero(w: nat)               // NonZeroU8..NonZeroI128
    | Bool
    | OptBool                       // OptionBool
    | Compact(w: nat)               // Compact<u8>..Compact<u128>
    | Duration
    | Str
    | Blob                          // bytes::Bytes
    | Unit                          // (), PhantomData, a struct without fields
    | Pair(a: Ty, b: Ty)            // tuples, ranges and struct fields, nested to the right
    | Opt(t: Ty)
    | Res(t: Ty, e: Ty)
    | Array(t: Ty, n: nat)
    | Vec(t: Ty)                    // Vec, VecDeque
    | Coll(kind: Kind, t: Ty)       // LinkedList, BTreeSet, BTreeMap (t is then the pair)
    | Box(t: Ty)                    // Box, Rc, Arc
    | Skip(d: Val)                  // a field marked skip, whose Default is d
    | Enum(vs: Variants)
    | Named(j: nat)                 // a derived type, looked up in Env.defs

  /** The variants of a derived enum with the byte each one is written as. */
  datatype Variants = VNil | VCons(skip: bool, tag: byte, ty: Ty, tail: Variants)

  /** Values as they are laid out on the wire; maps and sets list their entries in wire order. */
  datatype Val =
    | Num(n: nat)
    | Flag(on: bool)
    | Tri(tri: Option<bool>)
    | Dur(secs: nat, nanos: nat)
    | Raw(bs: seq<byte>)
    | UnitV
    | PairV(a: Val, b: Val)
    | NoneV
    | SomeV(v: Val)
    | OkV(v: Val)
    | ErrV(v: Val)
    | Items(vs: seq<Val>)
    | Ref(v: Val)
    | Variant(i: nat, v: Val)

  /** The derived types in scope and the target's memory layout. */
  datatype Env = Env(
    defs: seq<Ty>,
    sizeOf: Ty -> nat,              // size_of::<T>()
    leafSize: Ty -> nat,            // size_of::<(usize, u16, u16, [T; 11])>()
    nodeSize: Ty -> nat,            // size_of::<(usize, usize, T)>()
    word: nat                       // size_of::<usize>()
  )

  /** What kind of input is decoded from, and the limits set on it. */
  datatype Cfg = Cfg(
    knownLen: bool,                 // remaining_len() answers Some
    cursor: bool,                   // the input is a BytesCursor
    maxDepth: nat,                  // the limit of DepthTrackingInput
    memLimit: Option<nat>           // the limit of MemTrackingInput; None: not wrapped in one
  )

  const MAX_PREALLOCATION: nat := 16 * 1024
  const A_BILLION: nat := 1_000_000_000

  function UsizeMax(env: Env): nat {
    Pow256(env.word) - 1
  }

  predicate IsWidth(w: nat) {
    w == 1 || w == 2 || w == 4 || w == 8 || w == 16
  }

  lemma WidthRange(w: nat)
    requires IsWidth(w)
    ensures 0 < w <= 16 <= MAX_PREALLOCATION
  {
  }

  /** Types without a type inside. */
  predicate IsLeaf(ty: Ty) {
    && !ty.Pair? && !ty.Opt? && !ty.Res? && !ty.Array? && !ty.Vec? && !ty.Coll? && !ty.Box?
    && !ty.Enum? && !ty.Named?
  }

  /**
   A type rustc accepts. Named(j) may stand outside a Box, Vec or collection only for
   j < k: unguarded references point backwards, or the type would have no finite size.
   A vector element must fit MAX_PREALLOCATION, as decode_vec_chunked asserts.
   */
  predicate WF(env: Env, k: nat, ty: Ty)
    decreases ty
  {
    match ty
    case Prim(w) => IsWidth(w)
    case NonZero(w) => IsWidth(w)
    case Compact(w) => IsWidth(w)
    case Pair(a, b) => WF(env, k, a) && WF(env, k, b)
    case Opt(t) => WF(env, k, t)
    case Res(t, e) => WF(env, k, t) && WF(env, k, e)
    case Array(t, n) => WF(env, k, t)
    case Vec(t) => WF(env, |env.defs|, t) && env.sizeOf(t) <= MAX_PREALLOCATION
    case Coll(kind, t) => WF(env, |env.defs|, t) && (kind.MapKind? ==> t.Pair?)
    case Box(t) => WF(env, |env.defs|, t)
    case Enum(vs) => WFVariants(env, k, vs) && (vs.VNil? || HasArm(vs))
    case Named(j) => j < k && j < |env.defs|
    case _ => true
  }

  /** Some variant is not skipped. (With variants but no arm, the emitted impl has no methods at all.) */
  predicate HasArm(vs: Variants) {
    vs.VCons? && (!vs.skip || HasArm(vs.tail))
  }

  predicate WFVariants(env: Env, k: nat, vs: Variants)
    decreases vs
  {
    vs.VCons? ==> WF(env, k, vs.ty) && WFVariants(env, k, vs.tail)
  }

  ghost predicate WFEnv(env: Env) {
    && env.word >= 4
    && (forall w :: env.sizeOf(Prim(w)) == w)
    && (forall j :: 0 <= j < |env.defs| ==> WF(env, j, env.defs[j]))
  }

  /** Limits are usize values; no wrapper forwards scale_internal_decode_bytes, so a tracked cursor is none. */
  ghost predicate WFCfg(env: Env, cfg: Cfg) {
    && (cfg.memLimit.Some? ==> cfg.memLimit.value <= UsizeMax(env))
    && (cfg.cursor ==> cfg.knownLen && cfg.memLimit.None?)
  }

  /** Section 4 of RFC 3629. */
  predicate Utf8(bs: seq<byte>)
    decreases |bs|
  {
    if bs == [] then true
    else if bs[0] < 0x80 then Utf8(bs[1..])
    else if 0xC2 <= bs[0] < 0xE0 then |bs| >= 2 && Tail(bs[1]) && Utf8(bs[2..])
    else if 0xE0 <= bs[0] < 0xF0 then
      && |bs| >= 3 && Tail(bs[1]) && Tail(bs[2])
      && (bs[0] == 0xE0 ==> bs[1] >= 0xA0) && (bs[0] == 0xED ==> bs[1] < 0xA0)
      && Utf8(bs[3..])
    else
      && 0xF0 <= bs[0] < 0xF5
      && |bs| >= 4 && Tail(bs[1]) && Tail(bs[2]) && Tail(bs[3])
      && (bs[0] == 0xF0 ==> bs[1] >= 0x90) && (bs[0] == 0xF4 ==> bs[1] < 0x90)
      && Utf8(bs[4..])
  }

  predicate Tail(b: byte) {
    0x80 <= b < 0xC0
  }

  /** v is a value of the Rust type ty. */
  predicate Typed(env: Env, k: nat, ty: Ty, v: Val)
    requires WFEnv(env) && WF(env, k, ty)
    decreases v, k, ty
  {
    match ty
    case Prim(w) => v.Num? && v.n < Pow256(w)
    case NonZero(w) => v.Num? && 0 < v.n < Pow256(w)
    case Bool => v.Flag?
    case OptBool => v.Tri?
    case Compact(w) => v.Num? && v.n < Pow256(w)
    case Duration => v.Dur? && v.secs < Pow256(8) && v.nanos < A_BILLION
    case Str => v.Raw? && |v.bs| <= U32_MAX && Utf8(v.bs)
    case Blob => v.Raw? && |v.bs| <= U32_MAX
    case Unit => v.UnitV?
    case Pair(a, b) => v.PairV? && Typed(env, k, a, v.a) && Typed(env, k, b, v.b)
    case Opt(t) => v.NoneV? || (v.SomeV? && Typed(env, k, t, v.v))
    case Res(t, e) => (v.OkV? && Typed(env, k, t, v.v)) || (v.ErrV? && Typed(env, k, e, v.v))
    case Array(t, n) => v.Items? && |v.vs| == n && AllTyped(env, k, t, v.vs)
    case Vec(t) =>
      && v.Items? && |v.vs| <= U32_MAX
      && (t.Prim? ==> |v.vs| * t.w <= UsizeMax(env))
      && AllTyped(env, |env.defs|, t, v.vs)
    case Coll(kind, t) => v.Items? && |v.vs| <= U32_MAX && AllTyped(env, |env.defs|, t, v.vs)
    case Box(t) => v.Ref? && Typed(env, |env.defs|, t, v.v)
    case Skip(d) => true
    case Enum(vs) => v.Variant? && TypedVariant(env, k, vs, v.i, v.v)
    case Named(j) => Typed(env, j, env.defs[j], v)
  }

  predicate AllTyped(env: Env, k: nat, t: Ty, vs: seq<Val>)
    requires WFEnv(env) && WF(env, k, t)
    decreases vs, k, t
  {
    forall i :: 0 <= i < |vs| ==> Typed(env, k, t, vs[i])
  }

  predicate TypedVariant(env: Env, k: nat, vs: Variants, i: nat, v: Val)
    requires WFEnv(env) && WFVariants(env, k, vs)
    decreases v, k, vs
  {
    && vs.VCons?
    && if i == 0 then Typed(env, k, vs.ty, v) else TypedVariant(env, k, vs.tail, i - 1, v)
  }

  /** The position of the first arm of the emitted match that accepts the byte. */
  function Arm(vs: Variants, tag: byte): Option<nat> {
    if vs.VNil? then None
    else if !vs.skip && vs.tag == tag then Some(0)
    else
      var r := Arm(vs.tail, tag);
      if r.Some? then Some(r.value + 1) else None
  }

  function VariantAt(vs: Variants, i: nat): Variants {
    if vs.VNil? || i == 0 then vs else VariantAt(vs.tail, i - 1)
  }

  /** The decoder's match reaches variant i: it is not skipped and no earlier arm takes its byte. */
  predicate Reachable(vs: Variants, i: nat) {
    var x := VariantAt(vs, i);
    x.VCons? && !x.skip && Arm(vs, x.tag) == Some(i)
  }

  /** Every enum value inside v is of a variant its decoder can reach. */
  predicate Reach(env: Env, k: nat, ty: Ty, v: Val)
    requires WFEnv(env) && WF(env, k, ty) && Typed(env, k, ty, v)
    decreases v, k, ty
  {
    match ty
    case Pair(a, b) => Reach(env, k, a, v.a) && Reach(env, k, b, v.b)
    case Opt(t) => v.SomeV? ==> Reach(env, k, t, v.v)
    case Res(t, e) => if v.OkV? then Reach(env, k, t, v.v) else Reach(env, k, e, v.v)
    case Array(t, n) => AllReach(env, k, t, v.vs)
    case Vec(t) => AllReach(env, |env.defs|, t, v.vs)
    case Coll(kind, t) => AllReach(env, |env.defs|, t, v.vs)
    case Box(t) => Reach(env, |env.defs|, t, v.v)
    case Enum(vs) => Reachable(vs, v.i) && ReachVariant(env, k, vs, v.i, v.v)
    case Named(j) => Reach(env, j, env.defs[j], v)
    case _ => true
  }

  predicate AllReach(env: Env, k: nat, t: Ty, vs: seq<Val>)
    requires WFEnv(env) && WF(env, k, t) && AllTyped(env, k, t, vs)
    decreases vs, k, t
  {
    forall i :: 0 <= i < |vs| ==> Reach(env, k, t, vs[i])
  }

  predicate ReachVariant(env: Env, k: nat, vs: Variants, i: nat, v: Val)
    requires WFEnv(env) && WFVariants(env, k, vs) && TypedVariant(env, k, vs, i, v)
    decreases v, k, vs
  {
    if i == 0 then Reach(env, k, vs.ty, v) else ReachVariant(env, k, vs.tail, i - 1, v)
  }

  /** v with every skipped field set to its Default: what decoding gives back. */
  function Reset(env: Env, k: nat, ty: Ty, v: Val): (r: Val)
    requires WFEnv(env) && WF(env, k, ty) && Typed(env, k, ty, v)
    decreases v, k, ty
  {
    match ty
    case Pair(a, b) => PairV(Reset(env, k, a, v.a), Reset(env, k, b, v.b))
    case Opt(t) => if v.SomeV? then SomeV(Reset(env, k, t, v.v)) else v
    case Res(t, e) => if v.OkV? then OkV(Reset(env, k, t, v.v)) else ErrV(Reset(env, k, e, v.v))
    case Array(t, n) => Items(ResetAll(env, k, t, v.vs))
    case Vec(t) => Items(ResetAll(env, |env.defs|, t, v.vs))
    case Coll(kind, t) => Items(ResetAll(env, |env.defs|, t, v.vs))
    case Box(t) => Ref(Reset(env, |env.defs|, t, v.v))
    case Skip(d) => d
    case Enum(vs) => Variant(v.i, ResetVariant(env, k, vs, v.i, v.v))
    case Named(j) => Reset(env, j, env.defs[j], v)
    case _ => v
  }

  function ResetAll(env: Env, k: nat, t: Ty, vs: seq<Val>): (rs: seq<Val>)
    requires WFEnv(env) && WF(env, k, t) && AllTyped(env, k, t, vs)
    ensures |rs| == |vs|
    decreases vs, k, t
  {
    if vs == [] then [] else [Reset(env, k, t, vs[0])] + ResetAll(env, k, t, vs[1..])
  }

  function ResetVariant(env: Env, k: nat, vs: Variants, i: nat, v: Val): (r: Val)
    requires WFEnv(env) && WFVariants(env, k, vs) && TypedVariant(env, k, vs, i, v)
    decreases v, k, vs
  {
    if i == 0 then Reset(env, k, vs.ty, v) else ResetVariant(env, k, vs.tail, i - 1, v)
  }
}
