/** The value a decode of nested maps and sets builds, and how it re-encodes. */
module Normal {
  import opened Bytes
  import opened Types
  import opened Input
  import opened Encode
  import opened Decode
  import opened Soundness
  import opened Theorems
  import opened Collect

  /** d asks for no more than e. */
  predicate Below(d: Demand, e: Demand) {
    d.nest <= e.nest && (d.asks ==> e.asks) && d.bytes <= e.bytes
  }

  /** n is decodable, in normal form already, and asks for no more than v. */
  ghost predicate Settled(env: Env, ord: Orders, k: nat, ty: Ty, v: Val, n: Val)
    requires WFEnv(env) && WF(env, k, ty) && Typed(env, k, ty, v)
  {
    && Decodable(env, k, ty, n) && Norm(env, ord, k, ty, n) == n
    && Below(Needs(env, k, ty, n), Needs(env, k, ty, v))
  }

  ghost predicate AllSettled(env: Env, ord: Orders, k: nat, t: Ty, ns: seq<Val>)
    requires WFEnv(env) && WF(env, k, t)
  {
    forall n :: n in ns ==> Decodable(env, k, t, n) && Norm(env, ord, k, t, n) == n
  }

  ghost predicate DecodableAll(env: Env, k: nat, t: Ty, vs: seq<Val>)
    requires WFEnv(env) && WF(env, k, t)
  {
    AllTyped(env, k, t, vs) && AllReach(env, k, t, vs) && ResetAll(env, k, t, vs) == vs
  }

  /** Settled elements stay settled as a sequence. */
  lemma {:induction false} SettledSeq(env: Env, ord: Orders, k: nat, t: Ty, ns: seq<Val>)
    requires WFEnv(env) && WF(env, k, t) && AllSettled(env, ord, k, t, ns)
    ensures DecodableAll(env, k, t, ns) && NormAll(env, ord, k, t, ns) == ns
    decreases |ns|
  {
    hide WFEnv, WF, Typed, Reach, Reset, Norm;
    if ns != [] {
      assert ns[0] in ns;
      SettledSeq(env, ord, k, t, ns[1..]);
      assert ns == [ns[0]] + ns[1..];
      ConsSound(env, k, t, ns[0], ns[1..], []);
    }
  }

  lemma BelowJoin(a: Demand, b: Demand, c: Demand, d: Demand)
    requires Below(a, c) && Below(b, d)
    ensures Below(Join(a, b), Join(c, d))
  {
  }

  lemma BelowTrans(a: Demand, b: Demand, c: Demand)
    requires Below(a, b) && Below(b, c)
    ensures Below(a, c)
  {
  }

  lemma TypedCons(env: Env, k: nat, t: Ty, x: Val, xs: seq<Val>)
    requires WFEnv(env) && WF(env, k, t) && Typed(env, k, t, x) && AllTyped(env, k, t, xs)
    ensures AllTyped(env, k, t, [x] + xs)
    ensures NeedsAll(env, k, t, [x] + xs) == Join(Needs(env, k, t, x), NeedsAll(env, k, t, xs))
  {
    hide WFEnv, WF, Typed, Needs, Join;
    assert ([x] + xs)[1..] == xs;
  }

  lemma SwapBelow(x: Demand, y: Demand, rest: Demand, d: Demand)
    requires Below(d, Join(x, rest))
    ensures Below(Join(y, d), Join(x, Join(y, rest)))
    ensures Below(Join(x, rest), Join(x, Join(y, rest)))
  {
  }

  /** Inserting an entry asks for no more than the entry and the rest did. */
  lemma {:induction false} InsertBelow(env: Env, less: Less, kind: Kind, k: nat, t: Ty, x: Val, xs: seq<Val>)
    requires WFEnv(env) && WF(env, k, t) && Typed(env, k, t, x) && AllTyped(env, k, t, xs)
    ensures AllTyped(env, k, t, Insert(less, kind, x, xs))
    ensures Below(NeedsAll(env, k, t, Insert(less, kind, x, xs)), Join(Needs(env, k, t, x), NeedsAll(env, k, t, xs)))
    decreases |xs|
  {
    hide WFEnv, WF, Typed, Needs, Key, NeedsAll, Join, Below;
    TypedCons(env, k, t, x, xs);
    BelowSelf(NeedsAll(env, k, t, [x] + xs));
    if xs == [] {
      assert [x] + xs == [x];
    } else {
      var y, rest := xs[0], xs[1..];
      var dx, dy, dr := Needs(env, k, t, x), Needs(env, k, t, y), NeedsAll(env, k, t, rest);
      assert xs == [y] + rest;
      TypedCons(env, k, t, y, rest);
      if Key(kind, x) == Key(kind, y) {
        TypedCons(env, k, t, x, rest);
        BelowSelf(Join(dx, dr));
        SwapBelow(dx, dy, dr, Join(dx, dr));
      } else if !less(Key(kind, x), Key(kind, y)) {
        InsertBelow(env, less, kind, k, t, x, rest);
        var ins := Insert(less, kind, x, rest);
        TypedCons(env, k, t, y, ins);
        SwapBelow(dx, dy, dr, NeedsAll(env, k, t, ins));
      }
    }
  }

  lemma {:induction false} FromIterBelow(env: Env, less: Less, kind: Kind, k: nat, t: Ty, xs: seq<Val>)
    requires WFEnv(env) && WF(env, k, t) && AllTyped(env, k, t, xs)
    ensures AllTyped(env, k, t, FromIter(less, kind, xs))
    ensures Below(NeedsAll(env, k, t, FromIter(less, kind, xs)), NeedsAll(env, k, t, xs))
    decreases |xs|
  {
    hide WFEnv, WF, Typed, Needs, Insert, Join, Below;
    if xs == [] {
      BelowSelf(NeedsAll(env, k, t, xs));
    } else {
      var init, x := xs[..|xs| - 1], xs[|xs| - 1];
      var ys := FromIter(less, kind, init);
      FromIterBelow(env, less, kind, k, t, init);
      InsertBelow(env, less, kind, k, t, x, ys);
      var dx, di, dy := Needs(env, k, t, x), NeedsAll(env, k, t, init), NeedsAll(env, k, t, ys);
      assert xs == init + [x];
      AllAppend(env, k, t, init, [x], []);
      OneNeeds(env, k, t, x);
      JoinCommutes(dx, di);
      BelowSelf(dx);
      BelowJoin(dx, dy, dx, di);
      BelowTrans(NeedsAll(env, k, t, FromIter(less, kind, xs)), Join(dx, dy), Join(dx, di));
    }
  }

  lemma BelowSelf(d: Demand)
    ensures Below(d, d)
  {
  }

  lemma JoinCommutes(a: Demand, b: Demand)
    ensures Join(a, b) == Join(b, a)
  {
  }

  lemma CollSizeMono(env: Env, kind: Kind, t: Ty, m: nat, n: nat)
    requires m <= n
    ensures CollSize(env, kind, t, m) <= CollSize(env, kind, t, n)
  {
    MulMono(m, n, env.nodeSize(t));
    var inner := env.leafSize(t) + 12 * env.word;
    MulMono(m / 10, n / 10, inner);
    if n / 10 > 0 {
      MulMono(1, n / 10, inner);
    }
  }

  /** The value a decoder returns is decodable, normal, and never asks for more than what was read. */
  lemma {:induction false} NormSettled(env: Env, ord: Orders, k: nat, ty: Ty, v: Val)
    requires WFEnv(env) && WF(env, k, ty) && AllTotal(ord) && Decodable(env, k, ty, v)
    ensures Settled(env, ord, k, ty, v, Norm(env, ord, k, ty, v))
    decreases v, k, ty, 1
  {
    hide Run, WF, WFEnv, AllTotal, Decodable, Settled, Typed, Norm;
    DecodableTyped(env, k, ty, v);
    match ty
    case Pair(a, b) => PairSettled(env, ord, k, ty, v);
    case Opt(t) => OneSettled(env, ord, k, ty, v);
    case Res(t, e) => OneSettled(env, ord, k, ty, v);
    case Array(t, n) => ArraySettled(env, ord, k, ty, v);
    case Vec(t) => VecSettled(env, ord, k, ty, v);
    case Coll(kind, t) => CollSettled(env, ord, k, ty, v);
    case Box(t) => BoxSettled(env, ord, k, ty, v);
    case Enum(vs) => EnumSettled(env, ord, k, ty, v);
    case Named(j) => NamedSettled(env, ord, k, ty, v);
    case _ => LeafSettled(env, ord, k, ty, v);
  }

  lemma DecodableTyped(env: Env, k: nat, ty: Ty, v: Val)
    requires WFEnv(env) && WF(env, k, ty) && Decodable(env, k, ty, v)
    ensures Typed(env, k, ty, v)
  {
  }

  lemma LeafSettled(env: Env, ord: Orders, k: nat, ty: Ty, v: Val)
    requires WFEnv(env) && WF(env, k, ty) && Decodable(env, k, ty, v) && IsLeaf(ty)
    ensures Settled(env, ord, k, ty, v, Norm(env, ord, k, ty, v))
  {
    hide WFEnv, Typed, Reach, Reset, Needs;
  }

  lemma PairSettled(env: Env, ord: Orders, k: nat, ty: Ty, v: Val)
    requires WFEnv(env) && WF(env, k, ty) && AllTotal(ord) && Decodable(env, k, ty, v) && ty.Pair?
    ensures Settled(env, ord, k, ty, v, Norm(env, ord, k, ty, v))
    decreases v, k, ty, 0
  {
    hide WFEnv, AllTotal, Join, Below;
    NormSettled(env, ord, k, ty.a, v.a);
    NormSettled(env, ord, k, ty.b, v.b);
    var n := Norm(env, ord, k, ty, v);
    BelowJoin(Needs(env, k, ty.a, n.a), Needs(env, k, ty.b, n.b), Needs(env, k, ty.a, v.a), Needs(env, k, ty.b, v.b));
  }

  lemma OneSettled(env: Env, ord: Orders, k: nat, ty: Ty, v: Val)
    requires WFEnv(env) && WF(env, k, ty) && AllTotal(ord) && Decodable(env, k, ty, v) && (ty.Opt? || ty.Res?)
    ensures Settled(env, ord, k, ty, v, Norm(env, ord, k, ty, v))
    decreases v, k, ty, 0
  {
    hide WFEnv, AllTotal;
    if v.SomeV? || v.OkV? {
      NormSettled(env, ord, k, ty.t, v.v);
    } else if v.ErrV? {
      NormSettled(env, ord, k, ty.e, v.v);
    }
  }

  lemma BoxSettled(env: Env, ord: Orders, k: nat, ty: Ty, v: Val)
    requires WFEnv(env) && WF(env, k, ty) && AllTotal(ord) && Decodable(env, k, ty, v) && ty.Box?
    ensures Settled(env, ord, k, ty, v, Norm(env, ord, k, ty, v))
    decreases v, k, ty, 0
  {
    hide WFEnv, AllTotal;
    NormSettled(env, ord, |env.defs|, ty.t, v.v);
  }

  lemma NamedSettled(env: Env, ord: Orders, k: nat, ty: Ty, v: Val)
    requires WFEnv(env) && WF(env, k, ty) && AllTotal(ord) && Decodable(env, k, ty, v) && ty.Named?
    ensures Settled(env, ord, k, ty, v, Norm(env, ord, k, ty, v))
    decreases v, k, ty, 0
  {
    hide AllTotal, Below;
    NormSettled(env, ord, ty.j, env.defs[ty.j], v);
  }

  lemma {:induction false} NormAllSettled(env: Env, ord: Orders, k: nat, t: Ty, vs: seq<Val>)
    requires WFEnv(env) && WF(env, k, t) && AllTotal(ord) && DecodableAll(env, k, t, vs)
    ensures var ns := NormAll(env, ord, k, t, vs);
      && AllSettled(env, ord, k, t, ns) && AllTyped(env, k, t, ns)
      && Below(NeedsAll(env, k, t, ns), NeedsAll(env, k, t, vs))
    decreases vs, k, t, 2
  {
    hide WFEnv, WF, AllTotal, Typed, Reach, Reset, Needs, Norm, Join, Below, NeedsAll, ResetAll, AllReach, AllTyped;
    if vs == [] {
      BelowSelf(NeedsAll(env, k, t, vs));
    } else {
      var x, xs := vs[0], vs[1..];
      HeadDecodable(env, k, t, vs);
      NormSettled(env, ord, k, t, x);
      NormAllSettled(env, ord, k, t, xs);
      var n, ns := Norm(env, ord, k, t, x), NormAll(env, ord, k, t, xs);
      TypedCons(env, k, t, n, ns);
      assert vs == [x] + xs;
      TypedCons(env, k, t, x, xs);
      BelowJoin(Needs(env, k, t, n), NeedsAll(env, k, t, ns), Needs(env, k, t, x), NeedsAll(env, k, t, xs));
    }
  }

  lemma HeadDecodable(env: Env, k: nat, t: Ty, vs: seq<Val>)
    requires WFEnv(env) && WF(env, k, t) && DecodableAll(env, k, t, vs) && vs != []
    ensures Decodable(env, k, t, vs[0]) && DecodableAll(env, k, t, vs[1..])
  {
    hide WFEnv, WF, Typed, Reach, Reset;
    var rs := ResetAll(env, k, t, vs);
    assert rs[0] == vs[0] && rs[1..] == vs[1..];
  }

  lemma ArraySettled(env: Env, ord: Orders, k: nat, ty: Ty, v: Val)
    requires WFEnv(env) && WF(env, k, ty) && AllTotal(ord) && Decodable(env, k, ty, v) && ty.Array?
    ensures Settled(env, ord, k, ty, v, Norm(env, ord, k, ty, v))
    decreases v, k, ty, 0
  {
    hide WFEnv, AllTotal, Below, AllTyped, AllReach, ResetAll, NormAll, NeedsAll, AllSettled;
    NormAllSettled(env, ord, k, ty.t, v.vs);
    SettledSeq(env, ord, k, ty.t, NormAll(env, ord, k, ty.t, v.vs));
  }

  lemma VecSettled(env: Env, ord: Orders, k: nat, ty: Ty, v: Val)
    requires WFEnv(env) && WF(env, k, ty) && AllTotal(ord) && Decodable(env, k, ty, v) && ty.Vec?
    ensures Settled(env, ord, k, ty, v, Norm(env, ord, k, ty, v))
    decreases v, k, ty, 0
  {
    hide WFEnv, AllTotal, UsizeMax, AllTyped, AllReach, ResetAll, NormAll, NeedsAll, AllSettled;
    NormAllSettled(env, ord, |env.defs|, ty.t, v.vs);
    SettledSeq(env, ord, |env.defs|, ty.t, NormAll(env, ord, |env.defs|, ty.t, v.vs));
  }

  lemma BuildSettled(env: Env, ord: Orders, kind: Kind, k: nat, t: Ty, xs: seq<Val>)
    requires WFEnv(env) && WF(env, k, t) && AllTotal(ord) && AllSettled(env, ord, k, t, xs)
    requires AllTyped(env, k, t, xs)
    ensures var ys := Build(ord, kind, t, xs);
      && AllSettled(env, ord, k, t, ys) && AllTyped(env, k, t, ys)
      && Below(NeedsAll(env, k, t, ys), NeedsAll(env, k, t, xs))
      && Build(ord, kind, t, ys) == ys
  {
    hide WFEnv, WF, Total, Typed, Needs, Norm, Decodable, Below, FromIter, NeedsAll, AllTyped;
    BelowSelf(NeedsAll(env, k, t, xs));
    if !kind.ListKind? {
      var less := ord(KeyTy(kind, t));
      FromIterBelow(env, less, kind, k, t, xs);
      FromIterSorted(less, kind, xs);
      FromIterOfSorted(less, kind, FromIter(less, kind, xs));
    }
  }

  lemma CollSettled(env: Env, ord: Orders, k: nat, ty: Ty, v: Val)
    requires WFEnv(env) && WF(env, k, ty) && AllTotal(ord) && Decodable(env, k, ty, v) && ty.Coll?
    ensures Settled(env, ord, k, ty, v, Norm(env, ord, k, ty, v))
    decreases v, k, ty, 0
  {
    hide WFEnv, AllTotal, AllTyped, AllReach, ResetAll, NormAll, NeedsAll, AllSettled, CollSize, Build;
    var d := |env.defs|;
    var xs := NormAll(env, ord, d, ty.t, v.vs);
    var ys := Build(ord, ty.kind, ty.t, xs);
    NormAllSettled(env, ord, d, ty.t, v.vs);
    BuildSettled(env, ord, ty.kind, d, ty.t, xs);
    SettledSeq(env, ord, d, ty.t, ys);
    CollSizeMono(env, ty.kind, ty.t, |ys|, |v.vs|);
  }

  lemma EnumSettled(env: Env, ord: Orders, k: nat, ty: Ty, v: Val)
    requires WFEnv(env) && WF(env, k, ty) && AllTotal(ord) && Decodable(env, k, ty, v) && ty.Enum?
    ensures Settled(env, ord, k, ty, v, Norm(env, ord, k, ty, v))
    decreases v, k, ty, 0
  {
    hide WFEnv, AllTotal, Below, TypedVariant, ReachVariant, ResetVariant, NormVariant, NeedsVariant, Reachable;
    VariantSettled(env, ord, k, ty.vs, v.i, v.v);
  }

  lemma {:induction false} VariantSettled(env: Env, ord: Orders, k: nat, vs: Variants, i: nat, v: Val)
    requires WFEnv(env) && WFVariants(env, k, vs) && AllTotal(ord)
    requires TypedVariant(env, k, vs, i, v) && ReachVariant(env, k, vs, i, v) && ResetVariant(env, k, vs, i, v) == v
    ensures var n := NormVariant(env, ord, k, vs, i, v);
      && TypedVariant(env, k, vs, i, n) && ReachVariant(env, k, vs, i, n) && ResetVariant(env, k, vs, i, n) == n
      && NormVariant(env, ord, k, vs, i, n) == n
      && Below(NeedsVariant(env, k, vs, i, n), NeedsVariant(env, k, vs, i, v))
    decreases v, k, vs, 0
  {
    hide WFEnv, WF, AllTotal, Typed, Reach, Reset, Needs, Norm, Below;
    if i == 0 {
      NormSettled(env, ord, k, vs.ty, v);
    } else {
      VariantSettled(env, ord, k, vs.tail, i - 1, v);
    }
  }

  /**
   Re-encoding what was decoded is accepted again under the same limits, even where maps or
   sets arrived unsorted or with repeated keys, and gives the very same value.
   */
  lemma ReencodeStable(env: Env, ord: Orders, cfg: Cfg, k: nat, ty: Ty, st: St, v: Val, r: seq<byte>, s: seq<byte>)
    requires WFEnv(env) && WFCfg(env, cfg) && WF(env, k, ty) && AllTotal(ord) && st.depth <= cfg.maxDepth
    requires Accepts(env, cfg, k, ty, st, v, r)
    ensures Typed(env, k, ty, v)
    ensures var n := Norm(env, ord, k, ty, v);
      && Typed(env, k, ty, n)
      && Accepts(env, cfg, k, ty, st.(bytes := Enc(env, k, ty, n) + s), n, s)
      && Norm(env, ord, k, ty, n) == n
  {
    hide WFEnv, WFCfg, WF, AllTotal, Typed, Reach, Reset, Needs, Norm, Enc, Run;
    DecodeExact(env, cfg, k, ty, st, v, r);
    NormSettled(env, ord, k, ty, v);
    var n := Norm(env, ord, k, ty, v);
    var st' := st.(bytes := Enc(env, k, ty, n) + s);
    assert Fits(cfg, st', Needs(env, k, ty, n));
    DecodeExact(env, cfg, k, ty, st', n, s);
  }

  /** A decoded map or set has no more entries than were announced, and they are strictly sorted. */
  lemma CollectionSorted(env: Env, ord: Orders, k: nat, kind: Kind, t: Ty, v: Val)
    requires WFEnv(env) && WF(env, k, Coll(kind, t)) && Typed(env, k, Coll(kind, t), v)
    requires AllTotal(ord) && !kind.ListKind?
    ensures var n := Norm(env, ord, k, Coll(kind, t), v);
      n.Items? && |n.vs| <= |v.vs| && Sorted(ord(KeyTy(kind, t)), kind, n.vs)
  {
    hide WFEnv, Total, NormAll, FromIter, Sorted;
    FromIterSorted(ord(KeyTy(kind, t)), kind, NormAll(env, ord, |env.defs|, t, v.vs));
  }
}
