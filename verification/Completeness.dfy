/** Every encoding within the limits is accepted, and gives back the value that was encoded. */
module Completeness {
  import opened Bytes
  import opened Types
  import opened Input
  import opened CompactCodec
  import opened Encode
  import opened Decode
  import opened Soundness

  /** The state holds v's encoding followed by r, v is decodable, and the limits have room. */
  ghost predicate Ready(env: Env, cfg: Cfg, k: nat, ty: Ty, st: St, v: Val, r: seq<byte>)
    requires WFEnv(env) && WFCfg(env, cfg) && WF(env, k, ty)
  {
    && Typed(env, k, ty, v) && Reach(env, k, ty, v)
    && st.depth <= cfg.maxDepth
    && st.bytes == EncTo(env, k, ty, v, r)
    && Fits(cfg, st, Needs(env, k, ty, v))
  }

  /** The run gives v back, skipped fields reset, and ends where r starts. */
  ghost predicate Gives(env: Env, cfg: Cfg, k: nat, ty: Ty, st: St, v: Val, r: seq<byte>)
    requires WFEnv(env) && WFCfg(env, cfg) && WF(env, k, ty) && Ready(env, cfg, k, ty, st, v, r)
  {
    var o := Run(env, cfg, k, ty, st);
    o.Ok? && o.v == Reset(env, k, ty, v) && Arrives(cfg, st, Needs(env, k, ty, v), r, o.st)
  }

  lemma {:induction false} RunComplete(env: Env, cfg: Cfg, k: nat, ty: Ty, st: St, v: Val, r: seq<byte>)
    requires WFEnv(env) && WFCfg(env, cfg) && WF(env, k, ty) && Ready(env, cfg, k, ty, st, v, r)
    ensures Gives(env, cfg, k, ty, st, v, r)
    decreases v, k, ty, 1
  {
    hide *;
    match ty
    case Pair(a, b) => PairComplete(env, cfg, k, ty, st, v, r);
    case Opt(t) => OptComplete(env, cfg, k, ty, st, v, r);
    case Res(t, e) => ResComplete(env, cfg, k, ty, st, v, r);
    case Array(t, n) => ArrayComplete(env, cfg, k, ty, st, v, r);
    case Vec(t) => VecComplete(env, cfg, k, ty, st, v, r);
    case Coll(kind, t) => CollComplete(env, cfg, k, ty, st, v, r);
    case Box(t) => BoxComplete(env, cfg, k, ty, st, v, r);
    case Enum(vs) => EnumComplete(env, cfg, k, ty, st, v, r);
    case Named(j) => NamedComplete(env, cfg, k, ty, st, v, r);
    case Str => TextComplete(env, cfg, k, ty, st, v, r);
    case Blob => TextComplete(env, cfg, k, ty, st, v, r);
    case Compact(w) => CompactRunComplete(env, cfg, k, ty, st, v, r);
    case _ => FixedComplete(env, cfg, k, ty, st, v, r);
  }

  lemma FixedComplete(env: Env, cfg: Cfg, k: nat, ty: Ty, st: St, v: Val, r: seq<byte>)
    requires WFEnv(env) && WFCfg(env, cfg) && WF(env, k, ty) && Ready(env, cfg, k, ty, st, v, r)
    requires ty.Prim? || ty.NonZero? || ty.Bool? || ty.OptBool? || ty.Duration? || ty.Unit? || ty.Skip?
    ensures Gives(env, cfg, k, ty, st, v, r)
  {
    hide WFEnv, WFCfg, Pow256, UnLE, LE;
    if ty.Prim? || ty.NonZero? {
      WordComplete(st, ty.w, v.n, r);
    } else if ty.Duration? {
      NanosFit(v.nanos);
      WordComplete(st, 8, v.secs, LE(v.nanos, 4) + r);
      WordComplete(Read(st, 8).st, 4, v.nanos, r);
    } else if ty.Bool? || ty.OptBool? {
      assert st.bytes[1..] == r;
    }
  }

  lemma NanosFit(n: nat)
    requires n < A_BILLION
    ensures n < Pow256(4)
  {
    PowValues();
  }

  lemma WordComplete(st: St, w: nat, n: nat, r: seq<byte>)
    requires n < Pow256(w) && st.bytes == LE(n, w) + r
    ensures Read(st, w).Ok? && UnLE(Read(st, w).v) == n && Read(st, w).st.bytes == r
  {
    hide Pow256, UnLE, LE;
    UnLEOfLE(n, w);
    assert st.bytes[..w] == LE(n, w) && st.bytes[w..] == r;
  }

  lemma TagComplete(st: St, tag: byte, r: seq<byte>)
    requires st.bytes == [tag] + r
    ensures ReadByte(st).Ok? && ReadByte(st).v == tag && ReadByte(st).st.bytes == r
  {
    assert st.bytes[1..] == r;
  }

  lemma CompactRunComplete(env: Env, cfg: Cfg, k: nat, ty: Ty, st: St, v: Val, r: seq<byte>)
    requires WFEnv(env) && WFCfg(env, cfg) && WF(env, k, ty) && Ready(env, cfg, k, ty, st, v, r) && ty.Compact?
    ensures Gives(env, cfg, k, ty, st, v, r)
  {
    hide WFEnv, WFCfg, Pow256, RunCompact, CompactEnc;
    NumBytesFits(v.n, ty.w);
    CompactComplete(ty.w, st, v.n, r);
  }

  lemma LenComplete(st: St, n: nat, r: seq<byte>)
    requires n <= U32_MAX && st.bytes == LenPrefix(n) + r
    ensures RunCompact(4, st).Ok? && RunCompact(4, st).v == n && RunCompact(4, st).st.bytes == r
  {
    hide CompactEnc, RunCompact;
    PowValues();
    NumBytesFits(n, 4);
    CompactComplete(4, st, n, r);
  }

  lemma BulkComplete(env: Env, cfg: Cfg, w: nat, st: St, bs: seq<byte>, len: nat, r: seq<byte>)
    requires WFEnv(env) && WFCfg(env, cfg) && IsWidth(w) && st.depth <= cfg.maxDepth
    requires |bs| == len * w <= UsizeMax(env) && st.bytes == bs + r
    requires Fits(cfg, st, Heap(len > 0, len * w))
    ensures var o := RunBulk(env, cfg, w, len, st);
      o.Ok? && o.v == bs && Arrives(cfg, st, Heap(len > 0, len * w), r, o.st)
  {
    hide WFEnv, WFCfg, Charged, Fits, RunBulkChunks, UsizeMax;
    BulkChunksExact(env, cfg, w, len, st);
    assert st.bytes[..len * w] == bs && st.bytes[len * w..] == r;
  }

  lemma TextComplete(env: Env, cfg: Cfg, k: nat, ty: Ty, st: St, v: Val, r: seq<byte>)
    requires WFEnv(env) && WFCfg(env, cfg) && WF(env, k, ty) && Ready(env, cfg, k, ty, st, v, r) && (ty.Str? || ty.Blob?)
    ensures Gives(env, cfg, k, ty, st, v, r)
  {
    hide WFEnv, WFCfg, Charged, Fits, RunCompact, LenPrefix, RunBulk, RunBlob, Utf8, UsizeMax;
    var len := |v.bs|;
    LenComplete(st, len, v.bs + r);
    var st1 := RunCompact(4, st).st;
    FitsSame(cfg, st, st1, Heap(len > 0, len));
    LenFits(env, len);
    if ty.Str? {
      BulkComplete(env, cfg, 1, st1, v.bs, len, r);
    } else {
      BlobComplete(env, cfg, st1, v.bs, r);
    }
  }

  lemma LenFits(env: Env, len: nat)
    requires WFEnv(env) && len <= U32_MAX
    ensures len <= UsizeMax(env)
  {
    PowValues();
    PowMono(4, env.word);
  }

  lemma BlobComplete(env: Env, cfg: Cfg, st: St, bs: seq<byte>, r: seq<byte>)
    requires WFEnv(env) && WFCfg(env, cfg) && st.depth <= cfg.maxDepth && |bs| <= UsizeMax(env)
    requires st.bytes == bs + r && Fits(cfg, st, Heap(|bs| > 0, |bs|))
    ensures var o := RunBlob(env, cfg, |bs|, st);
      o.Ok? && o.v == bs && Arrives(cfg, st, Heap(|bs| > 0, |bs|), r, o.st)
  {
    hide RunBulk, UsizeMax;
    if !cfg.cursor {
      BulkComplete(env, cfg, 1, st, bs, |bs|, r);
    } else {
      assert st.bytes[..|bs|] == bs && st.bytes[|bs|..] == r;
    }
  }

  lemma PairComplete(env: Env, cfg: Cfg, k: nat, ty: Ty, st: St, v: Val, r: seq<byte>)
    requires WFEnv(env) && WFCfg(env, cfg) && WF(env, k, ty) && Ready(env, cfg, k, ty, st, v, r) && ty.Pair?
    ensures Gives(env, cfg, k, ty, st, v, r)
    decreases v, k, ty, 0
  {
    hide WFEnv, WFCfg, Charged, Fits, Join;
    var x, y := Needs(env, k, ty.a, v.a), Needs(env, k, ty.b, v.b);
    var mid := EncTo(env, k, ty.b, v.b, r);
    FitsJoin(cfg, st, x, y, st.(used := Charged(cfg, st.used, x)));
    RunComplete(env, cfg, k, ty.a, st, v.a, mid);
    var st1 := Run(env, cfg, k, ty.a, st).st;
    FitsSame(cfg, st.(used := Charged(cfg, st.used, x)), st1, y);
    RunComplete(env, cfg, k, ty.b, st1, v.b, r);
  }

  lemma OptComplete(env: Env, cfg: Cfg, k: nat, ty: Ty, st: St, v: Val, r: seq<byte>)
    requires WFEnv(env) && WFCfg(env, cfg) && WF(env, k, ty) && Ready(env, cfg, k, ty, st, v, r) && ty.Opt?
    ensures Gives(env, cfg, k, ty, st, v, r)
    decreases v, k, ty, 0
  {
    hide WFEnv, WFCfg, Charged, Fits;
    FitsNothing(cfg, st);
    if v.SomeV? {
      TagComplete(st, 1, EncTo(env, k, ty.t, v.v, r));
      var st1 := ReadByte(st).st;
      FitsSame(cfg, st, st1, Needs(env, k, ty.t, v.v));
      RunComplete(env, cfg, k, ty.t, st1, v.v, r);
    } else {
      TagComplete(st, 0, r);
    }
  }

  lemma ResComplete(env: Env, cfg: Cfg, k: nat, ty: Ty, st: St, v: Val, r: seq<byte>)
    requires WFEnv(env) && WFCfg(env, cfg) && WF(env, k, ty) && Ready(env, cfg, k, ty, st, v, r) && ty.Res?
    ensures Gives(env, cfg, k, ty, st, v, r)
    decreases v, k, ty, 0
  {
    hide WFEnv, WFCfg, Charged, Fits;
    var t := if v.OkV? then ty.t else ty.e;
    TagComplete(st, if v.OkV? then 0 else 1, EncTo(env, k, t, v.v, r));
    var st1 := ReadByte(st).st;
    FitsSame(cfg, st, st1, Needs(env, k, t, v.v));
    RunComplete(env, cfg, k, t, st1, v.v, r);
  }

  lemma NamedComplete(env: Env, cfg: Cfg, k: nat, ty: Ty, st: St, v: Val, r: seq<byte>)
    requires WFEnv(env) && WFCfg(env, cfg) && WF(env, k, ty) && Ready(env, cfg, k, ty, st, v, r) && ty.Named?
    ensures Gives(env, cfg, k, ty, st, v, r)
    decreases v, k, ty, 0
  {
    hide Charged, Fits;
    RunComplete(env, cfg, ty.j, env.defs[ty.j], st, v, r);
  }

  lemma BoxComplete(env: Env, cfg: Cfg, k: nat, ty: Ty, st: St, v: Val, r: seq<byte>)
    requires WFEnv(env) && WFCfg(env, cfg) && WF(env, k, ty) && Ready(env, cfg, k, ty, st, v, r) && ty.Box?
    ensures Gives(env, cfg, k, ty, st, v, r)
    decreases v, k, ty, 0
  {
    hide WFEnv, WFCfg, Charged, Fits, Alloc, Join;
    var t, d := ty.t, |env.defs|;
    var own, inner := Heap(true, env.sizeOf(t)), Needs(env, d, t, v.v);
    var st1 := st.(depth := st.depth + 1);
    FitsUnder(cfg, st, Join(own, inner), st1);
    var st2 := st1.(used := Charged(cfg, st1.used, own));
    FitsJoin(cfg, st1, own, inner, st2);
    FitsDepth(cfg, st1, own);
    AllocExact(env, cfg, st1, env.sizeOf(t), env.sizeOf(t));
    RunComplete(env, cfg, d, t, st2, v.v, r);
    assert Run(env, cfg, k, ty, st) == RunBox(env, cfg, k, t, st);
  }

  lemma FitsDepth(cfg: Cfg, st: St, d: Demand)
    requires Fits(cfg, st, d)
    ensures st.depth <= cfg.maxDepth
  {
  }

  ghost predicate ReadyAll(env: Env, cfg: Cfg, k: nat, t: Ty, st: St, vs: seq<Val>, r: seq<byte>)
    requires WFEnv(env) && WFCfg(env, cfg) && WF(env, k, t)
  {
    && AllTyped(env, k, t, vs) && AllReach(env, k, t, vs)
    && st.depth <= cfg.maxDepth
    && st.bytes == EncAllTo(env, k, t, vs, r)
    && Fits(cfg, st, NeedsAll(env, k, t, vs))
  }

  lemma {:induction false} ItemsComplete(env: Env, cfg: Cfg, k: nat, t: Ty, st: St, vs: seq<Val>, r: seq<byte>)
    requires WFEnv(env) && WFCfg(env, cfg) && WF(env, k, t) && ReadyAll(env, cfg, k, t, st, vs, r)
    ensures var o := RunItems(env, cfg, k, t, |vs|, st);
      o.Ok? && o.v == ResetAll(env, k, t, vs) && Arrives(cfg, st, NeedsAll(env, k, t, vs), r, o.st)
    decreases vs, k, t, 2
  {
    hide WFEnv, WFCfg, WF, Charged, Fits, Join, Typed, Reach, Reset, EncTo, Needs, Run;
    if vs == [] {
      FitsNothing(cfg, st);
    } else {
      var x, xs := vs[0], vs[1..];
      var dx, dxs := Needs(env, k, t, x), NeedsAll(env, k, t, xs);
      var st' := st.(used := Charged(cfg, st.used, dx));
      FitsJoin(cfg, st, dx, dxs, st');
      RunComplete(env, cfg, k, t, st, x, EncAllTo(env, k, t, xs, r));
      var st1 := Run(env, cfg, k, t, st).st;
      FitsSame(cfg, st', st1, dxs);
      ItemsComplete(env, cfg, k, t, st1, xs, r);
    }
  }

  lemma {:induction false} ChunksComplete(env: Env, cfg: Cfg, t: Ty, st: St, vs: seq<Val>, r: seq<byte>)
    requires WFEnv(env) && WFCfg(env, cfg) && WF(env, |env.defs|, t) && env.sizeOf(t) <= MAX_PREALLOCATION
    requires AllTyped(env, |env.defs|, t, vs) && AllReach(env, |env.defs|, t, vs)
    requires st.depth <= cfg.maxDepth && st.bytes == EncAllTo(env, |env.defs|, t, vs, r)
    requires Fits(cfg, st, Join(Heap(|vs| > 0, |vs| * env.sizeOf(t)), NeedsAll(env, |env.defs|, t, vs)))
    ensures var o := RunChunks(env, cfg, t, |vs|, st);
      && o.Ok? && o.v == ResetAll(env, |env.defs|, t, vs)
      && Arrives(cfg, st, Join(Heap(|vs| > 0, |vs| * env.sizeOf(t)), NeedsAll(env, |env.defs|, t, vs)), r, o.st)
    decreases vs, |env.defs|, t, 3
  {
    hide WFEnv, WFCfg, WF, Charged, Fits, Pow256, UsizeMax, Join, Alloc, RunItems, AllTyped, AllReach, EncAllTo, NeedsAll, ResetAll;
    var d, size, len := |env.defs|, env.sizeOf(t), |vs|;
    if len == 0 {
      assert vs == [];
      NilSound(env, d, t, r);
      FitsNothing(cfg, st);
      JoinNothing(NOTHING);
    } else {
      ChunkLenPositive(env, size);
      var c := Min(ChunkLen(env, size), len);
      var xs, ys := vs[..c], vs[c..];
      assert vs == xs + ys;
      if c == len {
        assert xs == vs;
      }
      assert c * size + |ys| * size == len * size;
      AllTypedAppend(env, d, t, xs, ys);
      AllReachAppend(env, d, t, xs, ys);
      AllAppend(env, d, t, xs, ys, r);
      var st1 := st.(used := Charged(cfg, st.used, Heap(true, c * size)));
      var dx, dy := NeedsAll(env, d, t, xs), NeedsAll(env, d, t, ys);
      ChunkFits(cfg, st, c * size, dx, |ys| > 0, |ys| * size, dy, st1, st1.(used := Charged(cfg, st1.used, dx)));
      AllocExact(env, cfg, st, c * size, Min(UsizeMax(env), c * size));
      ItemsComplete(env, cfg, d, t, st1, xs, EncAllTo(env, d, t, ys, r));
      var st2 := RunItems(env, cfg, d, t, c, st1).st;
      FitsSame(cfg, st1.(used := Charged(cfg, st1.used, dx)), st2, Join(Heap(|ys| > 0, |ys| * size), dy));
      ChunksComplete(env, cfg, t, st2, ys, r);
    }
  }

  /** Encoded primitives are raw bytes that split back into the same primitives. */
  lemma {:induction false} SplitComplete(env: Env, k: nat, w: nat, vs: seq<Val>, r: seq<byte>)
    requires WFEnv(env) && WF(env, k, Prim(w)) && AllTyped(env, k, Prim(w), vs)
    ensures var b := EncAllTo(env, k, Prim(w), vs, r);
      var m := |vs| * w;
      && m <= |b| && b[m..] == r
      && Split(b[..m], w, |vs|) == vs && ResetAll(env, k, Prim(w), vs) == vs
      && NeedsAll(env, k, Prim(w), vs) == NOTHING
    decreases |vs|
  {
    hide WFEnv, WFCfg, WF, Typed, Pow256, LE, UnLE, EncTo, Reset, Needs;
    if vs == [] {
    } else {
      var x, xs := vs[0], vs[1..];
      var tail := EncAllTo(env, k, Prim(w), xs, r);
      SplitComplete(env, k, w, xs, r);
      PrimComplete(env, k, w, x, tail);
      assert |vs| == |xs| + 1;
      SplitStep(EncAllTo(env, k, Prim(w), vs, r), w, |xs|, tail, x.n);
      assert vs == [x] + xs;
    }
  }

  lemma PrimComplete(env: Env, k: nat, w: nat, x: Val, s: seq<byte>)
    requires WFEnv(env) && WF(env, k, Prim(w)) && Typed(env, k, Prim(w), x)
    ensures x == Num(x.n) && x.n < Pow256(w) && EncTo(env, k, Prim(w), x, s) == LE(x.n, w) + s
    ensures Reset(env, k, Prim(w), x) == x && Needs(env, k, Prim(w), x) == NOTHING
  {
  }

  lemma SplitStep(b: seq<byte>, w: nat, len: nat, tail: seq<byte>, n: nat)
    requires n < Pow256(w) && b == LE(n, w) + tail && len * w <= |tail|
    ensures (len + 1) * w == w + len * w <= |b|
    ensures Split(b[..(len + 1) * w], w, len + 1) == [Num(n)] + Split(tail[..len * w], w, len)
    ensures b[(len + 1) * w..] == tail[len * w..]
  {
    hide Pow256, LE, UnLE;
    var m' := len * w;
    assert (len + 1) * w == w + m';
    var bs := b[..w + m'];
    assert bs[..w] == LE(n, w) && bs[w..] == tail[..m'];
    UnLEOfLE(n, w);
  }

  lemma ArrayComplete(env: Env, cfg: Cfg, k: nat, ty: Ty, st: St, v: Val, r: seq<byte>)
    requires WFEnv(env) && WFCfg(env, cfg) && WF(env, k, ty) && Ready(env, cfg, k, ty, st, v, r) && ty.Array?
    ensures Gives(env, cfg, k, ty, st, v, r)
    decreases v, k, ty, 0
  {
    hide WFEnv, WFCfg, Charged, Fits, EncAllTo, NeedsAll, ResetAll, AllTyped, AllReach;
    FitsNothing(cfg, st);
    if ty.t.Prim? {
      SplitComplete(env, k, ty.t.w, v.vs, r);
    } else {
      ItemsComplete(env, cfg, k, ty.t, st, v.vs, r);
    }
  }

  lemma VecComplete(env: Env, cfg: Cfg, k: nat, ty: Ty, st: St, v: Val, r: seq<byte>)
    requires WFEnv(env) && WFCfg(env, cfg) && WF(env, k, ty) && Ready(env, cfg, k, ty, st, v, r) && ty.Vec?
    ensures Gives(env, cfg, k, ty, st, v, r)
    decreases v, k, ty, 0
  {
    hide WFEnv, WFCfg, Charged, Fits, Pow256, UsizeMax, RunCompact, LenPrefix, RunBulk, EncAllTo, NeedsAll, ResetAll, AllTyped, AllReach;
    var t, d, len := ty.t, |env.defs|, |v.vs|;
    var body := EncAllTo(env, d, t, v.vs, r);
    LenComplete(st, len, body);
    var st1 := RunCompact(4, st).st;
    if t.Prim? {
      var m := len * t.w;
      SplitComplete(env, d, t.w, v.vs, r);
      FitsSame(cfg, st, st1, Heap(len > 0, m));
      assert body == body[..m] + r;
      BulkComplete(env, cfg, t.w, st1, body[..m], len, r);
    } else {
      var need := Join(Heap(len > 0, len * env.sizeOf(t)), NeedsAll(env, d, t, v.vs));
      var st2 := st1.(depth := st1.depth + 1);
      FitsSame(cfg, st, st1, Under(need));
      FitsUnder(cfg, st1, need, st2);
      FitsDepth(cfg, st2, need);
      ChunksComplete(env, cfg, t, st2, v.vs, r);
    }
    assert Run(env, cfg, k, ty, st) == RunVec(env, cfg, k, t, st);
  }

  lemma CollComplete(env: Env, cfg: Cfg, k: nat, ty: Ty, st: St, v: Val, r: seq<byte>)
    requires WFEnv(env) && WFCfg(env, cfg) && WF(env, k, ty) && Ready(env, cfg, k, ty, st, v, r) && ty.Coll?
    ensures Gives(env, cfg, k, ty, st, v, r)
    decreases v, k, ty, 0
  {
    hide WFEnv, WFCfg, Charged, Fits, Pow256, UsizeMax, RunCompact, LenPrefix, EncAllTo, NeedsAll, ResetAll, AllTyped, AllReach, Alloc, CollSize, Join;
    var t, d, len := ty.t, |env.defs|, |v.vs|;
    LenComplete(st, len, EncAllTo(env, d, t, v.vs, r));
    var st1 := RunCompact(4, st).st;
    var size := CollSize(env, ty.kind, t, len);
    var own, items := Heap(true, size), NeedsAll(env, d, t, v.vs);
    var st2 := st1.(depth := st1.depth + 1);
    FitsSame(cfg, st, st1, Under(Join(own, items)));
    FitsUnder(cfg, st1, Join(own, items), st2);
    var st3 := st2.(used := Charged(cfg, st2.used, own));
    FitsJoin(cfg, st2, own, items, st3);
    FitsDepth(cfg, st2, own);
    AllocExact(env, cfg, st2, size, Min(UsizeMax(env), size));
    ItemsComplete(env, cfg, d, t, st3, v.vs, r);
    assert Run(env, cfg, k, ty, st) == RunColl(env, cfg, k, ty.kind, t, st);
  }

  lemma EnumComplete(env: Env, cfg: Cfg, k: nat, ty: Ty, st: St, v: Val, r: seq<byte>)
    requires WFEnv(env) && WFCfg(env, cfg) && WF(env, k, ty) && Ready(env, cfg, k, ty, st, v, r) && ty.Enum?
    ensures Gives(env, cfg, k, ty, st, v, r)
    decreases v, k, ty, 0
  {
    hide WFEnv, WFCfg, Charged, Fits, RunVariant, TypedVariant, ReachVariant, ResetVariant, EncVariantTo, NeedsVariant, VariantAt, Arm;
    var tag := VariantAt(ty.vs, v.i).tag;
    VariantForm(env, k, ty.vs, v.i, v.v, r);
    TagComplete(st, tag, st.bytes[1..]);
    var st1 := ReadByte(st).st;
    FitsSame(cfg, st, st1, NeedsVariant(env, k, ty.vs, v.i, v.v));
    VariantComplete(env, cfg, k, ty.vs, tag, st1, v.i, v.v, r);
  }

  lemma {:induction false} VariantForm(env: Env, k: nat, vs: Variants, i: nat, v: Val, r: seq<byte>)
    requires WFEnv(env) && WFVariants(env, k, vs) && TypedVariant(env, k, vs, i, v)
    requires VariantAt(vs, i).VCons? && !VariantAt(vs, i).skip
    ensures var b := EncVariantTo(env, k, vs, i, v, r);
      b != [] && b == [VariantAt(vs, i).tag] + b[1..]
    decreases vs
  {
    hide WFEnv, WFCfg, WF, Typed, EncTo;
    if i > 0 {
      VariantForm(env, k, vs.tail, i - 1, v, r);
    }
  }

  lemma {:induction false} VariantComplete(
    env: Env, cfg: Cfg, k: nat, vs: Variants, tag: byte, st: St, i: nat, v: Val, r: seq<byte>)
    requires WFEnv(env) && WFCfg(env, cfg) && WFVariants(env, k, vs) && TypedVariant(env, k, vs, i, v)
    requires ReachVariant(env, k, vs, i, v) && Arm(vs, tag) == Some(i)
    requires st.depth <= cfg.maxDepth && [tag] + st.bytes == EncVariantTo(env, k, vs, i, v, r)
    requires Fits(cfg, st, NeedsVariant(env, k, vs, i, v))
    ensures var o := RunVariant(env, cfg, k, vs, tag, st);
      && o.Ok? && o.v == (i, ResetVariant(env, k, vs, i, v))
      && Arrives(cfg, st, NeedsVariant(env, k, vs, i, v), r, o.st)
    decreases v, k, vs, 0
  {
    hide WFEnv, WFCfg, WF, Charged, Fits, Typed, Reach, Reset, EncTo, Needs, Run;
    if i == 0 {
      assert ([tag] + st.bytes)[1..] == st.bytes;
      RunComplete(env, cfg, k, vs.ty, st, v, r);
    } else {
      VariantComplete(env, cfg, k, vs.tail, tag, st, i - 1, v, r);
    }
  }
}
