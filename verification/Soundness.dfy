/** Whatever a run accepts is the encoding of its result, within the limits. */
module Soundness {
  import opened Bytes
  import opened Types
  import opened Input
  import opened CompactCodec
  import opened Encode
  import opened Decode

  /** The bytes read are v's encoding, v is a value decoding can give, and the limits had room. */
  ghost predicate Parsed(env: Env, cfg: Cfg, k: nat, ty: Ty, st: St, v: Val, st': St)
    requires WFEnv(env) && WFCfg(env, cfg) && WF(env, k, ty)
  {
    && Typed(env, k, ty, v) && Reach(env, k, ty, v) && Reset(env, k, ty, v) == v
    && st.bytes == EncTo(env, k, ty, v, st'.bytes)
    && Fits(cfg, st, Needs(env, k, ty, v))
    && st'.used == Charged(cfg, st.used, Needs(env, k, ty, v))
  }

  ghost predicate ParsedAll(env: Env, cfg: Cfg, k: nat, t: Ty, st: St, vs: seq<Val>, st': St)
    requires WFEnv(env) && WFCfg(env, cfg) && WF(env, k, t)
  {
    && AllTyped(env, k, t, vs) && AllReach(env, k, t, vs) && ResetAll(env, k, t, vs) == vs
    && st.bytes == EncAllTo(env, k, t, vs, st'.bytes)
    && Fits(cfg, st, NeedsAll(env, k, t, vs))
    && st'.used == Charged(cfg, st.used, NeedsAll(env, k, t, vs))
  }

  /** An allocation request is granted exactly when the unbounded sum stays below the limit. */
  lemma AllocExact(env: Env, cfg: Cfg, st: St, size: nat, request: nat)
    requires WFEnv(env) && WFCfg(env, cfg) && st.depth <= cfg.maxDepth
    requires request == size || request == Min(UsizeMax(env), size)
    ensures var o := Alloc(env, cfg, st, request);
      && (o.Ok? <==> Fits(cfg, st, Heap(true, size)))
      && (o.Ok? ==> o.st == st.(used := Charged(cfg, st.used, Heap(true, size))))
  {
  }

  /** Two demands one after the other fit exactly when their join does. */
  lemma FitsJoin(cfg: Cfg, st: St, x: Demand, y: Demand, st1: St)
    requires !x.asks ==> x.bytes == 0
    requires !y.asks ==> y.bytes == 0
    requires st1.depth == st.depth && st1.used == Charged(cfg, st.used, x)
    ensures Fits(cfg, st, Join(x, y)) <==> Fits(cfg, st, x) && Fits(cfg, st1, y)
    ensures Charged(cfg, st.used, Join(x, y)) == Charged(cfg, st1.used, y)
  {
  }

  lemma FitsUnder(cfg: Cfg, st: St, x: Demand, st1: St)
    requires st1.depth == st.depth + 1 && st1.used == st.used
    ensures Fits(cfg, st, Under(x)) <==> Fits(cfg, st1, x)
    ensures Charged(cfg, st.used, Under(x)) == Charged(cfg, st.used, x)
  {
  }

  /** Bulk chunks: accepted exactly when all the bytes are there and the total fits. */
  lemma {:induction false} BulkChunksExact(env: Env, cfg: Cfg, w: nat, len: nat, st: St)
    requires WFEnv(env) && WFCfg(env, cfg) && IsWidth(w) && st.depth <= cfg.maxDepth
    ensures var o := RunBulkChunks(env, cfg, w, len, st);
      && (o.Ok? <==> len * w <= |st.bytes| && Fits(cfg, st, Heap(len > 0, len * w)))
      && (o.Ok? ==>
          && o.v == st.bytes[..len * w]
          && Arrives(cfg, st, Heap(len > 0, len * w), st.bytes[len * w..], o.st))
    decreases len
  {
    hide WFEnv, WFCfg, Charged, Fits, Alloc, UsizeMax, ChunkLen, Join, IsWidth;
    if len == 0 {
      assert Fits(cfg, st, Heap(false, 0)) && Charged(cfg, st.used, Heap(false, 0)) == st.used by {
        FitsNothing(cfg, st);
      }
    } else {
      WidthRange(w);
      ChunkLenPositive(env, w);
      var c := Min(ChunkLen(env, w), len);
      var rest := len - c;
      assert c * w + rest * w == len * w;
      AllocExact(env, cfg, st, c * w, Min(UsizeMax(env), c * w));
      var o1 := Alloc(env, cfg, st, Min(UsizeMax(env), c * w));
      var st1 := st.(used := Charged(cfg, st.used, Heap(true, c * w)));
      FitsJoin(cfg, st, Heap(true, c * w), Heap(rest > 0, rest * w), st1);
      HeapJoin(c * w, rest > 0, rest * w);
      if o1.Ok? && c * w <= |st.bytes| {
        var st2 := Read(st1, c * w).st;
        BulkChunksExact(env, cfg, w, rest, st2);
        assert Fits(cfg, st2, Heap(rest > 0, rest * w)) == Fits(cfg, st1, Heap(rest > 0, rest * w)) by {
          FitsSame(cfg, st1, st2, Heap(rest > 0, rest * w));
        }
        if len * w <= |st.bytes| {
          CutCut(st.bytes, c * w, rest * w);
        }
      }
    }
  }

  lemma HeapJoin(a: nat, more: bool, b: nat)
    ensures Join(Heap(true, a), Heap(more, b)) == Heap(true, a + b)
  {
  }

  lemma FitsNothing(cfg: Cfg, st: St)
    requires st.depth <= cfg.maxDepth
    ensures Fits(cfg, st, NOTHING) && Charged(cfg, st.used, NOTHING) == st.used
  {
  }

  lemma FitsSame(cfg: Cfg, st: St, st': St, d: Demand)
    requires st.depth == st'.depth && st.used == st'.used
    ensures Fits(cfg, st, d) == Fits(cfg, st', d)
    ensures Charged(cfg, st.used, d) == Charged(cfg, st'.used, d)
  {
  }

  /** Splitting raw bytes into primitives loses nothing: they encode back to the same bytes. */
  lemma {:induction false} SplitSound(env: Env, k: nat, w: nat, len: nat, bs: seq<byte>, s: seq<byte>)
    requires WFEnv(env) && WF(env, k, Prim(w)) && |bs| == len * w
    ensures var vs := Split(bs, w, len);
      && AllTyped(env, k, Prim(w), vs) && AllReach(env, k, Prim(w), vs)
      && ResetAll(env, k, Prim(w), vs) == vs
      && EncAllTo(env, k, Prim(w), vs, s) == bs + s
      && NeedsAll(env, k, Prim(w), vs) == NOTHING
    decreases len
  {
    hide WFEnv, WFCfg, Pow256, LE, UnLE, Typed, Reach, Reset, EncTo, Needs, WF;
    if len > 0 {
      assert |bs| == w + (len - 1) * w;
      var x, rest := bs[..w], bs[w..];
      var xs := Split(rest, w, len - 1);
      SplitSound(env, k, w, len - 1, rest, s);
      PrimSound(env, k, w, x, rest + s);
      ConsSound(env, k, Prim(w), Num(UnLE(x)), xs, s);
      CutCat(bs, w, s);
    }
  }

  lemma PrimSound(env: Env, k: nat, w: nat, bs: seq<byte>, s: seq<byte>)
    requires WFEnv(env) && WF(env, k, Prim(w)) && |bs| == w
    ensures var v := Num(UnLE(bs));
      && Typed(env, k, Prim(w), v) && Reach(env, k, Prim(w), v) && Reset(env, k, Prim(w), v) == v
      && EncTo(env, k, Prim(w), v, s) == bs + s && Needs(env, k, Prim(w), v) == NOTHING
  {
    hide WFEnv, WFCfg, Pow256, LE, UnLE;
    UnLEBound(bs);
    LEOfUnLE(bs);
  }

  /** A bulk vector read gives exactly what its elements read one by one would. */
  lemma BulkSound(env: Env, cfg: Cfg, w: nat, len: nat, st: St)
    requires WFEnv(env) && WFCfg(env, cfg) && IsWidth(w) && st.depth <= cfg.maxDepth && len <= U32_MAX
    requires RunBulk(env, cfg, w, len, st).Ok?
    ensures var o := RunBulk(env, cfg, w, len, st);
      && len * w <= UsizeMax(env)
      && st.bytes == o.v + o.st.bytes
      && Fits(cfg, st, Heap(len > 0, len * w))
      && o.st.used == Charged(cfg, st.used, Heap(len > 0, len * w))
  {
    hide WFEnv, WFCfg, Charged, Fits, RunBulkChunks, Pow256;
    BulkChunksExact(env, cfg, w, len, st);
  }

  /** Every successful run parsed its result. */
  lemma {:induction false} RunSound(env: Env, cfg: Cfg, k: nat, ty: Ty, st: St)
    requires WFEnv(env) && WFCfg(env, cfg) && WF(env, k, ty) && st.depth <= cfg.maxDepth
    requires Run(env, cfg, k, ty, st).Ok?
    ensures Parsed(env, cfg, k, ty, st, Run(env, cfg, k, ty, st).v, Run(env, cfg, k, ty, st).st)
    decreases cfg.maxDepth - st.depth, k, ty, 0, 1
  {
    hide *;
    match ty
    case Pair(a, b) => PairSound(env, cfg, k, ty, st);
    case Opt(t) => OptSound(env, cfg, k, ty, st);
    case Res(t, e) => ResSound(env, cfg, k, ty, st);
    case Array(t, n) => ArraySound(env, cfg, k, ty, st);
    case Vec(t) => VecSound(env, cfg, k, ty, st);
    case Coll(kind, t) => CollSound(env, cfg, k, ty, st);
    case Box(t) => BoxSound(env, cfg, k, ty, st);
    case Enum(vs) => EnumSound(env, cfg, k, ty, st);
    case Named(j) => NamedSound(env, cfg, k, ty, st);
    case Str => TextSound(env, cfg, k, ty, st);
    case Blob => TextSound(env, cfg, k, ty, st);
    case Compact(w) => CompactRunSound(env, cfg, k, ty, st);
    case _ => FixedSound(env, cfg, k, ty, st);
  }

  /** Fixed-width readers, unit and skipped fields. */
  lemma FixedSound(env: Env, cfg: Cfg, k: nat, ty: Ty, st: St)
    requires WFEnv(env) && WFCfg(env, cfg) && WF(env, k, ty) && st.depth <= cfg.maxDepth
    requires ty.Prim? || ty.NonZero? || ty.Bool? || ty.OptBool? || ty.Duration? || ty.Unit? || ty.Skip?
    requires Run(env, cfg, k, ty, st).Ok?
    ensures Parsed(env, cfg, k, ty, st, Run(env, cfg, k, ty, st).v, Run(env, cfg, k, ty, st).st)
  {
    hide WFEnv, WFCfg, Charged, Fits, Pow256, UnLE, LE;
    FitsNothing(cfg, st);
    if ty.Prim? || ty.NonZero? {
      WordSound(st, ty.w);
    } else if ty.Duration? {
      WordSound(st, 8);
      WordSound(Read(st, 8).st, 4);
    } else if ty.Bool? || ty.OptBool? {
      TagSound(st);
    }
  }

  lemma WordSound(st: St, w: nat)
    requires Read(st, w).Ok?
    ensures var o := Read(st, w);
      UnLE(o.v) < Pow256(w) && st.bytes == LE(UnLE(o.v), w) + o.st.bytes
  {
    UnLEBound(st.bytes[..w]);
    LEOfUnLE(st.bytes[..w]);
  }

  lemma TagSound(st: St)
    requires ReadByte(st).Ok?
    ensures st.bytes == [st.bytes[0]] + ReadByte(st).st.bytes
  {
  }

  lemma CompactRunSound(env: Env, cfg: Cfg, k: nat, ty: Ty, st: St)
    requires WFEnv(env) && WFCfg(env, cfg) && WF(env, k, ty) && st.depth <= cfg.maxDepth && ty.Compact?
    requires Run(env, cfg, k, ty, st).Ok?
    ensures Parsed(env, cfg, k, ty, st, Run(env, cfg, k, ty, st).v, Run(env, cfg, k, ty, st).st)
  {
    hide WFEnv, WFCfg, Charged, Fits, Pow256, RunCompact, CompactEnc;
    FitsNothing(cfg, st);
    CompactSound(ty.w, st);
  }

  /** A length prefix. */
  lemma LenSound(st: St)
    requires RunCompact(4, st).Ok?
    ensures var o := RunCompact(4, st);
      o.v <= U32_MAX && st.bytes == LenPrefix(o.v) + o.st.bytes
  {
    hide CompactEnc, RunCompact;
    PowValues();
    CompactSound(4, st);
  }

  lemma TextSound(env: Env, cfg: Cfg, k: nat, ty: Ty, st: St)
    requires WFEnv(env) && WFCfg(env, cfg) && WF(env, k, ty) && st.depth <= cfg.maxDepth && (ty.Str? || ty.Blob?)
    requires Run(env, cfg, k, ty, st).Ok?
    ensures Parsed(env, cfg, k, ty, st, Run(env, cfg, k, ty, st).v, Run(env, cfg, k, ty, st).st)
  {
    hide WFEnv, WFCfg, Charged, Fits, Pow256, RunCompact, LenPrefix, RunBlob, RunBulk, Utf8;
    var o1 := RunCompact(4, st);
    LenSound(st);
    if ty.Str? {
      BulkSound(env, cfg, 1, o1.v, o1.st);
    } else {
      BlobSound(env, cfg, o1.v, o1.st);
    }
    FitsSame(cfg, st, o1.st, Heap(o1.v > 0, o1.v));
  }

  lemma BlobSound(env: Env, cfg: Cfg, len: nat, st: St)
    requires WFEnv(env) && WFCfg(env, cfg) && st.depth <= cfg.maxDepth && RunBlob(env, cfg, len, st).Ok? && len <= U32_MAX
    ensures var o := RunBlob(env, cfg, len, st);
      && st.bytes == o.v + o.st.bytes
      && Fits(cfg, st, Heap(len > 0, len))
      && o.st.used == Charged(cfg, st.used, Heap(len > 0, len))
  {
    hide RunBulk;
    if !cfg.cursor {
      BulkSound(env, cfg, 1, len, st);
    }
  }

  lemma PairSound(env: Env, cfg: Cfg, k: nat, ty: Ty, st: St)
    requires WFEnv(env) && WFCfg(env, cfg) && WF(env, k, ty) && st.depth <= cfg.maxDepth && ty.Pair?
    requires Run(env, cfg, k, ty, st).Ok?
    ensures Parsed(env, cfg, k, ty, st, Run(env, cfg, k, ty, st).v, Run(env, cfg, k, ty, st).st)
    decreases cfg.maxDepth - st.depth, k, ty, 0, 0
  {
    hide WFEnv, WFCfg, Charged, Fits, Join;
    var o1 := Run(env, cfg, k, ty.a, st);
    RunSound(env, cfg, k, ty.a, st);
    var o2 := Run(env, cfg, k, ty.b, o1.st);
    RunSound(env, cfg, k, ty.b, o1.st);
    FitsJoin(cfg, st, Needs(env, k, ty.a, o1.v), Needs(env, k, ty.b, o2.v), o1.st);
  }

  lemma OptSound(env: Env, cfg: Cfg, k: nat, ty: Ty, st: St)
    requires WFEnv(env) && WFCfg(env, cfg) && WF(env, k, ty) && st.depth <= cfg.maxDepth && ty.Opt?
    requires Run(env, cfg, k, ty, st).Ok?
    ensures Parsed(env, cfg, k, ty, st, Run(env, cfg, k, ty, st).v, Run(env, cfg, k, ty, st).st)
    decreases cfg.maxDepth - st.depth, k, ty, 0, 0
  {
    hide WFEnv, WFCfg, Charged, Fits;
    var o := Run(env, cfg, k, ty, st);
    FitsNothing(cfg, st);
    TagSound(st);
    if o.v.SomeV? {
      var st1 := ReadByte(st).st;
      RunSound(env, cfg, k, ty.t, st1);
      FitsSame(cfg, st, st1, Needs(env, k, ty.t, o.v.v));
    }
  }

  lemma ResSound(env: Env, cfg: Cfg, k: nat, ty: Ty, st: St)
    requires WFEnv(env) && WFCfg(env, cfg) && WF(env, k, ty) && st.depth <= cfg.maxDepth && ty.Res?
    requires Run(env, cfg, k, ty, st).Ok?
    ensures Parsed(env, cfg, k, ty, st, Run(env, cfg, k, ty, st).v, Run(env, cfg, k, ty, st).st)
    decreases cfg.maxDepth - st.depth, k, ty, 0, 0
  {
    hide WFEnv, WFCfg, Charged, Fits;
    var o := Run(env, cfg, k, ty, st);
    TagSound(st);
    var st1 := ReadByte(st).st;
    var t := if o.v.OkV? then ty.t else ty.e;
    RunSound(env, cfg, k, t, st1);
    FitsSame(cfg, st, st1, Needs(env, k, t, o.v.v));
  }

  lemma ArraySound(env: Env, cfg: Cfg, k: nat, ty: Ty, st: St)
    requires WFEnv(env) && WFCfg(env, cfg) && WF(env, k, ty) && st.depth <= cfg.maxDepth && ty.Array?
    requires Run(env, cfg, k, ty, st).Ok?
    ensures Parsed(env, cfg, k, ty, st, Run(env, cfg, k, ty, st).v, Run(env, cfg, k, ty, st).st)
    decreases cfg.maxDepth - st.depth, k, ty, 0, 0
  {
    hide WFEnv, WFCfg, Charged, Fits, EncAllTo, NeedsAll, ResetAll, AllTyped, AllReach;
    FitsNothing(cfg, st);
    if ty.t.Prim? {
      var m := ty.n * ty.t.w;
      SplitSound(env, k, ty.t.w, ty.n, st.bytes[..m], st.bytes[m..]);
    } else {
      ItemsSound(env, cfg, k, ty.t, ty.n, st);
    }
  }

  lemma NamedSound(env: Env, cfg: Cfg, k: nat, ty: Ty, st: St)
    requires WFEnv(env) && WFCfg(env, cfg) && WF(env, k, ty) && st.depth <= cfg.maxDepth && ty.Named?
    requires Run(env, cfg, k, ty, st).Ok?
    ensures Parsed(env, cfg, k, ty, st, Run(env, cfg, k, ty, st).v, Run(env, cfg, k, ty, st).st)
    decreases cfg.maxDepth - st.depth, k, ty, 0, 0
  {
    hide Charged, Fits;
    RunSound(env, cfg, ty.j, env.defs[ty.j], st);
  }

  lemma {:induction false} ItemsSound(env: Env, cfg: Cfg, k: nat, t: Ty, n: nat, st: St)
    requires WFEnv(env) && WFCfg(env, cfg) && WF(env, k, t) && st.depth <= cfg.maxDepth
    requires RunItems(env, cfg, k, t, n, st).Ok?
    ensures ParsedAll(env, cfg, k, t, st, RunItems(env, cfg, k, t, n, st).v, RunItems(env, cfg, k, t, n, st).st)
    decreases cfg.maxDepth - st.depth, k, t, n, 2
  {
    hide WFEnv, WFCfg, WF, Charged, Fits, Join, Typed, Reach, Reset, EncTo, Needs, Run;
    if n == 0 {
      FitsNothing(cfg, st);
    } else {
      var o1 := Run(env, cfg, k, t, st);
      RunSound(env, cfg, k, t, st);
      var o2 := RunItems(env, cfg, k, t, n - 1, o1.st);
      ItemsSound(env, cfg, k, t, n - 1, o1.st);
      FitsJoin(cfg, st, Needs(env, k, t, o1.v), NeedsAll(env, k, t, o2.v), o1.st);
      ConsSound(env, k, t, o1.v, o2.v, o2.st.bytes);
    }
  }

  lemma ConsSound(env: Env, k: nat, t: Ty, x: Val, xs: seq<Val>, s: seq<byte>)
    requires WFEnv(env) && WF(env, k, t) && Typed(env, k, t, x) && AllTyped(env, k, t, xs)
    requires Reach(env, k, t, x) && AllReach(env, k, t, xs)
    ensures var vs := [x] + xs;
      && AllTyped(env, k, t, vs) && AllReach(env, k, t, vs)
      && ResetAll(env, k, t, vs) == [Reset(env, k, t, x)] + ResetAll(env, k, t, xs)
      && EncAllTo(env, k, t, vs, s) == EncTo(env, k, t, x, EncAllTo(env, k, t, xs, s))
      && NeedsAll(env, k, t, vs) == Join(Needs(env, k, t, x), NeedsAll(env, k, t, xs))
  {
    hide WFEnv, WFCfg, WF, Join, Typed, Reach, Reset, EncTo, Needs;
    var vs := [x] + xs;
    assert vs[1..] == xs;
  }

  lemma VecSound(env: Env, cfg: Cfg, k: nat, ty: Ty, st: St)
    requires WFEnv(env) && WFCfg(env, cfg) && WF(env, k, ty) && st.depth <= cfg.maxDepth && ty.Vec?
    requires Run(env, cfg, k, ty, st).Ok?
    ensures Parsed(env, cfg, k, ty, st, Run(env, cfg, k, ty, st).v, Run(env, cfg, k, ty, st).st)
    decreases cfg.maxDepth - st.depth, k, ty, 0, 0
  {
    hide WFEnv, WFCfg, Charged, Fits, Pow256, RunCompact, LenPrefix, RunBulk, EncAllTo, NeedsAll, ResetAll, AllTyped, AllReach;
    var t := ty.t;
    var o1 := RunCompact(4, st);
    LenSound(st);
    var len, d := o1.v, |env.defs|;
    if t.Prim? {
      var o2 := RunBulk(env, cfg, t.w, len, o1.st);
      BulkSound(env, cfg, t.w, len, o1.st);
      SplitSound(env, d, t.w, len, o2.v, o2.st.bytes);
      FitsSame(cfg, st, o1.st, Heap(len > 0, len * t.w));
    } else {
      var st2 := Descend(cfg, o1.st).st;
      var o3 := RunChunks(env, cfg, t, len, st2);
      ChunksSound(env, cfg, t, len, st2);
      var need := Join(Heap(len > 0, len * env.sizeOf(t)), NeedsAll(env, d, t, o3.v));
      FitsUnder(cfg, o1.st, need, st2);
      FitsSame(cfg, st, o1.st, Under(need));
    }
  }

  lemma {:induction false} ChunksSound(env: Env, cfg: Cfg, t: Ty, len: nat, st: St)
    requires WFEnv(env) && WFCfg(env, cfg) && WF(env, |env.defs|, t) && st.depth <= cfg.maxDepth
    requires env.sizeOf(t) <= MAX_PREALLOCATION
    requires RunChunks(env, cfg, t, len, st).Ok?
    ensures var o := RunChunks(env, cfg, t, len, st);
      var d := |env.defs|;
      && AllTyped(env, d, t, o.v) && AllReach(env, d, t, o.v) && ResetAll(env, d, t, o.v) == o.v
      && st.bytes == EncAllTo(env, d, t, o.v, o.st.bytes)
      && var need := Join(Heap(len > 0, len * env.sizeOf(t)), NeedsAll(env, d, t, o.v));
      && Fits(cfg, st, need)
      && o.st.used == Charged(cfg, st.used, need)
    decreases cfg.maxDepth - st.depth, |env.defs|, t, len, 3
  {
    hide WFEnv, WFCfg, WF, Charged, Fits, Pow256, UsizeMax, Join, Alloc, RunItems, AllTyped, AllReach, EncAllTo, NeedsAll, ResetAll;
    var d, size := |env.defs|, env.sizeOf(t);
    if len == 0 {
      NilSound(env, d, t, st.bytes);
      FitsNothing(cfg, st);
      JoinNothing(NOTHING);
    } else {
      ChunkLenPositive(env, size);
      var c := Min(ChunkLen(env, size), len);
      var rest := len - c;
      assert c * size + rest * size == len * size;
      AllocExact(env, cfg, st, c * size, Min(UsizeMax(env), c * size));
      var st1 := Alloc(env, cfg, st, Min(UsizeMax(env), c * size)).st;
      var o2 := RunItems(env, cfg, d, t, c, st1);
      ItemsSound(env, cfg, d, t, c, st1);
      var o3 := RunChunks(env, cfg, t, rest, o2.st);
      ChunksSound(env, cfg, t, rest, o2.st);
      AllAppend(env, d, t, o2.v, o3.v, o3.st.bytes);
      AllReachAppend(env, d, t, o2.v, o3.v);
      ChunkFits(cfg, st, c * size, NeedsAll(env, d, t, o2.v), rest > 0, rest * size, NeedsAll(env, d, t, o3.v),
                st1, o2.st);
    }
  }

  /** Announcing chunk by chunk asks for as much as announcing the whole vector at once. */
  lemma ChunkFits(cfg: Cfg, st: St, a: nat, x: Demand, more: bool, b: nat, y: Demand, st1: St, st2: St)
    requires !x.asks ==> x.bytes == 0
    requires !y.asks ==> y.bytes == 0
    requires !more ==> b == 0
    requires st1.depth == st.depth && st1.used == Charged(cfg, st.used, Heap(true, a))
    requires st2.depth == st.depth && st2.used == Charged(cfg, st1.used, x)
    ensures var all := Join(Heap(true, a + b), Join(x, y));
      && (Fits(cfg, st, all) <==>
          Fits(cfg, st, Heap(true, a)) && Fits(cfg, st1, x) && Fits(cfg, st2, Join(Heap(more, b), y)))
      && Charged(cfg, st.used, all) == Charged(cfg, st2.used, Join(Heap(more, b), y))
  {
  }

  lemma NilSound(env: Env, k: nat, t: Ty, s: seq<byte>)
    requires WFEnv(env) && WF(env, k, t)
    ensures AllTyped(env, k, t, []) && AllReach(env, k, t, []) && ResetAll(env, k, t, []) == []
    ensures EncAllTo(env, k, t, [], s) == s && NeedsAll(env, k, t, []) == NOTHING
  {
  }

  lemma AllReachAppend(env: Env, k: nat, t: Ty, xs: seq<Val>, ys: seq<Val>)
    requires WFEnv(env) && WF(env, k, t) && AllTyped(env, k, t, xs) && AllTyped(env, k, t, ys)
    requires AllTyped(env, k, t, xs + ys)
    ensures AllReach(env, k, t, xs + ys) <==> AllReach(env, k, t, xs) && AllReach(env, k, t, ys)
  {
    hide WFEnv, WFCfg, WF, Typed, Reach;
    if AllReach(env, k, t, xs + ys) {
      forall i | 0 <= i < |xs| ensures Reach(env, k, t, xs[i]) {
        assert (xs + ys)[i] == xs[i];
      }
      forall i | 0 <= i < |ys| ensures Reach(env, k, t, ys[i]) {
        assert (xs + ys)[|xs| + i] == ys[i];
      }
    }
  }

  lemma CollSound(env: Env, cfg: Cfg, k: nat, ty: Ty, st: St)
    requires WFEnv(env) && WFCfg(env, cfg) && WF(env, k, ty) && st.depth <= cfg.maxDepth && ty.Coll?
    requires Run(env, cfg, k, ty, st).Ok?
    ensures Parsed(env, cfg, k, ty, st, Run(env, cfg, k, ty, st).v, Run(env, cfg, k, ty, st).st)
    decreases cfg.maxDepth - st.depth, k, ty, 0, 0
  {
    hide WFEnv, WFCfg, Charged, Fits, Pow256, RunCompact, LenPrefix, EncAllTo, NeedsAll, ResetAll, AllTyped, AllReach, Alloc, CollSize, UsizeMax, Join;
    var t := ty.t;
    var o1 := RunCompact(4, st);
    LenSound(st);
    var len, d := o1.v, |env.defs|;
    var st2 := Descend(cfg, o1.st).st;
    var size := CollSize(env, ty.kind, t, len);
    AllocExact(env, cfg, st2, size, Min(UsizeMax(env), size));
    var st3 := Alloc(env, cfg, st2, Min(UsizeMax(env), size)).st;
    var o4 := RunItems(env, cfg, d, t, len, st3);
    ItemsSound(env, cfg, d, t, len, st3);
    var items := NeedsAll(env, d, t, o4.v);
    FitsJoin(cfg, st2, Heap(true, size), items, st3);
    FitsUnder(cfg, o1.st, Join(Heap(true, size), items), st2);
    FitsSame(cfg, st, o1.st, Under(Join(Heap(true, size), items)));
  }

  lemma BoxSound(env: Env, cfg: Cfg, k: nat, ty: Ty, st: St)
    requires WFEnv(env) && WFCfg(env, cfg) && WF(env, k, ty) && st.depth <= cfg.maxDepth && ty.Box?
    requires Run(env, cfg, k, ty, st).Ok?
    ensures Parsed(env, cfg, k, ty, st, Run(env, cfg, k, ty, st).v, Run(env, cfg, k, ty, st).st)
    decreases cfg.maxDepth - st.depth, k, ty, 0, 0
  {
    hide WFEnv, WFCfg, Charged, Fits, Alloc, Join;
    var t, d := ty.t, |env.defs|;
    var st1 := Descend(cfg, st).st;
    AllocExact(env, cfg, st1, env.sizeOf(t), env.sizeOf(t));
    var st2 := Alloc(env, cfg, st1, env.sizeOf(t)).st;
    var o3 := Run(env, cfg, d, t, st2);
    RunSound(env, cfg, d, t, st2);
    var inner := Needs(env, d, t, o3.v);
    FitsJoin(cfg, st1, Heap(true, env.sizeOf(t)), inner, st2);
    FitsUnder(cfg, st, Join(Heap(true, env.sizeOf(t)), inner), st1);
  }

  lemma EnumSound(env: Env, cfg: Cfg, k: nat, ty: Ty, st: St)
    requires WFEnv(env) && WFCfg(env, cfg) && WF(env, k, ty) && st.depth <= cfg.maxDepth && ty.Enum?
    requires Run(env, cfg, k, ty, st).Ok?
    ensures Parsed(env, cfg, k, ty, st, Run(env, cfg, k, ty, st).v, Run(env, cfg, k, ty, st).st)
    decreases cfg.maxDepth - st.depth, k, ty, 0, 0
  {
    hide WFEnv, WFCfg, Charged, Fits, RunVariant, TypedVariant, ReachVariant, ResetVariant, EncVariantTo, NeedsVariant, Reachable;
    var o := Run(env, cfg, k, ty, st);
    TagSound(st);
    var st1 := ReadByte(st).st;
    VariantSound(env, cfg, k, ty.vs, st.bytes[0], st1);
    FitsSame(cfg, st, st1, NeedsVariant(env, k, ty.vs, o.v.i, o.v.v));
  }

  lemma {:induction false} VariantSound(env: Env, cfg: Cfg, k: nat, vs: Variants, tag: byte, st: St)
    requires WFEnv(env) && WFCfg(env, cfg) && WFVariants(env, k, vs) && st.depth <= cfg.maxDepth
    requires RunVariant(env, cfg, k, vs, tag, st).Ok?
    ensures var o := RunVariant(env, cfg, k, vs, tag, st);
      var i, v := o.v.0, o.v.1;
      && TypedVariant(env, k, vs, i, v) && ReachVariant(env, k, vs, i, v) && ResetVariant(env, k, vs, i, v) == v
      && VariantAt(vs, i).VCons? && VariantAt(vs, i).tag == tag && Reachable(vs, i)
      && [tag] + st.bytes == EncVariantTo(env, k, vs, i, v, o.st.bytes)
      && Fits(cfg, st, NeedsVariant(env, k, vs, i, v))
      && o.st.used == Charged(cfg, st.used, NeedsVariant(env, k, vs, i, v))
    decreases cfg.maxDepth - st.depth, k, vs, 0, 0
  {
    hide WFEnv, WFCfg, WF, Charged, Fits, Typed, Reach, Reset, EncTo, Needs, Run;
    if !vs.skip && vs.tag == tag {
      RunSound(env, cfg, k, vs.ty, st);
    } else {
      VariantSound(env, cfg, k, vs.tail, tag, st);
    }
  }
}
