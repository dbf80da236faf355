/** What every run keeps, whether it succeeds or fails. */
module Invariants {
  import opened Bytes
  import opened Types
  import opened Input
  import opened CompactCodec
  import opened Encode
  import opened Decode

  lemma ReadConsumes(st: St, n: nat)
    requires st.count <= U64_MAX
    ensures Consumes(st, Read(st, n).st) && Read(st, n).st.count <= U64_MAX
  {
  }

  lemma WordConsumes(p: byte, more: nat, low: nat, high: nat, st: St)
    requires st.count <= U64_MAX
    ensures Consumes(st, RunWord(p, more, low, high, st).st)
  {
    hide UnLE;
    ReadConsumes(st, more);
  }

  lemma BigConsumes(w: nat, b: nat, st: St)
    requires IsWidth(w) && b >= 4 && st.count <= U64_MAX
    ensures Consumes(st, RunBig(w, b, st).st)
  {
    hide UnLE, Pow256, Consumes, Floor;
    ReadConsumes(st, b);
    ReadEachConsumes(st, b);
    ConsumesNothing(st);
  }

  lemma ConsumesNothing(st: St)
    requires st.count <= U64_MAX
    ensures Consumes(st, st)
  {
  }

  lemma CompactConsumes(w: nat, st: St)
    requires IsWidth(w) && st.count <= U64_MAX
    ensures Consumes(st, RunCompact(w, st).st) && RunCompact(w, st).st.count <= U64_MAX
  {
    hide UnLE, Pow256, RunWord, RunBig, IsWidth;
    if st.bytes == [] {
      ConsumesNothing(st);
    } else {
      var p, st1 := st.bytes[0], ReadByte(st).st;
      if p % 4 == 1 {
        WordConsumes(p, 1, MAX6, if w == 1 then 255 else MAX14, st1);
      } else if p % 4 == 2 {
        WordConsumes(p, 3, MAX14, if w == 2 then 65535 else MAX30, st1);
        ConsumesNothing(st1);
      } else if p % 4 == 3 {
        BigConsumes(w, p / 4 + 4, st1);
      } else {
        ConsumesNothing(st1);
      }
      ConsumesTrans(st, st1, RunCompact(w, st).st);
    }
  }

  /** Hooks read nothing; only an allocation request moves used_mem, and only upwards. */
  lemma AllocConsumes(env: Env, cfg: Cfg, st: St, size: nat)
    requires st.count <= U64_MAX && st.used <= UsizeMax(env)
    ensures var o := Alloc(env, cfg, st, size);
      Consumes(st, o.st) && o.st.used <= UsizeMax(env) && o.st.depth == st.depth
  {
  }

  /** Counters within their machine range. */
  predicate Sane(env: Env, st: St) {
    st.count <= U64_MAX && st.used <= UsizeMax(env)
  }

  /** Bytes leave from the front, CountedInput counts them, used_mem never falls nor overflows. */
  ghost predicate Kept(env: Env, st: St, st': St) {
    Consumes(st, st') && Sane(env, st')
  }

  lemma KeptTrans(env: Env, a: St, b: St, c: St)
    requires Kept(env, a, b) && Kept(env, b, c)
    ensures Kept(env, a, c)
  {
    ConsumesTrans(a, b, c);
  }

  lemma KeptNothing(env: Env, st: St)
    requires Sane(env, st)
    ensures Kept(env, st, st)
  {
  }

  lemma KeptDepth(env: Env, a: St, b: St, b': St)
    requires Kept(env, a, b) && b' == b.(depth := b'.depth)
    ensures Kept(env, a, b')
  {
  }

  lemma KeptRead(env: Env, st: St, n: nat)
    requires Sane(env, st)
    ensures Kept(env, st, Read(st, n).st)
  {
    ReadConsumes(st, n);
  }

  lemma KeptByte(env: Env, st: St)
    requires Sane(env, st)
    ensures Kept(env, st, ReadByte(st).st)
  {
  }

  lemma KeptCompact(env: Env, w: nat, st: St)
    requires IsWidth(w) && Sane(env, st)
    ensures Kept(env, st, RunCompact(w, st).st)
  {
    hide RunCompact;
    CompactConsumes(w, st);
  }

  lemma {:induction false} KeptBulkChunks(env: Env, cfg: Cfg, w: nat, len: nat, st: St)
    requires WFEnv(env) && IsWidth(w) && Sane(env, st)
    ensures Kept(env, st, RunBulkChunks(env, cfg, w, len, st).st)
    decreases len
  {
    hide WFEnv, Kept, Alloc, UsizeMax, IsWidth, Read;
    if len == 0 {
      KeptNothing(env, st);
    } else {
      WidthRange(w);
      ChunkLenPositive(env, w);
      var c := Min(ChunkLen(env, w), len);
      var o1 := Alloc(env, cfg, st, Min(UsizeMax(env), c * w));
      KeptAlloc(env, cfg, st, Min(UsizeMax(env), c * w));
      if o1.Ok? {
        var o2 := Read(o1.st, c * w);
        KeptSane(env, st, o1.st);
        KeptRead(env, o1.st, c * w);
        KeptTrans(env, st, o1.st, o2.st);
        if o2.Ok? {
          KeptSane(env, st, o2.st);
          KeptBulkChunks(env, cfg, w, len - c, o2.st);
          KeptTrans(env, st, o2.st, RunBulkChunks(env, cfg, w, len - c, o2.st).st);
        }
      }
    }
  }

  lemma KeptSane(env: Env, st: St, st': St)
    requires Kept(env, st, st')
    ensures Sane(env, st')
  {
  }

  lemma KeptAlloc(env: Env, cfg: Cfg, st: St, size: nat)
    requires Sane(env, st)
    ensures Kept(env, st, Alloc(env, cfg, st, size).st)
  {
    AllocConsumes(env, cfg, st, size);
  }

  lemma KeptBulk(env: Env, cfg: Cfg, w: nat, len: nat, st: St)
    requires WFEnv(env) && IsWidth(w) && Sane(env, st)
    ensures Kept(env, st, RunBulk(env, cfg, w, len, st).st)
  {
    hide WFEnv, Kept, UsizeMax, IsWidth, RunBulkChunks;
    KeptNothing(env, st);
    KeptBulkChunks(env, cfg, w, len, st);
  }

  lemma KeptBlob(env: Env, cfg: Cfg, len: nat, st: St)
    requires WFEnv(env) && Sane(env, st)
    ensures Kept(env, st, RunBlob(env, cfg, len, st).st)
  {
    hide WFEnv, Kept, UsizeMax, RunBulk, Alloc, Read;
    KeptNothing(env, st);
    KeptBulk(env, cfg, 1, len, st);
    KeptAlloc(env, cfg, st, len);
    var st1 := Alloc(env, cfg, st, len).st;
    KeptSane(env, st, st1);
    KeptRead(env, st1, len);
    KeptTrans(env, st, st1, Read(st1, len).st);
  }

  /** Every run of every decoder keeps this, also the ones that fail half way. */
  lemma {:induction false} RunKept(env: Env, cfg: Cfg, k: nat, ty: Ty, st: St)
    requires WFEnv(env) && WF(env, k, ty) && st.depth <= cfg.maxDepth && Sane(env, st)
    ensures Kept(env, st, Run(env, cfg, k, ty, st).st)
    decreases cfg.maxDepth - st.depth, k, ty, 0, 1
  {
    hide Run, WF, WFEnv, Kept, Sane;
    match ty
    case Pair(a, b) => PairKept(env, cfg, k, ty, st);
    case Opt(t) => TaggedKept(env, cfg, k, ty, st);
    case Res(t, e) => TaggedKept(env, cfg, k, ty, st);
    case Enum(vs) => TaggedKept(env, cfg, k, ty, st);
    case Array(t, n) => ArrayKept(env, cfg, k, ty, st);
    case Vec(t) => VecKept(env, cfg, k, ty, st);
    case Coll(kind, t) => CollKept(env, cfg, k, ty, st);
    case Box(t) => BoxKept(env, cfg, k, ty, st);
    case Named(j) => NamedKept(env, cfg, k, ty, st);
    case _ => BaseKept(env, cfg, k, ty, st);
  }

  lemma BaseKept(env: Env, cfg: Cfg, k: nat, ty: Ty, st: St)
    requires WFEnv(env) && WF(env, k, ty) && st.depth <= cfg.maxDepth && Sane(env, st) && IsLeaf(ty)
    ensures Kept(env, st, Run(env, cfg, k, ty, st).st)
  {
    hide WFEnv, Kept, UsizeMax, Pow256, UnLE, RunCompact, RunBulk, RunBlob, Read, ReadByte, Utf8;
    KeptNothing(env, st);
    KeptByte(env, st);
    if ty.Prim? || ty.NonZero? {
      KeptRead(env, st, ty.w);
    } else if ty.Duration? {
      KeptRead(env, st, 8);
      var st1 := Read(st, 8).st;
      KeptSane(env, st, st1);
      KeptRead(env, st1, 4);
      KeptTrans(env, st, st1, Read(st1, 4).st);
    } else if ty.Compact? {
      KeptCompact(env, ty.w, st);
    } else if ty.Str? || ty.Blob? {
      KeptCompact(env, 4, st);
      var o1 := RunCompact(4, st);
      if o1.Ok? {
        KeptSane(env, st, o1.st);
        KeptBulk(env, cfg, 1, o1.v, o1.st);
        KeptTrans(env, st, o1.st, RunBulk(env, cfg, 1, o1.v, o1.st).st);
        KeptBlob(env, cfg, o1.v, o1.st);
        KeptTrans(env, st, o1.st, RunBlob(env, cfg, o1.v, o1.st).st);
      }
    }
  }

  lemma PairKept(env: Env, cfg: Cfg, k: nat, ty: Ty, st: St)
    requires WFEnv(env) && WF(env, k, ty) && st.depth <= cfg.maxDepth && Sane(env, st) && ty.Pair?
    ensures Kept(env, st, Run(env, cfg, k, ty, st).st)
    decreases cfg.maxDepth - st.depth, k, ty, 0, 0
  {
    hide WFEnv, Kept, Sane;
    RunKept(env, cfg, k, ty.a, st);
    var o1 := Run(env, cfg, k, ty.a, st);
    if o1.Ok? {
      KeptSane(env, st, o1.st);
      RunKept(env, cfg, k, ty.b, o1.st);
      KeptTrans(env, st, o1.st, Run(env, cfg, k, ty.b, o1.st).st);
    }
  }

  lemma TaggedKept(env: Env, cfg: Cfg, k: nat, ty: Ty, st: St)
    requires WFEnv(env) && WF(env, k, ty) && st.depth <= cfg.maxDepth && Sane(env, st)
    requires ty.Opt? || ty.Res? || ty.Enum?
    ensures Kept(env, st, Run(env, cfg, k, ty, st).st)
    decreases cfg.maxDepth - st.depth, k, ty, 0, 0
  {
    hide WFEnv, Kept, Sane, RunVariant;
    KeptByte(env, st);
    var o1 := ReadByte(st);
    if o1.Ok? {
      KeptSane(env, st, o1.st);
      if ty.Enum? {
        VariantKept(env, cfg, k, ty.vs, o1.v, o1.st);
        KeptTrans(env, st, o1.st, RunVariant(env, cfg, k, ty.vs, o1.v, o1.st).st);
      } else {
        RunKept(env, cfg, k, ty.t, o1.st);
        KeptTrans(env, st, o1.st, Run(env, cfg, k, ty.t, o1.st).st);
        if ty.Res? {
          RunKept(env, cfg, k, ty.e, o1.st);
          KeptTrans(env, st, o1.st, Run(env, cfg, k, ty.e, o1.st).st);
        }
      }
    }
  }

  lemma {:induction false} VariantKept(env: Env, cfg: Cfg, k: nat, vs: Variants, tag: byte, st: St)
    requires WFEnv(env) && WFVariants(env, k, vs) && st.depth <= cfg.maxDepth && Sane(env, st)
    ensures Kept(env, st, RunVariant(env, cfg, k, vs, tag, st).st)
    decreases cfg.maxDepth - st.depth, k, vs, 0, 0
  {
    hide WFEnv, WF, Kept, Sane, Run;
    if vs.VNil? {
      KeptNothing(env, st);
    } else {
      RunKept(env, cfg, k, vs.ty, st);
      VariantKept(env, cfg, k, vs.tail, tag, st);
    }
  }

  lemma ArrayKept(env: Env, cfg: Cfg, k: nat, ty: Ty, st: St)
    requires WFEnv(env) && WF(env, k, ty) && st.depth <= cfg.maxDepth && Sane(env, st) && ty.Array?
    ensures Kept(env, st, Run(env, cfg, k, ty, st).st)
    decreases cfg.maxDepth - st.depth, k, ty, 0, 0
  {
    hide WFEnv, Kept, Sane, Read, RunItems, Split;
    if ty.t.Prim? {
      KeptRead(env, st, ty.n * ty.t.w);
    } else {
      ItemsKept(env, cfg, k, ty.t, ty.n, st);
    }
  }

  lemma {:induction false} ItemsKept(env: Env, cfg: Cfg, k: nat, t: Ty, n: nat, st: St)
    requires WFEnv(env) && WF(env, k, t) && st.depth <= cfg.maxDepth && Sane(env, st)
    ensures Kept(env, st, RunItems(env, cfg, k, t, n, st).st)
    decreases cfg.maxDepth - st.depth, k, t, n, 2
  {
    hide WFEnv, WF, Kept, Sane, Run;
    if n == 0 {
      KeptNothing(env, st);
    } else {
      RunKept(env, cfg, k, t, st);
      var o1 := Run(env, cfg, k, t, st);
      if o1.Ok? {
        KeptSane(env, st, o1.st);
        ItemsKept(env, cfg, k, t, n - 1, o1.st);
        KeptTrans(env, st, o1.st, RunItems(env, cfg, k, t, n - 1, o1.st).st);
      }
    }
  }

  lemma {:induction false} ChunksKept(env: Env, cfg: Cfg, t: Ty, len: nat, st: St)
    requires WFEnv(env) && WF(env, |env.defs|, t) && st.depth <= cfg.maxDepth && Sane(env, st)
    requires env.sizeOf(t) <= MAX_PREALLOCATION
    ensures Kept(env, st, RunChunks(env, cfg, t, len, st).st)
    decreases cfg.maxDepth - st.depth, |env.defs|, t, len, 3
  {
    hide WFEnv, WF, Kept, Sane, Alloc, RunItems, UsizeMax;
    if len == 0 {
      KeptNothing(env, st);
    } else {
      var size := env.sizeOf(t);
      ChunkLenPositive(env, size);
      var c := Min(ChunkLen(env, size), len);
      var o1 := Alloc(env, cfg, st, Min(UsizeMax(env), c * size));
      KeptAlloc(env, cfg, st, Min(UsizeMax(env), c * size));
      if o1.Ok? {
        AllocKeepsDepth(env, cfg, st, Min(UsizeMax(env), c * size));
        KeptSane(env, st, o1.st);
        ItemsKept(env, cfg, |env.defs|, t, c, o1.st);
        var o2 := RunItems(env, cfg, |env.defs|, t, c, o1.st);
        KeptTrans(env, st, o1.st, o2.st);
        if o2.Ok? {
          KeptSane(env, st, o2.st);
          ChunksKept(env, cfg, t, len - c, o2.st);
          KeptTrans(env, st, o2.st, RunChunks(env, cfg, t, len - c, o2.st).st);
        }
      }
    }
  }

  lemma VecKept(env: Env, cfg: Cfg, k: nat, ty: Ty, st: St)
    requires WFEnv(env) && WF(env, k, ty) && st.depth <= cfg.maxDepth && Sane(env, st) && ty.Vec?
    ensures Kept(env, st, Run(env, cfg, k, ty, st).st)
    decreases cfg.maxDepth - st.depth, k, ty, 0, 0
  {
    hide WFEnv, Kept, UsizeMax, RunCompact, RunBulk, RunChunks, Split;
    var t := ty.t;
    KeptCompact(env, 4, st);
    var o1 := RunCompact(4, st);
    if o1.Ok? {
      KeptSane(env, st, o1.st);
      if t.Prim? {
        KeptBulk(env, cfg, t.w, o1.v, o1.st);
        KeptTrans(env, st, o1.st, RunBulk(env, cfg, t.w, o1.v, o1.st).st);
      } else {
        var st2 := Descend(cfg, o1.st).st;
        KeptDepth(env, st, o1.st, st2);
        if Descend(cfg, o1.st).Ok? {
          KeptSane(env, st, st2);
          ChunksKept(env, cfg, t, o1.v, st2);
          var o3 := RunChunks(env, cfg, t, o1.v, st2);
          KeptTrans(env, st, st2, o3.st);
          if o3.Ok? {
            KeptDepth(env, st, o3.st, Ascend(o3.st));
          }
        }
      }
    }
    assert Run(env, cfg, k, ty, st) == RunVec(env, cfg, k, t, st);
  }

  lemma CollKept(env: Env, cfg: Cfg, k: nat, ty: Ty, st: St)
    requires WFEnv(env) && WF(env, k, ty) && st.depth <= cfg.maxDepth && Sane(env, st) && ty.Coll?
    ensures Kept(env, st, Run(env, cfg, k, ty, st).st)
    decreases cfg.maxDepth - st.depth, k, ty, 0, 0
  {
    hide WFEnv, Kept, UsizeMax, RunCompact, RunItems, Alloc, CollSize;
    var t, d := ty.t, |env.defs|;
    KeptCompact(env, 4, st);
    var o1 := RunCompact(4, st);
    if o1.Ok? {
      var st2 := Descend(cfg, o1.st).st;
      KeptDepth(env, st, o1.st, st2);
      if Descend(cfg, o1.st).Ok? {
        var size := Min(UsizeMax(env), CollSize(env, ty.kind, t, o1.v));
        KeptSane(env, st, st2);
        KeptAlloc(env, cfg, st2, size);
        AllocKeepsDepth(env, cfg, st2, size);
        var o3 := Alloc(env, cfg, st2, size);
        KeptTrans(env, st, st2, o3.st);
        if o3.Ok? {
          KeptSane(env, st, o3.st);
          ItemsKept(env, cfg, d, t, o1.v, o3.st);
          var o4 := RunItems(env, cfg, d, t, o1.v, o3.st);
          KeptTrans(env, st, o3.st, o4.st);
          KeptDepth(env, st, o4.st, Ascend(o4.st));
        }
      }
    }
    assert Run(env, cfg, k, ty, st) == RunColl(env, cfg, k, ty.kind, t, st);
  }

  lemma BoxKept(env: Env, cfg: Cfg, k: nat, ty: Ty, st: St)
    requires WFEnv(env) && WF(env, k, ty) && st.depth <= cfg.maxDepth && Sane(env, st) && ty.Box?
    ensures Kept(env, st, Run(env, cfg, k, ty, st).st)
    decreases cfg.maxDepth - st.depth, k, ty, 0, 0
  {
    hide WFEnv, Kept, UsizeMax, Alloc;
    var t, d := ty.t, |env.defs|;
    KeptNothing(env, st);
    var st1 := Descend(cfg, st).st;
    KeptDepth(env, st, st, st1);
    if Descend(cfg, st).Ok? {
      KeptSane(env, st, st1);
      KeptAlloc(env, cfg, st1, env.sizeOf(t));
      AllocKeepsDepth(env, cfg, st1, env.sizeOf(t));
      var o2 := Alloc(env, cfg, st1, env.sizeOf(t));
      KeptTrans(env, st, st1, o2.st);
      if o2.Ok? {
        KeptSane(env, st, o2.st);
        RunKept(env, cfg, d, t, o2.st);
        var o3 := Run(env, cfg, d, t, o2.st);
        KeptTrans(env, st, o2.st, o3.st);
        if o3.Ok? {
          KeptDepth(env, st, o3.st, Ascend(o3.st));
        }
      }
    }
    assert Run(env, cfg, k, ty, st) == RunBox(env, cfg, k, t, st);
  }

  lemma NamedKept(env: Env, cfg: Cfg, k: nat, ty: Ty, st: St)
    requires WFEnv(env) && WF(env, k, ty) && st.depth <= cfg.maxDepth && Sane(env, st) && ty.Named?
    ensures Kept(env, st, Run(env, cfg, k, ty, st).st)
    decreases cfg.maxDepth - st.depth, k, ty, 0, 0
  {
    hide Kept, Sane;
    RunKept(env, cfg, ty.j, env.defs[ty.j], st);
  }
}
