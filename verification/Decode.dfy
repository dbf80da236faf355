/** The decoder of every type, step by step on the input's state. */
module Decode {
  import opened Bytes
  import opened Types
  import opened Input
  import opened CompactCodec
  import opened Encode

  /**
   What holds of the nesting depth after any run: a success restores it; a failure may leave
   levels open, never too few of them, and goes at most one past the limit.
   */
  predicate Balanced<T>(cfg: Cfg, st: St, o: Out<T>) {
    && (o.Ok? ==> o.st.depth == st.depth)
    && (o.Fail? ==> st.depth <= o.st.depth <= cfg.maxDepth + 1)
  }

  /** Elements per chunk: MAX_PREALLOCATION.checked_div(size).unwrap_or(usize::MAX). */
  function ChunkLen(env: Env, size: nat): nat {
    if size == 0 then UsizeMax(env) else MAX_PREALLOCATION / size
  }

  lemma ChunkLenPositive(env: Env, size: nat)
    requires WFEnv(env) && size <= MAX_PREALLOCATION
    ensures ChunkLen(env, size) > 0
  {
    PowValues();
    PowMono(4, env.word);
  }

  /** decode_vec_chunked reading each chunk of primitives in one go; the raw bytes. */
  function RunBulkChunks(env: Env, cfg: Cfg, w: nat, len: nat, st: St): (o: Out<seq<byte>>)
    requires WFEnv(env) && IsWidth(w)
    ensures o.st.depth == st.depth
    ensures o.Ok? ==> |o.v| == len * w
    decreases len
  {
    if len == 0 then Ok(st, [])
    else
      ChunkLenPositive(env, w);
      var c := Min(ChunkLen(env, w), len);
      var (st1, _) :- Alloc(env, cfg, st, Min(UsizeMax(env), c * w));
      var (st2, bs) :- Read(st1, c * w);
      var (st3, rest) :- RunBulkChunks(env, cfg, w, len - c, st2);
      assert c * w + (len - c) * w == len * w;
      Ok(st3, bs + rest)
  }

  /** read_vec_from_u8s. */
  function RunBulk(env: Env, cfg: Cfg, w: nat, len: nat, st: St): (o: Out<seq<byte>>)
    requires WFEnv(env) && IsWidth(w)
    ensures o.st.depth == st.depth
    ensures o.Ok? ==> |o.v| == len * w
  {
    if len * w > UsizeMax(env) then Fail(st)
    else if cfg.knownLen && |st.bytes| < len * w then Fail(st)
    else RunBulkChunks(env, cfg, w, len, st)
  }

  /** Raw bytes seen as len primitives of w bytes. */
  function Split(bs: seq<byte>, w: nat, len: nat): (vs: seq<Val>)
    requires |bs| == len * w
    ensures |vs| == len
    decreases len
  {
    if len == 0 then []
    else
      assert |bs| == w + (len - 1) * w;
      [Num(UnLE(bs[..w]))] + Split(bs[w..], w, len - 1)
  }

  /** scale_internal_decode_bytes: BytesCursor splits its buffer, any other input copies. */
  function RunBlob(env: Env, cfg: Cfg, len: nat, st: St): (o: Out<seq<byte>>)
    requires WFEnv(env)
    ensures o.st.depth == st.depth
    ensures o.Ok? ==> |o.v| == len
  {
    if !cfg.cursor then RunBulk(env, cfg, 1, len, st)
    else if len > |st.bytes| then Fail(st)
    else
      var (st1, _) :- Alloc(env, cfg, st, len);
      Read(st1, len)
  }

  /** T::decode. */
  function Run(env: Env, cfg: Cfg, k: nat, ty: Ty, st: St): (o: Out<Val>)
    requires WFEnv(env) && WF(env, k, ty) && st.depth <= cfg.maxDepth
    ensures Balanced(cfg, st, o)
    decreases cfg.maxDepth - st.depth, k, ty, 0, 0
  {
    match ty
    case Prim(w) =>
      var (st1, bs) :- Read(st, w);
      Ok(st1, Num(UnLE(bs)))
    case NonZero(w) =>
      var (st1, bs) :- Read(st, w);
      if UnLE(bs) == 0 then Fail(st1) else Ok(st1, Num(UnLE(bs)))
    case Bool =>
      var (st1, b) :- ReadByte(st);
      if b == 0 then Ok(st1, Flag(false)) else if b == 1 then Ok(st1, Flag(true)) else Fail(st1)
    case OptBool =>
      var (st1, b) :- ReadByte(st);
      if b == 0 then Ok(st1, Tri(None))
      else if b == 1 then Ok(st1, Tri(Some(true)))
      else if b == 2 then Ok(st1, Tri(Some(false)))
      else Fail(st1)
    case Compact(w) =>
      var (st1, n) :- RunCompact(w, st);
      Ok(st1, Num(n))
    case Duration =>
      var (st1, secs) :- Read(st, 8);
      var (st2, nanos) :- Read(st1, 4);
      if UnLE(nanos) >= A_BILLION then Fail(st2) else Ok(st2, Dur(UnLE(secs), UnLE(nanos)))
    case Str =>
      var (st1, len) :- RunCompact(4, st);
      var (st2, bs) :- RunBulk(env, cfg, 1, len, st1);
      if Utf8(bs) then Ok(st2, Raw(bs)) else Fail(st2)
    case Blob =>
      var (st1, len) :- RunCompact(4, st);
      var (st2, bs) :- RunBlob(env, cfg, len, st1);
      Ok(st2, Raw(bs))
    case Unit => Ok(st, UnitV)
    case Pair(a, b) =>
      var (st1, x) :- Run(env, cfg, k, a, st);
      var (st2, y) :- Run(env, cfg, k, b, st1);
      Ok(st2, PairV(x, y))
    case Opt(t) =>
      var (st1, b) :- ReadByte(st);
      if b == 0 then Ok(st1, NoneV)
      else if b == 1 then
        var (st2, x) :- Run(env, cfg, k, t, st1);
        Ok(st2, SomeV(x))
      else Fail(st1)
    case Res(t, e) =>
      var (st1, b) :- ReadByte(st);
      if b == 0 then
        var (st2, x) :- Run(env, cfg, k, t, st1);
        Ok(st2, OkV(x))
      else if b == 1 then
        var (st2, x) :- Run(env, cfg, k, e, st1);
        Ok(st2, ErrV(x))
      else Fail(st1)
    case Array(t, n) =>
      if t.Prim? then
        var (st1, bs) :- Read(st, n * t.w);
        Ok(st1, Items(Split(bs, t.w, n)))
      else
        var (st1, vs) :- RunItems(env, cfg, k, t, n, st);
        Ok(st1, Items(vs))
    case Vec(t) => RunVec(env, cfg, k, t, st)
    case Coll(kind, t) => RunColl(env, cfg, k, kind, t, st)
    case Box(t) => RunBox(env, cfg, k, t, st)
    case Skip(d) => Ok(st, d)
    case Enum(vs) =>
      var (st1, tag) :- ReadByte(st);
      var (st2, iv) :- RunVariant(env, cfg, k, vs, tag, st1);
      Ok(st2, Variant(iv.0, iv.1))
    case Named(j) => Run(env, cfg, j, env.defs[j], st)
  }

  /** Vec<T>::decode; decode_vec_with_len picks the bulk path for primitives. */
  function RunVec(env: Env, cfg: Cfg, ghost k: nat, t: Ty, st: St): (o: Out<Val>)
    requires WFEnv(env) && WF(env, |env.defs|, t) && st.depth <= cfg.maxDepth
    requires env.sizeOf(t) <= MAX_PREALLOCATION
    ensures Balanced(cfg, st, o)
    decreases cfg.maxDepth - st.depth, k, t, 0, 1
  {
    var (st1, len) :- RunCompact(4, st);
    if t.Prim? then
      var (st2, bs) :- RunBulk(env, cfg, t.w, len, st1);
      Ok(st2, Items(Split(bs, t.w, len)))
    else
      var (st2, _) :- Descend(cfg, st1);
      var (st3, vs) :- RunChunks(env, cfg, t, len, st2);
      Ok(Ascend(st3), Items(vs))
  }

  /** BTreeMap, BTreeSet and LinkedList: ascend_ref runs whether or not an element failed. */
  function RunColl(env: Env, cfg: Cfg, ghost k: nat, kind: Kind, t: Ty, st: St): (o: Out<Val>)
    requires WFEnv(env) && WF(env, |env.defs|, t) && st.depth <= cfg.maxDepth
    ensures Balanced(cfg, st, o)
    decreases cfg.maxDepth - st.depth, k, t, 0, 1
  {
    var (st1, len) :- RunCompact(4, st);
    var (st2, _) :- Descend(cfg, st1);
    var (st3, _) :- Alloc(env, cfg, st2, Min(UsizeMax(env), CollSize(env, kind, t, len)));
    var o := RunItems(env, cfg, |env.defs|, t, len, st3);
    if o.Fail? then Fail(Ascend(o.st)) else Ok(Ascend(o.st), Items(o.v))
  }

  /** Box<T>::decode_wrapped. */
  function RunBox(env: Env, cfg: Cfg, ghost k: nat, t: Ty, st: St): (o: Out<Val>)
    requires WFEnv(env) && WF(env, |env.defs|, t) && st.depth <= cfg.maxDepth
    ensures Balanced(cfg, st, o)
    decreases cfg.maxDepth - st.depth, k, t, 0, 1
  {
    var (st1, _) :- Descend(cfg, st);
    var (st2, _) :- Alloc(env, cfg, st1, env.sizeOf(t));
    var (st3, x) :- Run(env, cfg, |env.defs|, t, st2);
    Ok(Ascend(st3), Ref(x))
  }

  /** n elements one after the other. */
  function RunItems(env: Env, cfg: Cfg, k: nat, t: Ty, n: nat, st: St): (o: Out<seq<Val>>)
    requires WFEnv(env) && WF(env, k, t) && st.depth <= cfg.maxDepth
    ensures Balanced(cfg, st, o)
    ensures o.Ok? ==> |o.v| == n
    decreases cfg.maxDepth - st.depth, k, t, n, 0
  {
    if n == 0 then Ok(st, [])
    else
      var (st1, x) :- Run(env, cfg, k, t, st);
      var (st2, xs) :- RunItems(env, cfg, k, t, n - 1, st1);
      Ok(st2, [x] + xs)
  }

  /** decode_vec_chunked over elements: announce a chunk, then decode its elements. */
  function RunChunks(env: Env, cfg: Cfg, t: Ty, len: nat, st: St): (o: Out<seq<Val>>)
    requires WFEnv(env) && WF(env, |env.defs|, t) && st.depth <= cfg.maxDepth
    requires env.sizeOf(t) <= MAX_PREALLOCATION
    ensures Balanced(cfg, st, o)
    ensures o.Ok? ==> |o.v| == len
    decreases cfg.maxDepth - st.depth, |env.defs|, t, len, 1
  {
    if len == 0 then Ok(st, [])
    else
      ChunkLenPositive(env, env.sizeOf(t));
      var c := Min(ChunkLen(env, env.sizeOf(t)), len);
      var (st1, _) :- Alloc(env, cfg, st, Min(UsizeMax(env), c * env.sizeOf(t)));
      var (st2, xs) :- RunItems(env, cfg, |env.defs|, t, c, st1);
      var (st3, ys) :- RunChunks(env, cfg, t, len - c, st2);
      Ok(st3, xs + ys)
  }

  /** The emitted match: the first arm that is not skipped and carries the byte. */
  function RunVariant(env: Env, cfg: Cfg, k: nat, vs: Variants, tag: byte, st: St): (o: Out<(nat, Val)>)
    requires WFEnv(env) && WFVariants(env, k, vs) && st.depth <= cfg.maxDepth
    ensures Balanced(cfg, st, o)
    decreases cfg.maxDepth - st.depth, k, vs, 0, 0
  {
    if vs.VNil? then Fail(st)
    else if !vs.skip && vs.tag == tag then
      var (st1, x) :- Run(env, cfg, k, vs.ty, st);
      Ok(st1, (0, x))
    else
      var (st1, iv) :- RunVariant(env, cfg, k, vs.tail, tag, st);
      Ok(st1, (iv.0 + 1, iv.1))
  }
}
