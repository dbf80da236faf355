/**
 What encoder and decoder promise each other, for every type, value, input and limit. Values are
 those on the wire: of a set or map, the list of the entries. Module Built goes on to what a
 decoder returns.
 */
module Theorems {
  import opened Bytes
  import opened Types
  import opened Input
  import opened Encode
  import opened Decode
  import opened Soundness
  import opened Completeness
  import opened Invariants

  /** v can come out of a decoder: reachable variants only, skipped fields at their Default. */
  ghost predicate Decodable(env: Env, k: nat, ty: Ty, v: Val)
    requires WFEnv(env) && WF(env, k, ty)
  {
    Typed(env, k, ty, v) && Reach(env, k, ty, v) && Reset(env, k, ty, v) == v
  }

  /** The run accepts, with this value and this rest. */
  ghost predicate Accepts(env: Env, cfg: Cfg, k: nat, ty: Ty, st: St, v: Val, r: seq<byte>)
    requires WFEnv(env) && WF(env, k, ty) && st.depth <= cfg.maxDepth
  {
    var o := Run(env, cfg, k, ty, st);
    o.Ok? && o.v == v && o.st.bytes == r
  }

  /** b is the encoding of the decodable value v, followed by r. */
  ghost predicate Begins(env: Env, k: nat, ty: Ty, b: seq<byte>, v: Val, r: seq<byte>)
    requires WFEnv(env) && WF(env, k, ty)
  {
    Decodable(env, k, ty, v) && b == Enc(env, k, ty, v) + r
  }

  /** The input is the encoding of v followed by r, and the limits have room for what v needs. */
  ghost predicate Holds(env: Env, cfg: Cfg, k: nat, ty: Ty, st: St, v: Val, r: seq<byte>)
    requires WFEnv(env) && WF(env, k, ty)
  {
    Begins(env, k, ty, st.bytes, v, r) && Fits(cfg, st, Needs(env, k, ty, v))
  }

  /**
   The decoder accepts exactly the encodings that fit its limits: it returns v and leaves r
   if and only if v is decodable, the input is v's encoding followed by r, and the limits
   have room for what v needs.
   */
  lemma DecodeExact(env: Env, cfg: Cfg, k: nat, ty: Ty, st: St, v: Val, r: seq<byte>)
    requires WFEnv(env) && WFCfg(env, cfg) && WF(env, k, ty) && st.depth <= cfg.maxDepth
    ensures Accepts(env, cfg, k, ty, st, v, r) <==> Holds(env, cfg, k, ty, st, v, r)
  {
    hide *;
    if Accepts(env, cfg, k, ty, st, v, r) {
      OnlyEncodings(env, cfg, k, ty, st, v, r);
    }
    if Holds(env, cfg, k, ty, st, v, r) {
      AllEncodings(env, cfg, k, ty, st, v, r);
    }
  }

  lemma OnlyEncodings(env: Env, cfg: Cfg, k: nat, ty: Ty, st: St, v: Val, r: seq<byte>)
    requires WFEnv(env) && WFCfg(env, cfg) && WF(env, k, ty) && st.depth <= cfg.maxDepth
    requires Accepts(env, cfg, k, ty, st, v, r)
    ensures Holds(env, cfg, k, ty, st, v, r)
  {
    hide WFEnv, WFCfg, WF, Typed, Reach, Reset, Enc, EncTo, Needs, Fits, Run, Charged;
    RunSound(env, cfg, k, ty, st);
    EncToIsEnc(env, k, ty, v, r);
  }

  lemma AllEncodings(env: Env, cfg: Cfg, k: nat, ty: Ty, st: St, v: Val, r: seq<byte>)
    requires WFEnv(env) && WFCfg(env, cfg) && WF(env, k, ty) && st.depth <= cfg.maxDepth
    requires Holds(env, cfg, k, ty, st, v, r)
    ensures Accepts(env, cfg, k, ty, st, v, r)
  {
    hide WFEnv, WFCfg, WF, Typed, Reach, Reset, Enc, EncTo, Needs, Fits, Run, Charged;
    EncToIsEnc(env, k, ty, v, r);
    RunComplete(env, cfg, k, ty, st, v, r);
  }

  /** After a success, depth is back where it was and used_mem grew by exactly what v needs. */
  lemma DecodeEffect(env: Env, cfg: Cfg, k: nat, ty: Ty, st: St)
    requires WFEnv(env) && WFCfg(env, cfg) && WF(env, k, ty) && st.depth <= cfg.maxDepth
    requires Run(env, cfg, k, ty, st).Ok?
    ensures var o := Run(env, cfg, k, ty, st);
      && o.st.depth == st.depth && Typed(env, k, ty, o.v)
      && o.st.used == Charged(cfg, st.used, Needs(env, k, ty, o.v))
  {
    hide WFEnv, WFCfg, WF, Typed, Reach, Reset, EncTo, Needs, Fits, Run, Charged;
    RunSound(env, cfg, k, ty, st);
  }

  /** Encoding then decoding, before any suffix: all is read back, with skipped fields reset. */
  lemma WireRoundTrip(env: Env, cfg: Cfg, k: nat, ty: Ty, v: Val, s: seq<byte>)
    requires WFEnv(env) && WFCfg(env, cfg) && WF(env, k, ty)
    requires Typed(env, k, ty, v) && Reach(env, k, ty, v)
    requires Fits(cfg, Start([]), Needs(env, k, ty, v))
    ensures Accepts(env, cfg, k, ty, Start(Enc(env, k, ty, v) + s), Reset(env, k, ty, v), s)
  {
    hide WFEnv, WFCfg, WF, Typed, Reach, Reset, Enc, EncTo, Needs, Fits, Run, Charged;
    var st := Start(Enc(env, k, ty, v) + s);
    FitsSame(cfg, Start([]), st, Needs(env, k, ty, v));
    EncToIsEnc(env, k, ty, v, s);
    RunComplete(env, cfg, k, ty, st, v, s);
  }

  /** Bytes after the value do not influence its decoding. */
  lemma Local(env: Env, cfg: Cfg, k: nat, ty: Ty, st: St, s: seq<byte>)
    requires WFEnv(env) && WFCfg(env, cfg) && WF(env, k, ty) && st.depth <= cfg.maxDepth
    requires Run(env, cfg, k, ty, st).Ok?
    ensures var o := Run(env, cfg, k, ty, st);
      Accepts(env, cfg, k, ty, st.(bytes := st.bytes + s), o.v, o.st.bytes + s)
  {
    hide WFEnv, WFCfg, WF, Reach, Reset, Enc, Needs, Fits, Run, Typed;
    var o := Run(env, cfg, k, ty, st);
    var st' := st.(bytes := st.bytes + s);
    DecodeExact(env, cfg, k, ty, st, o.v, o.st.bytes);
    Assoc(Enc(env, k, ty, o.v), o.st.bytes, s);
    FitsSame(cfg, st, st', Needs(env, k, ty, o.v));
    DecodeExact(env, cfg, k, ty, st', o.v, o.st.bytes + s);
  }

  /** An input without limits, except that the depth limit d keeps recursive types finite. */
  function Plain(d: nat): Cfg {
    Cfg(true, false, d, None)
  }

  lemma FitsPlain(st: St, d: Demand, deep: nat)
    requires st.depth == 0 && d.nest <= deep
    ensures Fits(Plain(deep), st, d)
  {
  }

  /** No byte string starts with the encodings of two different values. */
  lemma PrefixFree(env: Env, k: nat, ty: Ty, a: Val, r: seq<byte>, b: Val, s: seq<byte>)
    requires WFEnv(env) && WF(env, k, ty)
    requires Typed(env, k, ty, a) && Reach(env, k, ty, a) && Typed(env, k, ty, b) && Reach(env, k, ty, b)
    requires Enc(env, k, ty, a) + r == Enc(env, k, ty, b) + s
    ensures Reset(env, k, ty, a) == Reset(env, k, ty, b) && r == s
  {
    hide WFEnv, WF, Reset, Enc, Needs, Fits, Run, Typed, Reach;
    var deep := Max(Needs(env, k, ty, a).nest, Needs(env, k, ty, b).nest);
    FitsPlain(Start([]), Needs(env, k, ty, a), deep);
    FitsPlain(Start([]), Needs(env, k, ty, b), deep);
    WireRoundTrip(env, Plain(deep), k, ty, a, r);
    WireRoundTrip(env, Plain(deep), k, ty, b, s);
  }

  /** No strict prefix of an encoding decodes, whatever the input and its limits. */
  lemma TruncationFails(env: Env, cfg: Cfg, k: nat, ty: Ty, v: Val, i: nat)
    requires WFEnv(env) && WFCfg(env, cfg) && WF(env, k, ty)
    requires Typed(env, k, ty, v) && Reach(env, k, ty, v) && i < |Enc(env, k, ty, v)|
    ensures Run(env, cfg, k, ty, Start(Enc(env, k, ty, v)[..i])).Fail?
  {
    hide WFEnv, WFCfg, WF, Reset, Enc, Needs, Fits, Run, Typed, Reach;
    var e := Enc(env, k, ty, v);
    var o := Run(env, cfg, k, ty, Start(e[..i]));
    if o.Ok? {
      DecodeExact(env, cfg, k, ty, Start(e[..i]), o.v, o.st.bytes);
      var e' := Enc(env, k, ty, o.v);
      assert e + [] == e' + (o.st.bytes + e[i..]) by {
        assert e == e[..i] + e[i..];
        Assoc(e', o.st.bytes, e[i..]);
      }
      PrefixFree(env, k, ty, v, [], o.v, o.st.bytes + e[i..]);
    }
  }

  /** Some limit lets the decoder return v and leave r: what decoding without a limit means. */
  ghost predicate Decodes(env: Env, k: nat, ty: Ty, b: seq<byte>, v: Val, r: seq<byte>)
    requires WFEnv(env) && WF(env, k, ty)
  {
    exists d: nat :: Accepts(env, Plain(d), k, ty, Start(b), v, r)
  }

  /** Without limits, decoding inverts encoding, in both directions. */
  lemma DecodesExact(env: Env, k: nat, ty: Ty, b: seq<byte>, v: Val, r: seq<byte>)
    requires WFEnv(env) && WF(env, k, ty)
    ensures Decodes(env, k, ty, b, v, r) <==> Begins(env, k, ty, b, v, r)
  {
    hide WFEnv, WF, Typed, Reach, Reset, Enc, NestOf, Accepts;
    if Begins(env, k, ty, b, v, r) {
      PlainHolds(env, NestOf(env, k, ty, v), k, ty, b, v, r);
    } else {
      forall d: nat ensures !Accepts(env, Plain(d), k, ty, Start(b), v, r) {
        PlainHolds(env, d, k, ty, b, v, r);
      }
    }
  }

  /** The most descend_ref calls open at once while v is decoded. */
  function NestOf(env: Env, k: nat, ty: Ty, v: Val): nat
    requires WFEnv(env) && WF(env, k, ty) && Typed(env, k, ty, v)
  {
    Needs(env, k, ty, v).nest
  }

  lemma PlainHolds(env: Env, d: nat, k: nat, ty: Ty, b: seq<byte>, v: Val, r: seq<byte>)
    requires WFEnv(env) && WF(env, k, ty)
    ensures Accepts(env, Plain(d), k, ty, Start(b), v, r) <==>
      Begins(env, k, ty, b, v, r) && NestOf(env, k, ty, v) <= d
  {
    hide WFEnv, WF, Reset, Enc, Needs, Run, Typed, Reach, Accepts;
    DecodeExact(env, Plain(d), k, ty, Start(b), v, r);
  }

  /**
   decode_with_depth_limit succeeds exactly when decoding without a limit does and no more
   than limit descend_ref calls are open at once, recursive types included.
   */
  lemma DepthLimitExact(env: Env, k: nat, ty: Ty, limit: nat, b: seq<byte>, v: Val, r: seq<byte>)
    requires WFEnv(env) && WF(env, k, ty)
    ensures Accepts(env, Plain(limit), k, ty, Start(b), v, r) <==>
      Typed(env, k, ty, v) && Decodes(env, k, ty, b, v, r) && NestOf(env, k, ty, v) <= limit
  {
    hide WFEnv, WF, Reset, Enc, NestOf, Typed, Reach, Accepts, Decodes;
    DecodesExact(env, k, ty, b, v, r);
    PlainHolds(env, limit, k, ty, b, v, r);
  }

  /**
   decode_with_mem_limit succeeds exactly when the same decode without the limit does and the
   unbounded sum of the announced sizes stays below it; with no announcement any limit will do.
   used_mem then holds that sum.
   */
  lemma MemLimitExact(env: Env, cfg: Cfg, k: nat, ty: Ty, limit: nat, b: seq<byte>, v: Val, r: seq<byte>)
    requires WFEnv(env) && WFCfg(env, cfg) && WF(env, k, ty)
    requires cfg.memLimit.None? && !cfg.cursor && limit <= UsizeMax(env)
    ensures var tracked := cfg.(memLimit := Some(limit));
      && (Accepts(env, tracked, k, ty, Start(b), v, r) <==>
          && Typed(env, k, ty, v) && Accepts(env, cfg, k, ty, Start(b), v, r)
          && (Needs(env, k, ty, v).asks ==> Needs(env, k, ty, v).bytes < limit))
      && (Accepts(env, tracked, k, ty, Start(b), v, r) ==>
          Run(env, tracked, k, ty, Start(b)).st.used == Needs(env, k, ty, v).bytes)
  {
    hide WFEnv, WF, Reset, Enc, Needs, Run, Typed, Reach, UsizeMax;
    var tracked := cfg.(memLimit := Some(limit));
    DecodeExact(env, cfg, k, ty, Start(b), v, r);
    DecodeExact(env, tracked, k, ty, Start(b), v, r);
    if Accepts(env, tracked, k, ty, Start(b), v, r) {
      DecodeEffect(env, tracked, k, ty, Start(b));
    }
  }

  /**
   A slice, an input of unknown length and a BytesCursor that hands out parts of its own
   buffer all decode alike: the same value and rest, or all fail.
   */
  lemma InputsAgree(env: Env, cfg: Cfg, cfg': Cfg, k: nat, ty: Ty, b: seq<byte>)
    requires WFEnv(env) && WFCfg(env, cfg) && WFCfg(env, cfg') && WF(env, k, ty)
    requires cfg'.maxDepth == cfg.maxDepth && cfg'.memLimit == cfg.memLimit
    ensures var o, o' := Run(env, cfg, k, ty, Start(b)), Run(env, cfg', k, ty, Start(b));
      && o.Ok? == o'.Ok?
      && (o.Ok? ==> o.v == o'.v && o.st.bytes == o'.st.bytes && o.st.used == o'.st.used)
  {
    hide WFEnv, WFCfg, WF, Reset, Enc, Needs, Run, Typed, Reach;
    var o, o' := Run(env, cfg, k, ty, Start(b)), Run(env, cfg', k, ty, Start(b));
    if o.Ok? {
      DecodeExact(env, cfg, k, ty, Start(b), o.v, o.st.bytes);
      DecodeExact(env, cfg', k, ty, Start(b), o.v, o.st.bytes);
      DecodeEffect(env, cfg, k, ty, Start(b));
      DecodeEffect(env, cfg', k, ty, Start(b));
    }
    if o'.Ok? {
      DecodeExact(env, cfg', k, ty, Start(b), o'.v, o'.st.bytes);
      DecodeExact(env, cfg, k, ty, Start(b), o'.v, o'.st.bytes);
    }
  }

  /** read_vec_from_u8s gives what reading the elements one by one gives, or both fail. */
  lemma BulkIsItemByItem(env: Env, cfg: Cfg, k: nat, w: nat, len: nat, st: St)
    requires WFEnv(env) && WFCfg(env, cfg) && IsWidth(w) && cfg.memLimit.None?
    requires st.depth <= cfg.maxDepth && len <= U32_MAX && len * w <= UsizeMax(env)
    ensures var bulk, each := RunBulk(env, cfg, w, len, st), RunItems(env, cfg, k, Prim(w), len, st);
      && bulk.Ok? == each.Ok?
      && (bulk.Ok? ==> Split(bulk.v, w, len) == each.v && bulk.st.bytes == each.st.bytes)
  {
    hide WFEnv, WFCfg, UsizeMax, IsWidth, RunBulk, RunItems, EncAllTo, AllTyped, AllReach, ResetAll, NeedsAll, Charged;
    var t := Prim(w);
    var bulk, each := RunBulk(env, cfg, w, len, st), RunItems(env, cfg, k, t, len, st);
    if bulk.Ok? {
      BulkSound(env, cfg, w, len, st);
      SplitSound(env, k, w, len, bulk.v, bulk.st.bytes);
      ItemsComplete(env, cfg, k, t, st, Split(bulk.v, w, len), bulk.st.bytes);
    }
    if each.Ok? {
      ItemsSound(env, cfg, k, t, len, st);
      SplitComplete(env, k, w, each.v, each.st.bytes);
      var m := len * w;
      assert st.bytes == st.bytes[..m] + st.bytes[m..];
      BulkComplete(env, cfg, w, st, st.bytes[..m], len, each.st.bytes);
    }
  }

  /** Decoding in chunks gives what decoding the elements one by one gives, or both fail. */
  lemma ChunkedIsItemByItem(env: Env, cfg: Cfg, t: Ty, len: nat, st: St)
    requires WFEnv(env) && WFCfg(env, cfg) && WF(env, |env.defs|, t) && cfg.memLimit.None?
    requires env.sizeOf(t) <= MAX_PREALLOCATION && st.depth <= cfg.maxDepth
    ensures var chunked, each := RunChunks(env, cfg, t, len, st), RunItems(env, cfg, |env.defs|, t, len, st);
      && chunked.Ok? == each.Ok?
      && (chunked.Ok? ==> chunked.v == each.v && chunked.st.bytes == each.st.bytes)
  {
    hide WFEnv, WFCfg, WF, RunChunks, RunItems, EncAllTo, AllTyped, AllReach, ResetAll, NeedsAll, Charged;
    var d := |env.defs|;
    var chunked, each := RunChunks(env, cfg, t, len, st), RunItems(env, cfg, d, t, len, st);
    if chunked.Ok? {
      ChunksSound(env, cfg, t, len, st);
      ItemsComplete(env, cfg, d, t, st, chunked.v, chunked.st.bytes);
    }
    if each.Ok? {
      ItemsSound(env, cfg, d, t, len, st);
      ChunksComplete(env, cfg, t, st, each.v, each.st.bytes);
    }
  }

  /**
   After any decode, failed ones included, CountedInput holds the number of bytes consumed
   (or u64::MAX) and what is left is a suffix of the input.
   */
  lemma CounterExact(env: Env, cfg: Cfg, k: nat, ty: Ty, b: seq<byte>)
    requires WFEnv(env) && WF(env, k, ty)
    ensures var st := Run(env, cfg, k, ty, Start(b)).st;
      && |st.bytes| <= |b| && st.bytes == b[|b| - |st.bytes|..]
      && st.count == Min(U64_MAX, |b| - |st.bytes|)
  {
    hide WFEnv, WF, Run;
    RunKept(env, cfg, k, ty, Start(b));
  }

  /**
   A type that is nothing but a Box of itself consumes no input: unlimited decoding would never
   return. With a limit it fails, on every input, one level past the limit.
   */
  lemma {:induction false} EndlessTypeFails(env: Env, cfg: Cfg, st: St)
    requires WFEnv(env) && env.defs == [Box(Named(0))] && cfg.memLimit.None? && st.depth <= cfg.maxDepth
    ensures WF(env, 1, Named(0))
    ensures var o := Run(env, cfg, 1, Named(0), st);
      o.Fail? && o.st == st.(depth := cfg.maxDepth + 1)
    decreases cfg.maxDepth - st.depth
  {
    var ty := Box(Named(0));
    assert Run(env, cfg, 1, Named(0), st) == Run(env, cfg, 0, ty, st);
    assert Run(env, cfg, 0, ty, st) == RunBox(env, cfg, 0, Named(0), st);
    if st.depth < cfg.maxDepth {
      EndlessTypeFails(env, cfg, st.(depth := st.depth + 1));
    }
  }
}
