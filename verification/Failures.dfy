/** Where a decode that fails leaves its input. */
module Failures {
  import opened Bytes
  import opened Types
  import opened Input
  import opened CompactCodec
  import opened Encode
  import opened Decode

  /** The state in which the elements of a collection are decoded, if it is reached. */
  function Inside(env: Env, cfg: Cfg, st: St, size: nat): Out<()> {
    var (st1, _) :- Descend(cfg, st);
    Alloc(env, cfg, st1, size)
  }

  /** A map, set or list closes its level after an element failed. */
  lemma CollFailure(env: Env, cfg: Cfg, k: nat, kind: Kind, t: Ty, st: St)
    requires WFEnv(env) && WF(env, k, Coll(kind, t)) && st.depth <= cfg.maxDepth && RunCompact(4, st).Ok?
    requires var c := RunCompact(4, st);
      var a := Inside(env, cfg, c.st, Min(UsizeMax(env), CollSize(env, kind, t, c.v)));
      a.Ok? && a.st.depth <= cfg.maxDepth && RunItems(env, cfg, |env.defs|, t, c.v, a.st).Fail?
    ensures var c := RunCompact(4, st);
      var a := Inside(env, cfg, c.st, Min(UsizeMax(env), CollSize(env, kind, t, c.v)));
      var o := RunItems(env, cfg, |env.defs|, t, c.v, a.st);
      && o.st.depth > 0
      && Run(env, cfg, k, Coll(kind, t), st) == Fail(o.st.(depth := o.st.depth - 1))
  {
    hide WFEnv, UsizeMax, RunCompact, RunItems, CollSize, Alloc;
    var c := RunCompact(4, st);
    AllocKeepsDepth(env, cfg, Descend(cfg, c.st).st, Min(UsizeMax(env), CollSize(env, kind, t, c.v)));
    assert Run(env, cfg, k, Coll(kind, t), st) == RunColl(env, cfg, k, kind, t, st);
  }

  /** A vector leaves its level open after an element failed. */
  lemma VecFailure(env: Env, cfg: Cfg, k: nat, t: Ty, st: St)
    requires WFEnv(env) && WF(env, k, Vec(t)) && !t.Prim? && st.depth < cfg.maxDepth && RunCompact(4, st).Ok?
    requires var c := RunCompact(4, st);
      RunChunks(env, cfg, t, c.v, c.st.(depth := st.depth + 1)).Fail?
    ensures var c := RunCompact(4, st);
      Run(env, cfg, k, Vec(t), st) == Fail(RunChunks(env, cfg, t, c.v, c.st.(depth := st.depth + 1)).st)
  {
    hide WFEnv, UsizeMax, RunCompact, RunChunks;
    assert Run(env, cfg, k, Vec(t), st) == RunVec(env, cfg, k, t, st);
  }

  /** A box leaves its level open after its value failed. */
  lemma BoxFailure(env: Env, cfg: Cfg, k: nat, t: Ty, st: St)
    requires WFEnv(env) && WF(env, k, Box(t)) && st.depth <= cfg.maxDepth
    requires var a := Inside(env, cfg, st, env.sizeOf(t));
      a.Ok? && a.st.depth <= cfg.maxDepth && Run(env, cfg, |env.defs|, t, a.st).Fail?
    ensures var a := Inside(env, cfg, st, env.sizeOf(t));
      Run(env, cfg, k, Box(t), st) == Fail(Run(env, cfg, |env.defs|, t, a.st).st)
  {
    hide WFEnv, UsizeMax, Alloc;
    AllocKeepsDepth(env, cfg, Descend(cfg, st).st, env.sizeOf(t));
    assert Run(env, cfg, k, Box(t), st) == RunBox(env, cfg, k, t, st);
  }

  /** A type without a type inside leaves the depth alone. */
  lemma LeafKeepsDepth(env: Env, cfg: Cfg, k: nat, t: Ty, st: St)
    requires WFEnv(env) && WF(env, k, t) && IsLeaf(t) && st.depth <= cfg.maxDepth
    ensures Run(env, cfg, k, t, st).st.depth == st.depth
  {
    hide WFEnv, UsizeMax, RunCompact, RunBulk, RunBlob, Utf8;
  }

  lemma {:induction false} LeavesKeepDepth(env: Env, cfg: Cfg, k: nat, t: Ty, n: nat, st: St)
    requires WFEnv(env) && WF(env, k, t) && IsLeaf(t) && st.depth <= cfg.maxDepth
    ensures RunItems(env, cfg, k, t, n, st).st.depth == st.depth
    decreases n
  {
    hide WFEnv, WF, Run;
    if n > 0 {
      LeafKeepsDepth(env, cfg, k, t, st);
      var o := Run(env, cfg, k, t, st);
      if o.Ok? {
        LeavesKeepDepth(env, cfg, k, t, n - 1, o.st);
      }
    }
  }

  /** Around an element such as a bool that fails: a collection ends at its depth, a box one deeper. */
  lemma DepthAfterFailure(env: Env, cfg: Cfg, k: nat, kind: Kind, t: Ty, st: St)
    requires WFEnv(env) && WF(env, k, Coll(kind, t)) && IsLeaf(t) && st.depth <= cfg.maxDepth
    ensures var c := RunCompact(4, st);
      c.Ok? ==>
        var a := Inside(env, cfg, c.st, Min(UsizeMax(env), CollSize(env, kind, t, c.v)));
        a.Ok? && a.st.depth <= cfg.maxDepth && RunItems(env, cfg, |env.defs|, t, c.v, a.st).Fail? ==>
          Run(env, cfg, k, Coll(kind, t), st).st.depth == st.depth
    ensures var a := Inside(env, cfg, st, env.sizeOf(t));
      a.Ok? && a.st.depth <= cfg.maxDepth && Run(env, cfg, |env.defs|, t, a.st).Fail? ==>
        Run(env, cfg, k, Box(t), st).st.depth == st.depth + 1
  {
    hide WFEnv, UsizeMax, RunCompact, RunItems, CollSize, Alloc, Run;
    var d, c := |env.defs|, RunCompact(4, st);
    if c.Ok? {
      var size := Min(UsizeMax(env), CollSize(env, kind, t, c.v));
      AllocKeepsDepth(env, cfg, Descend(cfg, c.st).st, size);
      var a := Inside(env, cfg, c.st, size);
      if a.Ok? && a.st.depth <= cfg.maxDepth && RunItems(env, cfg, d, t, c.v, a.st).Fail? {
        CollFailure(env, cfg, k, kind, t, st);
        LeavesKeepDepth(env, cfg, d, t, c.v, a.st);
      }
    }
    AllocKeepsDepth(env, cfg, Descend(cfg, st).st, env.sizeOf(t));
    var a := Inside(env, cfg, st, env.sizeOf(t));
    if a.Ok? && a.st.depth <= cfg.maxDepth && Run(env, cfg, d, t, a.st).Fail? {
      BoxFailure(env, cfg, k, t, st);
      LeafKeepsDepth(env, cfg, d, t, a.st);
    }
  }

  /**
   Where the length of the input is known and too few bytes are left for the primitives announced,
   the decode stops behind the length: nothing more is read and nothing is requested.
   */
  lemma ShortVec(env: Env, cfg: Cfg, k: nat, w: nat, st: St)
    requires WFEnv(env) && WF(env, k, Vec(Prim(w))) && st.depth <= cfg.maxDepth && cfg.knownLen
    requires var c := RunCompact(4, st); c.Ok? && |c.st.bytes| < c.v * w
    ensures Run(env, cfg, k, Vec(Prim(w)), st) == Fail(RunCompact(4, st).st)
  {
    hide WFEnv, UsizeMax, RunCompact, RunBulkChunks;
    assert Run(env, cfg, k, Vec(Prim(w)), st) == RunVec(env, cfg, k, Prim(w), st);
  }

  /** The same for a string. */
  lemma ShortString(env: Env, cfg: Cfg, k: nat, st: St)
    requires WFEnv(env) && st.depth <= cfg.maxDepth && cfg.knownLen
    requires var c := RunCompact(4, st); c.Ok? && |c.st.bytes| < c.v
    ensures Run(env, cfg, k, Str, st) == Fail(RunCompact(4, st).st)
  {
    hide WFEnv, UsizeMax, RunCompact, RunBulkChunks, Utf8;
  }
}
