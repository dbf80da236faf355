/** What sets, maps and lists announce to the memory tracker, in nodes and bytes. */
module Memory {
  import opened Bytes
  import opened Types
  import opened Input
  import opened CompactCodec
  import opened Encode
  import opened Decode
  import opened Theorems

  /**
   A set or map of n entries announces nothing if it is empty, one leaf below ten entries, and
   else m inner nodes, a leaf with twelve more pointers each, where m is n / 10; then what the
   entries announce.
   */
  lemma TreeNeeds(env: Env, k: nat, kind: Kind, t: Ty, v: Val, m: nat)
    requires WFEnv(env) && WF(env, k, Coll(kind, t)) && Typed(env, k, Coll(kind, t), v) && !kind.ListKind?
    requires 10 * m <= |v.vs| < 10 * m + 10
    ensures var needs, n := Needs(env, k, Coll(kind, t), v), |v.vs|;
      && needs.asks
      && (n == 0 ==> needs.bytes == NeedsAll(env, |env.defs|, t, v.vs).bytes)
      && (0 < n < 10 ==> needs.bytes == env.leafSize(t) + NeedsAll(env, |env.defs|, t, v.vs).bytes)
      && (n >= 10 ==>
          needs.bytes == m * (env.leafSize(t) + 12 * env.word) + NeedsAll(env, |env.defs|, t, v.vs).bytes)
  {
    CollUnfold(env, k, kind, t, v);
    assert |v.vs| / 10 == m;
    hide Needs, NeedsAll, Typed, WF, WFEnv;
  }

  /** A list announces n nodes, each with two pointers, then what the elements announce. */
  lemma ListNeeds(env: Env, k: nat, t: Ty, v: Val)
    requires WFEnv(env) && WF(env, k, Coll(ListKind, t)) && Typed(env, k, Coll(ListKind, t), v)
    ensures var needs := Needs(env, k, Coll(ListKind, t), v);
      needs.asks && needs.bytes == |v.vs| * env.nodeSize(t) + NeedsAll(env, |env.defs|, t, v.vs).bytes
  {
    CollUnfold(env, k, ListKind, t, v);
    hide Needs, NeedsAll, Typed, WF, WFEnv;
  }

  lemma CollUnfold(env: Env, k: nat, kind: Kind, t: Ty, v: Val)
    requires WFEnv(env) && WF(env, k, Coll(kind, t)) && Typed(env, k, Coll(kind, t), v)
    ensures Needs(env, k, Coll(kind, t), v) ==
      Under(Join(Heap(true, CollSize(env, kind, t, |v.vs|)), NeedsAll(env, |env.defs|, t, v.vs)))
  {
    hide WFEnv, CollSize;
  }

  /** Having decoded a set or map, used_mem has grown by its nodes and by what its entries announced. */
  lemma TreeUsed(env: Env, cfg: Cfg, k: nat, kind: Kind, t: Ty, st: St, m: nat)
    requires WFEnv(env) && WFCfg(env, cfg) && WF(env, k, Coll(kind, t)) && !kind.ListKind?
    requires st.depth <= cfg.maxDepth && cfg.memLimit.Some?
    requires var o := Run(env, cfg, k, Coll(kind, t), st);
      o.Ok? && (o.v.Items? ==> 10 * m <= |o.v.vs| < 10 * m + 10)
    ensures var o := Run(env, cfg, k, Coll(kind, t), st);
      && o.v.Items? && AllTyped(env, |env.defs|, t, o.v.vs)
      && o.st.used == st.used + NeedsAll(env, |env.defs|, t, o.v.vs).bytes + (
        if |o.v.vs| == 0 then 0
        else if |o.v.vs| < 10 then env.leafSize(t)
        else m * (env.leafSize(t) + 12 * env.word))
  {
    var o := Run(env, cfg, k, Coll(kind, t), st);
    EffectOnColl(env, cfg, k, kind, t, st);
    TreeNeeds(env, k, kind, t, o.v, m);
  }

  /** The same for a list. */
  lemma ListUsed(env: Env, cfg: Cfg, k: nat, t: Ty, st: St)
    requires WFEnv(env) && WFCfg(env, cfg) && WF(env, k, Coll(ListKind, t))
    requires st.depth <= cfg.maxDepth && cfg.memLimit.Some? && Run(env, cfg, k, Coll(ListKind, t), st).Ok?
    ensures var o := Run(env, cfg, k, Coll(ListKind, t), st);
      && o.v.Items? && AllTyped(env, |env.defs|, t, o.v.vs)
      && o.st.used == st.used + NeedsAll(env, |env.defs|, t, o.v.vs).bytes + |o.v.vs| * env.nodeSize(t)
  {
    EffectOnColl(env, cfg, k, ListKind, t, st);
    ListNeeds(env, k, t, Run(env, cfg, k, Coll(ListKind, t), st).v);
  }

  lemma EffectOnColl(env: Env, cfg: Cfg, k: nat, kind: Kind, t: Ty, st: St)
    requires WFEnv(env) && WFCfg(env, cfg) && WF(env, k, Coll(kind, t)) && st.depth <= cfg.maxDepth
    requires Run(env, cfg, k, Coll(kind, t), st).Ok? && cfg.memLimit.Some?
    ensures var o := Run(env, cfg, k, Coll(kind, t), st);
      && Typed(env, k, Coll(kind, t), o.v) && o.v.Items? && AllTyped(env, |env.defs|, t, o.v.vs)
      && o.st.used == st.used + Needs(env, k, Coll(kind, t), o.v).bytes
  {
    hide WFEnv, WFCfg, Run, Needs, AllTyped;
    DecodeEffect(env, cfg, k, Coll(kind, t), st);
  }

  /** The announcement is made before the first entry is read: where it does not fit, none is. */
  lemma TreeRefused(env: Env, cfg: Cfg, k: nat, kind: Kind, t: Ty, st: St, m: nat, nodes: nat)
    requires WFEnv(env) && WF(env, k, Coll(kind, t)) && !kind.ListKind?
    requires st.depth < cfg.maxDepth && cfg.memLimit.Some? && RunCompact(4, st).Ok?
    requires 0 < m && 10 * m <= RunCompact(4, st).v < 10 * m + 10 && nodes == m * (env.leafSize(t) + 12 * env.word)
    requires Min(UsizeMax(env), st.used + nodes) >= cfg.memLimit.value
    ensures Run(env, cfg, k, Coll(kind, t), st) ==
      Fail(RunCompact(4, st).st.(depth := st.depth + 1, used := Min(UsizeMax(env), st.used + nodes)))
  {
    hide WFEnv, UsizeMax, RunCompact, RunItems;
    assert RunCompact(4, st).v / 10 == m;
    assert CollSize(env, kind, t, RunCompact(4, st).v) == nodes;
    hide CollSize;
    assert Run(env, cfg, k, Coll(kind, t), st) == RunColl(env, cfg, k, kind, t, st);
  }
}
