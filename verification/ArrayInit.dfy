/** Decoding an array in place: which cells are initialised, and which values are dropped. */
module ArrayInit {
  import opened Types
  import opened Input
  import opened Decode
  import opened Reserve

  /** MaybeUninit<T>, remembering when its value was dropped. */
  datatype Cell = Uninit | Init(v: Val) | Dropped

  /** assume_init_drop: only ever on an initialised cell, so no value is dropped twice. */
  method DropCell(dst: array<Cell>, i: nat) returns (v: Val)
    requires i < dst.Length && dst[i].Init?
    modifies dst
    ensures dst[..] == old(dst[..])[i := Dropped] && old(dst[i]) == Init(v)
  {
    v := dst[i].v;
    dst[i] := Dropped;
  }

  /** Drop for State: the first count cells, in order. */
  method DropState(dst: array<Cell>, count: nat, ghost vs: seq<Val>) returns (dropped: seq<Val>)
    requires count <= dst.Length && |vs| == count
    requires forall i :: 0 <= i < count ==> dst[i] == Init(vs[i])
    modifies dst
    ensures dropped == vs
    ensures forall i :: 0 <= i < count ==> dst[i] == Dropped
    ensures forall i :: count <= i < dst.Length ==> dst[i] == old(dst[i])
  {
    dropped := [];
    for i := 0 to count
      invariant dropped == vs[..i]
      invariant forall j :: 0 <= j < i ==> dst[j] == Dropped
      invariant forall j :: i <= j < count ==> dst[j] == Init(vs[j])
      invariant forall j :: count <= j < dst.Length ==> dst[j] == old(dst[j])
    {
      var v := DropCell(dst, i);
      assert vs[..i + 1] == vs[..i] + [vs[i]];
      dropped := dropped + [v];
    }
    assert vs[..count] == vs;
  }

  /**
   [T; N]::decode_into element by element. On success every cell holds its element and nothing
   was dropped; on a failure exactly the elements decoded before it were dropped, once each,
   and no other cell was touched. (Types that need no drop are left as they are.)
   */
  method DecodeInto(env: Env, cfg: Cfg, k: nat, t: Ty, st0: St, dst: array<Cell>, needsDrop: bool)
    returns (ok: bool, st: St, dropped: seq<Val>)
    requires WFEnv(env) && WF(env, k, t) && st0.depth <= cfg.maxDepth
    requires forall i :: 0 <= i < dst.Length ==> dst[i] == Uninit
    modifies dst
    ensures var o := RunItems(env, cfg, k, t, dst.Length, st0);
      && ok == o.Ok? && st == o.st
      && (ok ==> dropped == [] && forall i :: 0 <= i < dst.Length ==> dst[i] == Init(o.v[i]))
    ensures !ok ==>
      var vs := DecodedBefore(env, cfg, k, t, dst.Length, st0);
      && (forall i :: |vs| <= i < dst.Length ==> dst[i] == Uninit)
      && (needsDrop ==> dropped == vs && forall i :: 0 <= i < |vs| ==> dst[i] == Dropped)
      && (!needsDrop ==> dropped == [] && forall i :: 0 <= i < |vs| ==> dst[i] == Init(vs[i]))
  {
    hide WFEnv, WF, Run, RunItems, DecodedBefore, SameOutcome;
    st := st0;
    var count := 0;
    ghost var vs: seq<Val> := [];
    Begin(RunItems(env, cfg, k, t, dst.Length, st0), DecodedBefore(env, cfg, k, t, dst.Length, st0));
    while count < dst.Length
      invariant count <= dst.Length && |vs| == count && st.depth == st0.depth
      invariant forall i :: 0 <= i < count ==> dst[i] == Init(vs[i])
      invariant forall i :: count <= i < dst.Length ==> dst[i] == Uninit
      invariant DecodedBefore(env, cfg, k, t, dst.Length, st0) == vs + DecodedBefore(env, cfg, k, t, dst.Length - count, st)
      invariant SameOutcome(vs, RunItems(env, cfg, k, t, dst.Length, st0), RunItems(env, cfg, k, t, dst.Length - count, st))
    {
      var o := Run(env, cfg, k, t, st);
      ghost var rest := dst.Length - count - 1;
      NextItem(env, cfg, k, t, rest, st);
      if o.Fail? {
        assert vs + [] == vs;
        FailsHere(vs, RunItems(env, cfg, k, t, dst.Length, st0), o.st);
        dropped := [];
        if needsDrop {
          dropped := DropState(dst, count, vs);
        }
        return false, o.st, dropped;
      }
      dst[count] := Init(o.v);
      assert vs + ([o.v] + DecodedBefore(env, cfg, k, t, rest, o.st)) == vs + [o.v] + DecodedBefore(env, cfg, k, t, rest, o.st);
      Shift(vs, o.v, RunItems(env, cfg, k, t, dst.Length, st0), RunItems(env, cfg, k, t, rest, o.st));
      vs := vs + [o.v];
      st := o.st;
      count := count + 1;
    }
    Finish(env, cfg, k, t, st, vs, RunItems(env, cfg, k, t, dst.Length, st0));
    return true, st, [];
  }

  lemma Begin(o: Out<seq<Val>>, vs: seq<Val>)
    ensures SameOutcome([], o, o) && [] + vs == vs
  {
    if o.Ok? {
      assert [] + o.v == o.v;
    }
  }

  lemma FailsHere(vs: seq<Val>, whole: Out<seq<Val>>, st: St)
    requires SameOutcome(vs, whole, Fail(st))
    ensures whole == Fail(st)
  {
  }

  lemma Finish(env: Env, cfg: Cfg, k: nat, t: Ty, st: St, vs: seq<Val>, whole: Out<seq<Val>>)
    requires WFEnv(env) && WF(env, k, t) && st.depth <= cfg.maxDepth
    requires SameOutcome(vs, whole, RunItems(env, cfg, k, t, 0, st))
    ensures whole == Ok(st, vs)
  {
    assert vs + [] == vs;
  }

  /** One element decides between failing here and going on with the rest. */
  lemma NextItem(env: Env, cfg: Cfg, k: nat, t: Ty, n: nat, st: St)
    requires WFEnv(env) && WF(env, k, t) && st.depth <= cfg.maxDepth
    ensures var o := Run(env, cfg, k, t, st);
      && (o.Fail? ==> RunItems(env, cfg, k, t, n + 1, st) == Fail(o.st) && DecodedBefore(env, cfg, k, t, n + 1, st) == [])
      && (o.Ok? ==>
          var rest := RunItems(env, cfg, k, t, n, o.st);
          && RunItems(env, cfg, k, t, n + 1, st) == (if rest.Fail? then Fail(rest.st) else Ok(rest.st, [o.v] + rest.v))
          && DecodedBefore(env, cfg, k, t, n + 1, st) == [o.v] + DecodedBefore(env, cfg, k, t, n, o.st))
  {
    hide WFEnv, WF, Run;
  }

  /** What is left to decode decides the whole outcome, vs being decoded already. */
  ghost predicate SameOutcome(vs: seq<Val>, whole: Out<seq<Val>>, rest: Out<seq<Val>>) {
    whole.st == rest.st && whole.Ok? == rest.Ok? && (whole.Ok? ==> whole.v == vs + rest.v)
  }

  lemma Shift(vs: seq<Val>, x: Val, whole: Out<seq<Val>>, rest: Out<seq<Val>>)
    ensures SameOutcome(vs, whole, if rest.Fail? then Fail(rest.st) else Ok(rest.st, [x] + rest.v)) ==>
      SameOutcome(vs + [x], whole, rest)
  {
    if rest.Ok? {
      assert vs + ([x] + rest.v) == vs + [x] + rest.v;
    }
  }
}
