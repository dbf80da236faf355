/** Bytes and sizes that fix the model's constants. */
module Vectors {
  import opened Bytes
  import opened Types
  import opened Input
  import opened CompactCodec
  import opened Encode
  import opened Decode

  /** The compact integers of compact_integers_encoded_as_expected, up to four bytes. */
  lemma CompactVectors()
    ensures CompactEnc(0) == [0x00] && CompactEnc(63) == [0xFC]
    ensures CompactEnc(64) == [0x01, 0x01] && CompactEnc(16383) == [0xFD, 0xFF]
    ensures CompactEnc(16384) == [0x02, 0x00, 0x01, 0x00]
    ensures CompactEnc(1073741823) == [0xFE, 0xFF, 0xFF, 0xFF]
  {
  }

  /** The limits, as the source writes them. */
  lemma Constants(env: Env)
    ensures MAX_PREALLOCATION == 16384
    ensures env.word == 4 ==> UsizeMax(env) == 0xFFFF_FFFF
    ensures env.word == 8 ==> UsizeMax(env) == 0xFFFF_FFFF_FFFF_FFFF
  {
    PowValues();
  }

  /** The types without a type inside, for every width the source has. */
  lemma Leaves(env: Env, k: nat, w: nat, d: Val)
    ensures w == 1 || w == 2 || w == 4 || w == 8 || w == 16 ==>
      WF(env, k, Prim(w)) && WF(env, k, NonZero(w)) && WF(env, k, Compact(w))
    ensures WF(env, k, Bool) && WF(env, k, OptBool) && WF(env, k, Duration) && WF(env, k, Unit)
    ensures WF(env, k, Str) && WF(env, k, Blob) && WF(env, k, Skip(d))
  {
  }

  /** The universe of types is closed under the source's type constructors. */
  lemma Universe(env: Env, k: nat, a: Ty, b: Ty, n: nat)
    requires WF(env, k, a) && WF(env, k, b)
    ensures WF(env, k, Pair(a, b)) && WF(env, k, Opt(a)) && WF(env, k, Res(a, b)) && WF(env, k, Array(a, n))
    ensures n < k && n < |env.defs| ==> WF(env, k, Named(n))
  {
  }

  /** Under a guard, types may refer to any derived type. */
  lemma Guarded(env: Env, k: nat, t: Ty, kind: Kind)
    requires WF(env, |env.defs|, t)
    ensures WF(env, k, Box(t)) && ((kind.MapKind? ==> t.Pair?) ==> WF(env, k, Coll(kind, t)))
    ensures env.sizeOf(t) <= MAX_PREALLOCATION ==> WF(env, k, Vec(t))
  {
  }

  /** A Duration is seconds in eight bytes, then less than a billion nanoseconds in four. */
  lemma DurationExact(env: Env, cfg: Cfg, k: nat, st: St, secs: nat, nanos: nat)
    requires WFEnv(env) && st.depth <= cfg.maxDepth && |st.bytes| >= 12
    requires secs == UnLE(st.bytes[..8]) && nanos == UnLE(st.bytes[8..12])
    ensures var o := Run(env, cfg, k, Duration, st);
      && (o.Ok? <==> nanos < 1_000_000_000)
      && (o.Ok? ==> o.v == Dur(secs, nanos) && o.st.bytes == st.bytes[12..])
  {
    hide WFEnv, UnLE;
    assert st.bytes[8..][..4] == st.bytes[8..12];
    assert st.bytes[8..][4..] == st.bytes[12..];
  }

  /** The tag bytes of Option, Result, bool and OptionBool, and the order of little-endian bytes. */
  lemma TagVectors(env: Env, k: nat)
    requires WFEnv(env)
    ensures Enc(env, k, Opt(Bool), NoneV) == [0] && Enc(env, k, Opt(Bool), SomeV(Flag(false))) == [1, 0]
    ensures Enc(env, k, Res(Bool, Unit), OkV(Flag(true))) == [0, 1] && Enc(env, k, Res(Bool, Unit), ErrV(UnitV)) == [1]
    ensures Enc(env, k, OptBool, Tri(Some(true))) == [1] && Enc(env, k, OptBool, Tri(Some(false))) == [2]
    ensures Enc(env, k, OptBool, Tri(None)) == [0]
    ensures 0x0102 < Pow256(2) && Enc(env, k, Prim(2), Num(0x0102)) == [0x02, 0x01]
  {
    hide WFEnv;
  }

  function Nested(n: nat): Ty {
    if n == 0 then Prim(1) else Vec(Nested(n - 1))
  }

  function Singletons(n: nat): Val {
    if n == 0 then Num(1) else Items([Singletons(n - 1)])
  }

  /**
   Vectors nested n deep around bytes open n - 1 levels, the innermost being read in bulk, and
   announce one header for each inner vector and one byte: for n = 4 the limit 3 of
   decode_limit_works, for n = 5 and 24-byte headers the 97 bytes of decode_complex_objects_works.
   */
  lemma {:induction false} NestedNeeds(env: Env, k: nat, n: nat, header: nat)
    requires WFEnv(env) && n > 0 && header <= MAX_PREALLOCATION
    requires forall t :: env.sizeOf(Vec(t)) == header
    ensures WF(env, k, Nested(n)) && Typed(env, k, Nested(n), Singletons(n))
    ensures Needs(env, k, Nested(n), Singletons(n)) == Demand(n - 1, true, (n - 1) * header + 1)
    decreases n
  {
    hide WFEnv, WF, Typed, Needs;
    var d, t, v := |env.defs|, Nested(n - 1), Singletons(n - 1);
    if n == 1 {
      NestedBytes(env, k);
    } else {
      NestedNeeds(env, d, n - 1, header);
      MulStep(header, n - 2);
      NestedStep(env, k, t, v);
    }
  }

  lemma NestedBytes(env: Env, k: nat)
    requires WFEnv(env)
    ensures var ty, v := Vec(Prim(1)), Items([Num(1)]);
      WF(env, k, ty) && Typed(env, k, ty, v) && Needs(env, k, ty, v) == Demand(0, true, 1)
  {
    hide NeedsAll;
    BigEnough(env);
    assert WF(env, |env.defs|, Prim(1)) && Typed(env, |env.defs|, Prim(1), Num(1));
  }

  /** One vector around a value that is no primitive. */
  lemma NestedStep(env: Env, k: nat, t: Ty, v: Val)
    requires WFEnv(env) && WF(env, |env.defs|, t) && Typed(env, |env.defs|, t, v)
    requires !t.Prim? && env.sizeOf(t) <= MAX_PREALLOCATION
    ensures WF(env, k, Vec(t)) && Typed(env, k, Vec(t), Items([v]))
    ensures Needs(env, k, Vec(t), Items([v])) ==
      Under(Join(Heap(true, env.sizeOf(t)), Needs(env, |env.defs|, t, v)))
  {
    hide Needs;
    OneNeeds(env, |env.defs|, t, v);
    hide WFEnv, AllTyped, NeedsAll;
    assert WF(env, k, Vec(t)) && Typed(env, k, Vec(t), Items([v]));
    VecUnfold(env, k, t, [v]);
  }

  lemma VecUnfold(env: Env, k: nat, t: Ty, vs: seq<Val>)
    requires WFEnv(env) && WF(env, k, Vec(t)) && Typed(env, k, Vec(t), Items(vs))
    ensures Needs(env, k, Vec(t), Items(vs)) == VecNeeds(env, t, |vs|, NeedsAll(env, |env.defs|, t, vs))
  {
  }

  lemma BigEnough(env: Env)
    requires WFEnv(env)
    ensures UsizeMax(env) >= 1
  {
    PowValues();
    PowMono(4, env.word);
  }
}
