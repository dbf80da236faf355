/** EncodeAppend: extending an encoded vector without decoding it. */
module Append {
  import opened Bytes
  import opened Types
  import opened Input
  import opened CompactCodec
  import opened CompactWidths
  import opened Encode
  import opened Soundness
  import opened Completeness

  /** The encoding of a vector of elements of type t. */
  function VecBytes(env: Env, t: Ty, xs: seq<Val>): seq<byte>
    requires WFEnv(env) && WF(env, |env.defs|, t) && AllTyped(env, |env.defs|, t, xs) && |xs| <= U32_MAX
  {
    LenPrefix(|xs|) + EncAll(env, |env.defs|, t, xs)
  }

  lemma VecBytesIsEnc(env: Env, k: nat, t: Ty, xs: seq<Val>)
    requires WFEnv(env) && WF(env, k, Vec(t)) && Typed(env, k, Vec(t), Items(xs))
    ensures VecBytes(env, t, xs) == Enc(env, k, Vec(t), Items(xs))
  {
  }

  /** usize as u32. */
  function Truncated(n: nat): nat {
    n % (U32_MAX + 1)
  }

  /** The new count fits, and where its prefix grows the doubled buffer size fits a usize. */
  predicate CanGrow(env: Env, size: nat, count: nat, new_: nat)
    requires count <= U32_MAX
  {
    && new_ <= U32_MAX
    && (|LenPrefix(count)| == |LenPrefix(new_)| || 2 * size <= UsizeMax(env))
  }

  /** What appending means: read the count, write the new one, keep the elements, add the others. */
  function Append(env: Env, t: Ty, vec: seq<byte>, items: seq<Val>): Option<seq<byte>>
    requires WFEnv(env) && WF(env, |env.defs|, t) && AllTyped(env, |env.defs|, t, items)
  {
    var tail := EncAll(env, |env.defs|, t, items);
    if vec == [] then
      if |items| > U32_MAX then None else Some(LenPrefix(|items|) + tail)
    else
      var o := RunCompact(4, Start(vec));
      if o.Fail? then None
      else
        LenSound(Start(vec));
        var n := o.v + Truncated(|items|);
        if CanGrow(env, |vec|, o.v, n) then Some(LenPrefix(n) + o.st.bytes + tail) else None
  }

  /**
   append_or_new_impl: the prefix is overwritten in place while its width stays, the buffer is
   rebuilt when it grows, and the items are encoded behind it one by one.
   */
  method AppendOrNew(env: Env, t: Ty, vec: seq<byte>, items: seq<Val>) returns (r: Option<seq<byte>>)
    requires WFEnv(env) && WF(env, |env.defs|, t) && AllTyped(env, |env.defs|, t, items)
    ensures r == Append(env, t, vec, items)
  {
    hide WFEnv, WF, RunCompact, CompactOf, CompactLen, UsizeMax, Enc, Pow256, Typed, LenPrefix, EncAll, AllTyped;
    var buf := vec;
    if vec == [] {
      if |items| > U32_MAX {
        return None;
      }
      buf := LenPrefix(|items|);
    } else {
      var o := RunCompact(4, Start(vec));
      if o.Fail? {
        return None;
      }
      LenSound(Start(vec));
      var count := o.v;
      var newCount := count + Truncated(|items|);
      if newCount > U32_MAX {
        return None;
      }
      LenLength(count);
      LenLength(newCount);
      var oldSize, newSize := CompactLen(4, count), CompactLen(4, newCount);
      PrefixOff(vec, LenPrefix(count), o.st.bytes);
      if oldSize == newSize {
        buf := Overwrite(vec, LenPrefix(newCount));
      } else {
        if 2 * |vec| > UsizeMax(env) {
          return None;
        }
        buf := LenPrefix(newCount) + vec[oldSize..];
      }
    }
    buf := AppendItems(env, t, buf, items);
    r := Some(buf);
  }

  /** Encodes the items behind what the buffer holds, one by one. */
  method AppendItems(env: Env, t: Ty, head: seq<byte>, items: seq<Val>) returns (buf: seq<byte>)
    requires WFEnv(env) && WF(env, |env.defs|, t) && AllTyped(env, |env.defs|, t, items)
    ensures buf == head + EncAll(env, |env.defs|, t, items)
  {
    hide WFEnv, WF, Typed, Enc;
    buf := head;
    assert EncAll(env, |env.defs|, t, items[..0]) == [];
    hide EncAll;
    for i := 0 to |items|
      invariant AllTyped(env, |env.defs|, t, items[..i])
      invariant buf == head + EncAll(env, |env.defs|, t, items[..i])
    {
      EncAllSnoc(env, t, items, i);
      buf := buf + Enc(env, |env.defs|, t, items[i]);
    }
    assert items[..|items|] == items;
  }

  lemma LenLength(n: nat)
    requires n <= U32_MAX
    ensures n < Pow256(4) && CompactLen(4, n) == |LenPrefix(n)|
  {
    hide CompactLen, CompactOf;
    PowValues();
    CompactLenExact(4, n);
  }

  lemma PrefixOff(vec: seq<byte>, p: seq<byte>, rest: seq<byte>)
    requires vec == p + rest
    ensures vec[|p|..] == rest
  {
  }

  /** copy_from_slice onto the front of the buffer. */
  method Overwrite(vec: seq<byte>, p: seq<byte>) returns (buf: seq<byte>)
    requires |p| <= |vec|
    ensures buf == p + vec[|p|..]
  {
    buf := vec;
    for i := 0 to |p|
      invariant buf == p[..i] + vec[i..]
    {
      buf := buf[i := p[i]];
    }
  }

  lemma EncAllSnoc(env: Env, t: Ty, items: seq<Val>, i: nat)
    requires WFEnv(env) && WF(env, |env.defs|, t) && AllTyped(env, |env.defs|, t, items) && i < |items|
    ensures AllTyped(env, |env.defs|, t, items[..i]) && AllTyped(env, |env.defs|, t, items[..i + 1])
    ensures EncAll(env, |env.defs|, t, items[..i + 1]) ==
      EncAll(env, |env.defs|, t, items[..i]) + Enc(env, |env.defs|, t, items[i])
  {
    hide WFEnv, WF, Typed, Enc;
    var d := |env.defs|;
    var x := items[i];
    assert items[..i + 1] == items[..i] + [x];
    EncAllCat(env, d, t, items[..i], [x]);
    assert [x][1..] == [];
    assert EncAll(env, d, t, [x]) == Enc(env, d, t, x) + EncAll(env, d, t, []);
  }

  /** Encoding a concatenation, such as the two slices of a VecDeque, concatenates the encodings. */
  lemma {:induction false} EncAllCat(env: Env, k: nat, t: Ty, xs: seq<Val>, ys: seq<Val>)
    requires WFEnv(env) && WF(env, k, t) && AllTyped(env, k, t, xs) && AllTyped(env, k, t, ys)
    ensures AllTyped(env, k, t, xs + ys)
    ensures EncAll(env, k, t, xs + ys) == EncAll(env, k, t, xs) + EncAll(env, k, t, ys)
    decreases |xs|
  {
    hide WFEnv, WF, Typed, Enc;
    if xs == [] {
      assert xs + ys == ys;
    } else {
      assert (xs + ys)[1..] == xs[1..] + ys;
      EncAllCat(env, k, t, xs[1..], ys);
      Assoc(Enc(env, k, t, xs[0]), EncAll(env, k, t, xs[1..]), EncAll(env, k, t, ys));
    }
  }

  /** Appending to an encoded vector gives the encoding of the longer vector, and says when it cannot. */
  lemma AppendExtends(env: Env, t: Ty, xs: seq<Val>, ys: seq<Val>)
    requires WFEnv(env) && WF(env, |env.defs|, t) && |xs| <= U32_MAX && |ys| <= U32_MAX
    requires AllTyped(env, |env.defs|, t, xs) && AllTyped(env, |env.defs|, t, ys)
    ensures var vec := VecBytes(env, t, xs);
      && AllTyped(env, |env.defs|, t, xs + ys)
      && (Append(env, t, vec, ys).Some? <==> CanGrow(env, |vec|, |xs|, |xs| + |ys|))
      && (Append(env, t, vec, ys).Some? ==> Append(env, t, vec, ys).value == VecBytes(env, t, xs + ys))
  {
    hide WFEnv, WF, Typed, RunCompact, LenPrefix, EncAll, CanGrow;
    var d, vec := |env.defs|, VecBytes(env, t, xs);
    var body, tail := EncAll(env, d, t, xs), EncAll(env, d, t, ys);
    PrefixNonEmpty(|xs|);
    LenComplete(Start(vec), |xs|, body);
    EncAllCat(env, d, t, xs, ys);
    if CanGrow(env, |vec|, |xs|, |xs| + |ys|) {
      GrowBound(env, |vec|, |xs|, |xs| + |ys|);
      Assoc(LenPrefix(|xs| + |ys|), body, tail);
    }
  }

  lemma PrefixNonEmpty(n: nat)
    requires n <= U32_MAX
    ensures LenPrefix(n) != []
  {
  }

  lemma GrowBound(env: Env, size: nat, count: nat, n: nat)
    requires count <= U32_MAX && CanGrow(env, size, count, n)
    ensures n <= U32_MAX
  {
  }

  /** The count an append writes is the true one exactly when at most u32::MAX items were added. */
  lemma AppendCount(env: Env, t: Ty, xs: seq<Val>, ys: seq<Val>)
    requires WFEnv(env) && WF(env, |env.defs|, t) && |xs| <= U32_MAX
    requires AllTyped(env, |env.defs|, t, xs) && AllTyped(env, |env.defs|, t, ys)
    requires Append(env, t, VecBytes(env, t, xs), ys).Some?
    ensures var o := RunCompact(4, Start(Append(env, t, VecBytes(env, t, xs), ys).value));
      o.Ok? && (o.v == |xs| + |ys| <==> |ys| <= U32_MAX)
  {
    hide WFEnv, WF, Typed, RunCompact, LenPrefix, EncAll, CanGrow;
    var d, vec := |env.defs|, VecBytes(env, t, xs);
    var body, tail := EncAll(env, d, t, xs), EncAll(env, d, t, ys);
    PrefixNonEmpty(|xs|);
    LenComplete(Start(vec), |xs|, body);
    var n := |xs| + Truncated(|ys|);
    GrowBound(env, |vec|, |xs|, n);
    Assoc(LenPrefix(n), body, tail);
    LenComplete(Start(Append(env, t, vec, ys).value), n, body + tail);
  }

  function Flatten(batches: seq<seq<Val>>): seq<Val> {
    if batches == [] then [] else Flatten(batches[..|batches| - 1]) + batches[|batches| - 1]
  }

  /** Appending batch after batch, starting from the empty buffer. */
  function AppendRun(env: Env, t: Ty, batches: seq<seq<Val>>): Option<seq<byte>>
    requires WFEnv(env) && WF(env, |env.defs|, t)
    requires forall i :: 0 <= i < |batches| ==> AllTyped(env, |env.defs|, t, batches[i])
  {
    if batches == [] then Some([])
    else
      var r := AppendRun(env, t, batches[..|batches| - 1]);
      if r.None? then None else Append(env, t, r.value, batches[|batches| - 1])
  }

  /** At every append after the first there is room for the new count and, if it is wider, for its prefix. */
  ghost predicate Room(env: Env, t: Ty, batches: seq<seq<Val>>)
    requires WFEnv(env) && WF(env, |env.defs|, t)
  {
    |batches| <= 1 ||
    var init := batches[..|batches| - 1];
    var all := Flatten(init);
    && Room(env, t, init) && AllTyped(env, |env.defs|, t, all) && |all| <= U32_MAX
    && CanGrow(env, |VecBytes(env, t, all)|, |all|, |Flatten(batches)|)
  }

  /**
   Any run of appends, through every change of the prefix width, ends in the encoding of all
   the items. It fails exactly when, at some append, the count passes u32::MAX or the prefix
   grows on a buffer whose double overflows usize.
   */
  lemma {:induction false} AppendRunExact(env: Env, t: Ty, batches: seq<seq<Val>>)
    requires WFEnv(env) && WF(env, |env.defs|, t) && batches != []
    requires forall i :: 0 <= i < |batches| ==> AllTyped(env, |env.defs|, t, batches[i]) && |batches[i]| <= U32_MAX
    ensures AllTyped(env, |env.defs|, t, Flatten(batches))
    ensures var r, all := AppendRun(env, t, batches), Flatten(batches);
      && (r.Some? <==> Room(env, t, batches))
      && (r.Some? ==> |all| <= U32_MAX && r.value == VecBytes(env, t, all))
      && (|all| <= U32_MAX && 2 * |VecBytes(env, t, all)| <= UsizeMax(env) ==> r.Some?)
    decreases |batches|
  {
    hide WFEnv, WF, AllTyped, Append, VecBytes, UsizeMax, CanGrow;
    var init, last := batches[..|batches| - 1], batches[|batches| - 1];
    if init == [] {
      assert Flatten(batches) == last by {
        assert Flatten(init) == [];
        assert [] + last == last;
      }
      FirstAppend(env, t, last);
    } else {
      AppendRunExact(env, t, init);
      var all := Flatten(init);
      EncAllCat(env, |env.defs|, t, all, last);
      if |all| <= U32_MAX {
        AppendExtends(env, t, all, last);
        LaterAppend(env, t, all, last);
      }
    }
  }

  /** The cast to u32: 2^32 items are appended to an empty vector and the count still says none. */
  lemma CountWraps(env: Env, items: seq<Val>)
    requires WFEnv(env) && |items| == U32_MAX + 1 && forall i :: 0 <= i < |items| ==> items[i] == UnitV
    ensures AllTyped(env, |env.defs|, Unit, []) && VecBytes(env, Unit, []) == [0]
    ensures AllTyped(env, |env.defs|, Unit, items) && Append(env, Unit, [0], items) == Some([0])
  {
    hide WFEnv, UsizeMax, RunCompact, CompactLen;
    Units(env, items);
    ZeroPrefix();
    hide EncAll, LenPrefix, AllTyped;
    LenComplete(Start([0]), 0, []);
  }

  lemma ZeroPrefix()
    ensures LenPrefix(0) == [0]
  {
  }

  lemma {:induction false} Units(env: Env, us: seq<Val>)
    requires WFEnv(env) && forall i :: 0 <= i < |us| ==> us[i] == UnitV
    ensures AllTyped(env, |env.defs|, Unit, us) && EncAll(env, |env.defs|, Unit, us) == []
    decreases |us|
  {
    hide WFEnv;
    if us != [] {
      Units(env, us[1..]);
    }
  }

  lemma FirstAppend(env: Env, t: Ty, xs: seq<Val>)
    requires WFEnv(env) && WF(env, |env.defs|, t) && AllTyped(env, |env.defs|, t, xs) && |xs| <= U32_MAX
    ensures Append(env, t, [], xs) == Some(VecBytes(env, t, xs))
  {
  }

  lemma LaterAppend(env: Env, t: Ty, xs: seq<Val>, ys: seq<Val>)
    requires WFEnv(env) && WF(env, |env.defs|, t) && |xs| <= U32_MAX
    requires AllTyped(env, |env.defs|, t, xs) && AllTyped(env, |env.defs|, t, ys)
    requires AllTyped(env, |env.defs|, t, xs + ys)
    ensures |xs| + |ys| <= U32_MAX ==> |VecBytes(env, t, xs)| <= |VecBytes(env, t, xs + ys)|
    ensures |xs| + |ys| <= U32_MAX && 2 * |VecBytes(env, t, xs)| <= UsizeMax(env) ==>
      CanGrow(env, |VecBytes(env, t, xs)|, |xs|, |xs| + |ys|)
    ensures CanGrow(env, |VecBytes(env, t, xs)|, |xs|, |xs| + |ys|) ==> |xs| + |ys| <= U32_MAX
  {
    hide WFEnv, WF, AllTyped, EncAll, UsizeMax, CompactLen, LenPrefix;
    EncAllCat(env, |env.defs|, t, xs, ys);
    if |xs| + |ys| <= U32_MAX {
      LenLength(|xs|);
      LenLength(|xs| + |ys|);
      CompactLenMonotone(4, |xs|, |xs| + |ys|);
    }
  }
}
