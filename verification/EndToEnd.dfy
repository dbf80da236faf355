/** The entry points, from bytes to a value. */
module EndToEnd {
  import opened Bytes
  import opened Types
  import opened Input
  import opened Decode
  import opened Machine
  import opened Theorems
  import opened Collect
  import opened Built

  /** The stack of inputs over the given bytes. */
  method Open(env: Env, cfg: Cfg, data: seq<byte>) returns (input: DepthTrackingInput)
    ensures fresh(input.Parts()) && input.For(env, cfg) && input.State() == Start(data)
  {
    hide UsizeMax;
    var bytes := new ByteInput(data, cfg.knownLen, cfg.cursor);
    var counted := new CountedInput(bytes);
    var tracked := new MemTrackingInput(counted, cfg.memLimit, UsizeMax(env));
    input := new DepthTrackingInput(tracked, cfg.maxDepth);
  }

  /**
   decode_all with a depth limit and a memory limit: it returns what the entries listed in the
   input collect to, and fails only if the input lists no value or the limits have no room for
   it. For types without sets and maps, the input is the encoding of the value returned.
   */
  method DecodeAllWithLimits(env: Env, ord: Orders, cfg: Cfg, k: nat, ty: Ty, data: seq<byte>)
    returns (r: Option<Val>)
    requires WFEnv(env) && WFCfg(env, cfg) && WF(env, k, ty) && !cfg.cursor
    ensures r.Some? ==> exists v :: Encodes(env, cfg, k, ty, data, v) && Norm(env, ord, k, ty, v) == r.value
    ensures r.Some? && SetFree(env, ty) ==> Encodes(env, cfg, k, ty, data, r.value)
    ensures r.None? ==> forall v :: !Encodes(env, cfg, k, ty, data, v)
  {
    hide WFEnv, WF, Run, Norm, Encodes, SetFree, UsizeMax;
    var input := Open(env, cfg, data);
    r := DecodeValue(env, ord, cfg, input, k, ty);
    var left := input.input.input.input.window;
    if r.Some? && left.position < |left.bytes| {
      r := None;
    }
    assert r == DecodeAll(env, ord, cfg, k, ty, data);
    if r.Some? {
      DecodeAllExact(env, ord, cfg, k, ty, data, r.value);
      if SetFree(env, ty) {
        SetFreeDecodeAll(env, ord, cfg, k, ty, data, r.value);
      }
    } else {
      forall v ensures !Encodes(env, cfg, k, ty, data, v) {
        DecodeAllExact(env, ord, cfg, k, ty, data, Norm(env, ord, k, ty, v));
      }
    }
  }

  /** A BytesCursor; depth keeps recursive types finite. */
  function CursorOver(depth: nat): Cfg {
    Cfg(true, true, depth, None)
  }

  /**
   decode_from_bytes: every type decodes from a BytesCursor, whatever parts of the buffer it hands
   out on the way, to what it decodes to from a slice, and the buffer is left where the slice is.
   */
  method DecodeFromBytes(env: Env, ord: Orders, depth: nat, k: nat, ty: Ty, data: seq<byte>)
    returns (r: Option<Val>, left: seq<byte>)
    requires WFEnv(env) && WF(env, k, ty)
    ensures var o := Run(env, Plain(depth), k, ty, Start(data));
      && (r.Some? <==> o.Ok?)
      && (r.Some? ==> r.value == Norm(env, ord, k, ty, o.v) && left == o.st.bytes)
  {
    hide WFEnv, WF, Run, Norm, UsizeMax;
    var input := Open(env, CursorOver(depth), data);
    r := DecodeValue(env, ord, CursorOver(depth), input, k, ty);
    var window := input.input.input.input.window;
    left := window.bytes[window.position..];
    InputsAgree(env, CursorOver(depth), Plain(depth), k, ty, data);
  }
}
