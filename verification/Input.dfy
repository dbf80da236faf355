/**
 The state of an input and the operations a decoder may perform on it: a slice (or a
 BytesCursor) behind CountedInput, MemTrackingInput and DepthTrackingInput, in this order.
 */
module Input {
  import opened Bytes
  import opened Types

  datatype St = St(
    bytes: seq<byte>,     // what the slice still holds
    depth: nat,           // DepthTrackingInput.depth
    used: nat,            // MemTrackingInput.used_mem
    count: nat            // CountedInput.counter
  )

  /** A decoding step leaves a state behind whether or not it succeeds. */
  datatype Out<+T> = Ok(st: St, v: T) | Fail(st: St) {
    predicate IsFailure() {
      Fail?
    }

    function PropagateFailure<U>(): Out<U>
      requires Fail?
    {
      Fail(st)
    }

    function Extract(): (St, T)
      requires Ok?
    {
      (st, v)
    }
  }

  function Start(b: seq<byte>): St {
    St(b, 0, 0, 0)
  }

  function Read(st: St, n: nat): Out<seq<byte>> {
    if n > |st.bytes| then Fail(st)
    else Ok(st.(bytes := st.bytes[n..], count := Min(U64_MAX, st.count + n)), st.bytes[..n])
  }

  function ReadByte(st: St): Out<byte> {
    if st.bytes == [] then Fail(st)
    else Ok(st.(bytes := st.bytes[1..], count := Min(U64_MAX, st.count + 1)), st.bytes[0])
  }

  /** n calls of read_byte. */
  function ReadEach(st: St, n: nat): (o: Out<seq<byte>>)
    ensures o.st.depth == st.depth && o.st.used == st.used
    ensures o.Ok? ==> |o.v| == n
    decreases n
  {
    if n == 0 then Ok(st, [])
    else
      var (st1, b) :- ReadByte(st);
      var (st2, bs) :- ReadEach(st1, n - 1);
      Ok(st2, [b] + bs)
  }

  function Descend(cfg: Cfg, st: St): Out<()> {
    var st1 := st.(depth := st.depth + 1);
    if st1.depth > cfg.maxDepth then Fail(st1) else Ok(st1, ())
  }

  function Ascend(st: St): St
    requires st.depth > 0
  {
    st.(depth := st.depth - 1)
  }

  /** on_before_alloc_mem. */
  function Alloc(env: Env, cfg: Cfg, st: St, size: nat): Out<()> {
    if cfg.memLimit.None? then Ok(st, ())
    else
      var st1 := st.(used := Min(UsizeMax(env), st.used + size));
      if st1.used >= cfg.memLimit.value then Fail(st1) else Ok(st1, ())
  }

  lemma AllocKeepsDepth(env: Env, cfg: Cfg, st: St, size: nat)
    ensures Alloc(env, cfg, st, size).st.depth == st.depth
  {
  }

  /** What decoding a value asks of the limits: open descend_ref calls, and heap bytes. */
  datatype Demand = Demand(nest: nat, asks: bool, bytes: nat)

  const NOTHING := Demand(0, false, 0)

  function Join(x: Demand, y: Demand): Demand {
    Demand(Max(x.nest, y.nest), x.asks || y.asks, x.bytes + y.bytes)
  }

  lemma JoinAssoc(x: Demand, y: Demand, z: Demand)
    ensures Join(Join(x, y), z) == Join(x, Join(y, z))
  {
  }

  lemma JoinNothing(x: Demand)
    ensures Join(NOTHING, x) == x
  {
  }

  function Under(x: Demand): Demand {
    x.(nest := x.nest + 1)
  }

  function Heap(asks: bool, bytes: nat): Demand {
    Demand(0, asks, bytes)
  }

  /** The limits leave room for a demand; heap bytes are summed without bound. */
  predicate Fits(cfg: Cfg, st: St, d: Demand) {
    && st.depth + d.nest <= cfg.maxDepth
    && (cfg.memLimit.Some? && d.asks ==> st.used + d.bytes < cfg.memLimit.value)
  }

  function Charged(cfg: Cfg, used: nat, d: Demand): nat {
    if cfg.memLimit.Some? then used + d.bytes else used
  }

  /** Where a successful step ends, up to the byte counter. */
  predicate Arrives(cfg: Cfg, st: St, d: Demand, rest: seq<byte>, st': St) {
    st'.bytes == rest && st'.depth == st.depth && st'.used == Charged(cfg, st.used, d)
  }

  /** What every step keeps, successful or not: bytes come off the front and are counted. */
  ghost predicate Consumes(st: St, st': St) {
    && |st'.bytes| <= |st.bytes|
    && st'.bytes == st.bytes[|st.bytes| - |st'.bytes|..]
    && st'.count == Min(U64_MAX, st.count + (|st.bytes| - |st'.bytes|))
    && st.used <= st'.used
  }

  lemma ConsumesTrans(a: St, b: St, c: St)
    requires Consumes(a, b) && Consumes(b, c)
    ensures Consumes(a, c)
  {
    assert c.bytes == a.bytes[|a.bytes| - |c.bytes|..];
  }

  lemma {:induction false} ReadEachConsumes(st: St, n: nat)
    requires st.count <= U64_MAX
    ensures Consumes(st, ReadEach(st, n).st)
    decreases n
  {
    if n > 0 && ReadByte(st).Ok? {
      var st1 := ReadByte(st).st;
      ReadEachConsumes(st1, n - 1);
      ConsumesTrans(st, st1, ReadEach(st, n).st);
    }
  }

  /** Reading byte by byte succeeds exactly when one bulk read does, with the same bytes. */
  lemma {:induction false} ReadEachIsRead(st: St, n: nat)
    ensures ReadEach(st, n).Ok? <==> n <= |st.bytes|
    ensures n <= |st.bytes| ==>
      ReadEach(st, n).v == st.bytes[..n] && ReadEach(st, n).st.bytes == st.bytes[n..]
    decreases n
  {
    if n > 0 && st.bytes != [] {
      var st1 := ReadByte(st).st;
      ReadEachIsRead(st1, n - 1);
      if n <= |st.bytes| {
        assert st.bytes[..n] == [st.bytes[0]] + st.bytes[1..][..n - 1];
        assert st.bytes[1..][n - 1..] == st.bytes[n..];
      }
    }
  }
}
