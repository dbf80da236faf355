/**
 The inputs as objects, each wrapper forwarding to the input it wraps, and the decoders as
 the loops that drive them. Every method is tied to the pure step it refines, failures included.
 */
module Machine {
  import opened Bytes
  import opened Types
  import opened Input
  import opened CompactCodec
  import opened Encode
  import opened Decode
  import opened Collect
  import opened Reserve

  /** A method's result and the state it leaves are those of a pure step. */
  ghost predicate Does<T>(r: Option<T>, st: St, o: Out<T>) {
    o.st == st && (r.Some? <==> o.Ok?) && (r.Some? ==> r.value == o.v)
  }

  /** A buffer and how far it has been read. */
  datatype Buffer = Buffer(bytes: seq<byte>, position: nat)

  type Window = b: Buffer | b.position <= |b.bytes| witness Buffer([], 0)

  /**
   The innermost input: a slice, a reader whose remaining_len is None, or a BytesCursor. A slice
   moves its start when it is read, a cursor its position.
   */
  class ByteInput {
    var window: Window
    const known: bool
    const cursor: bool

    /** The slice this input stands for. */
    ghost function Left(): seq<byte>
      reads this
    {
      window.bytes[window.position..]
    }

    constructor (data: seq<byte>, known: bool, cursor: bool)
      ensures window == Buffer(data, 0) && Left() == data && this.known == known && this.cursor == cursor
    {
      window, this.known, this.cursor := Buffer(data, 0), known, cursor;
      new;
      assert data[0..] == data;
    }

    method RemainingLen() returns (r: Option<nat>)
      ensures r == if known then Some(|Left()|) else None
    {
      r := if known then Some(|window.bytes| - window.position) else None;
    }

    method Read(n: nat) returns (r: Option<seq<byte>>)
      modifies this
      ensures n > |old(Left())| ==> r.None? && window == old(window)
      ensures n <= |old(Left())| ==> r == Some(old(Left())[..n]) && Left() == old(Left())[n..]
      ensures cursor ==> window.bytes == old(window.bytes)
    {
      var bytes, position := window.bytes, window.position;
      if n > |bytes| - position {
        return None;
      }
      r := Some(bytes[position..position + n]);
      assert bytes[position..][..n] == bytes[position..position + n];
      assert bytes[position..][n..] == bytes[position + n..];
      if cursor {
        window := Buffer(bytes, position + n);
      } else {
        window := Buffer(bytes[position + n..], 0);
        assert bytes[position + n..][0..] == bytes[position + n..];
      }
    }

    /** Buf::advance to the position: the buffer now starts where reading goes on. */
    method Advance()
      modifies this
      ensures window.position == 0 && window.bytes == old(Left()) && Left() == old(Left())
    {
      window := Buffer(window.bytes[window.position..], 0);
      assert window.bytes[0..] == window.bytes;
    }

    /** Bytes::split_to: the first n bytes are handed out, not copied; the buffer keeps the others. */
    method SplitTo(n: nat) returns (bs: seq<byte>)
      requires window.position == 0 && n <= |window.bytes|
      modifies this
      ensures bs == old(window.bytes)[..n] && window.position == 0 && Left() == old(window.bytes)[n..]
    {
      var bytes := window.bytes;
      bs := bytes[..n];
      window := Buffer(bytes[n..], 0);
      assert bytes[n..][0..] == bytes[n..];
    }
  }

  class CountedInput {
    const input: ByteInput
    var counter: nat

    constructor (input: ByteInput)
      ensures this.input == input && counter == 0
    {
      this.input, this.counter := input, 0;
    }

    method Read(n: nat) returns (r: Option<seq<byte>>)
      modifies this, input
      ensures n > |old(input.Left())| ==> r.None? && input.Left() == old(input.Left()) && counter == old(counter)
      ensures n <= |old(input.Left())| ==>
        && r == Some(old(input.Left())[..n]) && input.Left() == old(input.Left())[n..]
        && counter == Min(U64_MAX, old(counter) + n)
    {
      r := input.Read(n);
      if r.Some? {
        counter := Min(U64_MAX, counter + n);
      }
    }
  }

  class MemTrackingInput {
    const input: CountedInput
    const memLimit: Option<nat>     // None stands for an input that is not wrapped
    const usizeMax: nat
    var usedMem: nat

    constructor (input: CountedInput, memLimit: Option<nat>, usizeMax: nat)
      ensures this.input == input && this.memLimit == memLimit && this.usizeMax == usizeMax
      ensures usedMem == 0
    {
      this.input, this.memLimit, this.usizeMax, usedMem := input, memLimit, usizeMax, 0;
    }

    method OnBeforeAllocMem(size: nat) returns (ok: bool)
      modifies this
      ensures memLimit.None? ==> ok && usedMem == old(usedMem)
      ensures memLimit.Some? ==>
        usedMem == Min(usizeMax, old(usedMem) + size) && ok == (usedMem < memLimit.value)
    {
      if memLimit.None? {
        return true;
      }
      usedMem := Min(usizeMax, usedMem + size);
      ok := usedMem < memLimit.value;
    }
  }

  class DepthTrackingInput {
    const input: MemTrackingInput
    const maxDepth: nat
    var depth: nat

    constructor (input: MemTrackingInput, maxDepth: nat)
      ensures this.input == input && this.maxDepth == maxDepth && depth == 0
    {
      this.input, this.maxDepth, depth := input, maxDepth, 0;
    }

    /** This wrapper and the inputs under it. */
    ghost function Parts(): set<object> {
      {this, input, input.input, input.input.input}
    }

    ghost function State(): St
      reads this, input, input.input, input.input.input
    {
      St(input.input.input.Left(), depth, input.usedMem, input.input.counter)
    }

    /** The stack was built for this target and these limits. */
    ghost predicate For(env: Env, cfg: Cfg) {
      && maxDepth == cfg.maxDepth && input.memLimit == cfg.memLimit && input.usizeMax == UsizeMax(env)
      && input.input.input.known == cfg.knownLen && input.input.input.cursor == cfg.cursor
    }

    method RemainingLen() returns (r: Option<nat>)
      ensures r == if input.input.input.known then Some(|State().bytes|) else None
    {
      r := input.input.input.RemainingLen();
    }

    method Read(n: nat) returns (r: Option<seq<byte>>)
      modifies Parts()
      ensures Does(r, State(), Input.Read(old(State()), n))
    {
      r := input.input.Read(n);
    }

    method ReadByte() returns (r: Option<byte>)
      modifies Parts()
      ensures Does(r, State(), Input.ReadByte(old(State())))
    {
      var bs := input.input.Read(1);
      r := if bs.Some? then Some(bs.value[0]) else None;
    }

    method DescendRef(ghost cfg: Cfg) returns (ok: bool)
      requires cfg.maxDepth == maxDepth
      modifies Parts()
      ensures Does(if ok then Some(()) else None, State(), Descend(cfg, old(State())))
    {
      depth := depth + 1;
      ok := depth <= maxDepth;
    }

    /** depth never underflows: every decoder below calls this with a level open. */
    method AscendRef()
      requires depth > 0
      modifies Parts()
      ensures State() == Ascend(old(State()))
    {
      depth := depth - 1;
    }

    method OnBeforeAllocMem(ghost env: Env, ghost cfg: Cfg, size: nat) returns (ok: bool)
      requires For(env, cfg)
      modifies Parts()
      ensures Does(if ok then Some(()) else None, State(), Alloc(env, cfg, old(State()), size))
    {
      ok := input.OnBeforeAllocMem(size);
    }

    /**
     scale_internal_decode_bytes of a BytesCursor, its length read. No wrapper forwards it, so the
     cursor stands alone; the counter then only keeps the model's account of bytes consumed.
     */
    method SplitBytes(ghost env: Env, ghost cfg: Cfg, len: nat) returns (r: Option<seq<byte>>)
      requires WFEnv(env) && For(env, cfg) && cfg.cursor
      modifies Parts()
      ensures Does(r, State(), RunBlob(env, cfg, len, old(State())))
    {
      hide WFEnv, UsizeMax;
      var cursor := input.input.input;
      cursor.Advance();
      if len > |cursor.window.bytes| {
        return None;
      }
      var ok := input.OnBeforeAllocMem(len);
      if !ok {
        return None;
      }
      var bs := cursor.SplitTo(len);
      input.input.counter := Min(U64_MAX, input.input.counter + len);
      r := Some(bs);
    }
  }

  lemma {:induction false} UnLESnoc(bs: seq<byte>, b: byte)
    ensures UnLE(bs + [b]) == UnLE(bs) + b * Pow256(|bs|)
    decreases |bs|
  {
    if bs == [] {
      assert [b][1..] == [];
      assert UnLE([b]) == b + 256 * UnLE([]);
    } else {
      UnLESnoc(bs[1..], b);
      assert (bs + [b])[1..] == bs[1..] + [b];
      var p, q := Pow256(|bs|), Pow256(|bs| - 1);
      assert b * p == 256 * (b * q);
    }
  }

  /** What is still to be read, appended to what has been. */
  function After<T>(done: seq<T>, o: Out<seq<T>>): Out<seq<T>> {
    if o.Fail? then Fail(o.st) else Ok(o.st, done + o.v)
  }

  /** The byte-assembling loop of the u64 and u128 decoders. */
  method AssembleBytes(input: DepthTrackingInput, n: nat) returns (r: Option<nat>)
    modifies input.Parts()
    ensures var o := ReadEach(old(input.State()), n);
      && input.State() == o.st && (r.Some? <==> o.Ok?) && (r.Some? ==> r.value == UnLE(o.v))
  {
    hide UnLE, Pow256, Or;
    var res: nat, scale: nat := 0, 1;
    ghost var done: seq<byte> := [];
    EmptyNumber();
    AfterNil(ReadEach(input.State(), n));
    for i := 0 to n
      invariant |done| == i && res == UnLE(done) < Pow256(i) && scale == Pow256(i)
      invariant ReadEach(old(input.State()), n) == After(done, ReadEach(input.State(), n - i))
    {
      ghost var st := input.State();
      var b := input.ReadByte();
      if b.None? {
        return None;
      }
      UnLESnoc(done, b.value);
      UnLEBound(done + [b.value]);
      OrByte(res, b.value, i);
      assert ReadEach(st, n - i) == After([b.value], ReadEach(input.State(), n - i - 1));
      AfterAfter(done, [b.value], ReadEach(input.State(), n - i - 1));
      res := Or(res, b.value * scale);
      scale := 256 * scale;
      PowStep(i);
      done := done + [b.value];
    }
    AfterEnd(done, input.State());
    r := Some(res);
  }

  lemma EmptyNumber()
    ensures UnLE([]) == 0 && Pow256(0) == 1
  {
  }

  lemma PowStep(i: nat)
    ensures Pow256(i + 1) == 256 * Pow256(i)
  {
  }

  lemma AfterNil<T>(o: Out<seq<T>>)
    ensures After([], o) == o
  {
    if o.Ok? {
      assert [] + o.v == o.v;
    }
  }

  lemma AfterEnd<T>(done: seq<T>, st: St)
    ensures After(done, Ok(st, [])) == Ok(st, done)
  {
    assert done + [] == done;
  }

  lemma AfterAfter<T>(a: seq<T>, b: seq<T>, o: Out<seq<T>>)
    ensures After(a, After(b, o)) == After(a + b, o)
  {
    if o.Ok? {
      assert a + (b + o.v) == a + b + o.v;
    }
  }

  /** PrefixInput: the byte already read is handed back as the first of the next read. */
  class PrefixInput {
    var prefix: Option<byte>
    const input: DepthTrackingInput

    constructor (prefix: byte, input: DepthTrackingInput)
      ensures this.prefix == Some(prefix) && this.input == input
    {
      this.prefix, this.input := Some(prefix), input;
    }

    /** Reading n bytes takes the prefix, if it is still there, and the rest from the input. */
    method Read(n: nat) returns (r: Option<seq<byte>>)
      modifies this, input.Parts()
      ensures n == 0 ==> r == Some([]) && prefix == old(prefix) && input.State() == old(input.State())
      ensures n > 0 ==> prefix.None?
      ensures n > 0 && old(prefix).None? ==> Does(r, input.State(), Input.Read(old(input.State()), n))
      ensures n > 0 && old(prefix).Some? ==>
        var o := Input.Read(old(input.State()), n - 1);
        && input.State() == o.st && (r.Some? <==> o.Ok?)
        && (r.Some? ==> r.value == [old(prefix).value] + o.v)
    {
      if n == 0 {
        return Some([]);
      }
      match prefix {
        case Some(b) =>
          prefix := None;
          var rest := input.Read(n - 1);
          r := if rest.Some? then Some([b] + rest.value) else None;
        case None =>
          r := input.Read(n);
      }
    }
  }

  method DecodeWord(input: DepthTrackingInput, p: byte, more: nat, low: nat, high: nat) returns (r: Option<nat>)
    modifies input.Parts()
    ensures Does(r, input.State(), RunWord(p, more, low, high, old(input.State())))
  {
    hide UnLE;
    var prefixed := new PrefixInput(p, input);
    var bs := prefixed.Read(1 + more);
    if bs.None? {
      return None;
    }
    var x := UnLE(bs.value) / 4;
    r := if low < x <= high then Some(x) else None;
  }

  method DecodeBig(input: DepthTrackingInput, w: nat, b: nat) returns (r: Option<nat>)
    requires IsWidth(w) && b >= 4
    modifies input.Parts()
    ensures Does(r, input.State(), RunBig(w, b, old(input.State())))
  {
    hide UnLE, Pow256, Floor;
    if w <= 2 || b > w {
      return None;
    }
    if b == 4 || b == 8 || b == 16 {
      var bs := input.Read(b);
      if bs.None? {
        return None;
      }
      var x := UnLE(bs.value);
      r := if x > (if b == 4 then MAX30 else (Pow256(b) - 1) / 256) then Some(x) else None;
    } else {
      var x := AssembleBytes(input, b);
      r := if x.Some? && x.value > Floor(w, b) then x else None;
    }
  }

  /** Compact<uW>::decode. */
  method DecodeCompact(input: DepthTrackingInput, w: nat) returns (r: Option<nat>)
    requires IsWidth(w)
    modifies input.Parts()
    ensures Does(r, input.State(), RunCompact(w, old(input.State())))
  {
    hide RunWord, RunBig, IsWidth;
    var p := input.ReadByte();
    if p.None? {
      return None;
    }
    if p.value % 4 == 0 {
      r := Some(p.value / 4);
    } else if p.value % 4 == 1 {
      r := DecodeWord(input, p.value, 1, MAX6, if w == 1 then 255 else MAX14);
    } else if p.value % 4 == 2 {
      if w == 1 {
        return None;
      }
      r := DecodeWord(input, p.value, 3, MAX14, if w == 2 then 65535 else MAX30);
    } else {
      r := DecodeBig(input, w, p.value / 4 + 4);
    }
  }

  /** decode_vec_chunked over read_vec_from_u8s: len primitives of w bytes, vec seen as its bytes. */
  method DecodeBulkChunks(
    ghost env: Env, ghost cfg: Cfg, input: DepthTrackingInput, usizeMax: nat, w: nat, len: nat, vec: GrowVec<byte>)
    returns (ok: bool)
    requires WFEnv(env) && IsWidth(w) && input.For(env, cfg) && usizeMax == UsizeMax(env)
    requires vec.items == [] && vec.size == 1 && vec.Bounded() && vec !in input.Parts()
    modifies input.Parts(), vec
    ensures Does(if ok then Some(vec.items) else None, input.State(), RunBulkChunks(env, cfg, w, len, old(input.State())))
    ensures vec.items == BulkBefore(env, cfg, w, len, old(input.State())) && vec.Bounded()
  {
    hide WFEnv, UsizeMax, Alloc, Pow256, Input.Read, RunBulkChunks, BulkBefore, GrowVec.Bounded, BulkFill;
    var chunkLen := if w == 0 then usizeMax else MAX_PREALLOCATION / w;
    var undecoded: nat := len;
    BulkFillMeans(env, cfg, w, len, input.State());
    while undecoded > 0
      invariant undecoded <= len && vec.Bounded()
      invariant BulkFill(env, cfg, w, len, old(input.State()), []) ==
        BulkFill(env, cfg, w, undecoded, input.State(), vec.items)
    {
      var c := Min(chunkLen, undecoded);
      WidthRange(w);
      BulkStep(env, cfg, w, undecoded, c, input.State(), vec.items);
      var granted := input.OnBeforeAllocMem(env, cfg, Min(usizeMax, c * w));
      if !granted {
        return false;
      }
      ReadLength(input.State(), c * w);
      ChunkFits(w, c);
      vec.ReserveExact(c * w);
      var bs := input.Read(c * w);
      if bs.None? {
        return false;
      }
      vec.Extend(bs.value);
      undecoded := undecoded - c;
    }
    BulkNone(env, cfg, w, input.State(), vec.items);
    ok := true;
  }

  /** How reading len primitives behind xs ends: the outcome, the input, the bytes held. */
  ghost function BulkFill(env: Env, cfg: Cfg, w: nat, len: nat, st: St, xs: seq<byte>): (bool, St, seq<byte>)
    requires WFEnv(env) && IsWidth(w)
  {
    var o := RunBulkChunks(env, cfg, w, len, st);
    (o.Ok?, o.st, xs + BulkBefore(env, cfg, w, len, st))
  }

  lemma BulkFillMeans(env: Env, cfg: Cfg, w: nat, len: nat, st: St)
    requires WFEnv(env) && IsWidth(w)
    ensures var f, o := BulkFill(env, cfg, w, len, st, []), RunBulkChunks(env, cfg, w, len, st);
      f.0 == o.Ok? && f.1 == o.st && f.2 == BulkBefore(env, cfg, w, len, st)
  {
    hide RunBulkChunks, BulkBefore;
    var bs := BulkBefore(env, cfg, w, len, st);
    assert [] + bs == bs;
  }

  lemma BulkNone(env: Env, cfg: Cfg, w: nat, st: St, xs: seq<byte>)
    requires WFEnv(env) && IsWidth(w)
    ensures BulkFill(env, cfg, w, 0, st, xs) == (true, st, xs)
  {
    assert xs + [] == xs;
  }

  /** One chunk of primitives, then the others. */
  lemma BulkStep(env: Env, cfg: Cfg, w: nat, len: nat, c: nat, st: St, xs: seq<byte>)
    requires WFEnv(env) && IsWidth(w) && len > 0 && c == Min(ChunkLen(env, w), len)
    ensures c > 0
    ensures var a := Alloc(env, cfg, st, Min(UsizeMax(env), c * w));
      && (a.Fail? ==> BulkFill(env, cfg, w, len, st, xs) == (false, a.st, xs))
      && (a.Ok? ==>
          var o := Input.Read(a.st, c * w);
          && (o.Fail? ==> BulkFill(env, cfg, w, len, st, xs) == (false, o.st, xs))
          && (o.Ok? ==> BulkFill(env, cfg, w, len, st, xs) == BulkFill(env, cfg, w, len - c, o.st, xs + o.v)))
  {
    hide WFEnv, UsizeMax, Alloc, Pow256, Input.Read;
    WidthRange(w);
    ChunkLenPositive(env, w);
    assert xs + [] == xs;
    var a := Alloc(env, cfg, st, Min(UsizeMax(env), c * w));
    if a.Ok? {
      var o := Input.Read(a.st, c * w);
      if o.Ok? {
        Assoc(xs, o.v, BulkBefore(env, cfg, w, len - c, o.st));
      }
    }
  }

  lemma ReadLength(st: St, n: nat)
    ensures Input.Read(st, n).Ok? ==> |Input.Read(st, n).v| == n
  {
  }

  /** A chunk is no larger than MAX_PREALLOCATION. */
  lemma ChunkFits(size: nat, c: nat)
    requires size > 0 ==> c <= MAX_PREALLOCATION / size
    ensures c * size <= MAX_PREALLOCATION
  {
    if size > 0 {
      var q := MAX_PREALLOCATION / size;
      assert q * size <= MAX_PREALLOCATION;
      MulMono(c, q, size);
    }
  }

  /** read_vec_from_u8s. */
  method DecodeBulk(ghost env: Env, ghost cfg: Cfg, input: DepthTrackingInput, usizeMax: nat, w: nat, len: nat)
    returns (r: Option<seq<byte>>)
    requires WFEnv(env) && IsWidth(w) && input.For(env, cfg) && usizeMax == UsizeMax(env)
    modifies input.Parts()
    ensures Does(r, input.State(), RunBulk(env, cfg, w, len, old(input.State())))
  {
    hide WFEnv, UsizeMax, Pow256, RunBulkChunks, BulkBefore, GrowVec.Bounded, IsWidth;
    var byteLen := len * w;
    if byteLen > usizeMax {
      return None;
    }
    var left := input.RemainingLen();
    if left.Some? && left.value < byteLen {
      return None;
    }
    var vec := new GrowVec<byte>(1);
    var ok := DecodeBulkChunks(env, cfg, input, usizeMax, w, len, vec);
    r := if ok then Some(vec.items) else None;
  }

  /** The outcome with its sets and maps collected: what the decoder returns. */
  function Collected(env: Env, ord: Orders, k: nat, ty: Ty, o: Out<Val>): Out<Val> {
    if o.Fail? then o else Ok(o.st, Norm(env, ord, k, ty, o.v))
  }

  function CollectedAll(env: Env, ord: Orders, k: nat, t: Ty, o: Out<seq<Val>>): Out<seq<Val>> {
    if o.Fail? then o else Ok(o.st, NormAll(env, ord, k, t, o.v))
  }

  /** n elements, one decode call each. */
  method DecodeItems(env: Env, ord: Orders, cfg: Cfg, input: DepthTrackingInput, k: nat, t: Ty, n: nat)
    returns (r: Option<seq<Val>>)
    requires WFEnv(env) && WF(env, k, t) && input.For(env, cfg) && input.depth <= cfg.maxDepth
    modifies input.Parts()
    ensures Does(r, input.State(), CollectedAll(env, ord, k, t, RunItems(env, cfg, k, t, n, old(input.State()))))
    decreases cfg.maxDepth - input.depth, k, t, n, 0
  {
    hide WFEnv, WF, Run, RunItems, CollectedAll, DepthTrackingInput.For;
    var items: seq<Val> := [];
    ghost var st0 := input.State();
    AfterNil(CollectedAll(env, ord, k, t, RunItems(env, cfg, k, t, n, st0)));
    for i := 0 to n
      invariant input.depth == old(input.depth) && |items| == i
      invariant CollectedAll(env, ord, k, t, RunItems(env, cfg, k, t, n, st0)) ==
        After(items, CollectedAll(env, ord, k, t, RunItems(env, cfg, k, t, n - i, input.State())))
    {
      ghost var st := input.State();
      ItemStep(env, ord, cfg, k, t, n - i, st);
      var x := DecodeValue(env, ord, cfg, input, k, t);
      if x.None? {
        return None;
      }
      AfterAfter(items, [x.value], CollectedAll(env, ord, k, t, RunItems(env, cfg, k, t, n - i - 1, input.State())));
      items := items + [x.value];
    }
    NoItems(env, ord, cfg, k, t, input.State());
    AfterEnd(items, input.State());
    r := Some(items);
  }

  /** One element, then the others; what was decoded before a failure likewise. */
  lemma ItemStep(env: Env, ord: Orders, cfg: Cfg, k: nat, t: Ty, n: nat, st: St)
    requires WFEnv(env) && WF(env, k, t) && st.depth <= cfg.maxDepth && n > 0
    ensures var o := Collected(env, ord, k, t, Run(env, cfg, k, t, st));
      && (o.Ok? ==> o.st.depth == st.depth)
      && CollectedAll(env, ord, k, t, RunItems(env, cfg, k, t, n, st)) == (
        if o.Fail? then Fail(o.st)
        else After([o.v], CollectedAll(env, ord, k, t, RunItems(env, cfg, k, t, n - 1, o.st))))
      && NormAll(env, ord, k, t, DecodedBefore(env, cfg, k, t, n, st)) == (
        if o.Fail? then []
        else [o.v] + NormAll(env, ord, k, t, DecodedBefore(env, cfg, k, t, n - 1, o.st)))
  {
    hide WFEnv, WF, Run, Norm;
  }

  /** How pushing n elements behind xs ends: the outcome, the input, the elements held. */
  ghost function Fill(env: Env, ord: Orders, cfg: Cfg, t: Ty, n: nat, st: St, xs: seq<Val>): (bool, St, seq<Val>)
    requires WFEnv(env) && WF(env, |env.defs|, t) && st.depth <= cfg.maxDepth
  {
    var o := RunItems(env, cfg, |env.defs|, t, n, st);
    (o.Ok?, o.st, xs + NormAll(env, ord, |env.defs|, t, DecodedBefore(env, cfg, |env.defs|, t, n, st)))
  }

  lemma FillStep(env: Env, ord: Orders, cfg: Cfg, t: Ty, n: nat, st: St, xs: seq<Val>)
    requires WFEnv(env) && WF(env, |env.defs|, t) && st.depth <= cfg.maxDepth && n > 0
    ensures var o := Collected(env, ord, |env.defs|, t, Run(env, cfg, |env.defs|, t, st));
      && (o.Fail? ==> Fill(env, ord, cfg, t, n, st, xs) == (false, o.st, xs))
      && (o.Ok? ==>
          o.st.depth == st.depth && Fill(env, ord, cfg, t, n, st, xs) == Fill(env, ord, cfg, t, n - 1, o.st, xs + [o.v]))
  {
    hide WFEnv, WF, Run, Norm;
    var d := |env.defs|;
    ItemStep(env, ord, cfg, d, t, n, st);
    var o := Collected(env, ord, d, t, Run(env, cfg, d, t, st));
    if o.Ok? {
      hide NormAll, DecodedBefore;
      Cat3(xs, [o.v], NormAll(env, ord, d, t, DecodedBefore(env, cfg, d, t, n - 1, o.st)));
    } else {
      assert xs + [] == xs;
    }
  }

  lemma FillNone(env: Env, ord: Orders, cfg: Cfg, t: Ty, st: St, xs: seq<Val>)
    requires WFEnv(env) && WF(env, |env.defs|, t) && st.depth <= cfg.maxDepth
    ensures Fill(env, ord, cfg, t, 0, st, xs) == (true, st, xs)
  {
    assert xs + [] == xs;
  }

  lemma Cat3(xs: seq<Val>, ys: seq<Val>, zs: seq<Val>)
    ensures xs + (ys + zs) == (xs + ys) + zs
  {
  }

  lemma NoItems(env: Env, ord: Orders, cfg: Cfg, k: nat, t: Ty, st: St)
    requires WFEnv(env) && WF(env, k, t) && st.depth <= cfg.maxDepth
    ensures CollectedAll(env, ord, k, t, RunItems(env, cfg, k, t, 0, st)) == Ok(st, [])
    ensures NormAll(env, ord, k, t, DecodedBefore(env, cfg, k, t, 0, st)) == []
  {
  }

  /** The elements of one chunk, pushed one by one into the memory reserved for them. */
  method FillChunk(env: Env, ord: Orders, cfg: Cfg, input: DepthTrackingInput, t: Ty, n: nat, vec: GrowVec<Val>)
    returns (ok: bool)
    requires WFEnv(env) && WF(env, |env.defs|, t) && input.For(env, cfg) && input.depth <= cfg.maxDepth
    requires |vec.items| + n <= vec.capacity && vec.Bounded() && vec !in input.Parts()
    modifies input.Parts(), vec
    ensures (ok, input.State(), vec.items) == Fill(env, ord, cfg, t, n, old(input.State()), old(vec.items))
    ensures vec.capacity == old(vec.capacity) && vec.Bounded()
    decreases cfg.maxDepth - input.depth, |env.defs|, t, n, 0
  {
    hide WFEnv, WF, Run, Fill, Collected, DepthTrackingInput.For, GrowVec.Bounded;
    for i := 0 to n
      invariant input.depth == old(input.depth) && |vec.items| == |old(vec.items)| + i
      invariant vec.capacity == old(vec.capacity) && vec.Bounded()
      invariant Fill(env, ord, cfg, t, n, old(input.State()), old(vec.items)) ==
        Fill(env, ord, cfg, t, n - i, input.State(), vec.items)
    {
      FillStep(env, ord, cfg, t, n - i, input.State(), vec.items);
      var x := DecodeValue(env, ord, cfg, input, |env.defs|, t);
      if x.None? {
        return false;
      }
      vec.Push(x.value);
    }
    FillNone(env, ord, cfg, t, input.State(), vec.items);
    ok := true;
  }

  /**
   decode_vec_chunked over elements: announce a chunk, reserve it, decode into it. However the
   decode ends, vec holds the elements decoded and at most one chunk of reserve.
   */
  method DecodeChunks(env: Env, ord: Orders, cfg: Cfg, input: DepthTrackingInput, t: Ty, len: nat, vec: GrowVec<Val>)
    returns (ok: bool)
    requires WFEnv(env) && WF(env, |env.defs|, t) && input.For(env, cfg) && input.depth <= cfg.maxDepth
    requires vec.items == [] && vec.size == env.sizeOf(t) <= MAX_PREALLOCATION && vec.Bounded() && vec !in input.Parts()
    modifies input.Parts(), vec
    ensures Does(if ok then Some(vec.items) else None, input.State(),
                 CollectedAll(env, ord, |env.defs|, t, RunChunks(env, cfg, t, len, old(input.State()))))
    ensures vec.items ==
      NormAll(env, ord, |env.defs|, t, ChunksBefore(env, cfg, t, len, old(input.State()))) && vec.Bounded()
    decreases cfg.maxDepth - input.depth, |env.defs|, t, len, 1
  {
    hide WFEnv, WF, UsizeMax, Alloc, GrowVec.Bounded, RunItems, RunChunks, ChunksBefore, DecodedBefore, Norm, NormAll;
    var d, size := |env.defs|, env.sizeOf(t);
    var undecoded: nat := len;
    ghost var st0 := input.State();
    while undecoded > 0
      invariant undecoded <= len && vec.Bounded() && input.depth == old(input.depth)
      invariant NormAll(env, ord, d, t, ChunksBefore(env, cfg, t, len, st0)) ==
        vec.items + NormAll(env, ord, d, t, ChunksBefore(env, cfg, t, undecoded, input.State()))
      invariant RunChunks(env, cfg, t, len, st0).Ok? == RunChunks(env, cfg, t, undecoded, input.State()).Ok?
      invariant RunChunks(env, cfg, t, len, st0).st == RunChunks(env, cfg, t, undecoded, input.State()).st
    {
      ghost var st, before := input.State(), vec.items;
      assert before + [] == before;
      ChunkLenPositive(env, size);
      var c := Min(ChunkLen(env, size), undecoded);
      ChunkStep(env, ord, cfg, t, undecoded, st);
      AllocKeepsDepth(env, cfg, st, Min(UsizeMax(env), c * size));
      var granted := input.OnBeforeAllocMem(env, cfg, Min(UsizeMax(env), c * size));
      if !granted {
        return false;
      }
      ChunkFits(size, c);
      vec.ReserveExact(c);
      var filled := FillChunk(env, ord, cfg, input, t, c, vec);
      if !filled {
        return false;
      }
      ghost var rest := NormAll(env, ord, d, t, ChunksBefore(env, cfg, t, undecoded - c, input.State()));
      Cat3(before, vec.items[|before|..], rest);
      undecoded := undecoded - c;
    }
    NoChunks(env, ord, cfg, t, input.State());
    assert vec.items + [] == vec.items;
    ok := true;
  }

  /** One chunk, then the others; what was pushed before a failure likewise. */
  lemma ChunkStep(env: Env, ord: Orders, cfg: Cfg, t: Ty, len: nat, st: St)
    requires WFEnv(env) && WF(env, |env.defs|, t) && st.depth <= cfg.maxDepth && env.sizeOf(t) <= MAX_PREALLOCATION
    requires len > 0
    ensures var d, c := |env.defs|, Min(ChunkLen(env, env.sizeOf(t)), len);
      var a := Alloc(env, cfg, st, Min(UsizeMax(env), c * env.sizeOf(t)));
      && c > 0 && a.st.depth == st.depth
      && (a.Fail? ==>
          && RunChunks(env, cfg, t, len, st) == Fail(a.st)
          && NormAll(env, ord, d, t, ChunksBefore(env, cfg, t, len, st)) == [])
      && (a.Ok? ==>
          var o := RunItems(env, cfg, d, t, c, a.st);
          var filled := NormAll(env, ord, d, t, DecodedBefore(env, cfg, d, t, c, a.st));
          && (o.Fail? ==>
              && RunChunks(env, cfg, t, len, st) == Fail(o.st)
              && NormAll(env, ord, d, t, ChunksBefore(env, cfg, t, len, st)) == filled)
          && (o.Ok? ==>
              var rest := RunChunks(env, cfg, t, len - c, o.st);
              && RunChunks(env, cfg, t, len, st).Ok? == rest.Ok? && RunChunks(env, cfg, t, len, st).st == rest.st
              && NormAll(env, ord, d, t, ChunksBefore(env, cfg, t, len, st)) ==
                 filled + NormAll(env, ord, d, t, ChunksBefore(env, cfg, t, len - c, o.st))))
  {
    hide WFEnv, WF, UsizeMax, Alloc, RunItems, DecodedBefore, Norm;
    var d, c := |env.defs|, Min(ChunkLen(env, env.sizeOf(t)), len);
    ChunkLenPositive(env, env.sizeOf(t));
    AllocKeepsDepth(env, cfg, st, Min(UsizeMax(env), c * env.sizeOf(t)));
    var a := Alloc(env, cfg, st, Min(UsizeMax(env), c * env.sizeOf(t)));
    if a.Ok? {
      var o := RunItems(env, cfg, d, t, c, a.st);
      if o.Ok? {
        NormAllCat(env, ord, d, t, o.v, ChunksBefore(env, cfg, t, len - c, o.st));
      }
    }
  }

  lemma NoChunks(env: Env, ord: Orders, cfg: Cfg, t: Ty, st: St)
    requires WFEnv(env) && WF(env, |env.defs|, t) && st.depth <= cfg.maxDepth && env.sizeOf(t) <= MAX_PREALLOCATION
    ensures RunChunks(env, cfg, t, 0, st) == Ok(st, [])
    ensures NormAll(env, ord, |env.defs|, t, ChunksBefore(env, cfg, t, 0, st)) == []
  {
  }

  /** T::decode. */
  method DecodeValue(env: Env, ord: Orders, cfg: Cfg, input: DepthTrackingInput, k: nat, ty: Ty) returns (r: Option<Val>)
    requires WFEnv(env) && WF(env, k, ty) && input.For(env, cfg) && input.depth <= cfg.maxDepth
    modifies input.Parts()
    ensures Does(r, input.State(), Collected(env, ord, k, ty, Run(env, cfg, k, ty, old(input.State()))))
    decreases cfg.maxDepth - input.depth, k, ty, 0, 1
  {
    hide DepthTrackingInput.For, Does, Run, Collected, WF, WFEnv;
    match ty {
      case Pair(a, b) => r := DecodePair(env, ord, cfg, input, k, ty);
      case Opt(t) => r := DecodeTagged(env, ord, cfg, input, k, ty);
      case Res(t, e) => r := DecodeTagged(env, ord, cfg, input, k, ty);
      case Enum(vs) => r := DecodeTagged(env, ord, cfg, input, k, ty);
      case Array(t, n) => r := DecodeArray(env, ord, cfg, input, k, ty);
      case Vec(t) => r := DecodeVec(env, ord, cfg, input, k, ty);
      case Coll(kind, t) => r := DecodeColl(env, ord, cfg, input, k, ty);
      case Box(t) => r := DecodeBox(env, ord, cfg, input, k, ty);
      case Named(j) => r := DecodeNamed(env, ord, cfg, input, k, ty);
      case _ => r := DecodeLeaf(env, ord, cfg, input, k, ty);
    }
  }

  method DecodeLeaf(env: Env, ord: Orders, cfg: Cfg, input: DepthTrackingInput, k: nat, ty: Ty) returns (r: Option<Val>)
    requires WFEnv(env) && WF(env, k, ty) && input.For(env, cfg) && input.depth <= cfg.maxDepth && IsLeaf(ty)
    modifies input.Parts()
    ensures Does(r, input.State(), Collected(env, ord, k, ty, Run(env, cfg, k, ty, old(input.State()))))
  {
    hide WFEnv, UnLE, Pow256, UsizeMax, RunCompact, RunBulk, Utf8;
    match ty {
      case Prim(w) =>
        var bs := input.Read(w);
        r := if bs.Some? then Some(Num(UnLE(bs.value))) else None;
      case NonZero(w) =>
        var bs := input.Read(w);
        r := if bs.Some? && UnLE(bs.value) != 0 then Some(Num(UnLE(bs.value))) else None;
      case Bool =>
        var b := input.ReadByte();
        r := if b.Some? && b.value < 2 then Some(Flag(b.value == 1)) else None;
      case OptBool =>
        var b := input.ReadByte();
        r := if b.None? || b.value > 2 then None
             else Some(Tri(if b.value == 0 then None else Some(b.value == 1)));
      case Compact(w) =>
        var n := DecodeCompact(input, w);
        r := if n.Some? then Some(Num(n.value)) else None;
      case Duration =>
        var secs := input.Read(8);
        if secs.None? {
          return None;
        }
        var nanos := input.Read(4);
        r := if nanos.Some? && UnLE(nanos.value) < A_BILLION
             then Some(Dur(UnLE(secs.value), UnLE(nanos.value))) else None;
      case Str =>
        var len := DecodeCompact(input, 4);
        if len.None? {
          return None;
        }
        var bs := DecodeBulk(env, cfg, input, UsizeMax(env), 1, len.value);
        r := if bs.Some? && Utf8(bs.value) then Some(Raw(bs.value)) else None;
      case Blob =>
        var len := DecodeCompact(input, 4);
        if len.None? {
          return None;
        }
        var bs;
        if cfg.cursor {
          bs := input.SplitBytes(env, cfg, len.value);
        } else {
          bs := DecodeBulk(env, cfg, input, UsizeMax(env), 1, len.value);
        }
        r := if bs.Some? then Some(Raw(bs.value)) else None;
      case Unit => r := Some(UnitV);
      case Skip(d) => r := Some(d);
    }
  }

  method DecodePair(env: Env, ord: Orders, cfg: Cfg, input: DepthTrackingInput, k: nat, ty: Ty) returns (r: Option<Val>)
    requires WFEnv(env) && WF(env, k, ty) && input.For(env, cfg) && input.depth <= cfg.maxDepth && ty.Pair?
    modifies input.Parts()
    ensures Does(r, input.State(), Collected(env, ord, k, ty, Run(env, cfg, k, ty, old(input.State()))))
    decreases cfg.maxDepth - input.depth, k, ty, 0, 0
  {
    hide WFEnv, DepthTrackingInput.For;
    var x := DecodeValue(env, ord, cfg, input, k, ty.a);
    if x.None? {
      return None;
    }
    var y := DecodeValue(env, ord, cfg, input, k, ty.b);
    r := if y.Some? then Some(PairV(x.value, y.value)) else None;
  }

  /** Option, Result and derived enums: a byte selects what follows. */
  method DecodeTagged(env: Env, ord: Orders, cfg: Cfg, input: DepthTrackingInput, k: nat, ty: Ty) returns (r: Option<Val>)
    requires WFEnv(env) && WF(env, k, ty) && input.For(env, cfg) && input.depth <= cfg.maxDepth
    requires ty.Opt? || ty.Res? || ty.Enum?
    modifies input.Parts()
    ensures Does(r, input.State(), Collected(env, ord, k, ty, Run(env, cfg, k, ty, old(input.State()))))
    decreases cfg.maxDepth - input.depth, k, ty, 0, 0
  {
    hide WFEnv, DepthTrackingInput.For, RunVariant;
    var b := input.ReadByte();
    if b.None? {
      return None;
    }
    if ty.Enum? {
      var iv := DecodeVariant(env, ord, cfg, input, k, ty.vs, b.value);
      r := if iv.Some? then Some(Variant(iv.value.0, iv.value.1)) else None;
    } else if b.value > 1 {
      r := None;
    } else if ty.Opt? {
      if b.value == 0 {
        return Some(NoneV);
      }
      var x := DecodeValue(env, ord, cfg, input, k, ty.t);
      r := if x.Some? then Some(SomeV(x.value)) else None;
    } else if b.value == 0 {
      var x := DecodeValue(env, ord, cfg, input, k, ty.t);
      r := if x.Some? then Some(OkV(x.value)) else None;
    } else {
      var x := DecodeValue(env, ord, cfg, input, k, ty.e);
      r := if x.Some? then Some(ErrV(x.value)) else None;
    }
  }

  function CollectedVariant(env: Env, ord: Orders, k: nat, vs: Variants, o: Out<(nat, Val)>): Out<(nat, Val)> {
    if o.Fail? then o else Ok(o.st, (o.v.0, NormVariant(env, ord, k, vs, o.v.0, o.v.1)))
  }

  /** The emitted match, arm by arm. */
  method DecodeVariant(env: Env, ord: Orders, cfg: Cfg, input: DepthTrackingInput, k: nat, vs: Variants, tag: byte)
    returns (r: Option<(nat, Val)>)
    requires WFEnv(env) && WFVariants(env, k, vs) && input.For(env, cfg) && input.depth <= cfg.maxDepth
    modifies input.Parts()
    ensures Does(r, input.State(), CollectedVariant(env, ord, k, vs, RunVariant(env, cfg, k, vs, tag, old(input.State()))))
    decreases cfg.maxDepth - input.depth, k, vs, 0, 0
  {
    hide WFEnv, WF, Run, DepthTrackingInput.For;
    if vs.VNil? {
      return None;
    }
    if !vs.skip && vs.tag == tag {
      var x := DecodeValue(env, ord, cfg, input, k, vs.ty);
      r := if x.Some? then Some((0, x.value)) else None;
    } else {
      var iv := DecodeVariant(env, ord, cfg, input, k, vs.tail, tag);
      r := if iv.Some? then Some((iv.value.0 + 1, iv.value.1)) else None;
    }
  }

  method DecodeArray(env: Env, ord: Orders, cfg: Cfg, input: DepthTrackingInput, k: nat, ty: Ty) returns (r: Option<Val>)
    requires WFEnv(env) && WF(env, k, ty) && input.For(env, cfg) && input.depth <= cfg.maxDepth && ty.Array?
    modifies input.Parts()
    ensures Does(r, input.State(), Collected(env, ord, k, ty, Run(env, cfg, k, ty, old(input.State()))))
    decreases cfg.maxDepth - input.depth, k, ty, 0, 0
  {
    hide WFEnv, DepthTrackingInput.For, RunItems, Split;
    if ty.t.Prim? {
      var bs := input.Read(ty.n * ty.t.w);
      if bs.None? {
        return None;
      }
      NormAllPrims(env, ord, k, ty.t.w, Split(bs.value, ty.t.w, ty.n));
      r := Some(Items(Split(bs.value, ty.t.w, ty.n)));
    } else {
      var xs := DecodeItems(env, ord, cfg, input, k, ty.t, ty.n);
      r := if xs.Some? then Some(Items(xs.value)) else None;
    }
  }

  /** Vec<T>::decode: on a failure below, ascend_ref is not called. */
  method DecodeVec(env: Env, ord: Orders, cfg: Cfg, input: DepthTrackingInput, k: nat, ty: Ty) returns (r: Option<Val>)
    requires WFEnv(env) && WF(env, k, ty) && input.For(env, cfg) && input.depth <= cfg.maxDepth && ty.Vec?
    modifies input.Parts()
    ensures Does(r, input.State(), Collected(env, ord, k, ty, Run(env, cfg, k, ty, old(input.State()))))
    decreases cfg.maxDepth - input.depth, k, ty, 0, 0
  {
    hide WFEnv, UsizeMax, RunCompact, RunBulk, RunChunks, Split;
    var t := ty.t;
    assert Run(env, cfg, k, ty, input.State()) == RunVec(env, cfg, k, t, input.State());
    var len := DecodeCompact(input, 4);
    if len.None? {
      return None;
    }
    if t.Prim? {
      var bs := DecodeBulk(env, cfg, input, UsizeMax(env), t.w, len.value);
      if bs.None? {
        return None;
      }
      NormAllPrims(env, ord, |env.defs|, t.w, Split(bs.value, t.w, len.value));
      r := Some(Items(Split(bs.value, t.w, len.value)));
    } else {
      var ok := input.DescendRef(cfg);
      if !ok {
        return None;
      }
      var vec := new GrowVec<Val>(env.sizeOf(t));
      ok := DecodeChunks(env, ord, cfg, input, t, len.value, vec);
      if !ok {
        return None;
      }
      input.AscendRef();
      r := Some(Items(vec.items));
    }
  }

  /** Maps, sets and lists: ascend_ref is called also when an element failed. */
  method DecodeColl(env: Env, ord: Orders, cfg: Cfg, input: DepthTrackingInput, k: nat, ty: Ty) returns (r: Option<Val>)
    requires WFEnv(env) && WF(env, k, ty) && input.For(env, cfg) && input.depth <= cfg.maxDepth && ty.Coll?
    modifies input.Parts()
    ensures Does(r, input.State(), Collected(env, ord, k, ty, Run(env, cfg, k, ty, old(input.State()))))
    decreases cfg.maxDepth - input.depth, k, ty, 0, 0
  {
    hide WFEnv, UsizeMax, RunCompact, RunItems, CollSize, Alloc;
    var t := ty.t;
    assert Run(env, cfg, k, ty, input.State()) == RunColl(env, cfg, k, ty.kind, t, input.State());
    var len := DecodeCompact(input, 4);
    if len.None? {
      return None;
    }
    var ok := input.DescendRef(cfg);
    if !ok {
      return None;
    }
    var size := Min(UsizeMax(env), CollSize(env, ty.kind, t, len.value));
    AllocKeepsDepth(env, cfg, input.State(), size);
    ok := input.OnBeforeAllocMem(env, cfg, size);
    if !ok {
      return None;
    }
    var xs := DecodeItems(env, ord, cfg, input, |env.defs|, t, len.value);
    input.AscendRef();
    r := if xs.Some? then Some(Items(Build(ord, ty.kind, t, xs.value))) else None;
  }

  /** Box<T>::decode_wrapped. */
  method DecodeBox(env: Env, ord: Orders, cfg: Cfg, input: DepthTrackingInput, k: nat, ty: Ty) returns (r: Option<Val>)
    requires WFEnv(env) && WF(env, k, ty) && input.For(env, cfg) && input.depth <= cfg.maxDepth && ty.Box?
    modifies input.Parts()
    ensures Does(r, input.State(), Collected(env, ord, k, ty, Run(env, cfg, k, ty, old(input.State()))))
    decreases cfg.maxDepth - input.depth, k, ty, 0, 0
  {
    hide WFEnv, UsizeMax, Alloc;
    var t := ty.t;
    assert Run(env, cfg, k, ty, input.State()) == RunBox(env, cfg, k, t, input.State());
    var ok := input.DescendRef(cfg);
    if !ok {
      return None;
    }
    AllocKeepsDepth(env, cfg, input.State(), env.sizeOf(t));
    ok := input.OnBeforeAllocMem(env, cfg, env.sizeOf(t));
    if !ok {
      return None;
    }
    var x := DecodeValue(env, ord, cfg, input, |env.defs|, t);
    if x.None? {
      return None;
    }
    input.AscendRef();
    r := Some(Ref(x.value));
  }

  method DecodeNamed(env: Env, ord: Orders, cfg: Cfg, input: DepthTrackingInput, k: nat, ty: Ty) returns (r: Option<Val>)
    requires WFEnv(env) && WF(env, k, ty) && input.For(env, cfg) && input.depth <= cfg.maxDepth && ty.Named?
    modifies input.Parts()
    ensures Does(r, input.State(), Collected(env, ord, k, ty, Run(env, cfg, k, ty, old(input.State()))))
    decreases cfg.maxDepth - input.depth, k, ty, 0, 0
  {
    r := DecodeValue(env, ord, cfg, input, ty.j, env.defs[ty.j]);
  }
}
