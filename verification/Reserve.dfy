/** The vector decode_vec_chunked grows, and what it holds when a decode ends, well or not. */
module Reserve {
  import opened Bytes
  import opened Types
  import opened Input
  import opened Decode

  /** Vec<T>: its elements and the number of elements memory is reserved for. */
  class GrowVec<T> {
    var items: seq<T>
    var capacity: nat
    const size: nat                 // size_of::<T>()

    /** Reserved are at most MAX_PREALLOCATION bytes beyond the elements held. */
    ghost predicate Bounded()
      reads this
    {
      capacity * size <= |items| * size + MAX_PREALLOCATION
    }

    constructor (size: nat)
      ensures items == [] && capacity == 0 && this.size == size && Bounded()
    {
      items, capacity, this.size := [], 0, size;
    }

    method ReserveExact(n: nat)
      modifies this
      ensures items == old(items) && capacity == Max(old(capacity), |items| + n)
      ensures old(Bounded()) && n * size <= MAX_PREALLOCATION ==> Bounded()
    {
      assert (|items| + n) * size == |items| * size + n * size;
      capacity := Max(capacity, |items| + n);
    }

    /** A full vector doubles; one with room keeps its capacity. */
    method Push(x: T)
      modifies this
      ensures items == old(items) + [x] && |items| <= capacity
      ensures |old(items)| < old(capacity) ==> capacity == old(capacity)
      ensures |old(items)| < old(capacity) && old(Bounded()) ==> Bounded()
    {
      if |items| >= capacity {
        capacity := Max(2 * capacity, |items| + 1);
      }
      items := items + [x];
      MulMono(|items| - 1, |items|, size);
    }

    /** set_len over elements already in place: never past the capacity. */
    method Extend(xs: seq<T>)
      requires |items| + |xs| <= capacity
      modifies this
      ensures items == old(items) + xs && capacity == old(capacity)
      ensures old(Bounded()) ==> Bounded()
    {
      MulMono(|items|, |items| + |xs|, size);
      items := items + xs;
    }
  }

  /** The values decoded before the first element that fails, or all n. */
  function DecodedBefore(env: Env, cfg: Cfg, k: nat, t: Ty, n: nat, st: St): (vs: seq<Val>)
    requires WFEnv(env) && WF(env, k, t) && st.depth <= cfg.maxDepth
    ensures |vs| <= n
    ensures RunItems(env, cfg, k, t, n, st).Ok? ==> vs == RunItems(env, cfg, k, t, n, st).v
    ensures RunItems(env, cfg, k, t, n, st).Fail? ==> |vs| < n
    decreases n
  {
    if n == 0 then []
    else
      var o := Run(env, cfg, k, t, st);
      if o.Fail? then [] else [o.v] + DecodedBefore(env, cfg, k, t, n - 1, o.st)
  }

  /** The values a chunked decode has pushed when it ends, whole chunks and the one that failed. */
  function ChunksBefore(env: Env, cfg: Cfg, t: Ty, len: nat, st: St): (vs: seq<Val>)
    requires WFEnv(env) && WF(env, |env.defs|, t) && st.depth <= cfg.maxDepth
    requires env.sizeOf(t) <= MAX_PREALLOCATION
    ensures |vs| <= len
    ensures RunChunks(env, cfg, t, len, st).Ok? ==> vs == RunChunks(env, cfg, t, len, st).v
    ensures RunChunks(env, cfg, t, len, st).Fail? ==> |vs| < len
    decreases len
  {
    if len == 0 then []
    else
      ChunkLenPositive(env, env.sizeOf(t));
      var c := Min(ChunkLen(env, env.sizeOf(t)), len);
      AllocKeepsDepth(env, cfg, st, Min(UsizeMax(env), c * env.sizeOf(t)));
      var a := Alloc(env, cfg, st, Min(UsizeMax(env), c * env.sizeOf(t)));
      if a.Fail? then []
      else
        var o := RunItems(env, cfg, |env.defs|, t, c, a.st);
        if o.Fail? then DecodedBefore(env, cfg, |env.defs|, t, c, a.st)
        else o.v + ChunksBefore(env, cfg, t, len - c, o.st)
  }

  /** The bytes of the whole chunks a bulk decode has read when it ends. */
  function BulkBefore(env: Env, cfg: Cfg, w: nat, len: nat, st: St): (bs: seq<byte>)
    requires WFEnv(env) && IsWidth(w)
    ensures RunBulkChunks(env, cfg, w, len, st).Ok? ==> bs == RunBulkChunks(env, cfg, w, len, st).v
    decreases len
  {
    if len == 0 then []
    else
      ChunkLenPositive(env, w);
      var c := Min(ChunkLen(env, w), len);
      var a := Alloc(env, cfg, st, Min(UsizeMax(env), c * w));
      if a.Fail? then []
      else
        var o := Read(a.st, c * w);
        if o.Fail? then [] else o.v + BulkBefore(env, cfg, w, len - c, o.st)
  }
}
