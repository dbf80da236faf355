/** BTreeMap and BTreeSet built from decoded entries: sorted by key, the last entry per key kept. */
module Collect {
  import opened Bytes
  import opened Types

  type Less = (Val, Val) -> bool

  /** K: Ord, as a strict order on key values. */
  ghost predicate Total(less: Less) {
    && (forall a :: !less(a, a))
    && (forall a, b :: a == b || less(a, b) || less(b, a))
    && (forall a, b, c :: less(a, b) && less(b, c) ==> less(a, c))
  }

  /** A set entry is its own key; a map entry is a (key, value) pair. */
  function Key(kind: Kind, x: Val): Val {
    if kind.MapKind? && x.PairV? then x.a else x
  }

  function Insert(less: Less, kind: Kind, x: Val, xs: seq<Val>): (ys: seq<Val>)
    ensures |ys| <= |xs| + 1
  {
    if xs == [] then [x]
    else if Key(kind, x) == Key(kind, xs[0]) then [x] + xs[1..]
    else if less(Key(kind, x), Key(kind, xs[0])) then [x] + xs
    else [xs[0]] + Insert(less, kind, x, xs[1..])
  }

  /** FromIterator: entries go in one after the other. */
  function FromIter(less: Less, kind: Kind, xs: seq<Val>): (ys: seq<Val>)
    ensures |ys| <= |xs|
  {
    if xs == [] then []
    else Insert(less, kind, xs[|xs| - 1], FromIter(less, kind, xs[..|xs| - 1]))
  }

  ghost predicate Sorted(less: Less, kind: Kind, xs: seq<Val>) {
    forall i, j :: 0 <= i < j < |xs| ==> less(Key(kind, xs[i]), Key(kind, xs[j]))
  }

  /** The entry a map holds for a key. */
  function Find(kind: Kind, xs: seq<Val>, key: Val): Option<Val> {
    if xs == [] then None
    else if Key(kind, xs[0]) == key then Some(xs[0])
    else Find(kind, xs[1..], key)
  }

  /** The last entry of the input with a key. */
  function LastWith(kind: Kind, xs: seq<Val>, key: Val): Option<Val> {
    if xs == [] then None
    else if Key(kind, xs[|xs| - 1]) == key then Some(xs[|xs| - 1])
    else LastWith(kind, xs[..|xs| - 1], key)
  }

  lemma {:induction false} InsertSorted(less: Less, kind: Kind, x: Val, xs: seq<Val>)
    requires Total(less) && Sorted(less, kind, xs)
    ensures Sorted(less, kind, Insert(less, kind, x, xs))
    ensures forall y :: y in Insert(less, kind, x, xs) ==> y == x || y in xs
  {
    if xs != [] && Key(kind, x) != Key(kind, xs[0]) {
      if less(Key(kind, x), Key(kind, xs[0])) {
      } else {
        InsertSorted(less, kind, x, xs[1..]);
        var ys := Insert(less, kind, x, xs[1..]);
        forall j | 0 <= j < |ys| ensures less(Key(kind, xs[0]), Key(kind, ys[j])) {
          assert ys[j] in ys;
          if ys[j] != x {
            var i :| 0 <= i < |xs[1..]| && xs[1..][i] == ys[j];
            assert xs[i + 1] == ys[j];
          }
        }
      }
    }
  }

  lemma {:induction false} InsertFinds(less: Less, kind: Kind, x: Val, xs: seq<Val>, key: Val)
    ensures Find(kind, Insert(less, kind, x, xs), key) ==
      if key == Key(kind, x) then Some(x) else Find(kind, xs, key)
  {
    if xs != [] {
      if Key(kind, x) == Key(kind, xs[0]) {
        assert ([x] + xs[1..])[1..] == xs[1..];
      } else if less(Key(kind, x), Key(kind, xs[0])) {
        assert ([x] + xs)[1..] == xs;
      } else {
        InsertFinds(less, kind, x, xs[1..], key);
        assert ([xs[0]] + Insert(less, kind, x, xs[1..]))[1..] == Insert(less, kind, x, xs[1..]);
      }
    }
  }

  /** Whatever the wire order, the collection is strictly sorted and its entries come from the wire. */
  lemma {:induction false} FromIterSorted(less: Less, kind: Kind, xs: seq<Val>)
    requires Total(less)
    ensures Sorted(less, kind, FromIter(less, kind, xs))
    ensures forall y :: y in FromIter(less, kind, xs) ==> y in xs
  {
    if xs != [] {
      var init, x := xs[..|xs| - 1], xs[|xs| - 1];
      FromIterSorted(less, kind, init);
      InsertSorted(less, kind, x, FromIter(less, kind, init));
    }
  }

  /** The last entry on the wire wins. */
  lemma {:induction false} FromIterKeepsLast(less: Less, kind: Kind, xs: seq<Val>, key: Val)
    requires Total(less)
    ensures Find(kind, FromIter(less, kind, xs), key) == LastWith(kind, xs, key)
  {
    if xs != [] {
      var init, x := xs[..|xs| - 1], xs[|xs| - 1];
      FromIterSorted(less, kind, init);
      FromIterKeepsLast(less, kind, init, key);
      InsertFinds(less, kind, x, FromIter(less, kind, init), key);
    }
  }

  /** Sorted entry lists that answer every lookup alike are the same list. */
  lemma {:induction false} SortedUnique(less: Less, kind: Kind, xs: seq<Val>, ys: seq<Val>)
    requires Total(less) && Sorted(less, kind, xs) && Sorted(less, kind, ys)
    requires forall key :: Find(kind, xs, key) == Find(kind, ys, key)
    ensures xs == ys
    decreases |xs|
  {
    if xs != [] || ys != [] {
      var z := Key(kind, if xs != [] then xs[0] else ys[0]);
      assert Find(kind, xs, z) == Find(kind, ys, z);
      var x, y := Key(kind, xs[0]), Key(kind, ys[0]);
      assert Find(kind, xs, x) == Find(kind, ys, x);
      assert Find(kind, xs, y) == Find(kind, ys, y);
      FindIn(kind, ys, x);
      FindIn(kind, xs, y);
      assert x == y && xs[0] == ys[0];
      forall key ensures Find(kind, xs[1..], key) == Find(kind, ys[1..], key) {
        assert Find(kind, xs, key) == Find(kind, ys, key);
        if key == x {
          NotFound(less, kind, xs);
          NotFound(less, kind, ys);
        }
      }
      SortedUnique(less, kind, xs[1..], ys[1..]);
      assert xs == [xs[0]] + xs[1..] && ys == [ys[0]] + ys[1..];
    }
  }

  lemma {:induction false} FindIn(kind: Kind, xs: seq<Val>, key: Val)
    requires Find(kind, xs, key).Some?
    ensures exists i :: 0 <= i < |xs| && xs[i] == Find(kind, xs, key).value && Key(kind, xs[i]) == key
  {
    if Key(kind, xs[0]) != key {
      FindIn(kind, xs[1..], key);
      var i :| 0 <= i < |xs[1..]| && xs[1..][i] == Find(kind, xs, key).value && Key(kind, xs[1..][i]) == key;
      assert xs[i + 1] == xs[1..][i];
    }
  }

  lemma {:induction false} FindNone(kind: Kind, xs: seq<Val>, key: Val)
    requires forall i :: 0 <= i < |xs| ==> Key(kind, xs[i]) != key
    ensures Find(kind, xs, key).None?
  {
    if xs != [] {
      FindNone(kind, xs[1..], key);
    }
  }

  lemma NotFound(less: Less, kind: Kind, xs: seq<Val>)
    requires Total(less) && Sorted(less, kind, xs) && xs != []
    ensures Find(kind, xs[1..], Key(kind, xs[0])).None?
  {
    forall i | 0 <= i < |xs[1..]| ensures Key(kind, xs[1..][i]) != Key(kind, xs[0]) {
      assert less(Key(kind, xs[0]), Key(kind, xs[i + 1]));
    }
    FindNone(kind, xs[1..], Key(kind, xs[0]));
  }

  /** Collecting a sorted list changes nothing. */
  lemma {:induction false} FromIterOfSorted(less: Less, kind: Kind, xs: seq<Val>)
    requires Total(less) && Sorted(less, kind, xs)
    ensures FromIter(less, kind, xs) == xs
  {
    hide Total, Insert, Key;
    if xs != [] {
      var init, x := xs[..|xs| - 1], xs[|xs| - 1];
      FromIterOfSorted(less, kind, init);
      InsertLast(less, kind, x, init);
      assert xs == init + [x];
    }
  }

  lemma {:induction false} InsertLast(less: Less, kind: Kind, x: Val, xs: seq<Val>)
    requires Total(less)
    requires forall i :: 0 <= i < |xs| ==> less(Key(kind, xs[i]), Key(kind, x))
    ensures Insert(less, kind, x, xs) == xs + [x]
  {
    if xs != [] {
      assert less(Key(kind, xs[0]), Key(kind, x));
      InsertLast(less, kind, x, xs[1..]);
      assert xs + [x] == [xs[0]] + (xs[1..] + [x]);
    }
  }

  ghost predicate DistinctKeys(kind: Kind, xs: seq<Val>) {
    forall i, j :: 0 <= i < j < |xs| ==> Key(kind, xs[i]) != Key(kind, xs[j])
  }

  lemma {:induction false} LastWithIn(kind: Kind, xs: seq<Val>, key: Val)
    ensures LastWith(kind, xs, key).Some? ==>
      LastWith(kind, xs, key).value in xs && Key(kind, LastWith(kind, xs, key).value) == key
    ensures forall x :: x in xs && Key(kind, x) == key ==> LastWith(kind, xs, key).Some?
  {
    if xs != [] {
      var init := xs[..|xs| - 1];
      LastWithIn(kind, init, key);
      assert forall x :: x in xs ==> x == xs[|xs| - 1] || x in init;
    }
  }

  /** Entries with distinct keys may arrive in any order. */
  lemma OrderIrrelevant(less: Less, kind: Kind, xs: seq<Val>, ys: seq<Val>)
    requires Total(less) && DistinctKeys(kind, xs) && multiset(xs) == multiset(ys)
    ensures FromIter(less, kind, xs) == FromIter(less, kind, ys)
  {
    forall key ensures LastWith(kind, xs, key) == LastWith(kind, ys, key) {
      LastWithIn(kind, xs, key);
      LastWithIn(kind, ys, key);
      forall x ensures x in xs <==> x in ys {
        assert x in multiset(xs) <==> x in multiset(ys);
      }
      if LastWith(kind, xs, key).Some? {
        var x, y := LastWith(kind, xs, key).value, LastWith(kind, ys, key).value;
        assert x in xs && y in xs;
      }
    }
    forall key ensures Find(kind, FromIter(less, kind, xs), key) == Find(kind, FromIter(less, kind, ys), key) {
      FromIterKeepsLast(less, kind, xs, key);
      FromIterKeepsLast(less, kind, ys, key);
    }
    FromIterSorted(less, kind, xs);
    FromIterSorted(less, kind, ys);
    SortedUnique(less, kind, FromIter(less, kind, xs), FromIter(less, kind, ys));
  }

  /** The Ord instance of every key type. */
  type Orders = Ty -> Less

  ghost predicate AllTotal(ord: Orders) {
    forall t :: Total(ord(t))
  }

  function KeyTy(kind: Kind, t: Ty): Ty {
    if kind.MapKind? && t.Pair? then t.a else t
  }

  /** What the collection constructor makes of its decoded entries. */
  function Build(ord: Orders, kind: Kind, t: Ty, xs: seq<Val>): (ys: seq<Val>)
    ensures |ys| <= |xs|
  {
    if kind.ListKind? then xs else FromIter(ord(KeyTy(kind, t)), kind, xs)
  }

  /** v with every map and set inside it collected: the Rust value the decoder returns. */
  function Norm(env: Env, ord: Orders, k: nat, ty: Ty, v: Val): Val
    decreases v, k, ty
  {
    match ty
    case Pair(a, b) => if v.PairV? then PairV(Norm(env, ord, k, a, v.a), Norm(env, ord, k, b, v.b)) else v
    case Opt(t) => if v.SomeV? then SomeV(Norm(env, ord, k, t, v.v)) else v
    case Res(t, e) =>
      if v.OkV? then OkV(Norm(env, ord, k, t, v.v))
      else if v.ErrV? then ErrV(Norm(env, ord, k, e, v.v))
      else v
    case Array(t, n) => if v.Items? then Items(NormAll(env, ord, k, t, v.vs)) else v
    case Vec(t) => if v.Items? then Items(NormAll(env, ord, |env.defs|, t, v.vs)) else v
    case Coll(kind, t) =>
      if v.Items? then Items(Build(ord, kind, t, NormAll(env, ord, |env.defs|, t, v.vs))) else v
    case Box(t) => if v.Ref? then Ref(Norm(env, ord, |env.defs|, t, v.v)) else v
    case Enum(vs) => if v.Variant? then Variant(v.i, NormVariant(env, ord, k, vs, v.i, v.v)) else v
    case Named(j) => if j < k && j < |env.defs| then Norm(env, ord, j, env.defs[j], v) else v
    case _ => v
  }

  function NormAll(env: Env, ord: Orders, k: nat, t: Ty, vs: seq<Val>): (rs: seq<Val>)
    ensures |rs| == |vs|
    decreases vs, k, t
  {
    if vs == [] then [] else [Norm(env, ord, k, t, vs[0])] + NormAll(env, ord, k, t, vs[1..])
  }

  function NormVariant(env: Env, ord: Orders, k: nat, vs: Variants, i: nat, v: Val): Val
    decreases v, k, vs
  {
    if vs.VNil? then v
    else if i == 0 then Norm(env, ord, k, vs.ty, v)
    else NormVariant(env, ord, k, vs.tail, i - 1, v)
  }

  /** Collecting the elements of a sequence, one by one. */
  lemma {:induction false} NormAllAt(env: Env, ord: Orders, k: nat, t: Ty, vs: seq<Val>, i: nat)
    requires i < |vs|
    ensures NormAll(env, ord, k, t, vs)[i] == Norm(env, ord, k, t, vs[i])
    decreases |vs|
  {
    hide Norm;
    if i > 0 {
      NormAllAt(env, ord, k, t, vs[1..], i - 1);
    }
  }

  lemma {:induction false} NormAllCat(env: Env, ord: Orders, k: nat, t: Ty, xs: seq<Val>, ys: seq<Val>)
    ensures NormAll(env, ord, k, t, xs + ys) == NormAll(env, ord, k, t, xs) + NormAll(env, ord, k, t, ys)
    decreases |xs|
  {
    hide Norm;
    if xs == [] {
      assert xs + ys == ys;
    } else {
      assert (xs + ys)[1..] == xs[1..] + ys;
      NormAllCat(env, ord, k, t, xs[1..], ys);
    }
  }

  /** Primitives hold nothing to collect. */
  lemma {:induction false} NormAllPrims(env: Env, ord: Orders, k: nat, w: nat, vs: seq<Val>)
    ensures NormAll(env, ord, k, Prim(w), vs) == vs
    decreases |vs|
  {
    if vs != [] {
      NormAllPrims(env, ord, k, w, vs[1..]);
    }
  }
}
