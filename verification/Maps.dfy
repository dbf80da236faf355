/** Which entries a decoded map or set holds, said of the entries themselves. */
module Maps {
  import opened Bytes
  import opened Types
  import opened Collect

  /** Entry i of a list of pairs collects to e, and no later one to the same first component. */
  ghost predicate LastOfItsKey(env: Env, ord: Orders, a: Ty, b: Ty, vs: seq<Val>, i: int, e: Val) {
    var d := |env.defs|;
    && 0 <= i < |vs| && vs[i].PairV? && e.PairV?
    && e.a == Norm(env, ord, d, a, vs[i].a) && e.b == Norm(env, ord, d, b, vs[i].b)
    && forall j :: i < j < |vs| && vs[j].PairV? ==> Norm(env, ord, d, a, vs[j].a) != e.a
  }

  /**
   A decoded map is strictly sorted by the first components of its entries, in the order of their
   type, and holds exactly the last entry read for each, with the value that came with it.
   */
  lemma MapEntries(env: Env, ord: Orders, k: nat, a: Ty, b: Ty, v: Val)
    requires WFEnv(env) && WF(env, k, Coll(MapKind, Pair(a, b))) && Typed(env, k, Coll(MapKind, Pair(a, b)), v)
    requires AllTotal(ord)
    ensures var n := Norm(env, ord, k, Coll(MapKind, Pair(a, b)), v);
      && n.Items? && (forall i :: 0 <= i < |n.vs| ==> n.vs[i].PairV?)
      && (forall i, j :: 0 <= i < j < |n.vs| ==> ord(a)(n.vs[i].a, n.vs[j].a))
      && (forall e :: e in n.vs <==> exists i :: LastOfItsKey(env, ord, a, b, v.vs, i, e))
  {
    var d, t := |env.defs|, Pair(a, b);
    var xs := NormAll(env, ord, d, t, v.vs);
    MapNorm(env, ord, k, a, b, v);
    forall i | 0 <= i < |v.vs|
      ensures v.vs[i].PairV? && xs[i] == PairV(Norm(env, ord, d, a, v.vs[i].a), Norm(env, ord, d, b, v.vs[i].b))
    {
      EntryForm(env, ord, k, a, b, v, i);
    }
    hide WFEnv, WF, Typed, Norm, NormAll, Total, FromIter, LastOfItsKey;
    PairsSorted(ord(a), xs);
    forall e ensures e in FromIter(ord(a), MapKind, xs) <==> exists i :: LastOfItsKey(env, ord, a, b, v.vs, i, e) {
      MapEntry(env, ord, a, b, v.vs, xs, e);
    }
  }

  lemma PairsSorted(less: Less, xs: seq<Val>)
    requires Total(less) && forall i :: 0 <= i < |xs| ==> xs[i].PairV?
    ensures var ys := FromIter(less, MapKind, xs);
      && (forall i :: 0 <= i < |ys| ==> ys[i].PairV?)
      && (forall i, j :: 0 <= i < j < |ys| ==> less(ys[i].a, ys[j].a))
  {
    hide Total, FromIter;
    FromIterSorted(less, MapKind, xs);
    var ys := FromIter(less, MapKind, xs);
    forall i | 0 <= i < |ys| ensures ys[i].PairV? {
      assert ys[i] in ys;
    }
    forall i, j | 0 <= i < j < |ys| ensures less(ys[i].a, ys[j].a) {
      assert less(Key(MapKind, ys[i]), Key(MapKind, ys[j]));
    }
  }

  lemma MapNorm(env: Env, ord: Orders, k: nat, a: Ty, b: Ty, v: Val)
    requires v.Items?
    ensures Norm(env, ord, k, Coll(MapKind, Pair(a, b)), v) ==
      Items(FromIter(ord(a), MapKind, NormAll(env, ord, |env.defs|, Pair(a, b), v.vs)))
  {
  }

  lemma EntryForm(env: Env, ord: Orders, k: nat, a: Ty, b: Ty, v: Val, i: nat)
    requires WFEnv(env) && WF(env, k, Coll(MapKind, Pair(a, b))) && Typed(env, k, Coll(MapKind, Pair(a, b)), v)
    requires i < |v.vs|
    ensures var d, t := |env.defs|, Pair(a, b);
      && v.vs[i].PairV?
      && NormAll(env, ord, d, t, v.vs)[i] == PairV(Norm(env, ord, d, a, v.vs[i].a), Norm(env, ord, d, b, v.vs[i].b))
  {
    hide WFEnv, NormAll;
    NormAllAt(env, ord, |env.defs|, Pair(a, b), v.vs, i);
    assert Typed(env, |env.defs|, Pair(a, b), v.vs[i]);
  }

  /** One entry of a map: it is there exactly when it was the last read with its key. */
  lemma MapEntry(env: Env, ord: Orders, a: Ty, b: Ty, vs: seq<Val>, xs: seq<Val>, e: Val)
    requires Total(ord(a)) && |xs| == |vs|
    requires forall i :: 0 <= i < |vs| ==> vs[i].PairV?
    requires forall i :: 0 <= i < |vs| ==>
      xs[i] == PairV(Norm(env, ord, |env.defs|, a, vs[i].a), Norm(env, ord, |env.defs|, b, vs[i].b))
    ensures e in FromIter(ord(a), MapKind, xs) <==> exists i :: LastOfItsKey(env, ord, a, b, vs, i, e)
  {
    hide Norm, Total, FromIter, Find, LastWith;
    var ys := FromIter(ord(a), MapKind, xs);
    FromIterSorted(ord(a), MapKind, xs);
    if e.PairV? {
      FoundIff(ord(a), MapKind, ys, e);
      FromIterKeepsLast(ord(a), MapKind, xs, e.a);
      if LastWith(MapKind, xs, e.a) == Some(e) {
        var i := LastPosition(MapKind, xs, e.a);
        assert LastOfItsKey(env, ord, a, b, vs, i, e);
      }
      if i :| LastOfItsKey(env, ord, a, b, vs, i, e) {
        LastIsFound(MapKind, xs, e.a, i);
      }
    }
  }

  /** In a sorted list, an entry is the one found for its key. */
  lemma FoundIff(less: Less, kind: Kind, ys: seq<Val>, e: Val)
    requires Total(less) && Sorted(less, kind, ys)
    ensures e in ys <==> Find(kind, ys, Key(kind, e)) == Some(e)
  {
    hide Find;
    if e in ys {
      FindSelf(less, kind, ys, e);
    }
    if Find(kind, ys, Key(kind, e)) == Some(e) {
      FindIn(kind, ys, Key(kind, e));
    }
  }

  lemma {:induction false} FindSelf(less: Less, kind: Kind, ys: seq<Val>, e: Val)
    requires Total(less) && Sorted(less, kind, ys) && e in ys
    ensures Find(kind, ys, Key(kind, e)) == Some(e)
    decreases |ys|
  {
    if ys[0] != e {
      var i :| 0 <= i < |ys| && ys[i] == e;
      assert less(Key(kind, ys[0]), Key(kind, ys[i]));
      assert ys[1..][i - 1] == e;
      FindSelf(less, kind, ys[1..], e);
    }
  }

  /** Position i is the last with the key. */
  ghost predicate LastAt(kind: Kind, xs: seq<Val>, key: Val, i: int) {
    0 <= i < |xs| && Key(kind, xs[i]) == key && forall j :: i < j < |xs| ==> Key(kind, xs[j]) != key
  }

  lemma {:induction false} LastPosition(kind: Kind, xs: seq<Val>, key: Val) returns (i: int)
    requires LastWith(kind, xs, key).Some?
    ensures LastAt(kind, xs, key, i) && LastWith(kind, xs, key) == Some(xs[i])
    decreases |xs|
  {
    hide Key;
    i := |xs| - 1;
    if Key(kind, xs[i]) != key {
      i := LastPosition(kind, xs[..i], key);
    }
  }

  lemma {:induction false} LastIsFound(kind: Kind, xs: seq<Val>, key: Val, i: int)
    requires LastAt(kind, xs, key, i)
    ensures LastWith(kind, xs, key) == Some(xs[i])
    decreases |xs|
  {
    hide Key;
    var last := |xs| - 1;
    if i < last {
      LastIsFound(kind, xs[..last], key, i);
    }
  }

  /** A decoded set is strictly sorted in the order of its type and holds exactly what was read. */
  lemma SetEntries(env: Env, ord: Orders, k: nat, t: Ty, v: Val)
    requires WFEnv(env) && WF(env, k, Coll(SetKind, t)) && Typed(env, k, Coll(SetKind, t), v) && AllTotal(ord)
    ensures var n := Norm(env, ord, k, Coll(SetKind, t), v);
      && n.Items? && (forall i, j :: 0 <= i < j < |n.vs| ==> ord(t)(n.vs[i], n.vs[j]))
      && (forall e :: e in n.vs <==> exists i :: 0 <= i < |v.vs| && e == Norm(env, ord, |env.defs|, t, v.vs[i]))
  {
    var d := |env.defs|;
    var xs := NormAll(env, ord, d, t, v.vs);
    var ys := FromIter(ord(t), SetKind, xs);
    assert Norm(env, ord, k, Coll(SetKind, t), v) == Items(ys);
    hide WFEnv, WF, Typed, Norm, NormAll, Total, FromIter, Find, LastWith;
    FromIterSorted(ord(t), SetKind, xs);
    forall i | 0 <= i < |v.vs| ensures xs[i] == Norm(env, ord, d, t, v.vs[i]) {
      NormAllAt(env, ord, d, t, v.vs, i);
    }
    forall e ensures e in ys <==> e in xs {
      FoundIff(ord(t), SetKind, ys, e);
      FromIterKeepsLast(ord(t), SetKind, xs, e);
      LastWithIn(SetKind, xs, e);
    }
  }
}
