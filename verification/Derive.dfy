/** What the derive macros emit for structs and enums, as types of the universe. */
module Derive {
  import opened Bytes
  import opened Types
  import opened Input
  import opened Encode
  import opened Decode
  import opened Lengths
  import opened Theorems
  import opened Collect
  import opened Built
  import opened Tight

  /** A field and its attribute; ty is its declared type. */
  datatype Field =
    | PlainField(ty: Ty)
    | CompactField(w: nat)                // #[codec(compact)] on an integer of w bytes
    | EncodedAs(ty: Ty, repr: Ty)         // #[codec(encoded_as = "...")]
    | SkipField(default: Val)             // #[codec(skip)]

  /** A variant with its index attribute and its discriminant. */
  datatype VariantDef = VariantDef(skip: bool, index: Option<byte>, discriminant: Option<int>, fields: seq<Field>)

  /** The type a field is encoded and decoded as. */
  function WireTy(f: Field): Ty {
    match f
    case PlainField(t) => t
    case CompactField(w) => Compact(w)
    case EncodedAs(_, t) => t
    case SkipField(d) => Skip(d)
  }

  /** create_instance: one decode expression per field, in order. */
  function StructTy(fields: seq<Field>): Ty {
    if fields == [] then Unit else Pair(WireTy(fields[0]), StructTy(fields[1..]))
  }

  function Pack(vals: seq<Val>): Val {
    if vals == [] then UnitV else PairV(vals[0], Pack(vals[1..]))
  }

  ghost predicate WFFields(env: Env, k: nat, fields: seq<Field>) {
    forall i :: 0 <= i < |fields| ==> WF(env, k, WireTy(fields[i]))
  }

  ghost predicate TypedFields(env: Env, k: nat, fields: seq<Field>, vals: seq<Val>)
    requires WFEnv(env) && WFFields(env, k, fields)
  {
    |vals| == |fields| && forall i :: 0 <= i < |fields| ==> Typed(env, k, WireTy(fields[i]), vals[i])
  }

  /** encode_fields: every field that is not skipped, in order. */
  function EncodeFields(env: Env, k: nat, fields: seq<Field>, vals: seq<Val>): seq<byte>
    requires WFEnv(env) && WFFields(env, k, fields) && TypedFields(env, k, fields, vals)
  {
    if fields == [] then []
    else
      var rest := EncodeFields(env, k, fields[1..], vals[1..]);
      if fields[0].SkipField? then rest else Enc(env, k, WireTy(fields[0]), vals[0]) + rest
  }

  /** The positions of the fields that are not skipped. */
  function Kept(fields: seq<Field>): (kept: seq<nat>)
    ensures forall j :: 0 <= j < |kept| ==> kept[j] < |fields|
  {
    if fields == [] then []
    else
      var init := Kept(fields[..|fields| - 1]);
      if fields[|fields| - 1].SkipField? then init else init + [|fields| - 1]
  }

  /** The struct encoder: with exactly one field left, that field encodes for the whole struct. */
  function EncodeStruct(env: Env, k: nat, fields: seq<Field>, vals: seq<Val>): seq<byte>
    requires WFEnv(env) && WFFields(env, k, fields) && TypedFields(env, k, fields, vals)
  {
    var kept := Kept(fields);
    if |kept| == 1 then Enc(env, k, WireTy(fields[kept[0]]), vals[kept[0]])
    else EncodeFields(env, k, fields, vals)
  }

  lemma {:induction false} StructWF(env: Env, k: nat, fields: seq<Field>, vals: seq<Val>)
    requires WFEnv(env) && WFFields(env, k, fields) && TypedFields(env, k, fields, vals)
    ensures WF(env, k, StructTy(fields)) && Typed(env, k, StructTy(fields), Pack(vals))
    decreases |fields|
  {
    hide WFEnv;
    if fields != [] {
      StructWF(env, k, fields[1..], vals[1..]);
    }
  }

  lemma {:induction false} FieldsArePairs(env: Env, k: nat, fields: seq<Field>, vals: seq<Val>)
    requires WFEnv(env) && WFFields(env, k, fields) && TypedFields(env, k, fields, vals)
    requires WF(env, k, StructTy(fields)) && Typed(env, k, StructTy(fields), Pack(vals))
    ensures EncodeFields(env, k, fields, vals) == Enc(env, k, StructTy(fields), Pack(vals))
    decreases |fields|
  {
    hide WFEnv;
    if fields != [] {
      StructWF(env, k, fields[1..], vals[1..]);
      FieldsArePairs(env, k, fields[1..], vals[1..]);
    }
  }

  /** Dropping the last field, or the only one that is kept. */
  lemma {:induction false} FieldsSnoc(env: Env, k: nat, fields: seq<Field>, vals: seq<Val>)
    requires WFEnv(env) && WFFields(env, k, fields) && TypedFields(env, k, fields, vals) && fields != []
    ensures var n := |fields| - 1;
      && WFFields(env, k, fields[..n]) && TypedFields(env, k, fields[..n], vals[..n])
      && EncodeFields(env, k, fields, vals) == EncodeFields(env, k, fields[..n], vals[..n]) +
         (if fields[n].SkipField? then [] else Enc(env, k, WireTy(fields[n]), vals[n]))
    decreases |fields|
  {
    hide WFEnv, WF, Typed, Enc;
    var n := |fields| - 1;
    if n > 0 {
      FieldsSnoc(env, k, fields[1..], vals[1..]);
      assert fields[1..][..n - 1] == fields[..n][1..] && vals[1..][..n - 1] == vals[..n][1..];
    }
  }

  lemma {:induction false} KeptEncodes(env: Env, k: nat, fields: seq<Field>, vals: seq<Val>)
    requires WFEnv(env) && WFFields(env, k, fields) && TypedFields(env, k, fields, vals)
    ensures var kept := Kept(fields);
      && (|kept| == 0 ==> EncodeFields(env, k, fields, vals) == [])
      && (|kept| == 1 ==> EncodeFields(env, k, fields, vals) == Enc(env, k, WireTy(fields[kept[0]]), vals[kept[0]]))
    decreases |fields|
  {
    hide WFEnv, WF, Typed, Enc, EncodeFields;
    if fields == [] {
      NoFields(env, k, fields, vals);
    } else {
      FieldsSnoc(env, k, fields, vals);
      KeptEncodes(env, k, fields[..|fields| - 1], vals[..|fields| - 1]);
    }
  }

  lemma NoFields(env: Env, k: nat, fields: seq<Field>, vals: seq<Val>)
    requires WFEnv(env) && WFFields(env, k, fields) && TypedFields(env, k, fields, vals) && fields == []
    ensures EncodeFields(env, k, fields, vals) == []
  {
  }

  /** The single-field shortcut changes nothing: a struct encodes as the tuple of its fields. */
  lemma StructIsTuple(env: Env, k: nat, fields: seq<Field>, vals: seq<Val>)
    requires WFEnv(env) && WFFields(env, k, fields) && TypedFields(env, k, fields, vals)
    ensures WF(env, k, StructTy(fields)) && Typed(env, k, StructTy(fields), Pack(vals))
    ensures EncodeStruct(env, k, fields, vals) == Enc(env, k, StructTy(fields), Pack(vals))
  {
    hide WFEnv, WF, Typed, Enc, EncodeFields;
    StructWF(env, k, fields, vals);
    FieldsArePairs(env, k, fields, vals);
    KeptEncodes(env, k, fields, vals);
  }

  /** variant_index as u8: the attribute, else the discriminant, else the position. */
  function VariantByte(v: VariantDef, i: nat): byte {
    if v.index.Some? then v.index.value
    else if v.discriminant.Some? then v.discriminant.value % 256
    else i % 256
  }

  /** The variants with their bytes; positions count the variants that are not skipped. */
  function VariantsFrom(defs: seq<VariantDef>, i: nat): Variants {
    if defs == [] then VNil
    else if defs[0].skip then VCons(true, 0, Skip(UnitV), VariantsFrom(defs[1..], i))
    else VCons(false, VariantByte(defs[0], i), StructTy(defs[0].fields), VariantsFrom(defs[1..], i + 1))
  }

  function Count(vs: Variants): nat {
    if vs.VNil? then 0 else 1 + Count(vs.tail)
  }

  /** No variant is skipped and no two share a byte. */
  ghost predicate Unambiguous(vs: Variants) {
    && (forall i :: 0 <= i < Count(vs) ==> Encoded(vs, i))
    && (forall i, j :: 0 <= i < j < Count(vs) ==> TagAt(vs, i) != TagAt(vs, j))
  }

  predicate Encoded(vs: Variants, i: nat) {
    VariantAt(vs, i).VCons? && !VariantAt(vs, i).skip
  }

  function TagAt(vs: Variants, i: nat): byte {
    var x := VariantAt(vs, i);
    if x.VCons? then x.tag else 0
  }

  lemma {:induction false} ArmExact(vs: Variants, tag: byte)
    ensures var r := Arm(vs, tag);
      && (r.Some? ==> r.value < Count(vs) && Encoded(vs, r.value) && TagAt(vs, r.value) == tag)
      && (forall i :: 0 <= i < Count(vs) && Encoded(vs, i) && TagAt(vs, i) == tag ==> r.Some? && r.value <= i)
    decreases vs
  {
    if vs.VCons? {
      ArmExact(vs.tail, tag);
      forall i | 0 <= i < Count(vs) && Encoded(vs, i) && TagAt(vs, i) == tag
        ensures Arm(vs, tag).Some? && Arm(vs, tag).value <= i
      {
        if i > 0 {
          assert Encoded(vs.tail, i - 1) && TagAt(vs.tail, i - 1) == tag;
        }
      }
    }
  }

  /** Every variant can be decoded exactly when none is skipped and their bytes are distinct. */
  lemma AllReachableIff(vs: Variants)
    ensures (forall i :: 0 <= i < Count(vs) ==> Reachable(vs, i)) <==> Unambiguous(vs)
  {
    forall i | 0 <= i < Count(vs)
      ensures Reachable(vs, i) <==> Encoded(vs, i) && Arm(vs, TagAt(vs, i)) == Some(i)
    {
    }
    if Unambiguous(vs) {
      forall i | 0 <= i < Count(vs) ensures Reachable(vs, i) {
        assert Encoded(vs, i);
        ArmExact(vs, TagAt(vs, i));
        var r := Arm(vs, TagAt(vs, i));
        assert r.Some? && r.value <= i && TagAt(vs, r.value) == TagAt(vs, i);
      }
    }
    if forall i :: 0 <= i < Count(vs) ==> Reachable(vs, i) {
      forall i, j | 0 <= i < j < Count(vs) ensures TagAt(vs, i) != TagAt(vs, j) {
        assert Reachable(vs, i) && Reachable(vs, j);
      }
      forall i | 0 <= i < Count(vs) ensures Encoded(vs, i) {
        assert Reachable(vs, i);
      }
    }
  }

  /**
   Two variants may share a byte: in an enum { A = 1, B } both are written as 1, and what was
   written for B is read back as A.
   */
  lemma SharedByteReadsFirst(env: Env, ord: Orders, k: nat)
    requires WFEnv(env)
    ensures var ty := Enum(VariantsFrom([VariantDef(false, None, Some(1), []), VariantDef(false, None, None, [])], 0));
      && WF(env, k, ty) && Typed(env, k, ty, Variant(1, UnitV))
      && Enc(env, k, ty, Variant(1, UnitV)) == [1]
      && DecodeAll(env, ord, Plain(0), k, ty, [1]) == Some(Variant(0, UnitV))
  {
    hide WFEnv;
    var a, b := VariantDef(false, None, Some(1), []), VariantDef(false, None, None, []);
    var defs := [a, b];
    assert defs[1..] == [b] && [b][1..] == [];
    var last := VCons(false, 1, Unit, VNil);
    assert VariantsFrom([b], 1) == last;
    var vs := VCons(false, 1, Unit, last);
    assert VariantsFrom(defs, 0) == vs;
    assert WFVariants(env, k, last) && WFVariants(env, k, vs);
    assert TypedVariant(env, k, last, 0, UnitV) && vs.tail == last;
    assert TypedVariant(env, k, vs, 1, UnitV);
    assert EncVariant(env, k, last, 0, UnitV) == [1];
    assert Enc(env, k, Enum(vs), Variant(1, UnitV)) == [1];
    hide Enc, Typed, EncVariant, TypedVariant, DecodeAll;
    FirstArm(env, ord, k, vs);
  }

  lemma FirstArm(env: Env, ord: Orders, k: nat, vs: Variants)
    requires WFEnv(env) && vs.VCons? && !vs.skip && vs.tag == 1 && vs.ty == Unit && WF(env, k, Enum(vs))
    ensures DecodeAll(env, ord, Plain(0), k, Enum(vs), [1]) == Some(Variant(0, UnitV))
  {
    hide WFEnv;
    var st1 := ReadByte(Start([1])).st;
    assert RunVariant(env, Plain(0), k, vs, 1, st1) == Ok(st1, (0, UnitV));
    assert NormVariant(env, ord, k, vs, 0, UnitV) == UnitV;
  }

  /** derive(MaxEncodedLen) for the fields of a struct: it looks at the declared type. */
  function DerivedLen(env: Env, k: nat, fields: seq<Field>): Option<nat>
    requires WFEnv(env)
    decreases |fields|
  {
    if fields == [] then Some(0)
    else
      var own := match fields[0]
                 case SkipField(_) => Some(0)
                 case EncodedAs(t, _) => MaxLen(env, k, t)
                 case _ => MaxLen(env, k, WireTy(fields[0]));
      Plus(env, own, DerivedLen(env, k, fields[1..]))
  }

  /** Without encoded_as fields, the derived bound holds for every value. */
  lemma DerivedLenSound(env: Env, k: nat, fields: seq<Field>, vals: seq<Val>)
    requires WFEnv(env) && WFFields(env, k, fields) && TypedFields(env, k, fields, vals)
    requires DerivedLen(env, k, fields).Some?
    requires forall i :: 0 <= i < |fields| ==> !fields[i].EncodedAs?
    ensures Sat(env, |EncodeStruct(env, k, fields, vals)|) <= DerivedLen(env, k, fields).value
  {
    hide WFEnv, WF, Typed, Enc, MaxLen, UsizeMax, Sat, EncodeStruct;
    StructIsTuple(env, k, fields, vals);
    DerivedIsMaxLen(env, k, fields);
    MaxLenSound(env, k, k, StructTy(fields), Pack(vals));
  }

  lemma {:induction false} DerivedIsMaxLen(env: Env, k: nat, fields: seq<Field>)
    requires WFEnv(env) && forall i :: 0 <= i < |fields| ==> !fields[i].EncodedAs?
    ensures DerivedLen(env, k, fields) == MaxLen(env, k, StructTy(fields))
    decreases |fields|
  {
    hide WFEnv, UsizeMax;
    if fields != [] {
      DerivedIsMaxLen(env, k, fields[1..]);
    }
  }

  /**
   With encoded_as the derived bound can be too small: an integer of any width encoded as its
   compact form outgrows the bound at its largest value.
   */
  lemma EncodedAsBreaksBound(env: Env, k: nat, w: nat)
    requires WFEnv(env) && IsWidth(w)
    ensures var fields, vals := [EncodedAs(Prim(w), Compact(w))], [Num(Pow256(w) - 1)];
      && WFFields(env, k, fields) && TypedFields(env, k, fields, vals)
      && DerivedLen(env, k, fields) == Some(w)
      && |EncodeStruct(env, k, fields, vals)| > w
  {
    hide WFEnv, UsizeMax, Pow256;
    var fields, vals := [EncodedAs(Prim(w), Compact(w))], [Num(Pow256(w) - 1)];
    assert fields[1..] == [] && fields[..0] == [];
    assert Kept(fields[..0]) == [];
    assert Kept(fields) == [0];
    SmallWidth(env, w);
    LargestLength(w);
  }

  lemma SmallWidth(env: Env, w: nat)
    requires WFEnv(env) && IsWidth(w)
    ensures Sat(env, w) == w
  {
    PowValues();
    PowMono(4, env.word);
  }

  /**
   The derived bound holds for all values exactly when the longest encodings of the wire types of
   the fields add up to no more than the bounds of the declared types, which is what
   derive(MaxEncodedLen) sums.
   */
  lemma DerivedLenIff(env: Env, k: nat, fields: seq<Field>)
    requires WFEnv(env) && WFFields(env, k, fields) && DerivedLen(env, k, fields).Some?
    requires Longest(env, k, StructTy(fields)).Some? && Inhabited(env, k, StructTy(fields))
    ensures (forall vals :: TypedFields(env, k, fields, vals) ==>
               Sat(env, |EncodeStruct(env, k, fields, vals)|) <= DerivedLen(env, k, fields).value)
      <==> Longest(env, k, StructTy(fields)).value <= DerivedLen(env, k, fields).value
  {
    hide WFEnv, WF, WFFields, TypedFields, Typed, Enc, Longest, UsizeMax, Sat, EncodeStruct, DerivedLen, Inhabited, StructTy, Pack;
    forall vals | TypedFields(env, k, fields, vals)
      ensures Sat(env, |EncodeStruct(env, k, fields, vals)|) <= Longest(env, k, StructTy(fields)).value
    {
      StructIsTuple(env, k, fields, vals);
      LongestSound(env, k, k, StructTy(fields), Pack(vals));
    }
    var vals := LongestStruct(env, k, fields);
  }

  /** Some struct is as long as the longest encodings of its wire types add up to. */
  lemma LongestStruct(env: Env, k: nat, fields: seq<Field>) returns (vals: seq<Val>)
    requires WFEnv(env) && WFFields(env, k, fields)
    requires Longest(env, k, StructTy(fields)).Some? && Inhabited(env, k, StructTy(fields))
    ensures TypedFields(env, k, fields, vals)
    ensures Sat(env, |EncodeStruct(env, k, fields, vals)|) == Longest(env, k, StructTy(fields)).value
  {
    hide WFEnv, WF, WFFields, TypedFields, Typed, Enc, Longest, UsizeMax, EncodeStruct, Inhabited, StructTy, Pack;
    StructWellFormed(env, k, fields);
    var v := LongestTight(env, k, k, StructTy(fields));
    vals := Unpacked(env, k, fields, v);
    StructIsTuple(env, k, fields, vals);
    SumInRange(env, k, fields);
  }

  lemma SumInRange(env: Env, k: nat, fields: seq<Field>)
    requires WFEnv(env) && Longest(env, k, StructTy(fields)).Some?
    ensures Sat(env, Longest(env, k, StructTy(fields)).value) == Longest(env, k, StructTy(fields)).value
  {
    hide WFEnv, UsizeMax;
  }

  /** derive(MaxEncodedLen) for an enum: the longest variant that is not skipped, and its byte. */
  function DerivedEnumLen(env: Env, k: nat, defs: seq<VariantDef>): Option<nat>
    requires WFEnv(env)
  {
    Plus(env, DerivedVariantsLen(env, k, defs), Some(1))
  }

  function DerivedVariantsLen(env: Env, k: nat, defs: seq<VariantDef>): Option<nat>
    requires WFEnv(env)
  {
    if defs == [] then Some(0)
    else if defs[0].skip then DerivedVariantsLen(env, k, defs[1..])
    else Larger(DerivedLen(env, k, defs[0].fields), DerivedVariantsLen(env, k, defs[1..]))
  }

  /** Without encoded_as fields, the derived bound of an enum is that of its variants on the wire. */
  lemma {:induction false} DerivedVariantsAreMaxLen(env: Env, k: nat, defs: seq<VariantDef>, i: nat)
    requires WFEnv(env)
    requires forall j, f :: 0 <= j < |defs| && f in defs[j].fields ==> !f.EncodedAs?
    ensures DerivedVariantsLen(env, k, defs) == MaxLenVariants(env, k, VariantsFrom(defs, i))
    decreases |defs|
  {
    hide WFEnv, DerivedLen, MaxLen, StructTy;
    if defs != [] {
      var rest := defs[1..];
      forall j, f | 0 <= j < |rest| && f in rest[j].fields ensures !f.EncodedAs? {
        assert rest[j] == defs[j + 1];
      }
      if defs[0].skip {
        DerivedVariantsAreMaxLen(env, k, rest, i);
      } else {
        forall n | 0 <= n < |defs[0].fields| ensures !defs[0].fields[n].EncodedAs? {
          assert defs[0].fields[n] in defs[0].fields;
        }
        DerivedIsMaxLen(env, k, defs[0].fields);
        DerivedVariantsAreMaxLen(env, k, rest, i + 1);
      }
    }
  }

  /** Without encoded_as fields, the derived bound holds for every value of the enum. */
  lemma DerivedEnumSound(env: Env, k: nat, defs: seq<VariantDef>, v: Val)
    requires WFEnv(env) && WF(env, k, Enum(VariantsFrom(defs, 0))) && Typed(env, k, Enum(VariantsFrom(defs, 0)), v)
    requires DerivedEnumLen(env, k, defs).Some?
    requires forall j, f :: 0 <= j < |defs| && f in defs[j].fields ==> !f.EncodedAs?
    ensures Sat(env, |Enc(env, k, Enum(VariantsFrom(defs, 0)), v)|) <= DerivedEnumLen(env, k, defs).value
  {
    hide WFEnv, WF, Typed, Enc, UsizeMax, Sat, DerivedVariantsLen, VariantsFrom;
    DerivedVariantsAreMaxLen(env, k, defs, 0);
    MaxLenSound(env, k, k, Enum(VariantsFrom(defs, 0)), v);
  }

  /** With any fields, the derived bound of an enum holds exactly when no variant is longer on the wire. */
  lemma DerivedEnumIff(env: Env, k: nat, defs: seq<VariantDef>)
    requires WFEnv(env) && WF(env, k, Enum(VariantsFrom(defs, 0))) && DerivedEnumLen(env, k, defs).Some?
    requires Longest(env, k, Enum(VariantsFrom(defs, 0))).Some? && Inhabited(env, k, Enum(VariantsFrom(defs, 0)))
    ensures var ty := Enum(VariantsFrom(defs, 0));
      (forall v :: Typed(env, k, ty, v) ==> Sat(env, |Enc(env, k, ty, v)|) <= DerivedEnumLen(env, k, defs).value)
      <==> Longest(env, k, ty).value <= DerivedEnumLen(env, k, defs).value
  {
    hide WFEnv, WF, Typed, Enc, Inhabited, UsizeMax, DerivedEnumLen, VariantsFrom;
    var ty := Enum(VariantsFrom(defs, 0));
    assert Sat(env, Longest(env, k, ty).value) == Longest(env, k, ty).value;
    hide Longest, Sat;
    forall v | Typed(env, k, ty, v) ensures Sat(env, |Enc(env, k, ty, v)|) <= Longest(env, k, ty).value {
      LongestSound(env, k, k, ty, v);
    }
    var v := LongestTight(env, k, k, ty);
    assert Typed(env, k, ty, v) && Sat(env, |Enc(env, k, ty, v)|) == Longest(env, k, ty).value;
  }

  lemma {:induction false} StructWellFormed(env: Env, k: nat, fields: seq<Field>)
    requires WFFields(env, k, fields)
    ensures WF(env, k, StructTy(fields))
    decreases |fields|
  {
    if fields != [] {
      StructWellFormed(env, k, fields[1..]);
    }
  }

  /** Every value of the tuple is the packing of field values. */
  lemma {:induction false} Unpacked(env: Env, k: nat, fields: seq<Field>, v: Val) returns (vals: seq<Val>)
    requires WFEnv(env) && WFFields(env, k, fields)
    requires WF(env, k, StructTy(fields)) && Typed(env, k, StructTy(fields), v)
    ensures TypedFields(env, k, fields, vals) && Pack(vals) == v
    decreases |fields|
  {
    hide WFEnv;
    if fields == [] {
      vals := [];
    } else {
      var rest := Unpacked(env, k, fields[1..], v.b);
      vals := [v.a] + rest;
      assert vals[1..] == rest;
    }
  }

  /** What one field writes: a compact field the compact form of its number, a skipped one nothing. */
  function FieldBytes(env: Env, k: nat, f: Field, x: Val): seq<byte>
    requires WFEnv(env) && WF(env, k, WireTy(f)) && Typed(env, k, WireTy(f), x)
  {
    match f
    case PlainField(t) => Enc(env, k, t, x)
    case CompactField(w) => CompactOf(w, x.n)
    case EncodedAs(_, repr) => Enc(env, k, repr, x)
    case SkipField(_) => []
  }

  function AllFieldBytes(env: Env, k: nat, fields: seq<Field>, vals: seq<Val>): seq<byte>
    requires WFEnv(env) && WFFields(env, k, fields) && TypedFields(env, k, fields, vals)
  {
    if fields == [] then []
    else FieldBytes(env, k, fields[0], vals[0]) + AllFieldBytes(env, k, fields[1..], vals[1..])
  }

  /** A struct writes its fields in order, each as its attribute says. */
  lemma {:induction false} FieldByField(env: Env, k: nat, fields: seq<Field>, vals: seq<Val>)
    requires WFEnv(env) && WFFields(env, k, fields) && TypedFields(env, k, fields, vals)
    ensures EncodeFields(env, k, fields, vals) == AllFieldBytes(env, k, fields, vals)
    decreases |fields|
  {
    hide WFEnv;
    if fields != [] {
      FieldByField(env, k, fields[1..], vals[1..]);
      OneField(env, k, fields[0], vals[0]);
    }
  }

  lemma OneField(env: Env, k: nat, f: Field, x: Val)
    requires WFEnv(env) && WF(env, k, WireTy(f)) && Typed(env, k, WireTy(f), x)
    ensures FieldBytes(env, k, f, x) == if f.SkipField? then [] else Enc(env, k, WireTy(f), x)
  {
    hide WFEnv;
  }

  /** How many of the first i variants are not skipped. */
  function Unskipped(defs: seq<VariantDef>, i: nat): nat
    requires i <= |defs|
  {
    if i == 0 then 0 else Unskipped(defs, i - 1) + (if defs[i - 1].skip then 0 else 1)
  }

  /** The byte of variant i: its index, else its discriminant, else its position among those encoded. */
  function ByteOf(defs: seq<VariantDef>, i: nat): byte
    requires i < |defs|
  {
    match (defs[i].index, defs[i].discriminant)
    case (Some(b), _) => b
    case (None, Some(n)) => n % 256
    case (None, None) => Unskipped(defs, i) % 256
  }

  lemma {:induction false} UnskippedFront(defs: seq<VariantDef>, i: nat)
    requires 0 < i <= |defs|
    ensures Unskipped(defs, i) == (if defs[0].skip then 0 else 1) + Unskipped(defs[1..], i - 1)
  {
    if i > 1 {
      UnskippedFront(defs, i - 1);
    }
  }

  /** The variants of a derived enum, in order, the encoded ones with their bytes and fields. */
  lemma {:induction false} VariantDefAt(defs: seq<VariantDef>, n: nat, i: nat)
    requires i < |defs|
    ensures var x := VariantAt(VariantsFrom(defs, n), i);
      && x.VCons? && x.skip == defs[i].skip && Count(VariantsFrom(defs, n)) == |defs|
      && (!x.skip ==> x.tag == VariantByte(defs[i], n + Unskipped(defs, i)) && x.ty == StructTy(defs[i].fields))
    decreases i
  {
    CountFrom(defs, n);
    if i > 0 {
      UnskippedFront(defs, i);
      VariantDefAt(defs[1..], if defs[0].skip then n else n + 1, i - 1);
    }
  }

  lemma {:induction false} CountFrom(defs: seq<VariantDef>, n: nat)
    ensures Count(VariantsFrom(defs, n)) == |defs|
    decreases |defs|
  {
    if defs != [] {
      CountFrom(defs[1..], if defs[0].skip then n else n + 1);
    }
  }

  /** A value of variant i is one of its type, and written, reached and reset as such. */
  lemma {:induction false} AtVariant(env: Env, k: nat, vs: Variants, i: nat, v: Val)
    requires WFEnv(env) && WFVariants(env, k, vs) && VariantAt(vs, i).VCons? && !VariantAt(vs, i).skip
    requires WF(env, k, VariantAt(vs, i).ty) && Typed(env, k, VariantAt(vs, i).ty, v)
    ensures var x := VariantAt(vs, i);
      && TypedVariant(env, k, vs, i, v)
      && EncVariant(env, k, vs, i, v) == [x.tag] + Enc(env, k, x.ty, v)
      && ReachVariant(env, k, vs, i, v) == Reach(env, k, x.ty, v)
      && ResetVariant(env, k, vs, i, v) == Reset(env, k, x.ty, v)
    decreases vs
  {
    hide WFEnv, WF, Typed, Enc, Reach, Reset;
    if i > 0 {
      AtVariant(env, k, vs.tail, i - 1, v);
    }
  }

  /** The derived encoder of an enum: the variant's byte, then its fields. */
  lemma EnumWire(env: Env, k: nat, defs: seq<VariantDef>, i: nat, vals: seq<Val>)
    requires WFEnv(env) && WF(env, k, Enum(VariantsFrom(defs, 0))) && i < |defs| && !defs[i].skip
    requires WFFields(env, k, defs[i].fields) && TypedFields(env, k, defs[i].fields, vals)
    ensures var ty, v := Enum(VariantsFrom(defs, 0)), Variant(i, Pack(vals));
      && Typed(env, k, ty, v)
      && Enc(env, k, ty, v) == [ByteOf(defs, i)] + EncodeFields(env, k, defs[i].fields, vals)
  {
    hide WFFields, TypedFields, EncodeFields, VariantsFrom, StructTy, Pack;
    EnumForm(env, k, defs, i, vals);
    hide WFEnv, TypedVariant, EncVariant;
  }

  lemma EnumForm(env: Env, k: nat, defs: seq<VariantDef>, i: nat, vals: seq<Val>)
    requires WFEnv(env) && WFVariants(env, k, VariantsFrom(defs, 0)) && i < |defs| && !defs[i].skip
    requires WFFields(env, k, defs[i].fields) && TypedFields(env, k, defs[i].fields, vals)
    ensures var vs, t, x := VariantsFrom(defs, 0), StructTy(defs[i].fields), Pack(vals);
      && WF(env, k, t) && Typed(env, k, t, x) && TypedVariant(env, k, vs, i, x)
      && EncVariant(env, k, vs, i, x) == [ByteOf(defs, i)] + EncodeFields(env, k, defs[i].fields, vals)
      && ReachVariant(env, k, vs, i, x) == Reach(env, k, t, x)
      && ResetVariant(env, k, vs, i, x) == Reset(env, k, t, x)
  {
    hide WFEnv, WF, Typed, Enc, Reach, Reset, WFFields, TypedFields, EncodeFields, VariantsFrom, StructTy, Pack,
      TypedVariant, EncVariant, ReachVariant, ResetVariant;
    StructWF(env, k, defs[i].fields, vals);
    VariantDefAt(defs, 0, i);
    AtVariant(env, k, VariantsFrom(defs, 0), i, Pack(vals));
    FieldsArePairs(env, k, defs[i].fields, vals);
  }

  /** The decoder's match reaches variant i exactly when it is encoded and no earlier one has its byte. */
  lemma ReachableIff(defs: seq<VariantDef>, i: nat)
    requires i < |defs|
    ensures Reachable(VariantsFrom(defs, 0), i) <==>
      !defs[i].skip && forall j :: 0 <= j < i && !defs[j].skip ==> ByteOf(defs, j) != ByteOf(defs, i)
  {
    hide VariantsFrom, Arm, VariantAt, StructTy;
    var vs := VariantsFrom(defs, 0);
    forall j | 0 <= j < |defs|
      ensures Count(vs) == |defs| && Encoded(vs, j) == !defs[j].skip
      ensures !defs[j].skip ==> TagAt(vs, j) == ByteOf(defs, j)
    {
      VariantDefAt(defs, 0, j);
    }
    hide ByteOf;
    ArmExact(vs, TagAt(vs, i));
  }

  /** What the encoder wrote for variant i is read back as variant i when no earlier one has its byte. */
  lemma EnumReadBack(env: Env, cfg: Cfg, k: nat, defs: seq<VariantDef>, i: nat, vals: seq<Val>, s: seq<byte>)
    requires WFEnv(env) && WFCfg(env, cfg) && WF(env, k, Enum(VariantsFrom(defs, 0))) && i < |defs| && !defs[i].skip
    requires WFFields(env, k, defs[i].fields) && TypedFields(env, k, defs[i].fields, vals)
    requires forall j :: 0 <= j < i && !defs[j].skip ==> ByteOf(defs, j) != ByteOf(defs, i)
    requires var ty, v := Enum(VariantsFrom(defs, 0)), Variant(i, Pack(vals));
      Typed(env, k, ty, v) ==> Fits(cfg, Start([]), Needs(env, k, ty, v))
    ensures var t, x := StructTy(defs[i].fields), Pack(vals);
      && WF(env, k, t) && Typed(env, k, t, x)
      && (Reach(env, k, t, x) ==>
          Accepts(env, cfg, k, Enum(VariantsFrom(defs, 0)),
                  Start([ByteOf(defs, i)] + EncodeFields(env, k, defs[i].fields, vals) + s),
                  Variant(i, Reset(env, k, t, x)), s))
  {
    hide WFFields, TypedFields, EncodeFields, VariantsFrom, StructTy, Pack, ByteOf, Accepts, Fits, Needs, Enc, WFCfg;
    EnumWire(env, k, defs, i, vals);
    EnumForm(env, k, defs, i, vals);
    ReachableIff(defs, i);
    hide TypedVariant, EncVariant, ReachVariant, ResetVariant, WFEnv, Reachable;
    var t, x := StructTy(defs[i].fields), Pack(vals);
    if Reach(env, k, t, x) {
      WireRoundTrip(env, cfg, k, Enum(VariantsFrom(defs, 0)), Variant(i, x), s);
    }
  }

  /** A value of a skipped variant is written as nothing at all, its byte included. */
  lemma SkippedWritesNothing(env: Env, k: nat, defs: seq<VariantDef>, i: nat, v: Val)
    requires WFEnv(env) && WF(env, k, Enum(VariantsFrom(defs, 0))) && i < |defs| && defs[i].skip
    requires Typed(env, k, Enum(VariantsFrom(defs, 0)), Variant(i, v))
    ensures Enc(env, k, Enum(VariantsFrom(defs, 0)), Variant(i, v)) == []
  {
    hide WFEnv, VariantsFrom;
    VariantDefAt(defs, 0, i);
    SkippedAt(env, k, VariantsFrom(defs, 0), i, v);
  }

  lemma {:induction false} SkippedAt(env: Env, k: nat, vs: Variants, i: nat, v: Val)
    requires WFEnv(env) && WFVariants(env, k, vs) && TypedVariant(env, k, vs, i, v)
    requires VariantAt(vs, i).VCons? && VariantAt(vs, i).skip
    ensures EncVariant(env, k, vs, i, v) == []
    decreases vs
  {
    hide WFEnv, WF, Typed, Enc;
    if i > 0 {
      SkippedAt(env, k, vs.tail, i - 1, v);
    }
  }
}
