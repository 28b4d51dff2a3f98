/** Which values come back from their text unchanged, and not only as their normal form (ValueToJSON.cpp). */
module ExactJson {
  import opened Common
  import opened Values
  import opened Methods
  import opened UidText
  import opened TypedJson

  //
  // Integers
  //

  /**
   * Of an integer, whatever its kind, the number comes back exactly if it lies in the range of the integers that the
   * type reads, and the whole value exactly if it is of that kind already.
   */
  lemma IntegerComesBackIff(kind: IntKind, n: int, width: nat, signed: bool, name: Naming, find: Finding)
    requires InRange(kind, n)
    ensures var v, t := Integer(kind, n), Type(None, Number(width, signed));
      && ToJson(v, t, name).Ok?
      && var back := FromJson(ToJson(v, t, name).value, t, find);
      && back.Ok? && back.value.Integer?
      && (back.value.n == n <==> InRange(NumberKind(width, signed), n))
      && (back.value == v <==> kind == NumberKind(width, signed))
  {
    hide Cast;
    CastNarrow(width, signed, n);
    assert InRange(NumberKind(width, signed), Cast(NumberKind(width, signed), n));
  }

  /** Three ways to fall outside: too wide, the wrong sign at the same width, and a negative number read unsigned. */
  lemma IntegersThatChange(name: Naming, find: Finding)
    ensures ToJson(Integer(U16, 300), Type(None, Number(1, false)), name) == Ok(JInt(300))
    ensures FromJson(JInt(300), Type(None, Number(1, false)), find) == Ok(Integer(U8, 44))
    ensures ToJson(Integer(U8, 200), Type(None, Number(1, true)), name) == Ok(JInt(200))
    ensures FromJson(JInt(200), Type(None, Number(1, true)), find) == Ok(Integer(I8, -56))
    ensures ToJson(Integer(I8, -1), Type(None, Number(1, false)), name) == Ok(JInt(TWO_TO_64 - 1))
    ensures FromJson(JInt(TWO_TO_64 - 1), Type(None, Number(1, false)), find) == Ok(Integer(U8, 255))
  {
  }

  //
  // All values
  //

  /** No field with a name stands before one without. */
  predicate MandatoryFirst(vs: seq<Value>) {
    forall i, j :: 0 <= i < j < |vs| && vs[i].Named? ==> vs[j].Named?
  }

  /**
   * A value is exact for its type: integers have the kind the type reads, keys and enumeration values are uint16,
   * references have eight bytes and type tags four, and mandatory fields come first.
   */
  predicate Exact(v: Value, t: Type)
    decreases t, 0, 0
  {
    match t.shape
    case Enumerated(_) => v.Integer? && v.kind == U16
    case Number(width, signed) => v.Integer? && v.kind == NumberKind(width, signed)
    case Octets => v.Bytes?
    case Alternative(types) =>
      && v.Named? && v.name.Bytes? && |v.name.bytes| == 4
      && var i := FindType(types, TypeUid(LowerHalf(v.name.bytes).value));
      && i.Ok? && Exact(v.value, types[i.value])
    case ListOf(element) => v.List? && forall i :: 0 <= i < |v.items| ==> Exact(v.items[i], element)
    case Struct(elements) =>
      && v.List? && MandatoryFirst(v.items)
      && MandatoryExact(Filter(IsPlain, v.items), elements)
      && OptionalExact(Filter(IsField, v.items), elements)
    case Reference => v.Bytes? && |v.bytes| == 8
    case NamedValue(_, valueType) => v.Named? && v.name.Integer? && v.name.kind == U16 && Exact(v.value, valueType)
    case Unsupported => false
  }

  predicate MandatoryExact(vs: seq<Value>, elements: seq<Type>)
    decreases elements, 1, 0
  {
    elements == [] || vs == [] ||
    if elements[0].shape.NamedValue? then MandatoryExact(vs, elements[1..])
    else Exact(vs[0], elements[0]) && MandatoryExact(vs[1..], elements[1..])
  }

  predicate OptionalExact(vs: seq<Value>, elements: seq<Type>)
    requires forall v :: v in vs ==> v.Named?
    decreases elements, 1, |vs|
  {
    vs == [] ||
    (&& vs[0].name.Integer? && vs[0].name.kind == U16
     && var i := OptionalIndex(elements, vs[0].name.n);
     && i >= 0
     && (assert elements[i].shape.valueType < elements[i]; Exact(vs[0].value, elements[i].shape.valueType))
     && OptionalExact(vs[1..], elements))
  }

  lemma KeyIsExact(v: Value)
    requires v.Integer? && WellTyped(v)
    ensures v == Integer(U16, Cast(U64, v.n)) <==> v.kind == U16
    ensures v.kind == U16 ==> Cast(U64, v.n) == v.n && Cast(U16, v.n) == v.n
  {
  }

  lemma NumberIsExact(v: Value, kind: IntKind)
    requires v.Integer? && WellTyped(v)
    ensures v == Integer(kind, Cast(kind, v.n)) <==> v.kind == kind
  {
  }

  lemma CutIsExact(b: seq<byte>, n: nat)
    requires |b| >= n
    ensures b[..n] == b <==> |b| == n
  {
  }

  /** A value that prints is its own normal form exactly if it is exact. */
  lemma {:induction false} NormalIff(v: Value, t: Type, name: Naming)
    requires WellTyped(v) && ToJson(v, t, name).Ok?
    ensures NormalForm(v, t) == v <==> Exact(v, t)
    decreases t, 0, 0
  {
    hide Cast, RefText, LowerHalf, FindType, Filter, BytesToText, OptionalIndex, NumberKind, UidOfBytes;
    match t.shape
    case Enumerated(_) =>
      NumberIsExact(v, U16);
    case Number(width, signed) =>
      NumberIsExact(v, NumberKind(width, signed));
    case Octets =>
    case Alternative(types) =>
      LowerHalfOk(v.name.bytes);
      CutIsExact(v.name.bytes, 4);
      NormalIff(v.value, types[FindType(types, TypeUid(LowerHalf(v.name.bytes).value)).value], name);
    case ListOf(element) =>
      EachNormalIff(v.items, element, name);
    case Struct(elements) =>
      StructNormalIff(v.items, elements, name);
    case Reference =>
      ReferenceBytes(v.bytes);
      CutIsExact(v.bytes, 8);
    case NamedValue(key, valueType) =>
      KeyIsExact(v.name);
      NormalIff(v.value, valueType, name);
    case Unsupported =>
  }

  lemma {:induction false} EachNormalIff(vs: seq<Value>, element: Type, name: Naming)
    requires AllWellTyped(vs) && EachToJson(vs, element, name).Ok?
    ensures NormalEach(vs, element) == vs <==> forall i :: 0 <= i < |vs| ==> Exact(vs[i], element)
    decreases element, 1, |vs|
  {
    hide ToJson, NormalForm, Exact;
    if vs != [] {
      NormalIff(vs[0], element, name);
      EachNormalIff(vs[1..], element, name);
      ConsEquals(NormalForm(vs[0], element), NormalEach(vs[1..], element), vs);
      assert forall i :: 0 < i < |vs| ==> vs[i] == vs[1..][i - 1];
    }
  }

  lemma ConsEquals<T>(x: T, rest: seq<T>, s: seq<T>)
    requires s != []
    ensures [x] + rest == s <==> x == s[0] && rest == s[1..]
  {
    assert s == [s[0]] + s[1..];
    if [x] + rest == s {
      assert rest == ([x] + rest)[1..];
    }
  }

  lemma {:induction false} MandatoryNormalIff(vs: seq<Value>, elements: seq<Type>, name: Naming)
    requires AllWellTyped(vs) && MandatoryToJson(vs, elements, name).Ok?
    ensures NormalMandatory(vs, elements) == vs <==> MandatoryExact(vs, elements)
    decreases elements, 1, 0
  {
    hide ToJson, NormalForm, Exact;
    if elements != [] {
      if elements[0].shape.NamedValue? {
        MandatoryNormalIff(vs, elements[1..], name);
        assert NormalMandatory(vs, elements) == NormalMandatory(vs, elements[1..]);
      } else {
        NormalIff(vs[0], elements[0], name);
        MandatoryNormalIff(vs[1..], elements[1..], name);
        ConsEquals(NormalForm(vs[0], elements[0]), NormalMandatory(vs[1..], elements[1..]), vs);
      }
    }
  }

  lemma {:induction false} OptionalNormalIff(vs: seq<Value>, elements: seq<Type>, name: Naming)
    requires forall v :: v in vs ==> v.Named?
    requires AllWellTyped(vs) && OptionalToJson(vs, elements, name).Ok?
    ensures NormalOptional(vs, elements) == vs <==> OptionalExact(vs, elements)
    decreases elements, 1, |vs|
  {
    hide ToJson, NormalForm, Exact, Cast, OptionalIndex;
    if vs != [] {
      var i := OptionalIndex(elements, Cast(U64, vs[0].name.n));
      assert elements[i].shape.valueType < elements[i];
      KeyIsExact(vs[0].name);
      NormalIff(vs[0].value, elements[i].shape.valueType, name);
      OptionalNormalIff(vs[1..], elements, name);
      ConsEquals(Named(Integer(U16, Cast(U64, vs[0].name.n)), NormalForm(vs[0].value, elements[i].shape.valueType)),
                 NormalOptional(vs[1..], elements), vs);
    }
  }

  lemma {:induction false} MandatoryFirstIff(vs: seq<Value>)
    ensures MandatoryFirst(vs) <==> vs == Filter(IsPlain, vs) + Filter(IsField, vs)
  {
    if vs != [] {
      hide Filter, MandatoryFirst;
      MandatoryFirstIff(vs[1..]);
      if vs[0].Named? {
        FieldFirst(vs);
      } else {
        PlainFirst(vs);
      }
    }
  }

  /** Neither side of the equivalence looks at a plain value in front. */
  lemma PlainFirst(vs: seq<Value>)
    requires vs != [] && !vs[0].Named?
    ensures MandatoryFirst(vs) <==> MandatoryFirst(vs[1..])
    ensures vs == Filter(IsPlain, vs) + Filter(IsField, vs)
            <==> vs[1..] == Filter(IsPlain, vs[1..]) + Filter(IsField, vs[1..])
  {
    var rest := vs[1..];
    assert vs == [vs[0]] + rest;
    assert forall i :: 0 < i < |vs| ==> vs[i] == rest[i - 1];
    PlainInFront(vs);
    hide Filter;
    AppendAssociates([vs[0]], Filter(IsPlain, rest), Filter(IsField, rest));
    ConsEquals(vs[0], Filter(IsPlain, rest) + Filter(IsField, rest), vs);
  }

  lemma PlainInFront(vs: seq<Value>)
    requires vs != [] && !vs[0].Named?
    ensures Filter(IsPlain, vs) == [vs[0]] + Filter(IsPlain, vs[1..])
    ensures Filter(IsField, vs) == Filter(IsField, vs[1..])
  {
  }

  /** A list that starts with a named field has its mandatory fields first only if it has none. */
  lemma FieldFirst(vs: seq<Value>)
    requires vs != [] && vs[0].Named?
    ensures MandatoryFirst(vs) <==> vs == Filter(IsPlain, vs) + Filter(IsField, vs)
  {
    hide Filter, MandatoryFirst;
    if MandatoryFirst(vs) {
      OnlyFields(vs);
    } else if vs == Filter(IsPlain, vs) + Filter(IsField, vs) {
      NothingPlain(vs);
    }
  }

  lemma OnlyFields(vs: seq<Value>)
    requires vs != [] && vs[0].Named? && MandatoryFirst(vs)
    ensures vs == Filter(IsPlain, vs) + Filter(IsField, vs)
  {
    hide Filter;
    assert forall j :: 0 <= j < |vs| ==> vs[j].Named?;
    FilterNone(IsPlain, vs);
    FilterAll(IsField, vs);
  }

  lemma NothingPlain(vs: seq<Value>)
    requires vs != [] && vs[0].Named? && vs == Filter(IsPlain, vs) + Filter(IsField, vs)
    ensures MandatoryFirst(vs)
  {
    hide Filter;
    var plain, fields := Filter(IsPlain, vs), Filter(IsField, vs);
    forall i | 0 <= i < |plain| ensures !plain[i].Named? {
      assert plain[i] in plain;
    }
    assert |plain| == 0;
    forall j | 0 <= j < |vs| ensures vs[j].Named? {
      assert vs[j] in fields;
    }
  }

  lemma FilteredWellTyped(vs: seq<Value>, keep: Value -> bool)
    requires AllWellTyped(vs)
    ensures AllWellTyped(Filter(keep, vs))
  {
    var kept := Filter(keep, vs);
    forall i | 0 <= i < |kept| ensures WellTyped(kept[i]) {
      assert kept[i] in vs;
    }
  }

  lemma {:induction false} StructNormalIff(vs: seq<Value>, elements: seq<Type>, name: Naming)
    requires AllWellTyped(vs)
    requires MandatoryToJson(Filter(IsPlain, vs), elements, name).Ok?
    requires OptionalToJson(Filter(IsField, vs), elements, name).Ok?
    ensures NormalMandatory(Filter(IsPlain, vs), elements) + NormalOptional(Filter(IsField, vs), elements) == vs
      <==> MandatoryFirst(vs) && MandatoryExact(Filter(IsPlain, vs), elements)
           && OptionalExact(Filter(IsField, vs), elements)
    decreases elements, 2, 0
  {
    hide ToJson, NormalForm, Exact, Filter, MandatoryFirst, MandatoryExact, OptionalExact, AllWellTyped;
    var plain, fields := Filter(IsPlain, vs), Filter(IsField, vs);
    FilteredWellTyped(vs, IsPlain);
    FilteredWellTyped(vs, IsField);
    MandatoryNormalIff(plain, elements, name);
    OptionalNormalIff(fields, elements, name);
    MandatoryFirstIff(vs);
    StableStruct(vs, elements, name);
  }

  /**
   * The exact condition of the typed JSON round trip: a value that prints comes back unchanged if and only if it is
   * exact for its type.
   */
  lemma ComesBackIff(v: Value, t: Type, name: Naming, find: Finding)
    requires WellTyped(v) && ToJson(v, t, name).Ok? && AllSafe(Uids(v, t), name, find)
    ensures FromJson(ToJson(v, t, name).value, t, find) == Ok(v) <==> Exact(v, t)
  {
    hide ToJson, FromJson, NormalForm, Exact, AllSafe, Uids;
    RoundTrip(v, t, name, find);
    NormalIff(v, t, name);
  }
}
