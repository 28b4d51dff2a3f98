/** Values as JSON under a type, and back (ValueToJSON.cpp; the types are those of Type.hpp). */
module TypedJson {
  import opened Common
  import opened FlatBinary
  import opened Values
  import opened Methods
  import opened UidText
  import opened TwoWay

  datatype Json =
    | JInt(n: int)
    | JString(text: Text)
    | JArray(items: seq<Json>)
    | JObject(fields: seq<Field>)   // in the order of their keys
    | JOther                        // null, booleans, floating point

  datatype Field = Field(key: Text, value: Json)

  function Lookup(fields: seq<Field>, key: Text): (j: Option<Json>)
    ensures j.Some? ==> Field(key, j.value) in fields
  {
    if fields == [] then None
    else if fields[0].key == key then Some(fields[0].value)
    else Lookup(fields[1..], key)
  }

  predicate Contains(j: Json, key: Text) {
    j.JObject? && Lookup(j.fields, key).Some?
  }

  const FIELD: Text := "field"
  const NAME: Text := "name"
  const VALUE: Text := "value"
  const REF: Text := "ref:"

  //
  // Types
  //

  /** The names of an enumeration's values. */
  type Enumeration = names: Lookups<uint16, Text> | Inverse(names) witness Nothing()

  /** A type, identified or not. */
  datatype Type = Type(uid: Option<UID>, shape: Shape)

  datatype Shape =
    | Enumerated(names: Enumeration)
    | Number(width: nat, signed: bool)
    | Octets
    | Alternative(types: seq<Type>)
    | ListOf(element: Type)
    | Struct(elements: seq<Type>)
    | Reference
    | NamedValue(name: uint16, valueType: Type)
    | Unsupported

  /** The constructor of an enumeration type refuses a value or a name that occurs twice. */
  method NewEnumeration(names: seq<(uint16, Text)>) returns (r: Result<Enumeration>)
    ensures r.Ok? <==> Unique(names)
    ensures r.Err? ==> r.error == InvalidArgument
    ensures r.Ok? ==> Lists(r.value, names)
  {
    hide Inverse, Lists, Unique;
    var lookups := Nothing<uint16, Text>();
    NoPairs<uint16, Text>();
    for i := 0 to |names|
      invariant Inverse(lookups) && Unique(names[..i]) && Lists(lookups, names[..i])
    {
      AddPair(lookups, names, i);
      if names[i].0 in lookups.forward || names[i].1 in lookups.backward {
        return Err(InvalidArgument);
      }
      lookups := Insert(lookups, names[i].0, names[i].1);
    }
    assert names[..|names|] == names;
    r := Ok(lookups);
  }

  const NAME_TYPE: UID := 0x5_0000_020B
  const PASSWORD_TYPE: UID := 0x5_0000_020C

  /** InterpretAsString. */
  predicate AsString(t: Type) {
    t.uid == Some(NAME_TYPE) || t.uid == Some(PASSWORD_TYPE)
  }

  function NumberKind(width: nat, signed: bool): IntKind {
    if signed then (if width == 1 then I8 else if width == 2 then I16 else if width == 4 then I32 else I64)
    else (if width == 1 then U8 else if width == 2 then U16 else if width == 4 then U32 else U64)
  }

  function WideKind(signed: bool): IntKind {
    if signed then I64 else U64
  }

  /**
   * The alternative with an identifier. One without an identifier on the way to it raises InvalidTypeError (type_uid in
   * Type.hpp), which the handler of std::bad_cast around the comparison lets through.
   */
  function FindType(types: seq<Type>, uid: UID): (r: Result<nat>)
    ensures r.Ok? ==> r.value < |types| && types[r.value].uid == Some(uid)
  {
    if types == [] then Err(UnexpectedType)
    else if types[0].uid.None? then Err(InvalidType)
    else if types[0].uid.value == uid then Ok(0)
    else
      var i :- FindType(types[1..], uid);
      Ok(i + 1)
  }

  /** An alternative without an identifier stops the search exactly if none before it is the one. */
  lemma {:induction false} UnidentifiedIff(types: seq<Type>, uid: UID)
    ensures FindType(types, uid) == Err(InvalidType) <==>
      exists i :: 0 <= i < |types| && types[i].uid.None?
                  && forall j :: 0 <= j < i ==> types[j].uid.Some? && types[j].uid.value != uid
  {
    if types != [] {
      var rest := types[1..];
      UnidentifiedIff(rest, uid);
      assert forall i :: 0 < i < |types| ==> types[i] == rest[i - 1];
      if k :| 0 <= k < |rest| && rest[k].uid.None?
              && forall j :: 0 <= j < k ==> rest[j].uid.Some? && rest[j].uid.value != uid {
        assert types[k + 1].uid.None?;
      }
      if k :| 0 <= k < |types| && types[k].uid.None?
              && forall j :: 0 <= j < k ==> types[j].uid.Some? && types[j].uid.value != uid {
        assert k > 0 ==> rest[k - 1].uid.None?;
        assert forall j :: 0 <= j < k - 1 ==> rest[j] == types[j + 1];
      }
    }
  }

  /** The type identifier whose lower half a value carries. */
  function TypeUid(lower: uint32): UID {
    0x5_0000_0000 + lower
  }

  function LowerHalf(b: seq<byte>): Result<uint32> {
    if |b| < 4 then Err(InvalidArgument)
    else
      WriteAfterRead(b[..4]);
      PowValues();
      Ok(FromBigEndian(b[..4]))
  }

  /** Which optional field has a key: the first element type with that name, or -1. */
  function OptionalIndex(elements: seq<Type>, key: int): (i: int)
    ensures -1 <= i < |elements|
    ensures i >= 0 ==> elements[i].shape.NamedValue? && elements[i].shape.name == key
  {
    if elements == [] then -1
    else if elements[0].shape.NamedValue? && elements[0].shape.name == key then 0
    else
      var i := OptionalIndex(elements[1..], key);
      if i < 0 then -1 else i + 1
  }

  function Filter<T>(keep: T -> bool, s: seq<T>): (r: seq<T>)
    ensures forall x :: x in r ==> keep(x) && x in s
  {
    if s == [] then []
    else (if keep(s[0]) then [s[0]] else []) + Filter(keep, s[1..])
  }

  predicate IsMandatoryType(t: Type) {
    !t.shape.NamedValue?
  }

  predicate IsField(v: Value) {
    v.Named?
  }

  predicate IsPlain(v: Value) {
    !v.Named?
  }

  predicate IsFieldJson(j: Json) {
    Contains(j, FIELD) && Contains(j, VALUE)
  }

  predicate IsPlainJson(j: Json) {
    !IsFieldJson(j)
  }

  //
  // References
  //

  type Naming = UID -> Option<Text>
  type Finding = Text -> Option<UID>

  function RefText(uid: UID, name: Naming): Text {
    REF + if name(uid).Some? then name(uid).value else UidToText(uid)
  }

  function RefUid(t: Text, find: Finding): Result<UID> {
    if |t| < 4 || t[..4] != REF then Err(InvalidFormat)
    else if find(t[4..]).Some? then Ok(find(t[4..]).value)
    else ParseUid(t[4..])
  }

  /** What is printed for a UID, its name or its digits, is found again as that UID or left to the digits. */
  predicate NameSafe(uid: UID, name: Naming, find: Finding) {
    match name(uid)
    case Some(n) => find(n) == Some(uid) || (find(n) == None && ParseUid(n) == Ok(uid))
    case None => find(UidToText(uid)) == None || find(UidToText(uid)) == Some(uid)
  }

  /** A reference comes back exactly if its name is safe. */
  lemma ReferenceRoundTripIff(uid: UID, name: Naming, find: Finding)
    ensures RefUid(RefText(uid, name), find) == Ok(uid) <==> NameSafe(uid, name, find)
  {
    hide ParseUid, UidToText;
    UidTextRoundTrip(uid);
    var body := if name(uid).Some? then name(uid).value else UidToText(uid);
    DropAppend(REF, body);
  }

  //
  // Value to JSON
  //

  function ToJson(v: Value, t: Type, name: Naming): Result<Json>
    decreases t, 0, 0
  {
    match t.shape
    case Enumerated(names) =>
      if !v.Integer? then Err(UnexpectedType) else
      var n := Cast(U16, v.n);
      Ok(if n in names.forward then JString(names.forward[n]) else JInt(n))
    case Number(width, signed) =>
      if !v.Integer? then Err(UnexpectedType) else Ok(JInt(Cast(WideKind(signed), v.n)))
    case Octets =>
      if !v.Bytes? then Err(UnexpectedType) else Ok(JString(BytesToText(v.bytes, AsString(t))))
    case Alternative(types) =>
      if !v.Named? || !v.name.Bytes? then Err(UnexpectedType) else
      var lower :- LowerHalf(v.name.bytes);
      var i :- FindType(types, TypeUid(lower));
      var j :- ToJson(v.value, types[i], name);
      Ok(JObject([Field(RefText(TypeUid(lower), name), j)]))
    case ListOf(element) =>
      if !v.List? then Err(UnexpectedType) else
      var js :- EachToJson(v.items, element, name);
      Ok(JArray(js))
    case Struct(elements) =>
      if !v.List? then Err(UnexpectedType) else
      var ms :- MandatoryToJson(Filter(IsPlain, v.items), elements, name);
      var os :- OptionalToJson(Filter(IsField, v.items), elements, name);
      Ok(JArray(ms + os))
    case Reference =>
      if !v.Bytes? then Err(UnexpectedType) else
      var uid :- UidOfBytes(v.bytes);
      Ok(JString(RefText(uid, name)))
    case NamedValue(key, valueType) =>
      if !v.Named? || !v.name.Integer? then Err(UnexpectedType)
      else if Cast(U16, v.name.n) != key then Err(InvalidType)
      else
        var j :- ToJson(v.value, valueType, name);
        Ok(JObject([Field(NAME, JInt(key)), Field(VALUE, j)]))
    case Unsupported => Err(NotImplemented)
  }

  function EachToJson(vs: seq<Value>, element: Type, name: Naming): Result<seq<Json>>
    decreases element, 1, |vs|
  {
    if vs == [] then Ok([])
    else
      var j :- ToJson(vs[0], element, name);
      var js :- EachToJson(vs[1..], element, name);
      Ok([j] + js)
  }

  /** Values without a name against the element types without a name, in step. */
  function MandatoryToJson(vs: seq<Value>, elements: seq<Type>, name: Naming): Result<seq<Json>>
    decreases elements, 1, 0
  {
    if elements == [] then (if vs == [] then Ok([]) else Err(InvalidType))
    else if elements[0].shape.NamedValue? then MandatoryToJson(vs, elements[1..], name)
    else if vs == [] then Err(InvalidType)
    else
      var j :- ToJson(vs[0], elements[0], name);
      var js :- MandatoryToJson(vs[1..], elements[1..], name);
      Ok([j] + js)
  }

  function OptionalToJson(vs: seq<Value>, elements: seq<Type>, name: Naming): Result<seq<Json>>
    requires forall v :: v in vs ==> v.Named?
    decreases elements, 1, |vs|
  {
    if vs == [] then Ok([])
    else if !vs[0].name.Integer? then Err(InvalidType)
    else
      var key := Cast(U64, vs[0].name.n);
      var i := OptionalIndex(elements, key);
      if i < 0 then Err(InvalidType) else
      assert elements[i].shape.valueType < elements[i];
      var j :- ToJson(vs[0].value, elements[i].shape.valueType, name);
      var js :- OptionalToJson(vs[1..], elements, name);
      Ok([JObject([Field(FIELD, JInt(key)), Field(VALUE, j)])] + js)
  }

  //
  // What prints
  //

  /**
   * A value fits a type. A mandatory type is found in the struct by its place among the element types without a name;
   * the alternative taken is the first with the value's identifier, and all before it must be identified.
   */
  predicate Fits(v: Value, t: Type)
    decreases t
  {
    match t.shape
    case Enumerated(_) => v.Integer?
    case Number(_, _) => v.Integer?
    case Octets => v.Bytes?
    case Alternative(types) =>
      && v.Named? && v.name.Bytes? && |v.name.bytes| >= 4
      && var uid := TypeUid(LowerHalf(v.name.bytes).value);
      exists i :: 0 <= i < |types| && types[i].uid == Some(uid) && Fits(v.value, types[i])
                  && forall j :: 0 <= j < i ==> types[j].uid.Some? && types[j].uid.value != uid
    case ListOf(element) => v.List? && forall i :: 0 <= i < |v.items| ==> Fits(v.items[i], element)
    case Struct(elements) =>
      && v.List?
      && var plain, mandatory := Filter(IsPlain, v.items), Filter(IsMandatoryType, elements);
      && |plain| == |mandatory|
      && (forall i, k :: 0 <= i < |plain| && 0 <= k < |elements| && elements[k] == mandatory[i] ==>
            Fits(plain[i], elements[k]))
      && (forall i :: 0 <= i < |v.items| && v.items[i].Named? ==>
            && v.items[i].name.Integer?
            && var k := OptionalIndex(elements, Cast(U64, v.items[i].name.n));
            && k >= 0
            && (assert elements[k].shape.valueType < elements[k]; Fits(v.items[i].value, elements[k].shape.valueType)))
    case Reference => v.Bytes? && |v.bytes| >= 8
    case NamedValue(key, valueType) =>
      v.Named? && v.name.Integer? && Cast(U16, v.name.n) == key && Fits(v.value, valueType)
    case Unsupported => false
  }

  //
  // JSON to value
  //

  function FromJson(j: Json, t: Type, find: Finding): Result<Value>
    decreases t, 0, 0
  {
    match t.shape
    case Enumerated(names) =>
      (match j
       case JString(s) => if s in names.backward then Ok(Integer(U16, names.backward[s])) else Err(InvalidFormat)
       case JInt(n) => Ok(Integer(U16, Cast(U16, n)))
       case _ => Err(UnexpectedType))
    case Number(width, signed) =>
      if !j.JInt? then Err(UnexpectedType) else
      var kind := NumberKind(width, signed);
      Ok(Integer(kind, Cast(kind, Cast(WideKind(signed), j.n))))
    case Octets =>
      if !j.JString? then Err(UnexpectedType) else
      var bytes :- TextToBytes(j.text, AsString(t));
      Ok(Bytes(bytes))
    case Alternative(types) =>
      if !j.JObject? || j.fields == [] then Err(UnexpectedType) else
      var uid :- RefUid(j.fields[0].key, find);
      var i :- FindType(types, uid);
      var value :- FromJson(j.fields[0].value, types[i], find);
      Ok(Named(Bytes(BigEndian(uid % TWO_TO_32, 4)), value))
    case ListOf(element) =>
      if !j.JArray? then Err(UnexpectedType) else
      var vs :- EachFromJson(j.items, element, find);
      Ok(List(vs))
    case Struct(elements) =>
      if !j.JArray? then Err(UnexpectedType) else
      var ms :- MandatoryFromJson(Filter(IsPlainJson, j.items), elements, find);
      var os :- OptionalFromJson(Filter(IsFieldJson, j.items), elements, find);
      Ok(List(ms + os))
    case Reference =>
      if !j.JString? then Err(UnexpectedType) else
      var uid :- RefUid(j.text, find);
      Ok(UidValue(uid))
    case NamedValue(key, valueType) =>
      if !Contains(j, NAME) || !Contains(j, VALUE) || !Lookup(j.fields, NAME).value.JInt? then Err(UnexpectedType) else
      var value :- FromJson(Lookup(j.fields, VALUE).value, valueType, find);
      if Cast(U16, Lookup(j.fields, NAME).value.n) != key then Err(InvalidType)
      else Ok(Named(Integer(U16, key), value))
    case Unsupported => Err(NotImplemented)
  }

  function EachFromJson(js: seq<Json>, element: Type, find: Finding): Result<seq<Value>>
    decreases element, 1, |js|
  {
    if js == [] then Ok([])
    else
      var v :- FromJson(js[0], element, find);
      var vs :- EachFromJson(js[1..], element, find);
      Ok([v] + vs)
  }

  function MandatoryFromJson(js: seq<Json>, elements: seq<Type>, find: Finding): Result<seq<Value>>
    decreases elements, 1, 0
  {
    if elements == [] then (if js == [] then Ok([]) else Err(InvalidType))
    else if elements[0].shape.NamedValue? then MandatoryFromJson(js, elements[1..], find)
    else if js == [] then Err(InvalidType)
    else
      var v :- FromJson(js[0], elements[0], find);
      var vs :- MandatoryFromJson(js[1..], elements[1..], find);
      Ok([v] + vs)
  }

  function OptionalFromJson(js: seq<Json>, elements: seq<Type>, find: Finding): Result<seq<Value>>
    requires forall j :: j in js ==> IsFieldJson(j)
    decreases elements, 1, |js|
  {
    if js == [] then Ok([])
    else
      assert js[0] in js && IsFieldJson(js[0]);
      var field, value := Lookup(js[0].fields, FIELD).value, Lookup(js[0].fields, VALUE).value;
      if !field.JInt? then Err(InvalidType) else
      var key := Cast(U64, field.n);
      var i := OptionalIndex(elements, key);
      if i < 0 then Err(InvalidType) else
      assert elements[i].shape.valueType < elements[i];
      var v :- FromJson(value, elements[i].shape.valueType, find);
      var vs :- OptionalFromJson(js[1..], elements, find);
      Ok([Named(Integer(U16, key % TWO_TO_16), v)] + vs)
  }

  //
  // The normal form
  //

  /**
   * A value in the form in which its type is read: integers at the type's width, enumerations as uint16, references
   * cut to eight bytes, type tags to four, mandatory fields before optional ones.
   */
  function NormalForm(v: Value, t: Type): Value
    decreases t, 0, 0
  {
    match t.shape
    case Enumerated(_) => if v.Integer? then Integer(U16, Cast(U16, v.n)) else v
    case Number(width, signed) =>
      if v.Integer? then Integer(NumberKind(width, signed), Cast(NumberKind(width, signed), v.n)) else v
    case Alternative(types) =>
      if !v.Named? || !v.name.Bytes? || |v.name.bytes| < 4 then v else
      var i := FindType(types, TypeUid(LowerHalf(v.name.bytes).value));
      if i.Err? then v else Named(Bytes(v.name.bytes[..4]), NormalForm(v.value, types[i.value]))
    case ListOf(element) => if v.List? then List(NormalEach(v.items, element)) else v
    case Struct(elements) =>
      if v.List?
      then List(NormalMandatory(Filter(IsPlain, v.items), elements)
                + NormalOptional(Filter(IsField, v.items), elements))
      else v
    case Reference => if v.Bytes? && |v.bytes| >= 8 then Bytes(v.bytes[..8]) else v
    case NamedValue(key, valueType) => if v.Named? then Named(Integer(U16, key), NormalForm(v.value, valueType)) else v
    case _ => v
  }

  function NormalEach(vs: seq<Value>, element: Type): seq<Value>
    decreases element, 1, |vs|
  {
    if vs == [] then [] else [NormalForm(vs[0], element)] + NormalEach(vs[1..], element)
  }

  function NormalMandatory(vs: seq<Value>, elements: seq<Type>): seq<Value>
    decreases elements, 1, 0
  {
    if elements == [] || vs == [] then vs
    else if elements[0].shape.NamedValue? then NormalMandatory(vs, elements[1..])
    else [NormalForm(vs[0], elements[0])] + NormalMandatory(vs[1..], elements[1..])
  }

  function NormalOptional(vs: seq<Value>, elements: seq<Type>): seq<Value>
    requires forall v :: v in vs ==> v.Named?
    decreases elements, 1, |vs|
  {
    if vs == [] then []
    else if !vs[0].name.Integer? then vs
    else
      var key := Cast(U64, vs[0].name.n);
      var i := OptionalIndex(elements, key);
      if i < 0 then vs
      else
        assert elements[i].shape.valueType < elements[i];
        [Named(Integer(U16, key), NormalForm(vs[0].value, elements[i].shape.valueType))]
        + NormalOptional(vs[1..], elements)
  }

  //
  // The UIDs a value prints
  //

  /** The UIDs that turn into text when a value prints: its references, and the tags of its alternatives. */
  function Uids(v: Value, t: Type): set<UID>
    decreases t, 0, 0
  {
    match t.shape
    case Alternative(types) =>
      if !v.Named? || !v.name.Bytes? || LowerHalf(v.name.bytes).Err? then {} else
      var uid := TypeUid(LowerHalf(v.name.bytes).value);
      var i := FindType(types, uid);
      if i.Err? then {} else {uid} + Uids(v.value, types[i.value])
    case ListOf(element) => if v.List? then EachUids(v.items, element) else {}
    case Struct(elements) =>
      if v.List?
      then MandatoryUids(Filter(IsPlain, v.items), elements) + OptionalUids(Filter(IsField, v.items), elements)
      else {}
    case Reference => if v.Bytes? && UidOfBytes(v.bytes).Ok? then {UidOfBytes(v.bytes).value} else {}
    case NamedValue(_, valueType) => if v.Named? then Uids(v.value, valueType) else {}
    case _ => {}
  }

  function EachUids(vs: seq<Value>, element: Type): set<UID>
    decreases element, 1, |vs|
  {
    if vs == [] then {} else Uids(vs[0], element) + EachUids(vs[1..], element)
  }

  function MandatoryUids(vs: seq<Value>, elements: seq<Type>): set<UID>
    decreases elements, 1, 0
  {
    if elements == [] || vs == [] then {}
    else if elements[0].shape.NamedValue? then MandatoryUids(vs, elements[1..])
    else Uids(vs[0], elements[0]) + MandatoryUids(vs[1..], elements[1..])
  }

  function OptionalUids(vs: seq<Value>, elements: seq<Type>): set<UID>
    requires forall v :: v in vs ==> v.Named?
    decreases elements, 1, |vs|
  {
    if vs == [] || !vs[0].name.Integer? then {}
    else
      var i := OptionalIndex(elements, Cast(U64, vs[0].name.n));
      if i < 0 then {}
      else
        assert elements[i].shape.valueType < elements[i];
        Uids(vs[0].value, elements[i].shape.valueType) + OptionalUids(vs[1..], elements)
  }

  //
  // Lemmas about the pieces
  //

  lemma ModShift(n: int, m: nat, k: int)
    requires m > 0
    ensures (n + m * k) % m == n % m
  {
    var d, r := n / m, n % m;
    assert n == m * d + r;
    Distributes(m, d, k);
    ModUnique(n + m * k, m, d + k, r);
  }

  lemma Distributes(m: int, d: int, k: int)
    ensures (d + k) * m == m * d + m * k
  {
  }

  /** Dropping a multiple of 2^64 is not seen by a narrower width. */
  lemma SamePattern(kind: IntKind, n: int, q: int)
    ensures ToPattern(kind, n + TWO_TO_64 * q) == ToPattern(kind, n)
  {
    var m := Modulus(kind);
    var k := if m == 0x100 then 0x100_0000_0000_0000 * q
             else if m == 0x1_0000 then 0x1_0000_0000_0000 * q
             else if m == 0x1_0000_0000 then 0x1_0000_0000 * q else q;
    assert m * k == TWO_TO_64 * q;
    ModShift(n, m, k);
  }

  lemma CastNarrow(width: nat, signed: bool, n: int)
    ensures Cast(NumberKind(width, signed), Cast(WideKind(signed), n)) == Cast(NumberKind(width, signed), n)
  {
    hide ToPattern, FromPattern;
    var q := WideQuotient(signed, n);
    SamePattern(NumberKind(width, signed), Cast(WideKind(signed), n), q);
  }

  lemma WideQuotient(signed: bool, n: int) returns (q: int)
    ensures n == Cast(WideKind(signed), n) + TWO_TO_64 * q
  {
    q := n / TWO_TO_64;
    if signed && n % TWO_TO_64 >= TWO_TO_64 / 2 {
      q := q + 1;
    }
  }

  lemma EnumeratedCast(n: int)
    ensures Cast(U16, Cast(U16, n)) == Cast(U16, n)
  {
  }

  lemma LowerHalfBytes(b: seq<byte>)
    requires |b| >= 4
    ensures LowerHalf(b).Ok?
    ensures TypeUid(LowerHalf(b).value) % TWO_TO_32 == LowerHalf(b).value
    ensures BigEndian(LowerHalf(b).value, 4) == b[..4]
  {
    WriteAfterRead(b[..4]);
  }

  lemma UidBytesBack(b: seq<byte>)
    requires |b| >= 8
    ensures UidOfBytes(b).Ok? && UidBytes(UidOfBytes(b).value) == b[..8]
  {
    WriteAfterRead(b[..8]);
  }

  lemma {:induction false} FilterConcat<T>(keep: T -> bool, a: seq<T>, b: seq<T>)
    ensures Filter(keep, a + b) == Filter(keep, a) + Filter(keep, b)
  {
    if a == [] {
      assert a + b == b;
    } else {
      FilterConcat(keep, a[1..], b);
      assert (a + b)[1..] == a[1..] + b;
      AppendAssociates(if keep(a[0]) then [a[0]] else [], Filter(keep, a[1..]), Filter(keep, b));
    }
  }

  lemma {:induction false} FilterAll<T>(keep: T -> bool, s: seq<T>)
    requires forall i :: 0 <= i < |s| ==> keep(s[i])
    ensures Filter(keep, s) == s
  {
    if s != [] {
      FilterAll(keep, s[1..]);
    }
  }

  lemma {:induction false} FilterNone<T>(keep: T -> bool, s: seq<T>)
    requires forall i :: 0 <= i < |s| ==> !keep(s[i])
    ensures Filter(keep, s) == []
  {
    if s != [] {
      FilterNone(keep, s[1..]);
    }
  }

  /** Two stretches of a list that a filter tells apart. */
  lemma FilterSeparates<T>(first: T -> bool, second: T -> bool, a: seq<T>, b: seq<T>)
    requires forall i :: 0 <= i < |a| ==> first(a[i]) && !second(a[i])
    requires forall i :: 0 <= i < |b| ==> second(b[i]) && !first(b[i])
    ensures Filter(first, a + b) == a && Filter(second, a + b) == b
  {
    FilterConcat(first, a, b);
    FilterConcat(second, a, b);
    FilterAll(first, a);
    FilterAll(second, b);
    FilterNone(first, b);
    FilterNone(second, a);
    assert a + [] == a && [] + b == b;
  }

  lemma FieldLookups(key: int, value: Json)
    ensures var j := JObject([Field(FIELD, JInt(key)), Field(VALUE, value)]);
      && IsFieldJson(j)
      && Lookup(j.fields, FIELD) == Some(JInt(key)) && Lookup(j.fields, VALUE) == Some(value)
  {
    var fields := [Field(FIELD, JInt(key)), Field(VALUE, value)];
    assert fields[1..] == [Field(VALUE, value)];
    assert FIELD != VALUE;
  }

  lemma NamedLookups(key: int, value: Json)
    ensures var j := JObject([Field(NAME, JInt(key)), Field(VALUE, value)]);
      && Contains(j, NAME) && Contains(j, VALUE)
      && Lookup(j.fields, NAME) == Some(JInt(key)) && Lookup(j.fields, VALUE) == Some(value)
  {
    var fields := [Field(NAME, JInt(key)), Field(VALUE, value)];
    assert fields[1..] == [Field(VALUE, value)];
    assert NAME != VALUE;
  }

  lemma NotNamedNotObject(v: Value, t: Type, name: Naming)
    requires !v.Named? && ToJson(v, t, name).Ok?
    ensures !ToJson(v, t, name).value.JObject?
    ensures !NormalForm(v, t).Named?
  {
    hide BytesToText, LowerHalf, FindType, UidOfBytes, Cast, RefText;
  }

  /** No mandatory field prints as something that reads as an optional one. */
  lemma {:induction false} MandatoryIsPlain(vs: seq<Value>, elements: seq<Type>, name: Naming)
    requires forall i :: 0 <= i < |vs| ==> !vs[i].Named?
    requires MandatoryToJson(vs, elements, name).Ok?
    ensures var js := MandatoryToJson(vs, elements, name).value;
      forall i :: 0 <= i < |js| ==> IsPlainJson(js[i]) && !IsFieldJson(js[i])
    ensures var ns := NormalMandatory(vs, elements); forall i :: 0 <= i < |ns| ==> !ns[i].Named?
    decreases elements
  {
    hide ToJson, NormalForm;
    if elements != [] {
      if elements[0].shape.NamedValue? {
        MandatoryIsPlain(vs, elements[1..], name);
        assert NormalMandatory(vs, elements) == NormalMandatory(vs, elements[1..]);
      } else {
        NotNamedNotObject(vs[0], elements[0], name);
        MandatoryIsPlain(vs[1..], elements[1..], name);
        assert NormalMandatory(vs, elements)
            == [NormalForm(vs[0], elements[0])] + NormalMandatory(vs[1..], elements[1..]);
      }
    }
  }

  lemma {:induction false} OptionalIsField(vs: seq<Value>, elements: seq<Type>, name: Naming)
    requires forall v :: v in vs ==> v.Named?
    requires OptionalToJson(vs, elements, name).Ok?
    ensures var js := OptionalToJson(vs, elements, name).value;
      forall i :: 0 <= i < |js| ==> IsFieldJson(js[i]) && !IsPlainJson(js[i])
    decreases |vs|
  {
    hide ToJson, IsFieldJson, Cast;
    if vs != [] {
      OptionalIsField(vs[1..], elements, name);
      var key := Cast(U64, vs[0].name.n);
      var i := OptionalIndex(elements, key);
      FieldLookups(key, ToJson(vs[0].value, elements[i].shape.valueType, name).value);
    }
  }

  //
  // Round trip
  //

  predicate AllSafe(uids: set<UID>, name: Naming, find: Finding) {
    forall uid :: uid in uids ==> NameSafe(uid, name, find)
  }

  lemma SafeParts(a: set<UID>, b: set<UID>, name: Naming, find: Finding)
    ensures AllSafe(a + b, name, find) <==> AllSafe(a, name, find) && AllSafe(b, name, find)
  {
    hide NameSafe;
    assert forall uid :: uid in a || uid in b ==> uid in a + b;
  }

  lemma SafeReference(uid: UID, name: Naming, find: Finding)
    requires NameSafe(uid, name, find)
    ensures RefUid(RefText(uid, name), find) == Ok(uid)
  {
    hide NameSafe;
    ReferenceRoundTripIff(uid, name, find);
  }

  lemma RoundTripScalar(v: Value, t: Type, name: Naming, find: Finding)
    requires t.shape.Enumerated? || t.shape.Number? || t.shape.Octets? || t.shape.Reference?
    requires ToJson(v, t, name).Ok? && AllSafe(Uids(v, t), name, find)
    ensures FromJson(ToJson(v, t, name).value, t, find) == Ok(NormalForm(v, t))
  {
    hide Cast, NameSafe, RefText, RefUid, BytesToText, TextToBytes, UidOfBytes, UidBytes;
    match t.shape
    case Enumerated(names) =>
      EnumeratedCast(v.n);
    case Number(width, signed) =>
      CastNarrow(width, signed, v.n);
    case Octets =>
      BytesTextRoundTrip(v.bytes, AsString(t));
    case Reference =>
      SafeReference(UidOfBytes(v.bytes).value, name, find);
      ReferenceBytes(v.bytes);
    case _ =>
  }

  lemma ReferenceBytes(b: seq<byte>)
    ensures UidOfBytes(b).Ok? ==> |b| >= 8 && UidBytes(UidOfBytes(b).value) == b[..8]
  {
    if |b| >= 8 {
      UidBytesBack(b);
    }
  }

  lemma LowerHalfOk(b: seq<byte>)
    ensures LowerHalf(b).Ok? <==> |b| >= 4
  {
  }

  /**
   * The typed JSON round trip: whatever prints under a type is read back under it as its normal form, if the names of
   * the UIDs it prints are safe.
   */
  lemma {:induction false} RoundTrip(v: Value, t: Type, name: Naming, find: Finding)
    requires ToJson(v, t, name).Ok? && AllSafe(Uids(v, t), name, find)
    ensures FromJson(ToJson(v, t, name).value, t, find) == Ok(NormalForm(v, t))
    decreases t, 0, 0
  {
    hide NameSafe, Cast, BytesToText, TextToBytes, UidOfBytes, UidBytes, RefText, RefUid, LowerHalf, IsFieldJson,
         Filter;
    match t.shape
    case Alternative(types) =>
      var lower := LowerHalf(v.name.bytes).value;
      LowerHalfOk(v.name.bytes);
      LowerHalfBytes(v.name.bytes);
      SafeReference(TypeUid(lower), name, find);
      RoundTrip(v.value, types[FindType(types, TypeUid(lower)).value], name, find);
    case ListOf(element) =>
      RoundTripEach(v.items, element, name, find);
    case Struct(elements) =>
      RoundTripStruct(v.items, elements, name, find);
    case NamedValue(key, valueType) =>
      RoundTrip(v.value, valueType, name, find);
      NamedLookups(key, ToJson(v.value, valueType, name).value);
      assert Cast(U16, key) == key;
    case Unsupported =>
    case _ =>
      RoundTripScalar(v, t, name, find);
  }

  lemma {:induction false} RoundTripEach(vs: seq<Value>, element: Type, name: Naming, find: Finding)
    requires EachToJson(vs, element, name).Ok? && AllSafe(EachUids(vs, element), name, find)
    ensures EachFromJson(EachToJson(vs, element, name).value, element, find) == Ok(NormalEach(vs, element))
    decreases element, 1, |vs|
  {
    hide NameSafe, Uids, ToJson, FromJson, NormalForm;
    if vs != [] {
      RoundTrip(vs[0], element, name, find);
      RoundTripEach(vs[1..], element, name, find);
      assert EachToJson(vs, element, name).value[1..] == EachToJson(vs[1..], element, name).value;
    }
  }

  lemma {:induction false} RoundTripStruct(vs: seq<Value>, elements: seq<Type>, name: Naming, find: Finding)
    requires MandatoryToJson(Filter(IsPlain, vs), elements, name).Ok?
    requires OptionalToJson(Filter(IsField, vs), elements, name).Ok?
    requires AllSafe(MandatoryUids(Filter(IsPlain, vs), elements), name, find)
    requires AllSafe(OptionalUids(Filter(IsField, vs), elements), name, find)
    ensures var ms := MandatoryToJson(Filter(IsPlain, vs), elements, name).value;
      var os := OptionalToJson(Filter(IsField, vs), elements, name).value;
      && Filter(IsPlainJson, ms + os) == ms && Filter(IsFieldJson, ms + os) == os
      && MandatoryFromJson(ms, elements, find) == Ok(NormalMandatory(Filter(IsPlain, vs), elements))
      && OptionalFromJson(os, elements, find) == Ok(NormalOptional(Filter(IsField, vs), elements))
    decreases elements, 2, 0
  {
    hide NameSafe, Uids, ToJson, FromJson, NormalForm, IsFieldJson, Filter;
    var plain, fields := Filter(IsPlain, vs), Filter(IsField, vs);
    forall i | 0 <= i < |plain| ensures !plain[i].Named? {
      assert plain[i] in plain;
    }
    MandatoryIsPlain(plain, elements, name);
    OptionalIsField(fields, elements, name);
    FilterSeparates(IsPlainJson, IsFieldJson, MandatoryToJson(plain, elements, name).value,
                    OptionalToJson(fields, elements, name).value);
    RoundTripMandatory(plain, elements, name, find);
    RoundTripOptional(fields, elements, name, find);
  }

  lemma {:induction false} RoundTripMandatory(vs: seq<Value>, elements: seq<Type>, name: Naming, find: Finding)
    requires MandatoryToJson(vs, elements, name).Ok? && AllSafe(MandatoryUids(vs, elements), name, find)
    ensures MandatoryFromJson(MandatoryToJson(vs, elements, name).value, elements, find)
            == Ok(NormalMandatory(vs, elements))
    decreases elements, 1, 0
  {
    hide NameSafe, Uids, ToJson, FromJson, NormalForm;
    if elements != [] {
      if elements[0].shape.NamedValue? {
        RoundTripMandatory(vs, elements[1..], name, find);
      } else {
        RoundTrip(vs[0], elements[0], name, find);
        RoundTripMandatory(vs[1..], elements[1..], name, find);
        assert MandatoryToJson(vs, elements, name).value[1..] == MandatoryToJson(vs[1..], elements[1..], name).value;
      }
    }
  }

  lemma {:induction false} RoundTripOptional(vs: seq<Value>, elements: seq<Type>, name: Naming, find: Finding)
    requires forall v :: v in vs ==> v.Named?
    requires OptionalToJson(vs, elements, name).Ok? && AllSafe(OptionalUids(vs, elements), name, find)
    ensures var js := OptionalToJson(vs, elements, name).value;
      && (forall j :: j in js ==> IsFieldJson(j))
      && OptionalFromJson(js, elements, find) == Ok(NormalOptional(vs, elements))
    decreases elements, 1, |vs|
  {
    hide AllSafe, Uids, ToJson, FromJson, NormalForm, IsFieldJson, Cast;
    if vs != [] {
      var key := Cast(U64, vs[0].name.n);
      var i := OptionalIndex(elements, key);
      assert elements[i].shape.valueType < elements[i];
      var valueType := elements[i].shape.valueType;
      SafeParts(Uids(vs[0].value, valueType), OptionalUids(vs[1..], elements), name, find);
      RoundTrip(vs[0].value, valueType, name, find);
      RoundTripOptional(vs[1..], elements, name, find);
      var js := OptionalToJson(vs, elements, name).value;
      assert js[1..] == OptionalToJson(vs[1..], elements, name).value;
      FieldLookups(key, ToJson(vs[0].value, valueType, name).value);
      assert Cast(U64, key) == key;
    }
  }

  /**
   * An enumeration value prints as text exactly if some name stands for it, and then as that name; otherwise it
   * prints as its number.
   */
  lemma EnumerationPrintsByName(v: Value, names: Enumeration, name: Naming)
    requires v.Integer?
    ensures var n, printed := Cast(U16, v.n), ToJson(v, Type(None, Enumerated(names)), name);
      && printed.Ok?
      && (printed.value.JString? <==> exists s :: s in names.backward && names.backward[s] == n)
      && (printed.value.JString? ==>
            printed.value.text in names.backward && names.backward[printed.value.text] == n)
      && (!printed.value.JString? ==> printed.value == JInt(n))
  {
    hide Cast;
  }

  /** Two values of an enumeration print alike exactly if they are the same number of 16 bits. */
  lemma EnumerationPrintsApart(v: Value, w: Value, names: Enumeration, name: Naming)
    requires v.Integer? && w.Integer?
    ensures ToJson(v, Type(None, Enumerated(names)), name) == ToJson(w, Type(None, Enumerated(names)), name)
            <==> Cast(U16, v.n) == Cast(U16, w.n)
  {
    hide Cast;
    EnumerationPrintsByName(v, names, name);
    EnumerationPrintsByName(w, names, name);
  }

  //
  // Exactly the fitting values print
  //

  lemma {:induction false} FoundIff(types: seq<Type>, uid: UID, i: nat)
    requires i < |types|
    ensures FindType(types, uid) == Ok(i) <==>
      types[i].uid == Some(uid) && forall j :: 0 <= j < i ==> types[j].uid.Some? && types[j].uid.value != uid
    decreases |types|
  {
    if i > 0 {
      FoundIff(types[1..], uid, i - 1);
      assert forall j :: 0 < j < |types| ==> types[j] == types[1..][j - 1];
    }
  }

  /** A value prints under a type if and only if it fits. */
  lemma {:induction false} PrintsExactlyFitting(v: Value, t: Type, name: Naming)
    ensures ToJson(v, t, name).Ok? <==> Fits(v, t)
    decreases t, 0, 0
  {
    hide Cast, RefText, BytesToText, LowerHalf, FindType, Filter, OptionalIndex, UidOfBytes;
    match t.shape
    case Alternative(types) =>
      if v.Named? && v.name.Bytes? {
        LowerHalfOk(v.name.bytes);
        if |v.name.bytes| >= 4 {
          AlternativePrints(v, types, name);
        }
      }
    case ListOf(element) =>
      if v.List? {
        EachPrints(v.items, element, name);
      }
    case Struct(elements) =>
      if v.List? {
        StructPrints(v.items, elements, name);
      }
    case NamedValue(key, valueType) =>
      if v.Named? {
        PrintsExactlyFitting(v.value, valueType, name);
      }
    case Reference =>
      if v.Bytes? {
        ReferenceBytes(v.bytes);
        if |v.bytes| >= 8 {
          UidBytesBack(v.bytes);
        }
      }
    case _ =>
  }

  lemma {:induction false} AlternativePrints(v: Value, types: seq<Type>, name: Naming)
    requires v.Named? && v.name.Bytes? && LowerHalf(v.name.bytes).Ok?
    ensures var uid := TypeUid(LowerHalf(v.name.bytes).value);
      (FindType(types, uid).Ok? && ToJson(v.value, types[FindType(types, uid).value], name).Ok?) <==>
      exists i :: 0 <= i < |types| && types[i].uid == Some(uid) && Fits(v.value, types[i])
                  && forall j :: 0 <= j < i ==> types[j].uid.Some? && types[j].uid.value != uid
    decreases types, 2, 0
  {
    hide LowerHalf, ToJson, Fits, FindType;
    var uid := TypeUid(LowerHalf(v.name.bytes).value);
    forall i | 0 <= i < |types|
      ensures FindType(types, uid) == Ok(i) <==>
        types[i].uid == Some(uid) && forall j :: 0 <= j < i ==> types[j].uid.Some? && types[j].uid.value != uid
      ensures ToJson(v.value, types[i], name).Ok? <==> Fits(v.value, types[i])
    {
      FoundIff(types, uid, i);
      PrintsExactlyFitting(v.value, types[i], name);
    }
  }

  lemma {:induction false} EachPrints(vs: seq<Value>, element: Type, name: Naming)
    ensures EachToJson(vs, element, name).Ok? <==> forall i :: 0 <= i < |vs| ==> Fits(vs[i], element)
    decreases element, 1, |vs|
  {
    hide ToJson, Fits;
    if vs != [] {
      PrintsExactlyFitting(vs[0], element, name);
      EachPrints(vs[1..], element, name);
      assert forall i :: 0 < i < |vs| ==> vs[i] == vs[1..][i - 1];
    }
  }

  lemma {:induction false} StructPrints(vs: seq<Value>, elements: seq<Type>, name: Naming)
    ensures Fits(List(vs), Type(None, Struct(elements))) <==>
      && MandatoryToJson(Filter(IsPlain, vs), elements, name).Ok?
      && OptionalToJson(Filter(IsField, vs), elements, name).Ok?
    decreases elements, 2, 0
  {
    hide ToJson, Filter, OptionalIndex, Cast;
    var plain, mandatory := Filter(IsPlain, vs), Filter(IsMandatoryType, elements);
    MandatoryPrints(plain, elements, name);
    OptionalPrints(Filter(IsField, vs), elements, name);
    FilteredFields(vs);
    forall i | 0 <= i < |mandatory| ensures exists k :: 0 <= k < |elements| && elements[k] == mandatory[i] {
      assert mandatory[i] in elements;
    }
  }

  lemma {:induction false} FilteredFields(vs: seq<Value>)
    ensures forall v :: v in Filter(IsField, vs) <==> v in vs && v.Named?
  {
    if vs != [] {
      FilteredFields(vs[1..]);
      assert vs == [vs[0]] + vs[1..];
    }
  }

  lemma {:induction false} MandatoryPrints(vs: seq<Value>, elements: seq<Type>, name: Naming)
    ensures var mandatory := Filter(IsMandatoryType, elements);
      MandatoryToJson(vs, elements, name).Ok? <==>
      |vs| == |mandatory| && forall i :: 0 <= i < |vs| ==> Fits(vs[i], mandatory[i])
    decreases elements, 1, 0
  {
    hide ToJson, Fits;
    if elements != [] {
      var mandatory, rest := Filter(IsMandatoryType, elements), Filter(IsMandatoryType, elements[1..]);
      if elements[0].shape.NamedValue? {
        MandatoryPrints(vs, elements[1..], name);
        assert mandatory == [] + rest == rest;
      } else {
        assert mandatory == [elements[0]] + rest;
        if vs != [] {
          PrintsExactlyFitting(vs[0], elements[0], name);
          MandatoryPrints(vs[1..], elements[1..], name);
          assert forall i :: 0 < i < |vs| ==> vs[i] == vs[1..][i - 1];
          assert forall i :: 0 < i < |mandatory| ==> mandatory[i] == rest[i - 1];
        }
      }
    }
  }

  /** A named value whose key names an optional field, and which fits that field's type. */
  predicate FitsOptional(v: Value, elements: seq<Type>) {
    && v.Named? && v.name.Integer?
    && var k := OptionalIndex(elements, Cast(U64, v.name.n));
    k >= 0 && Fits(v.value, elements[k].shape.valueType)
  }

  lemma {:induction false} OptionalPrints(vs: seq<Value>, elements: seq<Type>, name: Naming)
    requires forall v :: v in vs ==> v.Named?
    ensures OptionalToJson(vs, elements, name).Ok? <==> forall v :: v in vs ==> FitsOptional(v, elements)
    decreases elements, 1, |vs|
  {
    hide ToJson, Fits, OptionalIndex, Cast;
    if vs != [] {
      OptionalPrints(vs[1..], elements, name);
      assert vs == [vs[0]] + vs[1..];
      if vs[0].name.Integer? {
        var k := OptionalIndex(elements, Cast(U64, vs[0].name.n));
        if k >= 0 {
          assert elements[k].shape.valueType < elements[k];
          PrintsExactlyFitting(vs[0].value, elements[k].shape.valueType, name);
        }
      }
    }
  }

  //
  // Stability
  //

  lemma StableScalar(v: Value, t: Type, name: Naming)
    requires t.shape.Enumerated? || t.shape.Number? || t.shape.Octets? || t.shape.Reference?
    requires ToJson(v, t, name).Ok?
    ensures ToJson(NormalForm(v, t), t, name).Ok? && NormalForm(NormalForm(v, t), t) == NormalForm(v, t)
    ensures Uids(NormalForm(v, t), t) == Uids(v, t)
  {
    hide RefText, BytesToText, FromPattern, ToPattern;
    match t.shape
    case Reference =>
      assert |v.bytes| >= 8 && v.bytes[..8][..8] == v.bytes[..8];
    case _ =>
  }

  lemma LowerHalfCut(b: seq<byte>)
    requires |b| >= 4
    ensures LowerHalf(b[..4]) == LowerHalf(b)
  {
    assert b[..4][..4] == b[..4];
  }

  /** The normal form prints, and is its own normal form: printing and reading it back changes nothing any more. */
  lemma {:induction false} Stable(v: Value, t: Type, name: Naming)
    requires ToJson(v, t, name).Ok?
    ensures ToJson(NormalForm(v, t), t, name).Ok? && NormalForm(NormalForm(v, t), t) == NormalForm(v, t)
    ensures Uids(NormalForm(v, t), t) == Uids(v, t)
    decreases t, 0, 0
  {
    hide Cast, RefText, LowerHalf, Filter;
    match t.shape
    case Alternative(types) =>
      LowerHalfOk(v.name.bytes);
      LowerHalfCut(v.name.bytes);
      assert v.name.bytes[..4][..4] == v.name.bytes[..4];
      var i := FindType(types, TypeUid(LowerHalf(v.name.bytes).value)).value;
      Stable(v.value, types[i], name);
    case ListOf(element) =>
      StableEach(v.items, element, name);
    case Struct(elements) =>
      StableStruct(v.items, elements, name);
    case NamedValue(key, valueType) =>
      Stable(v.value, valueType, name);
      assert Cast(U16, key) == key;
    case Unsupported =>
    case _ =>
      StableScalar(v, t, name);
  }

  lemma {:induction false} StableEach(vs: seq<Value>, element: Type, name: Naming)
    requires EachToJson(vs, element, name).Ok?
    ensures EachToJson(NormalEach(vs, element), element, name).Ok?
    ensures NormalEach(NormalEach(vs, element), element) == NormalEach(vs, element)
    ensures EachUids(NormalEach(vs, element), element) == EachUids(vs, element)
    decreases element, 1, |vs|
  {
    hide ToJson, NormalForm, Uids;
    if vs != [] {
      Stable(vs[0], element, name);
      StableEach(vs[1..], element, name);
      assert NormalEach(vs, element)[1..] == NormalEach(vs[1..], element);
    }
  }

  lemma {:induction false} StableStruct(vs: seq<Value>, elements: seq<Type>, name: Naming)
    requires MandatoryToJson(Filter(IsPlain, vs), elements, name).Ok?
    requires OptionalToJson(Filter(IsField, vs), elements, name).Ok?
    ensures var ms := NormalMandatory(Filter(IsPlain, vs), elements);
      var os := NormalOptional(Filter(IsField, vs), elements);
      && Filter(IsPlain, ms + os) == ms && Filter(IsField, ms + os) == os
      && MandatoryToJson(ms, elements, name).Ok? && NormalMandatory(ms, elements) == ms
      && OptionalToJson(os, elements, name).Ok? && NormalOptional(os, elements) == os
      && MandatoryUids(ms, elements) == MandatoryUids(Filter(IsPlain, vs), elements)
      && OptionalUids(os, elements) == OptionalUids(Filter(IsField, vs), elements)
    decreases elements, 2, 0
  {
    hide ToJson, NormalForm, Uids, Filter;
    var plain, fields := Filter(IsPlain, vs), Filter(IsField, vs);
    forall i | 0 <= i < |plain| ensures !plain[i].Named? {
      assert plain[i] in plain;
    }
    MandatoryIsPlain(plain, elements, name);
    StableMandatory(plain, elements, name);
    StableOptional(fields, elements, name);
    var os := NormalOptional(fields, elements);
    forall i | 0 <= i < |os| ensures os[i].Named? {
      assert os[i] in os;
    }
    FilterSeparates(IsPlain, IsField, NormalMandatory(plain, elements), os);
  }

  lemma {:induction false} StableMandatory(vs: seq<Value>, elements: seq<Type>, name: Naming)
    requires MandatoryToJson(vs, elements, name).Ok?
    ensures var ms := NormalMandatory(vs, elements);
      && MandatoryToJson(ms, elements, name).Ok? && NormalMandatory(ms, elements) == ms
      && MandatoryUids(ms, elements) == MandatoryUids(vs, elements)
    decreases elements, 1, 0
  {
    hide ToJson, NormalForm, Uids;
    if elements != [] {
      if elements[0].shape.NamedValue? {
        StableMandatory(vs, elements[1..], name);
        assert NormalMandatory(vs, elements) == NormalMandatory(vs, elements[1..]);
      } else {
        Stable(vs[0], elements[0], name);
        StableMandatory(vs[1..], elements[1..], name);
        assert NormalMandatory(vs, elements)[1..] == NormalMandatory(vs[1..], elements[1..]);
      }
    }
  }

  lemma {:induction false} StableOptional(vs: seq<Value>, elements: seq<Type>, name: Naming)
    requires forall v :: v in vs ==> v.Named?
    requires OptionalToJson(vs, elements, name).Ok?
    ensures var os := NormalOptional(vs, elements);
      && (forall v :: v in os ==> v.Named?)
      && OptionalToJson(os, elements, name).Ok? && NormalOptional(os, elements) == os
      && OptionalUids(os, elements) == OptionalUids(vs, elements)
    decreases elements, 1, |vs|
  {
    hide ToJson, NormalForm, Uids, Cast;
    if vs != [] {
      var key := Cast(U64, vs[0].name.n);
      var i := OptionalIndex(elements, key);
      assert elements[i].shape.valueType < elements[i];
      Stable(vs[0].value, elements[i].shape.valueType, name);
      StableOptional(vs[1..], elements, name);
      assert NormalOptional(vs, elements)[1..] == NormalOptional(vs[1..], elements);
      assert Cast(U64, key) == key;
    }
  }

  /** What was read back once comes back as it is ever after. */
  lemma SecondRoundTrip(v: Value, t: Type, name: Naming, find: Finding)
    requires ToJson(v, t, name).Ok? && AllSafe(Uids(v, t), name, find)
    ensures var n := NormalForm(v, t); ToJson(n, t, name).Ok? && FromJson(ToJson(n, t, name).value, t, find) == Ok(n)
  {
    hide ToJson, FromJson, NormalForm, AllSafe, Uids;
    Stable(v, t, name);
    RoundTrip(NormalForm(v, t), t, name, find);
  }

  //
  // The loops
  //

  method ListToJson(items: seq<Value>, element: Type, name: Naming) returns (r: Result<seq<Json>>)
    ensures r == EachToJson(items, element, name)
  {
    hide ToJson;
    var jsons: seq<Json> := [];
    assert items[0..] == items;
    JoinNone(EachToJson(items, element, name));
    for i := 0 to |items|
      invariant EachToJson(items, element, name) == Join(jsons, EachToJson(items[i..], element, name))
    {
      assert items[i..][1..] == items[i + 1..];
      var json :- ToJson(items[i], element, name);
      var rest := EachToJson(items[i + 1..], element, name);
      if rest.Ok? {
        JoinMore(jsons, json, rest);
      }
      jsons := jsons + [json];
    }
    JoinDone(jsons);
    r := Ok(jsons);
  }

  method ListFromJson(items: seq<Json>, element: Type, find: Finding) returns (r: Result<seq<Value>>)
    ensures r == EachFromJson(items, element, find)
  {
    hide FromJson;
    var values: seq<Value> := [];
    assert items[0..] == items;
    JoinNone(EachFromJson(items, element, find));
    for i := 0 to |items|
      invariant EachFromJson(items, element, find) == Join(values, EachFromJson(items[i..], element, find))
    {
      assert items[i..][1..] == items[i + 1..];
      var value :- FromJson(items[i], element, find);
      var rest := EachFromJson(items[i + 1..], element, find);
      if rest.Ok? {
        JoinMore(values, value, rest);
      }
      values := values + [value];
    }
    JoinDone(values);
    r := Ok(values);
  }

  /** The table of optional fields: the first type with a name counts. */
  predicate LooksUp(m: map<uint16, Type>, elements: seq<Type>) {
    && (forall key :: key in m ==> OptionalIndex(elements, key) >= 0)
    && (forall key: uint16 :: OptionalIndex(elements, key) >= 0 ==>
          key in m && m[key] == elements[OptionalIndex(elements, key)].shape.valueType)
  }

  /** ReduceStructType. */
  method ReduceStruct(elements: seq<Type>) returns (mandatoryFields: seq<Type>, optionalFields: map<uint16, Type>)
    ensures mandatoryFields == Filter(IsMandatoryType, elements)
    ensures LooksUp(optionalFields, elements)
  {
    hide LooksUp, Filter;
    mandatoryFields, optionalFields := [], map[];
    NoOptionals();
    for i := 0 to |elements|
      invariant mandatoryFields == Filter(IsMandatoryType, elements[..i])
      invariant LooksUp(optionalFields, elements[..i])
    {
      var t := elements[i];
      assert elements[..i + 1] == elements[..i] + [t];
      FilterConcat(IsMandatoryType, elements[..i], [t]);
      FilterOne(IsMandatoryType, t);
      MoreOptionals(optionalFields, elements[..i], t);
      if !t.shape.NamedValue? {
        mandatoryFields := mandatoryFields + [t];
      } else if t.shape.name !in optionalFields {
        optionalFields := optionalFields[t.shape.name := t.shape.valueType];
      }
    }
    assert elements[..|elements|] == elements;
  }

  lemma NoOptionals()
    ensures LooksUp(map[], []) && Filter(IsMandatoryType, []) == []
  {
  }

  lemma FilterOne<T>(keep: T -> bool, x: T)
    ensures Filter(keep, [x]) == if keep(x) then [x] else []
  {
    assert [x][1..] == [];
  }

  lemma {:induction false} OptionalIndexMore(elements: seq<Type>, t: Type, key: int)
    ensures OptionalIndex(elements + [t], key) ==
      if OptionalIndex(elements, key) >= 0 then OptionalIndex(elements, key)
      else if t.shape.NamedValue? && t.shape.name == key then |elements| else -1
  {
    if elements == [] {
      assert [t][1..] == [];
      assert elements + [t] == [t];
    } else {
      OptionalIndexMore(elements[1..], t, key);
      assert (elements + [t])[1..] == elements[1..] + [t];
    }
  }

  lemma MoreOptionals(m: map<uint16, Type>, elements: seq<Type>, t: Type)
    requires LooksUp(m, elements)
    ensures LooksUp(if t.shape.NamedValue? && t.shape.name !in m then m[t.shape.name := t.shape.valueType] else m,
                    elements + [t])
  {
    hide OptionalIndex;
    forall key: uint16 ensures OptionalIndex(elements + [t], key) ==
      if OptionalIndex(elements, key) >= 0 then OptionalIndex(elements, key)
      else if t.shape.NamedValue? && t.shape.name == key then |elements| else -1
    {
      OptionalIndexMore(elements, t, key);
    }
  }

  lemma {:induction false} MandatoryReduced(vs: seq<Value>, elements: seq<Type>, name: Naming)
    ensures MandatoryToJson(vs, elements, name) == MandatoryToJson(vs, Filter(IsMandatoryType, elements), name)
    decreases |elements|
  {
    hide ToJson;
    if elements != [] {
      var rest := Filter(IsMandatoryType, elements[1..]);
      if elements[0].shape.NamedValue? {
        MandatoryReduced(vs, elements[1..], name);
        assert Filter(IsMandatoryType, elements) == [] + rest == rest;
      } else {
        assert Filter(IsMandatoryType, elements)[1..] == rest;
        if vs != [] {
          MandatoryReduced(vs[1..], elements[1..], name);
        }
      }
    }
  }

  /** The first loop over a struct: values and types in step, until either runs out; both must. */
  method MandatoryFields(vs: seq<Value>, types: seq<Type>, name: Naming) returns (r: Result<seq<Json>>)
    requires forall t :: t in types ==> !t.shape.NamedValue?
    ensures r == MandatoryToJson(vs, types, name)
  {
    hide ToJson;
    var jsons: seq<Json> := [];
    var k := 0;
    assert vs[0..] == vs && types[0..] == types;
    JoinNone(MandatoryToJson(vs, types, name));
    while k < |vs| && k < |types|
      invariant k <= |vs| && k <= |types|
      invariant MandatoryToJson(vs, types, name) == Join(jsons, MandatoryToJson(vs[k..], types[k..], name))
    {
      assert vs[k..][1..] == vs[k + 1..] && types[k..][1..] == types[k + 1..];
      assert types[k] in types;
      var json :- ToJson(vs[k], types[k], name);
      var rest := MandatoryToJson(vs[k + 1..], types[k + 1..], name);
      if rest.Ok? {
        JoinMore(jsons, json, rest);
      }
      jsons := jsons + [json];
      k := k + 1;
    }
    if k != |vs| || k != |types| {
      if k != |types| {
        assert types[k] in types;
      }
      return Err(InvalidType);
    }
    JoinDone(jsons);
    r := Ok(jsons);
  }

  /** The second loop: every named value is looked up by its key. */
  method OptionalFields(vs: seq<Value>, elements: seq<Type>, lookup: map<uint16, Type>, name: Naming)
    returns (r: Result<seq<Json>>)
    requires (forall v :: v in vs ==> v.Named?) && LooksUp(lookup, elements)
    ensures r == OptionalToJson(vs, elements, name)
  {
    hide ToJson, Cast, OptionalIndex;
    var jsons: seq<Json> := [];
    assert vs[0..] == vs;
    JoinNone(OptionalToJson(vs, elements, name));
    for i := 0 to |vs|
      invariant OptionalToJson(vs, elements, name) == Join(jsons, OptionalToJson(vs[i..], elements, name))
    {
      assert vs[i] in vs && vs[i..][1..] == vs[i + 1..];
      if !vs[i].name.Integer? {
        return Err(InvalidType);
      }
      var key := Cast(U64, vs[i].name.n);
      if !(0 <= key < 0x1_0000 && key in lookup) {
        return Err(InvalidType);
      }
      var json :- ToJson(vs[i].value, lookup[key], name);
      var field := JObject([Field(FIELD, JInt(key)), Field(VALUE, json)]);
      var rest := OptionalToJson(vs[i + 1..], elements, name);
      if rest.Ok? {
        JoinMore(jsons, field, rest);
      }
      jsons := jsons + [field];
    }
    JoinDone(jsons);
    r := Ok(jsons);
  }

  method StructToJson(elements: seq<Value>, types: seq<Type>, name: Naming) returns (r: Result<Json>)
    ensures r == ToJson(List(elements), Type(None, Struct(types)), name)
  {
    hide MandatoryToJson, OptionalToJson, LooksUp;
    var mandatoryTypes, optionalTypeLookup := ReduceStruct(types);
    MandatoryReduced(Filter(IsPlain, elements), types, name);
    var jsons :- MandatoryFields(Filter(IsPlain, elements), mandatoryTypes, name);
    var fields :- OptionalFields(Filter(IsField, elements), types, optionalTypeLookup, name);
    r := Ok(JArray(jsons + fields));
  }
}
