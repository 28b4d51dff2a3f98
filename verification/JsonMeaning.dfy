/**
 * What a text means under a type, and how a value is shown under it, for all texts and all values (ValueToJSON.cpp):
 * the converters against relations that say, shape by shape, which text goes with which value.
 */
module JsonMeaning {
  import opened Common
  import opened FlatBinary
  import opened Values
  import opened Methods
  import opened UidText
  import opened Spelling
  import opened TypedJson

  //
  // Vocabulary
  //

  /** The integer of the type's kind that is the number up to a multiple of the kind's modulus. */
  predicate IsNumber(v: Value, width: nat, signed: bool, n: int) {
    && v.Integer?
    && match (width, signed)
       case (1, true) => v.kind == I8 && -0x80 <= v.n < 0x80 && (v.n - n) % 0x100 == 0
       case (2, true) => v.kind == I16 && -0x8000 <= v.n < 0x8000 && (v.n - n) % 0x1_0000 == 0
       case (4, true) => v.kind == I32 && -0x8000_0000 <= v.n < 0x8000_0000 && (v.n - n) % 0x1_0000_0000 == 0
       case (_, true) => v.kind == I64 && Signed64(v.n, n)
       case (1, false) => v.kind == U8 && 0 <= v.n < 0x100 && (v.n - n) % 0x100 == 0
       case (2, false) => v.kind == U16 && 0 <= v.n < 0x1_0000 && (v.n - n) % 0x1_0000 == 0
       case (4, false) => v.kind == U32 && 0 <= v.n < 0x1_0000_0000 && (v.n - n) % 0x1_0000_0000 == 0
       case (_, false) => v.kind == U64 && Unsigned64(v.n, n)
  }

  predicate Signed64(m: int, n: int) {
    -0x8000_0000_0000_0000 <= m < 0x8000_0000_0000_0000 && (m - n) % 0x1_0000_0000_0000_0000 == 0
  }

  predicate Unsigned64(m: int, n: int) {
    0 <= m < 0x1_0000_0000_0000_0000 && (m - n) % 0x1_0000_0000_0000_0000 == 0
  }

  /** Names and passwords are shown and read as characters, all other byte strings as digits. */
  predicate OfCharacters(t: Type) {
    t.uid == Some(0x5_0000_020B) || t.uid == Some(0x5_0000_020C)
  }

  /** The first type with the identifier, and none without an identifier before it. */
  predicate IsFirst(types: seq<Type>, uid: UID, i: nat) {
    && i < |types| && types[i].uid == Some(uid)
    && forall j :: 0 <= j < i ==> types[j].uid.Some? && types[j].uid.value != uid
  }

  /** The first optional field with the name. */
  predicate IsFirstField(elements: seq<Type>, key: int, k: nat) {
    && k < |elements| && elements[k].shape.NamedValue? && elements[k].shape.name == key
    && forall j :: 0 <= j < k ==> !elements[j].shape.NamedValue? || elements[j].shape.name != key
  }

  /** An object with these keys is an optional field of a struct. */
  predicate Keyed(j: Json) {
    j.JObject? && Lookup(j.fields, "field").Some? && Lookup(j.fields, "value").Some?
  }

  predicate Unkeyed(j: Json) {
    !Keyed(j)
  }

  /** Behind the prefix stands a name that the host knows, or else the UID in digits. */
  ghost predicate Refers(t: Text, uid: UID, find: Finding) {
    && |t| >= 4 && t[..4] == "ref:"
    && match find(t[4..])
       case Some(named) => uid == named
       case None => ReadsNumber(WithoutQuotes(t[4..]), uid)
  }

  /** The prefix and the name of the UID, or its digits if it has none. */
  predicate ShowsReference(t: Text, uid: UID, name: Naming) {
    && |t| >= 4 && t[..4] == "ref:"
    && match name(uid)
       case Some(n) => t[4..] == n
       case None => SpellsUid(t[4..], uid)
  }

  //
  // What is read
  //

  /** The text, read under the type, is the value. */
  ghost predicate ReadAs(v: Value, j: Json, t: Type, find: Finding)
    decreases t, 0
  {
    match t.shape
    case Enumerated(names) =>
      && v.Integer? && v.kind == U16
      && (match j
          case JString(s) => s in names.backward && v.n == names.backward[s]
          case JInt(n) => 0 <= v.n < 0x1_0000 && (v.n - n) % 0x1_0000 == 0
          case _ => false)
    case Number(width, signed) => j.JInt? && IsNumber(v, width, signed, j.n)
    case Octets =>
      j.JString? && v.Bytes? && if OfCharacters(t) then SpellsCharacters(j.text, v.bytes) else ReadsAs(j.text, v.bytes)
    case Alternative(types) =>
      && j.JObject? && j.fields != [] && v.Named?
      && exists uid: UID, i: nat ::
           && Refers(j.fields[0].key, uid, find) && IsFirst(types, uid, i)
           && v.name == Bytes(BigEndian(uid % 0x1_0000_0000, 4))
           && ReadAs(v.value, j.fields[0].value, types[i], find)
    case ListOf(element) =>
      && j.JArray? && v.List? && |v.items| == |j.items|
      && forall i :: 0 <= i < |j.items| ==> ReadAs(v.items[i], j.items[i], element, find)
    case Struct(elements) =>
      && j.JArray? && v.List?
      && var plain, fields := Filter(Unkeyed, j.items), Filter(Keyed, j.items);
      var mandatory := Filter(IsMandatoryType, elements);
      && |plain| == |mandatory| && |v.items| == |plain| + |fields|
      && (forall i, k :: 0 <= i < |plain| && 0 <= k < |elements| && elements[k] == mandatory[i] ==>
            ReadAs(v.items[i], plain[i], elements[k], find))
      && (forall i :: 0 <= i < |fields| ==> FieldReadAs(v.items[|plain| + i], fields[i], elements, find))
    case Reference =>
      j.JString? && exists uid: UID :: Refers(j.text, uid, find) && v == Bytes(BigEndian(uid, 8))
    case NamedValue(key, valueType) =>
      && j.JObject? && v.Named? && v.name == Integer(U16, key)
      && var name, value := Lookup(j.fields, "name"), Lookup(j.fields, "value");
      && name.Some? && value.Some? && name.value.JInt? && name.value.n % 0x1_0000 == key
      && ReadAs(v.value, value.value, valueType, find)
    case Unsupported => false
  }

  /** The text of an optional field, read as the first one with its key, is this named value. */
  ghost predicate FieldReadAs(w: Value, j: Json, elements: seq<Type>, find: Finding)
    decreases elements, 1
  {
    && Keyed(j) && Lookup(j.fields, "field").value.JInt? && w.Named?
    && exists k: nat ::
         && IsFirstField(elements, Lookup(j.fields, "field").value.n % 0x1_0000_0000_0000_0000, k)
         && w.name == Integer(U16, elements[k].shape.name)
         && (assert elements[k].shape.valueType < elements[k];
             ReadAs(w.value, Lookup(j.fields, "value").value, elements[k].shape.valueType, find))
  }

  //
  // Pieces
  //

  lemma CastWraps(kind: IntKind, n: int) returns (k: int)
    requires !kind.BoolKind?
    ensures Cast(kind, n) - n == k * Modulus(kind)
  {
    var modulus, q := Modulus(kind), n / Modulus(kind);
    assert n == modulus * q + n % modulus;
    k := if Cast(kind, n) == n % modulus then -q else -q - 1;
  }

  lemma CastIff(kind: IntKind, n: int, m: int)
    requires !kind.BoolKind?
    ensures m == Cast(kind, n) <==> InRange(kind, m) && (m - n) % Modulus(kind) == 0
  {
    var modulus, c := Modulus(kind), Cast(kind, n);
    var k := CastWraps(kind, n);
    ModUnique(c - n, modulus, k, 0);
    if InRange(kind, m) && (m - n) % modulus == 0 {
      hide Cast, Modulus;
      var l := (m - n) / modulus;
      assert m - n == l * modulus;
      Congruent(m, n, c, modulus, l, k);
      RangeIsModulus(kind, m, c);
      OnlyMultiple(m - c, modulus, l - k);
    }
  }

  lemma Congruent(m: int, n: int, c: int, modulus: int, l: int, k: int)
    requires m - n == l * modulus && c - n == k * modulus
    ensures m - c == modulus * (l - k)
  {
  }

  lemma RangeIsModulus(kind: IntKind, m: int, c: int)
    requires !kind.BoolKind? && InRange(kind, m) && InRange(kind, c)
    ensures m - c < Modulus(kind) && c - m < Modulus(kind)
  {
  }

  lemma OnlyMultiple(x: int, m: nat, k: int)
    requires m > 0 && x == m * k && x < m && x + m > 0
    ensures x == 0
  {
    ModUnique(x, m, k, 0);
    if x != 0 {
      var r := if x > 0 then x else x + m;
      ModUnique(x, m, if x > 0 then 0 else -1, r);
    }
  }

  /** An integer of the type's kind is read as that number in the kind. */
  lemma NumberReadIff(v: Value, width: nat, signed: bool, n: int)
    ensures v == Integer(NumberKind(width, signed), Cast(NumberKind(width, signed), Cast(WideKind(signed), n)))
            <==> IsNumber(v, width, signed, n)
  {
    hide Cast;
    CastNarrow(width, signed, n);
    if v.Integer? {
      CastIff(NumberKind(width, signed), n, v.n);
    }
  }

  lemma ReferenceReadIff(t: Text, uid: UID, find: Finding)
    ensures RefUid(t, find) == Ok(uid) <==> Refers(t, uid, find)
  {
    hide ParseUid, ReadsNumber, WithoutQuotes;
    if |t| >= 4 {
      UidReadIff(t[4..], uid);
    }
  }

  lemma OctetsReadIff(v: Value, j: Json, t: Type, find: Finding)
    requires t.shape.Octets?
    ensures FromJson(j, t, find) == Ok(v) <==> ReadAs(v, j, t, find)
  {
    hide TextToBytes, SpellsCharacters, ReadsAs;
    if j.JString? && v.Bytes? {
      CharactersReadIff(j.text, v.bytes);
      DigitsReadIff(j.text, v.bytes);
    }
  }

  lemma EnumerationReadIff(v: Value, j: Json, t: Type, find: Finding)
    requires t.shape.Enumerated?
    ensures FromJson(j, t, find) == Ok(v) <==> ReadAs(v, j, t, find)
  {
    hide Cast;
    if j.JInt? && v.Integer? {
      CastIff(U16, j.n, v.n);
    }
  }

  lemma ReferenceIsRead(v: Value, j: Json, t: Type, find: Finding)
    requires t.shape.Reference?
    ensures FromJson(j, t, find) == Ok(v) <==> ReadAs(v, j, t, find)
  {
    hide RefUid, Refers, BigEndian;
    if j.JString? {
      forall uid: UID ensures RefUid(j.text, find) == Ok(uid) <==> Refers(j.text, uid, find) {
        ReferenceReadIff(j.text, uid, find);
      }
    }
  }

  lemma KeyedIff(j: Json)
    ensures IsFieldJson(j) <==> Keyed(j)
    ensures IsPlainJson(j) <==> Unkeyed(j)
  {
  }

  lemma {:induction false} SameFilter<T>(f: T -> bool, g: T -> bool, s: seq<T>)
    requires forall x :: f(x) <==> g(x)
    ensures Filter(f, s) == Filter(g, s)
  {
    if s != [] {
      SameFilter(f, g, s[1..]);
    }
  }

  lemma KeyedFilters(js: seq<Json>)
    ensures Filter(IsFieldJson, js) == Filter(Keyed, js) && Filter(IsPlainJson, js) == Filter(Unkeyed, js)
  {
    hide IsFieldJson, IsPlainJson, Keyed, Unkeyed;
    forall j: Json ensures IsFieldJson(j) <==> Keyed(j)
      ensures IsPlainJson(j) <==> Unkeyed(j)
    {
      KeyedIff(j);
    }
    SameFilter(IsFieldJson, Keyed, js);
    SameFilter(IsPlainJson, Unkeyed, js);
  }

  lemma {:induction false} FirstFieldIff(elements: seq<Type>, key: int, k: nat)
    ensures OptionalIndex(elements, key) == k <==> IsFirstField(elements, key, k)
    decreases |elements|
  {
    if elements != [] {
      assert forall j :: 0 < j < |elements| ==> elements[j] == elements[1..][j - 1];
      if k > 0 {
        FirstFieldIff(elements[1..], key, k - 1);
        assert forall j :: 0 <= j < |elements[1..]| ==> elements[1..][j] == elements[j + 1];
      }
    }
  }

  lemma FirstIff(types: seq<Type>, uid: UID, i: nat)
    ensures FindType(types, uid) == Ok(i) <==> IsFirst(types, uid, i)
  {
    if i < |types| {
      FoundIff(types, uid, i);
    }
  }

  lemma WideKey(n: int)
    ensures Cast(U64, n) == n % 0x1_0000_0000_0000_0000
  {
  }

  //
  // Everything that is read
  //

  /** A text is read as a value, under a type, if and only if the value is what it says there. */
  lemma {:induction false} ReadIff(v: Value, j: Json, t: Type, find: Finding)
    ensures FromJson(j, t, find) == Ok(v) <==> ReadAs(v, j, t, find)
    decreases t, 0, 0
  {
    match t.shape
    case Enumerated(_) => EnumerationReadIff(v, j, t, find);
    case Number(width, signed) =>
      if j.JInt? {
        NumberReadIff(v, width, signed, j.n);
      }
    case Octets => OctetsReadIff(v, j, t, find);
    case Alternative(_) => AlternativeReadIff(v, j, t, find);
    case ListOf(element) =>
      if j.JArray? && v.List? {
        EachReadIff(v.items, j.items, element, find);
      }
    case Struct(_) => StructReadIff(v, j, t, find);
    case Reference => ReferenceIsRead(v, j, t, find);
    case NamedValue(_, _) => NamedReadIff(v, j, t, find);
    case Unsupported =>
  }

  lemma {:induction false} AlternativeReadIff(v: Value, j: Json, t: Type, find: Finding)
    requires t.shape.Alternative?
    ensures FromJson(j, t, find) == Ok(v) <==> ReadAs(v, j, t, find)
    decreases t.shape, 0, 0
  {
    hide RefUid, Refers, FindType, IsFirst, BigEndian;
    var types := t.shape.types;
    if j.JObject? && j.fields != [] {
      forall uid: UID ensures RefUid(j.fields[0].key, find) == Ok(uid) <==> Refers(j.fields[0].key, uid, find) {
        ReferenceReadIff(j.fields[0].key, uid, find);
      }
      forall uid: UID, i: nat ensures FindType(types, uid) == Ok(i) <==> IsFirst(types, uid, i) {
        FirstIff(types, uid, i);
      }
      if v.Named? {
        forall i | 0 <= i < |types|
          ensures FromJson(j.fields[0].value, types[i], find) == Ok(v.value)
                  <==> ReadAs(v.value, j.fields[0].value, types[i], find)
        {
          ReadIff(v.value, j.fields[0].value, types[i], find);
        }
      }
    }
  }

  lemma {:induction false} NamedReadIff(v: Value, j: Json, t: Type, find: Finding)
    requires t.shape.NamedValue?
    ensures FromJson(j, t, find) == Ok(v) <==> ReadAs(v, j, t, find)
    decreases t.shape, 0, 0
  {
    if Contains(j, NAME) && Contains(j, VALUE) && v.Named? {
      ReadIff(v.value, Lookup(j.fields, VALUE).value, t.shape.valueType, find);
    }
  }

  lemma {:induction false} EachReadIff(vs: seq<Value>, js: seq<Json>, element: Type, find: Finding)
    ensures EachFromJson(js, element, find) == Ok(vs) <==>
      |vs| == |js| && forall i :: 0 <= i < |js| ==> ReadAs(vs[i], js[i], element, find)
    decreases element, 1, |js|
  {
    hide FromJson, ReadAs;
    if js != [] && vs != [] {
      ReadIff(vs[0], js[0], element, find);
      EachReadIff(vs[1..], js[1..], element, find);
      assert vs == [vs[0]] + vs[1..];
      assert forall i :: 0 < i < |vs| ==> vs[i] == vs[1..][i - 1];
      assert forall i :: 0 < i < |js| ==> js[i] == js[1..][i - 1];
    }
  }

  lemma {:induction false} MandatoryReadIff(vs: seq<Value>, js: seq<Json>, elements: seq<Type>, find: Finding)
    ensures var mandatory := Filter(IsMandatoryType, elements);
      MandatoryFromJson(js, elements, find) == Ok(vs) <==>
      |vs| == |js| == |mandatory| && forall i :: 0 <= i < |js| ==> ReadAs(vs[i], js[i], mandatory[i], find)
    decreases elements, 1, 0
  {
    hide FromJson, ReadAs;
    if elements != [] {
      var mandatory, rest := Filter(IsMandatoryType, elements), Filter(IsMandatoryType, elements[1..]);
      if elements[0].shape.NamedValue? {
        MandatoryReadIff(vs, js, elements[1..], find);
        assert mandatory == [] + rest == rest;
      } else {
        assert mandatory == [elements[0]] + rest;
        if js != [] && vs != [] {
          ReadIff(vs[0], js[0], elements[0], find);
          MandatoryReadIff(vs[1..], js[1..], elements[1..], find);
          assert vs == [vs[0]] + vs[1..];
          assert forall i :: 0 < i < |vs| ==> vs[i] == vs[1..][i - 1];
          assert forall i :: 0 < i < |js| ==> js[i] == js[1..][i - 1];
          assert forall i :: 0 < i < |mandatory| ==> mandatory[i] == rest[i - 1];
        }
      }
    }
  }

  lemma {:induction false} OptionalReadIff(vs: seq<Value>, js: seq<Json>, elements: seq<Type>, find: Finding)
    requires forall j :: j in js ==> IsFieldJson(j)
    ensures OptionalFromJson(js, elements, find) == Ok(vs) <==>
      |vs| == |js| && forall i :: 0 <= i < |js| ==> FieldReadAs(vs[i], js[i], elements, find)
    decreases elements, 1, |js|
  {
    hide FromJson, ReadAs, FieldReadAs, OptionalIndex, Keyed, IsFieldJson;
    if js != [] && vs != [] {
      FieldReadIff(vs[0], js[0], elements, find);
      OptionalReadIff(vs[1..], js[1..], elements, find);
      FirstField(js, elements, find);
      assert vs == [vs[0]] + vs[1..];
      assert forall i :: 0 < i < |vs| ==> vs[i] == vs[1..][i - 1];
      assert forall i :: 0 < i < |js| ==> js[i] == js[1..][i - 1];
    }
  }

  /** What the converter makes of one optional field. */
  function FieldFromJson(j: Json, elements: seq<Type>, find: Finding): Result<Value>
    requires IsFieldJson(j)
  {
    var field, value := Lookup(j.fields, FIELD).value, Lookup(j.fields, VALUE).value;
    if !field.JInt? then Err(InvalidType) else
    var key := Cast(U64, field.n);
    var i := OptionalIndex(elements, key);
    if i < 0 then Err(InvalidType) else
    var v :- FromJson(value, elements[i].shape.valueType, find);
    Ok(Named(Integer(U16, key % TWO_TO_16), v))
  }

  lemma FirstField(js: seq<Json>, elements: seq<Type>, find: Finding)
    requires js != [] && forall j :: j in js ==> IsFieldJson(j)
    ensures OptionalFromJson(js, elements, find) ==
      var v, vs := FieldFromJson(js[0], elements, find), OptionalFromJson(js[1..], elements, find);
      if v.Err? then Err(v.error) else if vs.Err? then vs else Ok([v.value] + vs.value)
  {
    hide FromJson, OptionalIndex, IsFieldJson, Cast;
    assert js[0] in js;
  }

  lemma {:induction false} FieldReadIff(w: Value, j: Json, elements: seq<Type>, find: Finding)
    requires IsFieldJson(j)
    ensures FieldFromJson(j, elements, find) == Ok(w) <==> FieldReadAs(w, j, elements, find)
    decreases elements, 0, 0
  {
    hide FromJson, ReadAs, OptionalIndex, IsFirstField, Cast;
    var field, value := Lookup(j.fields, FIELD).value, Lookup(j.fields, VALUE).value;
    if field.JInt? {
      WideKey(field.n);
      forall k: nat ensures OptionalIndex(elements, Cast(U64, field.n)) == k <==>
        IsFirstField(elements, field.n % 0x1_0000_0000_0000_0000, k)
      {
        FirstFieldIff(elements, field.n % 0x1_0000_0000_0000_0000, k);
      }
      var k := OptionalIndex(elements, Cast(U64, field.n));
      if k >= 0 && w.Named? {
        assert elements[k].shape.valueType < elements[k];
        ReadIff(w.value, value, elements[k].shape.valueType, find);
        assert elements[k].shape.name == field.n % 0x1_0000_0000_0000_0000;
      }
    }
  }

  lemma {:induction false} StructReadIff(v: Value, j: Json, t: Type, find: Finding)
    requires t.shape.Struct?
    ensures FromJson(j, t, find) == Ok(v) <==> ReadAs(v, j, t, find)
    decreases t.shape, 0, 0
  {
    hide Filter, Keyed, Unkeyed, IsFieldJson, IsPlainJson, FieldReadAs, MandatoryFromJson, OptionalFromJson;
    if j.JArray? && v.List? {
      KeyedFilters(j.items);
      StructIsFields(v.items, j.items, t.shape.elements, find);
      StructMeaning(v, j, t, find);
    }
  }

  /** Both halves of a struct. */
  ghost predicate StructReadAs(vs: seq<Value>, js: seq<Json>, elements: seq<Type>, find: Finding) {
    var plain, fields := Filter(Unkeyed, js), Filter(Keyed, js);
    var mandatory := Filter(IsMandatoryType, elements);
    && |plain| == |mandatory| && |vs| == |plain| + |fields|
    && (forall i :: 0 <= i < |plain| ==> ReadAs(vs[i], plain[i], mandatory[i], find))
    && (forall i :: 0 <= i < |fields| ==> FieldReadAs(vs[|plain| + i], fields[i], elements, find))
  }

  lemma StructMeaning(v: Value, j: Json, t: Type, find: Finding)
    requires t.shape.Struct? && j.JArray? && v.List?
    ensures ReadAs(v, j, t, find) <==> StructReadAs(v.items, j.items, t.shape.elements, find)
  {
    hide Filter, Keyed, Unkeyed, IsFirstField;
    var elements := t.shape.elements;
    var mandatory := Filter(IsMandatoryType, elements);
    forall i | 0 <= i < |mandatory| ensures exists k :: 0 <= k < |elements| && elements[k] == mandatory[i] {
      assert mandatory[i] in elements;
    }
  }

  lemma {:induction false} StructIsFields(vs: seq<Value>, js: seq<Json>, elements: seq<Type>, find: Finding)
    ensures FromJson(JArray(js), Type(None, Struct(elements)), find) == Ok(List(vs))
            <==> StructReadAs(vs, js, elements, find)
    decreases elements, 2, 0
  {
    hide Filter, Keyed, Unkeyed, IsFieldJson, IsPlainJson, ReadAs, FieldReadAs;
    KeyedFilters(js);
    var plain, fields := Filter(Unkeyed, js), Filter(Keyed, js);
    if |vs| >= |plain| {
      var ms, os := vs[..|plain|], vs[|plain|..];
      MandatoryReadIff(ms, plain, elements, find);
      OptionalReadIff(os, fields, elements, find);
      assert vs == ms + os;
      assert forall i :: 0 <= i < |os| ==> os[i] == vs[|plain| + i];
    }
    var m, o := MandatoryFromJson(plain, elements, find), OptionalFromJson(Filter(IsFieldJson, js), elements, find);
    if m.Ok? && o.Ok? && m.value + o.value == vs {
      MandatoryReadIff(m.value, plain, elements, find);
      assert m.value == vs[..|plain|] && o.value == vs[|plain|..];
    }
  }

  //
  // Which texts are read
  //

  /** The text says something under the type. */
  ghost predicate Readable(j: Json, t: Type, find: Finding)
    decreases t, 0
  {
    match t.shape
    case Enumerated(names) => j.JInt? || (j.JString? && j.text in names.backward)
    case Number(_, _) => j.JInt?
    case Octets => j.JString? && (OfCharacters(t) || exists bytes :: ReadsAs(j.text, bytes))
    case Alternative(types) =>
      && j.JObject? && j.fields != []
      && exists uid: UID, i: nat ::
           && Refers(j.fields[0].key, uid, find) && IsFirst(types, uid, i)
           && Readable(j.fields[0].value, types[i], find)
    case ListOf(element) => j.JArray? && forall i :: 0 <= i < |j.items| ==> Readable(j.items[i], element, find)
    case Struct(elements) =>
      && j.JArray?
      && var plain, fields := Filter(Unkeyed, j.items), Filter(Keyed, j.items);
      var mandatory := Filter(IsMandatoryType, elements);
      && |plain| == |mandatory|
      && (forall i, k :: 0 <= i < |plain| && 0 <= k < |elements| && elements[k] == mandatory[i] ==>
            Readable(plain[i], elements[k], find))
      && (forall i :: 0 <= i < |fields| ==> FieldReadable(fields[i], elements, find))
    case Reference => j.JString? && exists uid: UID :: Refers(j.text, uid, find)
    case NamedValue(key, valueType) =>
      && j.JObject?
      && var name, value := Lookup(j.fields, "name"), Lookup(j.fields, "value");
      && name.Some? && value.Some? && name.value.JInt? && name.value.n % 0x1_0000 == key
      && Readable(value.value, valueType, find)
    case Unsupported => false
  }

  ghost predicate FieldReadable(j: Json, elements: seq<Type>, find: Finding)
    decreases elements, 1
  {
    && Keyed(j) && Lookup(j.fields, "field").value.JInt?
    && exists k: nat ::
         && IsFirstField(elements, Lookup(j.fields, "field").value.n % 0x1_0000_0000_0000_0000, k)
         && (assert elements[k].shape.valueType < elements[k];
             Readable(Lookup(j.fields, "value").value, elements[k].shape.valueType, find))
  }

  lemma OctetsReadable(j: Json, t: Type, find: Finding)
    requires t.shape.Octets?
    ensures FromJson(j, t, find).Ok? <==> Readable(j, t, find)
  {
    hide TextToBytes, ReadsAs;
    if j.JString? {
      CharactersAreBytes(j.text);
      forall bytes ensures TextToBytes(j.text, false) == Ok(bytes) <==> ReadsAs(j.text, bytes) {
        DigitsReadIff(j.text, bytes);
      }
    }
  }

  lemma ReferenceReadable(j: Json, t: Type, find: Finding)
    requires t.shape.Reference?
    ensures FromJson(j, t, find).Ok? <==> Readable(j, t, find)
  {
    hide RefUid, Refers, BigEndian;
    if j.JString? {
      forall uid: UID ensures RefUid(j.text, find) == Ok(uid) <==> Refers(j.text, uid, find) {
        ReferenceReadIff(j.text, uid, find);
      }
    }
  }

  /** A text is read under a type if and only if it says something there; every other text is refused. */
  lemma {:induction false} ReadableIff(j: Json, t: Type, find: Finding)
    ensures FromJson(j, t, find).Ok? <==> Readable(j, t, find)
    decreases t, 0, 0
  {
    match t.shape
    case Enumerated(_) =>
    case Number(_, _) =>
    case Octets => OctetsReadable(j, t, find);
    case Alternative(_) => AlternativeReadable(j, t, find);
    case ListOf(element) =>
      if j.JArray? {
        EachReadable(j.items, element, find);
      }
    case Struct(_) => StructReadable(j, t, find);
    case Reference => ReferenceReadable(j, t, find);
    case NamedValue(_, _) => NamedReadable(j, t, find);
    case Unsupported =>
  }

  lemma {:induction false} AlternativeReadable(j: Json, t: Type, find: Finding)
    requires t.shape.Alternative?
    ensures FromJson(j, t, find).Ok? <==> Readable(j, t, find)
    decreases t.shape, 0, 0
  {
    hide RefUid, Refers, FindType, IsFirst, BigEndian;
    var types := t.shape.types;
    if j.JObject? && j.fields != [] {
      forall uid: UID ensures RefUid(j.fields[0].key, find) == Ok(uid) <==> Refers(j.fields[0].key, uid, find) {
        ReferenceReadIff(j.fields[0].key, uid, find);
      }
      forall uid: UID, i: nat ensures FindType(types, uid) == Ok(i) <==> IsFirst(types, uid, i) {
        FirstIff(types, uid, i);
      }
      forall i | 0 <= i < |types|
        ensures FromJson(j.fields[0].value, types[i], find).Ok? <==> Readable(j.fields[0].value, types[i], find)
      {
        ReadableIff(j.fields[0].value, types[i], find);
      }
    }
  }

  lemma {:induction false} NamedReadable(j: Json, t: Type, find: Finding)
    requires t.shape.NamedValue?
    ensures FromJson(j, t, find).Ok? <==> Readable(j, t, find)
    decreases t.shape, 0, 0
  {
    if Contains(j, NAME) && Contains(j, VALUE) {
      ReadableIff(Lookup(j.fields, VALUE).value, t.shape.valueType, find);
    }
  }

  lemma {:induction false} EachReadable(js: seq<Json>, element: Type, find: Finding)
    ensures EachFromJson(js, element, find).Ok? <==> forall i :: 0 <= i < |js| ==> Readable(js[i], element, find)
    decreases element, 1, |js|
  {
    hide FromJson, Readable;
    if js != [] {
      ReadableIff(js[0], element, find);
      EachReadable(js[1..], element, find);
      assert forall i :: 0 < i < |js| ==> js[i] == js[1..][i - 1];
    }
  }

  lemma {:induction false} MandatoryReadable(js: seq<Json>, elements: seq<Type>, find: Finding)
    ensures var mandatory := Filter(IsMandatoryType, elements);
      MandatoryFromJson(js, elements, find).Ok? <==>
      |js| == |mandatory| && forall i :: 0 <= i < |js| ==> Readable(js[i], mandatory[i], find)
    decreases elements, 1, 0
  {
    hide FromJson, Readable;
    if elements != [] {
      var mandatory, rest := Filter(IsMandatoryType, elements), Filter(IsMandatoryType, elements[1..]);
      if elements[0].shape.NamedValue? {
        MandatoryReadable(js, elements[1..], find);
        assert mandatory == [] + rest == rest;
      } else {
        assert mandatory == [elements[0]] + rest;
        if js != [] {
          ReadableIff(js[0], elements[0], find);
          MandatoryReadable(js[1..], elements[1..], find);
          assert forall i :: 0 < i < |js| ==> js[i] == js[1..][i - 1];
          assert forall i :: 0 < i < |mandatory| ==> mandatory[i] == rest[i - 1];
        }
      }
    }
  }

  lemma {:induction false} OptionalReadable(js: seq<Json>, elements: seq<Type>, find: Finding)
    requires forall j :: j in js ==> IsFieldJson(j)
    ensures OptionalFromJson(js, elements, find).Ok? <==>
      forall i :: 0 <= i < |js| ==> FieldReadable(js[i], elements, find)
    decreases elements, 1, |js|
  {
    hide FromJson, FieldReadable, OptionalIndex, IsFieldJson;
    if js != [] {
      IsFieldReadable(js[0], elements, find);
      OptionalReadable(js[1..], elements, find);
      FirstField(js, elements, find);
      assert forall i :: 0 < i < |js| ==> js[i] == js[1..][i - 1];
    }
  }

  lemma {:induction false} IsFieldReadable(j: Json, elements: seq<Type>, find: Finding)
    requires IsFieldJson(j)
    ensures FieldFromJson(j, elements, find).Ok? <==> FieldReadable(j, elements, find)
    decreases elements, 0, 0
  {
    hide FromJson, Readable, OptionalIndex, IsFirstField, Cast;
    var field, value := Lookup(j.fields, FIELD).value, Lookup(j.fields, VALUE).value;
    if field.JInt? {
      WideKey(field.n);
      forall k: nat ensures OptionalIndex(elements, Cast(U64, field.n)) == k <==>
        IsFirstField(elements, field.n % 0x1_0000_0000_0000_0000, k)
      {
        FirstFieldIff(elements, field.n % 0x1_0000_0000_0000_0000, k);
      }
      var k := OptionalIndex(elements, Cast(U64, field.n));
      if k >= 0 {
        assert elements[k].shape.valueType < elements[k];
        ReadableIff(value, elements[k].shape.valueType, find);
      }
    }
  }

  lemma {:induction false} StructReadable(j: Json, t: Type, find: Finding)
    requires t.shape.Struct?
    ensures FromJson(j, t, find).Ok? <==> Readable(j, t, find)
    decreases t.shape, 0, 0
  {
    hide Filter, Keyed, Unkeyed, IsFieldJson, IsPlainJson, FieldReadable, MandatoryFromJson, OptionalFromJson;
    if j.JArray? {
      var elements := t.shape.elements;
      KeyedFilters(j.items);
      MandatoryReadable(Filter(Unkeyed, j.items), elements, find);
      OptionalReadable(Filter(Keyed, j.items), elements, find);
      var mandatory := Filter(IsMandatoryType, elements);
      forall i | 0 <= i < |mandatory| ensures exists k :: 0 <= k < |elements| && elements[k] == mandatory[i] {
        assert mandatory[i] in elements;
      }
    }
  }

  //
  // What is shown
  //

  /** The value, shown under the type, is the text. */
  ghost predicate ShownAs(j: Json, v: Value, t: Type, name: Naming)
    decreases t, 0
  {
    match t.shape
    case Enumerated(names) =>
      && v.Integer?
      && var n: uint16 := v.n % 0x1_0000;
      j == if n in names.forward then JString(names.forward[n]) else JInt(n)
    case Number(_, signed) =>
      v.Integer? && j.JInt? && if signed then Signed64(j.n, v.n) else Unsigned64(j.n, v.n)
    case Octets =>
      && v.Bytes? && j.JString?
      && if OfCharacters(t) then SpellsCharacters(j.text, v.bytes) else SpellsDigits(j.text, v.bytes)
    case Alternative(types) =>
      && v.Named? && v.name.Bytes? && |v.name.bytes| >= 4
      && var uid := 0x5_0000_0000 + FromBigEndian(v.name.bytes[..4]);
      && j.JObject? && |j.fields| == 1 && uid < TWO_TO_64 && ShowsReference(j.fields[0].key, uid, name)
      && exists i: nat :: IsFirst(types, uid, i) && ShownAs(j.fields[0].value, v.value, types[i], name)
    case ListOf(element) =>
      && v.List? && j.JArray? && |j.items| == |v.items|
      && forall i :: 0 <= i < |v.items| ==> ShownAs(j.items[i], v.items[i], element, name)
    case Struct(elements) =>
      && v.List? && j.JArray?
      && var plain, fields := Filter(IsPlain, v.items), Filter(IsField, v.items);
      var mandatory := Filter(IsMandatoryType, elements);
      && |plain| == |mandatory| && |j.items| == |plain| + |fields|
      && (forall i, k :: 0 <= i < |plain| && 0 <= k < |elements| && elements[k] == mandatory[i] ==>
            ShownAs(j.items[i], plain[i], elements[k], name))
      && (forall i :: 0 <= i < |fields| ==> FieldShownAs(j.items[|plain| + i], fields[i], elements, name))
    case Reference =>
      v.Bytes? && |v.bytes| >= 8 && j.JString? && exists uid: UID ::
        uid == FromBigEndian(v.bytes[..8]) && ShowsReference(j.text, uid, name)
    case NamedValue(key, valueType) =>
      && v.Named? && v.name.Integer? && (v.name.n - key) % 0x1_0000 == 0
      && j.JObject? && |j.fields| == 2
      && j.fields[0] == Field("name", JInt(key)) && j.fields[1].key == "value"
      && ShownAs(j.fields[1].value, v.value, valueType, name)
    case Unsupported => false
  }

  /** An optional field is shown with its key, under the first type with that key. */
  ghost predicate FieldShownAs(j: Json, w: Value, elements: seq<Type>, name: Naming)
    decreases elements, 1
  {
    && w.Named? && w.name.Integer?
    && j.JObject? && |j.fields| == 2 && j.fields[0].key == "field" && j.fields[1].key == "value"
    && exists k: nat ::
         && IsFirstField(elements, w.name.n % 0x1_0000_0000_0000_0000, k)
         && j.fields[0].value == JInt(elements[k].shape.name)
         && (assert elements[k].shape.valueType < elements[k];
             ShownAs(j.fields[1].value, w.value, elements[k].shape.valueType, name))
  }

  lemma EnumerationShownIff(j: Json, v: Value, t: Type, name: Naming)
    requires t.shape.Enumerated?
    ensures ToJson(v, t, name) == Ok(j) <==> ShownAs(j, v, t, name)
  {
    if v.Integer? {
      LowSixteen(v.n);
    }
  }

  lemma LowSixteen(n: int)
    ensures Cast(U16, n) == n % 0x1_0000
  {
  }

  lemma Negated(x: int, m: nat)
    requires m > 0
    ensures x % m == 0 <==> (-x) % m == 0
  {
    var k, l := x / m, (-x) / m;
    if x % m == 0 {
      assert x == m * k;
      ModUnique(-x, m, -k, 0);
    }
    if (-x) % m == 0 {
      assert -x == m * l;
      ModUnique(x, m, -l, 0);
    }
  }

  lemma SameKey(n: int, key: uint16)
    ensures Cast(U16, n) == key <==> (n - key) % 0x1_0000 == 0
  {
    hide Cast;
    CastIff(U16, n, key);
    Negated(key - n, 0x1_0000);
  }

  lemma NumberShownIff(j: Json, v: Value, t: Type, name: Naming)
    requires t.shape.Number?
    ensures ToJson(v, t, name) == Ok(j) <==> ShownAs(j, v, t, name)
  {
    hide Cast;
    if v.Integer? && j.JInt? {
      CastIff(WideKind(t.shape.signed), v.n, j.n);
    }
  }

  lemma OctetsShownIff(j: Json, v: Value, t: Type, name: Naming)
    requires t.shape.Octets?
    ensures ToJson(v, t, name) == Ok(j) <==> ShownAs(j, v, t, name)
  {
    hide BytesToText, SpellsCharacters, SpellsDigits;
    if v.Bytes? && j.JString? {
      PrintedIff(v.bytes, j.text);
    }
  }

  /**
   * Byte strings: a name or a password is shown as a character for each byte, and every other byte string as two
   * digits for each byte and a quote between each two; either text is read as the bytes again.
   */
  lemma OctetsSpelled(bytes: seq<byte>, t: Type, name: Naming, find: Finding)
    requires t.shape.Octets?
    ensures var shown := ToJson(Bytes(bytes), t, name);
      && shown.Ok? && shown.value.JString?
      && var text := shown.value.text;
      if t.uid == Some(0x5_0000_020B) || t.uid == Some(0x5_0000_020C) then
        |text| == |bytes| && forall i :: 0 <= i < |bytes| ==> text[i] as int == bytes[i]
      else
        && |text| == (if |bytes| == 0 then 0 else 3 * |bytes| - 1)
        && forall i :: 0 <= i < |bytes| ==>
             && text[3 * i] == "0123456789ABCDEF"[bytes[i] / 16]
             && text[3 * i + 1] == "0123456789ABCDEF"[bytes[i] % 16]
             && (i + 1 < |bytes| ==> text[3 * i + 2] == '\'')
    ensures forall text: Text ::
      (if t.uid == Some(0x5_0000_020B) || t.uid == Some(0x5_0000_020C) then SpellsCharacters(text, bytes)
       else SpellsDigits(text, bytes))
      ==> FromJson(JString(text), t, find) == Ok(Bytes(bytes))
  {
    hide BytesToText, TextToBytes;
    CharactersPrinted(bytes);
    DigitsPrinted(bytes);
    var asString := AsString(t);
    BytesTextRoundTrip(bytes, asString);
    forall text: Text {
      SpelledOnce(text, BytesToText(bytes, asString), bytes);
    }
  }

  lemma ReferenceShownIff(t: Text, uid: UID, name: Naming)
    ensures RefText(uid, name) == t <==> ShowsReference(t, uid, name)
  {
    hide UidToText, SpellsUid;
    var body := if name(uid).Some? then name(uid).value else UidToText(uid);
    DropAppend(REF, body);
    if |t| >= 4 {
      UidSpelledOnce(t[4..], uid);
      assert t == t[..4] + t[4..];
    }
  }

  lemma ReferenceIsShown(j: Json, v: Value, t: Type, name: Naming)
    requires t.shape.Reference?
    ensures ToJson(v, t, name) == Ok(j) <==> ShownAs(j, v, t, name)
  {
    hide RefText, ShowsReference, FromBigEndian;
    if v.Bytes? && |v.bytes| >= 8 && j.JString? {
      UidBytesBack(v.bytes);
      ReferenceShownIff(j.text, UidOfBytes(v.bytes).value, name);
    }
  }

  /** A value is shown as a text, under a type, if and only if that is how it is spelled there. */
  lemma {:induction false} ShownIff(j: Json, v: Value, t: Type, name: Naming)
    ensures ToJson(v, t, name) == Ok(j) <==> ShownAs(j, v, t, name)
    decreases t, 0, 0
  {
    match t.shape
    case Enumerated(_) => EnumerationShownIff(j, v, t, name);
    case Number(_, _) => NumberShownIff(j, v, t, name);
    case Octets => OctetsShownIff(j, v, t, name);
    case Alternative(_) => AlternativeShownIff(j, v, t, name);
    case ListOf(element) =>
      if j.JArray? && v.List? {
        EachShownIff(j.items, v.items, element, name);
      }
    case Struct(_) => StructShownIff(j, v, t, name);
    case Reference => ReferenceIsShown(j, v, t, name);
    case NamedValue(_, _) => NamedShownIff(j, v, t, name);
    case Unsupported =>
  }

  lemma {:induction false} AlternativeShownIff(j: Json, v: Value, t: Type, name: Naming)
    requires t.shape.Alternative?
    ensures ToJson(v, t, name) == Ok(j) <==> ShownAs(j, v, t, name)
    decreases t.shape, 0, 0
  {
    hide RefText, ShowsReference, FindType, IsFirst, FromBigEndian;
    var types := t.shape.types;
    if v.Named? && v.name.Bytes? && |v.name.bytes| >= 4 {
      LowerHalfOk(v.name.bytes);
      var uid := TypeUid(LowerHalf(v.name.bytes).value);
      forall i: nat ensures FindType(types, uid) == Ok(i) <==> IsFirst(types, uid, i) {
        FirstIff(types, uid, i);
      }
      FoundInside(types, uid);
      if j.JObject? && |j.fields| == 1 {
        ReferenceShownIff(j.fields[0].key, uid, name);
        assert j.fields == [Field(j.fields[0].key, j.fields[0].value)];
        forall i | 0 <= i < |types|
          ensures ToJson(v.value, types[i], name) == Ok(j.fields[0].value)
                  <==> ShownAs(j.fields[0].value, v.value, types[i], name)
        {
          ShownIff(j.fields[0].value, v.value, types[i], name);
        }
      }
    } else if v.Named? && v.name.Bytes? {
      LowerHalfOk(v.name.bytes);
    }
  }

  lemma FoundInside(types: seq<Type>, uid: UID)
    ensures forall i: nat :: IsFirst(types, uid, i) ==> i < |types|
  {
  }

  lemma {:induction false} NamedShownIff(j: Json, v: Value, t: Type, name: Naming)
    requires t.shape.NamedValue?
    ensures ToJson(v, t, name) == Ok(j) <==> ShownAs(j, v, t, name)
    decreases t.shape, 0, 0
  {
    hide Cast;
    if v.Named? && v.name.Integer? {
      SameKey(v.name.n, t.shape.name);
      if j.JObject? && |j.fields| == 2 {
        ShownIff(j.fields[1].value, v.value, t.shape.valueType, name);
        assert j.fields == [j.fields[0], Field(j.fields[1].key, j.fields[1].value)];
      }
    }
  }

  lemma {:induction false} EachShownIff(js: seq<Json>, vs: seq<Value>, element: Type, name: Naming)
    ensures EachToJson(vs, element, name) == Ok(js) <==>
      |js| == |vs| && forall i :: 0 <= i < |vs| ==> ShownAs(js[i], vs[i], element, name)
    decreases element, 1, |vs|
  {
    hide ToJson, ShownAs;
    if vs != [] && js != [] {
      ShownIff(js[0], vs[0], element, name);
      EachShownIff(js[1..], vs[1..], element, name);
      assert js == [js[0]] + js[1..];
      assert forall i :: 0 < i < |vs| ==> vs[i] == vs[1..][i - 1];
      assert forall i :: 0 < i < |js| ==> js[i] == js[1..][i - 1];
    }
  }

  lemma {:induction false} MandatoryShownIff(js: seq<Json>, vs: seq<Value>, elements: seq<Type>, name: Naming)
    ensures var mandatory := Filter(IsMandatoryType, elements);
      MandatoryToJson(vs, elements, name) == Ok(js) <==>
      |js| == |vs| == |mandatory| && forall i :: 0 <= i < |vs| ==> ShownAs(js[i], vs[i], mandatory[i], name)
    decreases elements, 1, 0
  {
    hide ToJson, ShownAs;
    if elements != [] {
      var mandatory, rest := Filter(IsMandatoryType, elements), Filter(IsMandatoryType, elements[1..]);
      if elements[0].shape.NamedValue? {
        MandatoryShownIff(js, vs, elements[1..], name);
        assert mandatory == [] + rest == rest;
      } else {
        assert mandatory == [elements[0]] + rest;
        if vs != [] && js != [] {
          ShownIff(js[0], vs[0], elements[0], name);
          MandatoryShownIff(js[1..], vs[1..], elements[1..], name);
          assert js == [js[0]] + js[1..];
          assert forall i :: 0 < i < |vs| ==> vs[i] == vs[1..][i - 1];
          assert forall i :: 0 < i < |js| ==> js[i] == js[1..][i - 1];
          assert forall i :: 0 < i < |mandatory| ==> mandatory[i] == rest[i - 1];
        }
      }
    }
  }

  /** What the converter makes of one optional field. */
  function FieldToJson(w: Value, elements: seq<Type>, name: Naming): Result<Json>
    requires w.Named?
  {
    if !w.name.Integer? then Err(InvalidType) else
    var key := Cast(U64, w.name.n);
    var i := OptionalIndex(elements, key);
    if i < 0 then Err(InvalidType) else
    var j :- ToJson(w.value, elements[i].shape.valueType, name);
    Ok(JObject([Field(FIELD, JInt(key)), Field(VALUE, j)]))
  }

  lemma FirstFieldToJson(vs: seq<Value>, elements: seq<Type>, name: Naming)
    requires vs != [] && forall v :: v in vs ==> v.Named?
    ensures vs[0] in vs
    ensures OptionalToJson(vs, elements, name) ==
      var j, js := FieldToJson(vs[0], elements, name), OptionalToJson(vs[1..], elements, name);
      if j.Err? then Err(j.error) else if js.Err? then js else Ok([j.value] + js.value)
  {
    hide ToJson, OptionalIndex, Cast;
    assert vs[0] in vs;
  }

  lemma {:induction false} FieldShownIff(j: Json, w: Value, elements: seq<Type>, name: Naming)
    requires w.Named?
    ensures FieldToJson(w, elements, name) == Ok(j) <==> FieldShownAs(j, w, elements, name)
    decreases elements, 0, 0
  {
    hide ToJson, ShownAs, OptionalIndex, IsFirstField, Cast;
    if w.name.Integer? {
      WideKey(w.name.n);
      forall k: nat ensures OptionalIndex(elements, Cast(U64, w.name.n)) == k <==>
        IsFirstField(elements, w.name.n % 0x1_0000_0000_0000_0000, k)
      {
        FirstFieldIff(elements, w.name.n % 0x1_0000_0000_0000_0000, k);
      }
      var k := OptionalIndex(elements, Cast(U64, w.name.n));
      if k >= 0 && j.JObject? && |j.fields| == 2 {
        assert elements[k].shape.valueType < elements[k];
        ShownIff(j.fields[1].value, w.value, elements[k].shape.valueType, name);
        assert j.fields == [Field(j.fields[0].key, j.fields[0].value), Field(j.fields[1].key, j.fields[1].value)];
      }
    }
  }

  lemma {:induction false} OptionalShownIff(js: seq<Json>, vs: seq<Value>, elements: seq<Type>, name: Naming)
    requires forall v :: v in vs ==> v.Named?
    ensures OptionalToJson(vs, elements, name) == Ok(js) <==>
      |js| == |vs| && forall i :: 0 <= i < |vs| ==> FieldShownAs(js[i], vs[i], elements, name)
    decreases elements, 1, |vs|
  {
    hide ToJson, FieldShownAs, FieldToJson, OptionalIndex;
    if vs != [] && js != [] {
      FirstFieldToJson(vs, elements, name);
      FieldShownIff(js[0], vs[0], elements, name);
      OptionalShownIff(js[1..], vs[1..], elements, name);
      assert js == [js[0]] + js[1..];
      assert forall i :: 0 < i < |vs| ==> vs[i] == vs[1..][i - 1];
      assert forall i :: 0 < i < |js| ==> js[i] == js[1..][i - 1];
    }
  }

  /** Both halves of a struct. */
  ghost predicate StructShownAs(js: seq<Json>, vs: seq<Value>, elements: seq<Type>, name: Naming) {
    var plain, fields := Filter(IsPlain, vs), Filter(IsField, vs);
    var mandatory := Filter(IsMandatoryType, elements);
    && |plain| == |mandatory| && |js| == |plain| + |fields|
    && (forall i :: 0 <= i < |plain| ==> ShownAs(js[i], plain[i], mandatory[i], name))
    && (forall i :: 0 <= i < |fields| ==> FieldShownAs(js[|plain| + i], fields[i], elements, name))
  }

  lemma StructSpelling(j: Json, v: Value, t: Type, name: Naming)
    requires t.shape.Struct? && j.JArray? && v.List?
    ensures ShownAs(j, v, t, name) <==> StructShownAs(j.items, v.items, t.shape.elements, name)
  {
    hide Filter, FieldShownAs;
    var elements := t.shape.elements;
    var mandatory := Filter(IsMandatoryType, elements);
    forall i | 0 <= i < |mandatory| ensures exists k :: 0 <= k < |elements| && elements[k] == mandatory[i] {
      assert mandatory[i] in elements;
    }
  }

  lemma {:induction false} StructShows(js: seq<Json>, vs: seq<Value>, elements: seq<Type>, name: Naming)
    ensures ToJson(List(vs), Type(None, Struct(elements)), name) == Ok(JArray(js))
            <==> StructShownAs(js, vs, elements, name)
    decreases elements, 2, 0
  {
    hide Filter, ShownAs, FieldShownAs;
    var plain, fields := Filter(IsPlain, vs), Filter(IsField, vs);
    if |js| >= |plain| {
      var ms, os := js[..|plain|], js[|plain|..];
      MandatoryShownIff(ms, plain, elements, name);
      OptionalShownIff(os, fields, elements, name);
      assert js == ms + os;
      assert forall i :: 0 <= i < |os| ==> os[i] == js[|plain| + i];
    }
    var m, o := MandatoryToJson(plain, elements, name), OptionalToJson(fields, elements, name);
    if m.Ok? && o.Ok? && m.value + o.value == js {
      MandatoryShownIff(m.value, plain, elements, name);
      assert m.value == js[..|plain|] && o.value == js[|plain|..];
    }
  }

  lemma {:induction false} StructShownIff(j: Json, v: Value, t: Type, name: Naming)
    requires t.shape.Struct?
    ensures ToJson(v, t, name) == Ok(j) <==> ShownAs(j, v, t, name)
    decreases t.shape, 0, 0
  {
    hide Filter, FieldShownAs, MandatoryToJson, OptionalToJson;
    if j.JArray? && v.List? {
      StructShows(j.items, v.items, t.shape.elements, name);
      StructSpelling(j, v, t, name);
    }
  }
}
