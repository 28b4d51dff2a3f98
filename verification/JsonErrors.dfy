/** Why a text or a value is refused under a type, for all of them (ValueToJSON.cpp). */
module JsonErrors {
  import opened Common
  import opened FlatBinary
  import opened Values
  import opened Methods
  import opened UidText
  import opened Spelling
  import opened TypedJson
  import opened JsonMeaning

  //
  // Vocabulary
  //

  /** Without its prefix it is no reference; with it, what stands behind is neither a name nor a number. */
  ghost predicate NoReference(t: Text, find: Finding, e: Error) {
    if |t| < 4 || t[..4] != "ref:" then e == InvalidFormat
    else find(t[4..]) == None && ParseUid(t[4..]) == Err(e)
  }

  /** The search for an alternative ends at a type without an identifier, or at the end. */
  predicate NoAlternative(types: seq<Type>, uid: UID, e: Error) {
    if exists i :: 0 <= i < |types| && types[i].uid.None?
                   && forall j :: 0 <= j < i ==> types[j].uid.Some? && types[j].uid.value != uid
    then e == InvalidType
    else (forall i :: 0 <= i < |types| ==> types[i].uid.Some? && types[i].uid.value != uid) && e == UnexpectedType
  }

  predicate NoField(elements: seq<Type>, key: int) {
    forall k :: 0 <= k < |elements| ==> !elements[k].shape.NamedValue? || elements[k].shape.name != key
  }

  //
  // Reading
  //

  /** The text is refused with this error. */
  ghost predicate RefusedAs(e: Error, j: Json, t: Type, find: Finding)
    decreases t, 0
  {
    match t.shape
    case Enumerated(names) =>
      (match j
       case JInt(_) => false
       case JString(s) => s !in names.backward && e == InvalidFormat
       case _ => e == UnexpectedType)
    case Number(_, _) => !j.JInt? && e == UnexpectedType
    case Octets => if !j.JString? then e == UnexpectedType else !Readable(j, t, find) && e == InvalidFormat
    case Alternative(types) =>
      if !j.JObject? || j.fields == [] then e == UnexpectedType
      else
        || NoReference(j.fields[0].key, find, e)
        || exists uid: UID :: Refers(j.fields[0].key, uid, find) &&
             (NoAlternative(types, uid, e)
              || exists i: nat :: IsFirst(types, uid, i) && RefusedAs(e, j.fields[0].value, types[i], find))
    case ListOf(element) =>
      if !j.JArray? then e == UnexpectedType
      else
        exists i :: 0 <= i < |j.items| && RefusedAs(e, j.items[i], element, find)
                    && forall k :: 0 <= k < i ==> Readable(j.items[k], element, find)
    case Struct(elements) =>
      if !j.JArray? then e == UnexpectedType
      else
        var plain, fields := Filter(Unkeyed, j.items), Filter(Keyed, j.items);
        var mandatory := Filter(IsMandatoryType, elements);
        || (exists i, k :: 0 <= i < |plain| && i < |mandatory| && 0 <= k < |elements| && elements[k] == mandatory[i]
                           && RefusedAs(e, plain[i], elements[k], find) && ReadUpTo(plain, mandatory, i, find))
        || (|plain| != |mandatory| && ReadUpTo(plain, mandatory, |plain|, find) && e == InvalidType)
        || (&& |plain| == |mandatory| && ReadUpTo(plain, mandatory, |plain|, find)
            && exists i :: 0 <= i < |fields| && FieldRefusedAs(e, fields[i], elements, find)
                           && forall k :: 0 <= k < i ==> FieldReadable(fields[k], elements, find))
    case Reference => if !j.JString? then e == UnexpectedType else NoReference(j.text, find, e)
    case NamedValue(key, valueType) =>
      if !j.JObject? || Lookup(j.fields, "name").None? || Lookup(j.fields, "value").None?
         || !Lookup(j.fields, "name").value.JInt?
      then e == UnexpectedType
      else
        var name, value := Lookup(j.fields, "name").value, Lookup(j.fields, "value").value;
        || RefusedAs(e, value, valueType, find)
        || (Readable(value, valueType, find) && name.n % 0x1_0000 != key && e == InvalidType)
    case Unsupported => e == NotImplemented
  }

  /** The mandatory fields before a place are read, as far as there are types for them. */
  ghost predicate ReadUpTo(js: seq<Json>, mandatory: seq<Type>, count: nat, find: Finding) {
    forall i :: 0 <= i < count && i < |js| && i < |mandatory| ==> Readable(js[i], mandatory[i], find)
  }

  ghost predicate FieldRefusedAs(e: Error, j: Json, elements: seq<Type>, find: Finding)
    decreases elements, 1
  {
    && Keyed(j)
    && var key := Lookup(j.fields, "field").value;
    if !key.JInt? || NoField(elements, key.n % 0x1_0000_0000_0000_0000) then e == InvalidType
    else
      exists k: nat :: IsFirstField(elements, key.n % 0x1_0000_0000_0000_0000, k)
        && (assert elements[k].shape.valueType < elements[k];
            RefusedAs(e, Lookup(j.fields, "value").value, elements[k].shape.valueType, find))
  }

  lemma ReferenceRefusedIff(t: Text, find: Finding, e: Error)
    ensures RefUid(t, find) == Err(e) <==> NoReference(t, find, e)
  {
    hide ParseUid;
  }

  lemma {:induction false} NoAlternativeIff(types: seq<Type>, uid: UID, e: Error)
    ensures FindType(types, uid) == Err(e) <==> NoAlternative(types, uid, e)
  {
    UnidentifiedIff(types, uid);
    MissingIff(types, uid);
  }

  lemma {:induction false} MissingIff(types: seq<Type>, uid: UID)
    ensures FindType(types, uid).Err? ==> FindType(types, uid).error in {InvalidType, UnexpectedType}
    ensures FindType(types, uid) == Err(UnexpectedType) <==>
      forall i :: 0 <= i < |types| ==> types[i].uid.Some? && types[i].uid.value != uid
  {
    if types != [] {
      MissingIff(types[1..], uid);
      assert forall i :: 0 < i < |types| ==> types[i] == types[1..][i - 1];
      assert forall i :: 0 <= i < |types[1..]| ==> types[1..][i] == types[i + 1];
    }
  }

  lemma NoFieldIff(elements: seq<Type>, key: int)
    ensures OptionalIndex(elements, key) < 0 <==> NoField(elements, key)
  {
    hide OptionalIndex;
    if OptionalIndex(elements, key) < 0 {
      forall k | 0 <= k < |elements| ensures !elements[k].shape.NamedValue? || elements[k].shape.name != key {
        NotThere(elements, key, k);
      }
    }
  }

  lemma {:induction false} NotThere(elements: seq<Type>, key: int, k: nat)
    requires k < |elements| && OptionalIndex(elements, key) < 0
    ensures !elements[k].shape.NamedValue? || elements[k].shape.name != key
    decreases |elements|
  {
    if k > 0 {
      NotThere(elements[1..], key, k - 1);
    }
  }

  lemma {:induction false} BytesRefused(t: Text, asString: bool)
    ensures TextToBytes(t, asString).Err? ==> TextToBytes(t, asString).error == InvalidFormat
    decreases |t|
  {
    hide ParseChunk;
    if t != [] {
      BytesRefused(t[1..], asString);
      if |t| >= 2 {
        BytesRefused(t[2..], asString);
      }
    }
  }

  lemma OctetsRefused(e: Error, j: Json, t: Type, find: Finding)
    requires t.shape.Octets?
    ensures FromJson(j, t, find) == Err(e) <==> RefusedAs(e, j, t, find)
  {
    hide TextToBytes, ReadsAs;
    OctetsReadable(j, t, find);
    if j.JString? {
      BytesRefused(j.text, AsString(t));
    }
  }

  /** A text is refused with an error if and only if that is what is wrong with it first. */
  lemma {:induction false} RefusedIff(e: Error, j: Json, t: Type, find: Finding)
    ensures FromJson(j, t, find) == Err(e) <==> RefusedAs(e, j, t, find)
    decreases t, 0, 0
  {
    hide FromJson, RefusedAs;
    match t.shape
    case Octets => OctetsRefused(e, j, t, find);
    case Alternative(_) => AlternativeRefused(e, j, t, find);
    case ListOf(_) => ListRefused(e, j, t, find);
    case Struct(_) => StructRefused(e, j, t, find);
    case NamedValue(_, _) => NamedRefused(e, j, t, find);
    case _ => ScalarRefused(e, j, t, find);
  }

  lemma ScalarRefused(e: Error, j: Json, t: Type, find: Finding)
    requires t.shape.Enumerated? || t.shape.Number? || t.shape.Reference? || t.shape.Unsupported?
    ensures FromJson(j, t, find) == Err(e) <==> RefusedAs(e, j, t, find)
  {
    hide RefUid, NoReference;
    if j.JString? {
      ReferenceRefusedIff(j.text, find, e);
    }
  }

  lemma {:induction false} ListRefused(e: Error, j: Json, t: Type, find: Finding)
    requires t.shape.ListOf?
    ensures FromJson(j, t, find) == Err(e) <==> RefusedAs(e, j, t, find)
    decreases t.shape, 0, 0
  {
    hide Readable, FirstRefused, EachFromJson;
    if j.JArray? {
      EachRefused(e, j.items, t.shape.element, find);
      ItemByPosition(e, j.items, t.shape.element, find);
    }
  }

  lemma {:induction false} AlternativeRefused(e: Error, j: Json, t: Type, find: Finding)
    requires t.shape.Alternative?
    ensures FromJson(j, t, find) == Err(e) <==> RefusedAs(e, j, t, find)
    decreases t.shape, 0, 0
  {
    hide RefUid, Refers, FindType, IsFirst, BigEndian, NoReference, NoAlternative;
    var types := t.shape.types;
    if j.JObject? && j.fields != [] {
      var key := j.fields[0].key;
      ReferenceRefusedIff(key, find, e);
      forall uid: UID ensures RefUid(key, find) == Ok(uid) <==> Refers(key, uid, find) {
        ReferenceReadIff(key, uid, find);
      }
      forall uid: UID, i: nat ensures FindType(types, uid) == Ok(i) <==> IsFirst(types, uid, i) {
        FirstIff(types, uid, i);
      }
      forall uid: UID ensures FindType(types, uid) == Err(e) <==> NoAlternative(types, uid, e) {
        NoAlternativeIff(types, uid, e);
      }
      forall i | 0 <= i < |types|
        ensures FromJson(j.fields[0].value, types[i], find) == Err(e)
                <==> RefusedAs(e, j.fields[0].value, types[i], find)
      {
        RefusedIff(e, j.fields[0].value, types[i], find);
      }
    }
  }

  lemma {:induction false} NamedRefused(e: Error, j: Json, t: Type, find: Finding)
    requires t.shape.NamedValue?
    ensures FromJson(j, t, find) == Err(e) <==> RefusedAs(e, j, t, find)
    decreases t.shape, 0, 0
  {
    hide Readable;
    if Contains(j, NAME) && Contains(j, VALUE) {
      RefusedIff(e, Lookup(j.fields, VALUE).value, t.shape.valueType, find);
      ReadableIff(Lookup(j.fields, VALUE).value, t.shape.valueType, find);
    }
  }

  /** The first item that is refused. */
  ghost predicate FirstRefused(e: Error, js: seq<Json>, element: Type, find: Finding, i: nat) {
    i < |js| && RefusedAs(e, js[i], element, find) && forall k :: 0 <= k < i ==> Readable(js[k], element, find)
  }

  lemma FirstRefusedBehind(e: Error, js: seq<Json>, element: Type, find: Finding, i: nat)
    requires js != []
    ensures FirstRefused(e, js, element, find, i + 1) <==>
      Readable(js[0], element, find) && FirstRefused(e, js[1..], element, find, i)
  {
    hide RefusedAs, Readable;
    assert forall k :: 0 < k < |js| ==> js[k] == js[1..][k - 1];
    assert forall k :: 0 <= k < |js[1..]| ==> js[1..][k] == js[k + 1];
  }

  lemma {:induction false} EachRefused(e: Error, js: seq<Json>, element: Type, find: Finding)
    ensures EachFromJson(js, element, find) == Err(e) <==> exists i: nat :: FirstRefused(e, js, element, find, i)
    decreases element, 1, |js|
  {
    hide FromJson, Readable, RefusedAs;
    if js != [] {
      RefusedIff(e, js[0], element, find);
      ReadableIff(js[0], element, find);
      EachRefused(e, js[1..], element, find);
      assert FirstRefused(e, js, element, find, 0) <==> RefusedAs(e, js[0], element, find);
      if i: nat :| i > 0 && FirstRefused(e, js, element, find, i) {
        FirstRefusedBehind(e, js, element, find, i - 1);
      }
      if i: nat :| FirstRefused(e, js[1..], element, find, i) {
        FirstRefusedBehind(e, js, element, find, i);
      }
    }
  }

  /** The first mandatory field that is refused under its type. */
  ghost predicate FirstMandatory(e: Error, js: seq<Json>, mandatory: seq<Type>, find: Finding, i: nat) {
    i < |js| && i < |mandatory| && RefusedAs(e, js[i], mandatory[i], find) && ReadUpTo(js, mandatory, i, find)
  }

  ghost predicate MandatoryRefusedAs(e: Error, js: seq<Json>, mandatory: seq<Type>, find: Finding) {
    || (exists i: nat :: FirstMandatory(e, js, mandatory, find, i))
    || (|js| != |mandatory| && ReadUpTo(js, mandatory, |js|, find) && e == InvalidType)
  }

  lemma MandatoryBehind(e: Error, js: seq<Json>, mandatory: seq<Type>, find: Finding, i: nat)
    requires js != [] && mandatory != []
    ensures ReadUpTo(js, mandatory, i + 1, find) <==>
      Readable(js[0], mandatory[0], find) && ReadUpTo(js[1..], mandatory[1..], i, find)
    ensures FirstMandatory(e, js, mandatory, find, i + 1) <==>
      Readable(js[0], mandatory[0], find) && FirstMandatory(e, js[1..], mandatory[1..], find, i)
  {
    hide RefusedAs, Readable;
    assert forall k :: 0 < k < |js| ==> js[k] == js[1..][k - 1];
    assert forall k :: 0 <= k < |js[1..]| ==> js[1..][k] == js[k + 1];
    assert forall k :: 0 < k < |mandatory| ==> mandatory[k] == mandatory[1..][k - 1];
    assert forall k :: 0 <= k < |mandatory[1..]| ==> mandatory[1..][k] == mandatory[k + 1];
  }

  lemma MandatoryInSteps(e: Error, js: seq<Json>, mandatory: seq<Type>, find: Finding)
    ensures MandatoryRefusedAs(e, js, mandatory, find) <==>
      if js == [] || mandatory == [] then |js| != |mandatory| && e == InvalidType
      else
        || RefusedAs(e, js[0], mandatory[0], find)
        || (Readable(js[0], mandatory[0], find) && MandatoryRefusedAs(e, js[1..], mandatory[1..], find))
  {
    hide RefusedAs, Readable;
    if js != [] && mandatory != [] {
      assert FirstMandatory(e, js, mandatory, find, 0) <==> RefusedAs(e, js[0], mandatory[0], find);
      MandatoryBehind(e, js, mandatory, find, |js| - 1);
      if i: nat :| i > 0 && FirstMandatory(e, js, mandatory, find, i) {
        MandatoryBehind(e, js, mandatory, find, i - 1);
      }
      if i: nat :| FirstMandatory(e, js[1..], mandatory[1..], find, i) {
        MandatoryBehind(e, js, mandatory, find, i);
      }
    }
  }

  lemma {:induction false} MandatoryRefused(e: Error, js: seq<Json>, elements: seq<Type>, find: Finding)
    ensures MandatoryFromJson(js, elements, find) == Err(e)
            <==> MandatoryRefusedAs(e, js, Filter(IsMandatoryType, elements), find)
    decreases elements, 1, 0
  {
    hide FromJson, Readable, RefusedAs, MandatoryRefusedAs;
    var mandatory := Filter(IsMandatoryType, elements);
    MandatoryInSteps(e, js, mandatory, find);
    if elements != [] {
      var rest := Filter(IsMandatoryType, elements[1..]);
      if elements[0].shape.NamedValue? {
        MandatoryRefused(e, js, elements[1..], find);
        assert mandatory == [] + rest == rest;
      } else {
        assert mandatory == [elements[0]] + rest;
        if js != [] {
          RefusedIff(e, js[0], elements[0], find);
          ReadableIff(js[0], elements[0], find);
          MandatoryRefused(e, js[1..], elements[1..], find);
          assert mandatory[1..] == rest;
        }
      }
    }
  }

  /** The first optional field that is refused. */
  ghost predicate FirstField(e: Error, js: seq<Json>, elements: seq<Type>, find: Finding, i: nat) {
    && i < |js| && FieldRefusedAs(e, js[i], elements, find)
    && forall k :: 0 <= k < i ==> FieldReadable(js[k], elements, find)
  }

  lemma FirstFieldBehind(e: Error, js: seq<Json>, elements: seq<Type>, find: Finding, i: nat)
    requires js != []
    ensures FirstField(e, js, elements, find, i + 1) <==>
      FieldReadable(js[0], elements, find) && FirstField(e, js[1..], elements, find, i)
  {
    hide FieldRefusedAs, FieldReadable;
    assert forall k :: 0 < k < |js| ==> js[k] == js[1..][k - 1];
    assert forall k :: 0 <= k < |js[1..]| ==> js[1..][k] == js[k + 1];
  }

  lemma {:induction false} OptionalRefused(e: Error, js: seq<Json>, elements: seq<Type>, find: Finding)
    requires forall j :: j in js ==> IsFieldJson(j)
    ensures OptionalFromJson(js, elements, find) == Err(e) <==> exists i: nat :: FirstField(e, js, elements, find, i)
    decreases elements, 1, |js|
  {
    hide FromJson, FieldReadable, FieldRefusedAs, FieldFromJson, IsFieldJson;
    if js != [] {
      FieldRefused(e, js[0], elements, find);
      IsFieldReadable(js[0], elements, find);
      OptionalRefused(e, js[1..], elements, find);
      JsonMeaning.FirstField(js, elements, find);
      assert FirstField(e, js, elements, find, 0) <==> FieldRefusedAs(e, js[0], elements, find);
      if i: nat :| i > 0 && FirstField(e, js, elements, find, i) {
        FirstFieldBehind(e, js, elements, find, i - 1);
      }
      if i: nat :| FirstField(e, js[1..], elements, find, i) {
        FirstFieldBehind(e, js, elements, find, i);
      }
    }
  }

  lemma {:induction false} FieldRefused(e: Error, j: Json, elements: seq<Type>, find: Finding)
    requires IsFieldJson(j)
    ensures FieldFromJson(j, elements, find) == Err(e) <==> FieldRefusedAs(e, j, elements, find)
    decreases elements, 0, 0
  {
    hide FromJson, RefusedAs, OptionalIndex, IsFirstField, NoField, Cast;
    var field, value := Lookup(j.fields, FIELD).value, Lookup(j.fields, VALUE).value;
    if field.JInt? {
      WideKey(field.n);
      var key := field.n % 0x1_0000_0000_0000_0000;
      forall k: nat ensures OptionalIndex(elements, key) == k <==> IsFirstField(elements, key, k) {
        FirstFieldIff(elements, key, k);
      }
      NoFieldIff(elements, key);
      var k := OptionalIndex(elements, key);
      if k >= 0 {
        assert elements[k].shape.valueType < elements[k];
        RefusedIff(e, value, elements[k].shape.valueType, find);
      }
    }
  }

  /** The three ways a struct is refused. */
  ghost predicate StructRefusedAs(e: Error, js: seq<Json>, elements: seq<Type>, find: Finding) {
    var plain, fields := Filter(Unkeyed, js), Filter(Keyed, js);
    var mandatory := Filter(IsMandatoryType, elements);
    || MandatoryRefusedAs(e, plain, mandatory, find)
    || (&& |plain| == |mandatory| && ReadUpTo(plain, mandatory, |plain|, find)
        && exists i: nat :: FirstField(e, fields, elements, find, i))
  }

  lemma ItemByPosition(e: Error, js: seq<Json>, element: Type, find: Finding)
    ensures (exists i: nat :: FirstRefused(e, js, element, find, i)) <==>
      exists i :: 0 <= i < |js| && RefusedAs(e, js[i], element, find)
                  && forall k :: 0 <= k < i ==> Readable(js[k], element, find)
  {
    hide RefusedAs, Readable;
    if i: nat :| FirstRefused(e, js, element, find, i) {
      assert RefusedAs(e, js[i], element, find);
    }
    if i :| 0 <= i < |js| && RefusedAs(e, js[i], element, find)
            && forall k :: 0 <= k < i ==> Readable(js[k], element, find) {
      assert FirstRefused(e, js, element, find, i);
    }
  }

  lemma FieldByPosition(e: Error, js: seq<Json>, elements: seq<Type>, find: Finding)
    ensures (exists i: nat :: FirstField(e, js, elements, find, i)) <==>
      exists i :: 0 <= i < |js| && FieldRefusedAs(e, js[i], elements, find)
                  && forall k :: 0 <= k < i ==> FieldReadable(js[k], elements, find)
  {
    hide FieldRefusedAs, FieldReadable;
    if i: nat :| FirstField(e, js, elements, find, i) {
      assert FieldRefusedAs(e, js[i], elements, find);
    }
    if i :| 0 <= i < |js| && FieldRefusedAs(e, js[i], elements, find)
            && forall k :: 0 <= k < i ==> FieldReadable(js[k], elements, find) {
      assert FirstField(e, js, elements, find, i);
    }
  }

  /** The types of the mandatory fields, as positions among the element types. */
  lemma MandatoryByPosition(e: Error, js: seq<Json>, elements: seq<Type>, find: Finding)
    ensures var mandatory := Filter(IsMandatoryType, elements);
      (exists i: nat :: FirstMandatory(e, js, mandatory, find, i)) <==>
      exists i, k :: 0 <= i < |js| && i < |mandatory| && 0 <= k < |elements| && elements[k] == mandatory[i]
                     && RefusedAs(e, js[i], elements[k], find) && ReadUpTo(js, mandatory, i, find)
  {
    hide Filter, ReadUpTo, RefusedAs;
    var mandatory := Filter(IsMandatoryType, elements);
    if i: nat :| FirstMandatory(e, js, mandatory, find, i) {
      assert mandatory[i] in elements;
      var k :| 0 <= k < |elements| && elements[k] == mandatory[i];
      assert RefusedAs(e, js[i], elements[k], find);
    }
    if i, k :| 0 <= i < |js| && i < |mandatory| && 0 <= k < |elements| && elements[k] == mandatory[i]
               && RefusedAs(e, js[i], elements[k], find) && ReadUpTo(js, mandatory, i, find) {
      assert FirstMandatory(e, js, mandatory, find, i);
    }
  }

  lemma StructRefusal(e: Error, j: Json, t: Type, find: Finding)
    requires t.shape.Struct? && j.JArray?
    ensures RefusedAs(e, j, t, find) <==> StructRefusedAs(e, j.items, t.shape.elements, find)
  {
    hide Filter, Keyed, Unkeyed, FieldRefusedAs, FieldReadable, Readable, ReadUpTo, FirstMandatory, FirstField;
    MandatoryByPosition(e, Filter(Unkeyed, j.items), t.shape.elements, find);
    FieldByPosition(e, Filter(Keyed, j.items), t.shape.elements, find);
  }

  lemma {:induction false} StructRefused(e: Error, j: Json, t: Type, find: Finding)
    requires t.shape.Struct?
    ensures FromJson(j, t, find) == Err(e) <==> RefusedAs(e, j, t, find)
    decreases t.shape, 0, 0
  {
    hide Filter, Keyed, Unkeyed, IsFieldJson, IsPlainJson, FirstField, MandatoryRefusedAs, MandatoryFromJson,
         OptionalFromJson, RefusedAs, Readable;
    if j.JArray? {
      var elements := t.shape.elements;
      var plain, fields := Filter(Unkeyed, j.items), Filter(Keyed, j.items);
      KeyedFilters(j.items);
      MandatoryRefused(e, plain, elements, find);
      OptionalRefused(e, fields, elements, find);
      MandatoryReadable(plain, elements, find);
      StructRefusal(e, j, t, find);
    } else {
      NoArray(e, j, t, find);
    }
  }

  lemma NoArray(e: Error, j: Json, t: Type, find: Finding)
    requires t.shape.Struct? && !j.JArray?
    ensures RefusedAs(e, j, t, find) <==> e == UnexpectedType
  {
  }

  //
  // Showing
  //

  /** The value is not shown, with this error. */
  ghost predicate UnshownAs(e: Error, v: Value, t: Type)
    decreases t, 0
  {
    match t.shape
    case Enumerated(_) => !v.Integer? && e == UnexpectedType
    case Number(_, _) => !v.Integer? && e == UnexpectedType
    case Octets => !v.Bytes? && e == UnexpectedType
    case Alternative(types) =>
      if !v.Named? || !v.name.Bytes? then e == UnexpectedType
      else if |v.name.bytes| < 4 then e == InvalidArgument
      else
        var uid := TypeUid(LowerHalf(v.name.bytes).value);
        || NoAlternative(types, uid, e)
        || exists i: nat :: IsFirst(types, uid, i) && UnshownAs(e, v.value, types[i])
    case ListOf(element) =>
      if !v.List? then e == UnexpectedType
      else
        exists i :: 0 <= i < |v.items| && UnshownAs(e, v.items[i], element)
                    && forall k :: 0 <= k < i ==> Fits(v.items[k], element)
    case Struct(elements) =>
      if !v.List? then e == UnexpectedType
      else
        var plain, fields := Filter(IsPlain, v.items), Filter(IsField, v.items);
        var mandatory := Filter(IsMandatoryType, elements);
        || (exists i, k :: 0 <= i < |plain| && i < |mandatory| && 0 <= k < |elements| && elements[k] == mandatory[i]
                           && UnshownAs(e, plain[i], elements[k]) && FitUpTo(plain, mandatory, i))
        || (|plain| != |mandatory| && FitUpTo(plain, mandatory, |plain|) && e == InvalidType)
        || (&& |plain| == |mandatory| && FitUpTo(plain, mandatory, |plain|)
            && exists i :: 0 <= i < |fields| && FieldUnshownAs(e, fields[i], elements)
                           && forall k :: 0 <= k < i ==> FitsOptional(fields[k], elements))
    case Reference => if !v.Bytes? then e == UnexpectedType else |v.bytes| < 8 && e == InvalidArgument
    case NamedValue(key, valueType) =>
      if !v.Named? || !v.name.Integer? then e == UnexpectedType
      else if (v.name.n - key) % 0x1_0000 != 0 then e == InvalidType
      else UnshownAs(e, v.value, valueType)
    case Unsupported => e == NotImplemented
  }

  /** The mandatory fields before a place fit, as far as there are types for them. */
  predicate FitUpTo(vs: seq<Value>, mandatory: seq<Type>, count: nat) {
    forall i :: 0 <= i < count && i < |vs| && i < |mandatory| ==> Fits(vs[i], mandatory[i])
  }

  ghost predicate FieldUnshownAs(e: Error, w: Value, elements: seq<Type>)
    decreases elements, 1
  {
    && w.Named?
    && if !w.name.Integer? || NoField(elements, w.name.n % 0x1_0000_0000_0000_0000) then e == InvalidType
       else
         exists k: nat :: IsFirstField(elements, w.name.n % 0x1_0000_0000_0000_0000, k)
           && (assert elements[k].shape.valueType < elements[k];
               UnshownAs(e, w.value, elements[k].shape.valueType))
  }

  /** A value is not shown, with an error, if and only if that is what is wrong with it first. */
  lemma {:induction false} UnshownIff(e: Error, v: Value, t: Type, name: Naming)
    ensures ToJson(v, t, name) == Err(e) <==> UnshownAs(e, v, t)
    decreases t, 0, 0
  {
    hide ToJson, UnshownAs;
    match t.shape
    case Alternative(_) => AlternativeUnshown(e, v, t, name);
    case ListOf(_) => ListUnshown(e, v, t, name);
    case Struct(_) => StructUnshown(e, v, t, name);
    case NamedValue(_, _) => NamedUnshown(e, v, t, name);
    case _ => ScalarUnshown(e, v, t, name);
  }

  lemma ScalarUnshown(e: Error, v: Value, t: Type, name: Naming)
    requires t.shape.Enumerated? || t.shape.Number? || t.shape.Octets? || t.shape.Reference? || t.shape.Unsupported?
    ensures ToJson(v, t, name) == Err(e) <==> UnshownAs(e, v, t)
  {
    hide RefText, BytesToText, Cast;
  }

  lemma {:induction false} AlternativeUnshown(e: Error, v: Value, t: Type, name: Naming)
    requires t.shape.Alternative?
    ensures ToJson(v, t, name) == Err(e) <==> UnshownAs(e, v, t)
    decreases t.shape, 0, 0
  {
    hide RefText, FindType, IsFirst, NoAlternative;
    var types := t.shape.types;
    if v.Named? && v.name.Bytes? {
      LowerHalfOk(v.name.bytes);
      if |v.name.bytes| >= 4 {
        var uid := TypeUid(LowerHalf(v.name.bytes).value);
        forall i: nat ensures FindType(types, uid) == Ok(i) <==> IsFirst(types, uid, i) {
          FirstIff(types, uid, i);
        }
        NoAlternativeIff(types, uid, e);
        forall i | 0 <= i < |types|
          ensures ToJson(v.value, types[i], name) == Err(e) <==> UnshownAs(e, v.value, types[i])
        {
          UnshownIff(e, v.value, types[i], name);
        }
      }
    }
  }

  lemma {:induction false} NamedUnshown(e: Error, v: Value, t: Type, name: Naming)
    requires t.shape.NamedValue?
    ensures ToJson(v, t, name) == Err(e) <==> UnshownAs(e, v, t)
    decreases t.shape, 0, 0
  {
    hide Cast;
    if v.Named? && v.name.Integer? {
      SameKey(v.name.n, t.shape.name);
      UnshownIff(e, v.value, t.shape.valueType, name);
    }
  }

  /** The first item that is not shown. */
  ghost predicate FirstUnshown(e: Error, vs: seq<Value>, element: Type, i: nat) {
    i < |vs| && UnshownAs(e, vs[i], element) && forall k :: 0 <= k < i ==> Fits(vs[k], element)
  }

  lemma FirstUnshownBehind(e: Error, vs: seq<Value>, element: Type, i: nat)
    requires vs != []
    ensures FirstUnshown(e, vs, element, i + 1) <==> Fits(vs[0], element) && FirstUnshown(e, vs[1..], element, i)
  {
    hide UnshownAs, Fits;
    assert forall k :: 0 < k < |vs| ==> vs[k] == vs[1..][k - 1];
    assert forall k :: 0 <= k < |vs[1..]| ==> vs[1..][k] == vs[k + 1];
  }

  lemma {:induction false} EachUnshown(e: Error, vs: seq<Value>, element: Type, name: Naming)
    ensures EachToJson(vs, element, name) == Err(e) <==> exists i: nat :: FirstUnshown(e, vs, element, i)
    decreases element, 1, |vs|
  {
    hide ToJson, Fits, UnshownAs;
    if vs != [] {
      UnshownIff(e, vs[0], element, name);
      PrintsExactlyFitting(vs[0], element, name);
      EachUnshown(e, vs[1..], element, name);
      assert FirstUnshown(e, vs, element, 0) <==> UnshownAs(e, vs[0], element);
      if i: nat :| i > 0 && FirstUnshown(e, vs, element, i) {
        FirstUnshownBehind(e, vs, element, i - 1);
      }
      if i: nat :| FirstUnshown(e, vs[1..], element, i) {
        FirstUnshownBehind(e, vs, element, i);
      }
    }
  }

  lemma UnshownByPosition(e: Error, vs: seq<Value>, element: Type)
    ensures (exists i: nat :: FirstUnshown(e, vs, element, i)) <==>
      exists i :: 0 <= i < |vs| && UnshownAs(e, vs[i], element) && forall k :: 0 <= k < i ==> Fits(vs[k], element)
  {
    hide UnshownAs, Fits;
    if i: nat :| FirstUnshown(e, vs, element, i) {
      assert UnshownAs(e, vs[i], element);
    }
    if i :| 0 <= i < |vs| && UnshownAs(e, vs[i], element) && forall k :: 0 <= k < i ==> Fits(vs[k], element) {
      assert FirstUnshown(e, vs, element, i);
    }
  }

  lemma {:induction false} ListUnshown(e: Error, v: Value, t: Type, name: Naming)
    requires t.shape.ListOf?
    ensures ToJson(v, t, name) == Err(e) <==> UnshownAs(e, v, t)
    decreases t.shape, 0, 0
  {
    hide Fits, FirstUnshown, EachToJson;
    if v.List? {
      EachUnshown(e, v.items, t.shape.element, name);
      UnshownByPosition(e, v.items, t.shape.element);
    }
  }

  /** The first mandatory field that is not shown under its type. */
  ghost predicate FirstMisfit(e: Error, vs: seq<Value>, mandatory: seq<Type>, i: nat) {
    i < |vs| && i < |mandatory| && UnshownAs(e, vs[i], mandatory[i]) && FitUpTo(vs, mandatory, i)
  }

  ghost predicate MandatoryUnshownAs(e: Error, vs: seq<Value>, mandatory: seq<Type>) {
    || (exists i: nat :: FirstMisfit(e, vs, mandatory, i))
    || (|vs| != |mandatory| && FitUpTo(vs, mandatory, |vs|) && e == InvalidType)
  }

  lemma MisfitBehind(e: Error, vs: seq<Value>, mandatory: seq<Type>, i: nat)
    requires vs != [] && mandatory != []
    ensures FitUpTo(vs, mandatory, i + 1) <==> Fits(vs[0], mandatory[0]) && FitUpTo(vs[1..], mandatory[1..], i)
    ensures FirstMisfit(e, vs, mandatory, i + 1) <==>
      Fits(vs[0], mandatory[0]) && FirstMisfit(e, vs[1..], mandatory[1..], i)
  {
    hide UnshownAs, Fits;
    assert forall k :: 0 < k < |vs| ==> vs[k] == vs[1..][k - 1];
    assert forall k :: 0 <= k < |vs[1..]| ==> vs[1..][k] == vs[k + 1];
    assert forall k :: 0 < k < |mandatory| ==> mandatory[k] == mandatory[1..][k - 1];
    assert forall k :: 0 <= k < |mandatory[1..]| ==> mandatory[1..][k] == mandatory[k + 1];
  }

  lemma UnshownInSteps(e: Error, vs: seq<Value>, mandatory: seq<Type>)
    ensures MandatoryUnshownAs(e, vs, mandatory) <==>
      if vs == [] || mandatory == [] then |vs| != |mandatory| && e == InvalidType
      else
        || UnshownAs(e, vs[0], mandatory[0])
        || (Fits(vs[0], mandatory[0]) && MandatoryUnshownAs(e, vs[1..], mandatory[1..]))
  {
    hide UnshownAs, Fits;
    if vs != [] && mandatory != [] {
      assert FirstMisfit(e, vs, mandatory, 0) <==> UnshownAs(e, vs[0], mandatory[0]);
      MisfitBehind(e, vs, mandatory, |vs| - 1);
      if i: nat :| i > 0 && FirstMisfit(e, vs, mandatory, i) {
        MisfitBehind(e, vs, mandatory, i - 1);
      }
      if i: nat :| FirstMisfit(e, vs[1..], mandatory[1..], i) {
        MisfitBehind(e, vs, mandatory, i);
      }
    }
  }

  lemma {:induction false} MandatoryUnshown(e: Error, vs: seq<Value>, elements: seq<Type>, name: Naming)
    ensures MandatoryToJson(vs, elements, name) == Err(e)
            <==> MandatoryUnshownAs(e, vs, Filter(IsMandatoryType, elements))
    decreases elements, 1, 0
  {
    hide ToJson, Fits, UnshownAs, MandatoryUnshownAs;
    var mandatory := Filter(IsMandatoryType, elements);
    UnshownInSteps(e, vs, mandatory);
    if elements != [] {
      var rest := Filter(IsMandatoryType, elements[1..]);
      if elements[0].shape.NamedValue? {
        MandatoryUnshown(e, vs, elements[1..], name);
        assert mandatory == [] + rest == rest;
      } else {
        assert mandatory == [elements[0]] + rest;
        if vs != [] {
          UnshownIff(e, vs[0], elements[0], name);
          PrintsExactlyFitting(vs[0], elements[0], name);
          MandatoryUnshown(e, vs[1..], elements[1..], name);
          assert mandatory[1..] == rest;
        }
      }
    }
  }

  /** The first optional field that is not shown. */
  ghost predicate FirstUnshownField(e: Error, vs: seq<Value>, elements: seq<Type>, i: nat) {
    && i < |vs| && FieldUnshownAs(e, vs[i], elements)
    && forall k :: 0 <= k < i ==> FitsOptional(vs[k], elements)
  }

  lemma FirstUnshownFieldBehind(e: Error, vs: seq<Value>, elements: seq<Type>, i: nat)
    requires vs != []
    ensures FirstUnshownField(e, vs, elements, i + 1) <==>
      FitsOptional(vs[0], elements) && FirstUnshownField(e, vs[1..], elements, i)
  {
    hide FieldUnshownAs, FitsOptional;
    assert forall k :: 0 < k < |vs| ==> vs[k] == vs[1..][k - 1];
    assert forall k :: 0 <= k < |vs[1..]| ==> vs[1..][k] == vs[k + 1];
  }

  lemma {:induction false} OptionalUnshown(e: Error, vs: seq<Value>, elements: seq<Type>, name: Naming)
    requires forall v :: v in vs ==> v.Named?
    ensures OptionalToJson(vs, elements, name) == Err(e) <==> exists i: nat :: FirstUnshownField(e, vs, elements, i)
    decreases elements, 1, |vs|
  {
    hide ToJson, FitsOptional, FieldUnshownAs, FieldToJson;
    if vs != [] {
      FirstFieldToJson(vs, elements, name);
      FieldUnshown(e, vs[0], elements, name);
      OptionalUnshown(e, vs[1..], elements, name);
      assert FirstUnshownField(e, vs, elements, 0) <==> FieldUnshownAs(e, vs[0], elements);
      if i: nat :| i > 0 && FirstUnshownField(e, vs, elements, i) {
        FirstUnshownFieldBehind(e, vs, elements, i - 1);
      }
      if i: nat :| FirstUnshownField(e, vs[1..], elements, i) {
        FirstUnshownFieldBehind(e, vs, elements, i);
      }
    }
  }

  lemma {:induction false} FieldUnshown(e: Error, w: Value, elements: seq<Type>, name: Naming)
    requires w.Named?
    ensures FieldToJson(w, elements, name) == Err(e) <==> FieldUnshownAs(e, w, elements)
    ensures FieldToJson(w, elements, name).Ok? <==> FitsOptional(w, elements)
    decreases elements, 0, 0
  {
    hide ToJson, Fits, UnshownAs, OptionalIndex, IsFirstField, NoField, Cast;
    if w.name.Integer? {
      WideKey(w.name.n);
      var key := w.name.n % 0x1_0000_0000_0000_0000;
      forall k: nat ensures OptionalIndex(elements, key) == k <==> IsFirstField(elements, key, k) {
        FirstFieldIff(elements, key, k);
      }
      NoFieldIff(elements, key);
      var k := OptionalIndex(elements, key);
      if k >= 0 {
        assert elements[k].shape.valueType < elements[k];
        UnshownIff(e, w.value, elements[k].shape.valueType, name);
        PrintsExactlyFitting(w.value, elements[k].shape.valueType, name);
      }
    }
  }

  lemma MisfitByPosition(e: Error, vs: seq<Value>, elements: seq<Type>)
    ensures var mandatory := Filter(IsMandatoryType, elements);
      (exists i: nat :: FirstMisfit(e, vs, mandatory, i)) <==>
      exists i, k :: 0 <= i < |vs| && i < |mandatory| && 0 <= k < |elements| && elements[k] == mandatory[i]
                     && UnshownAs(e, vs[i], elements[k]) && FitUpTo(vs, mandatory, i)
  {
    hide Filter, FitUpTo, UnshownAs;
    var mandatory := Filter(IsMandatoryType, elements);
    if i: nat :| FirstMisfit(e, vs, mandatory, i) {
      assert mandatory[i] in elements;
      var k :| 0 <= k < |elements| && elements[k] == mandatory[i];
      assert UnshownAs(e, vs[i], elements[k]);
    }
    if i, k :| 0 <= i < |vs| && i < |mandatory| && 0 <= k < |elements| && elements[k] == mandatory[i]
               && UnshownAs(e, vs[i], elements[k]) && FitUpTo(vs, mandatory, i) {
      assert FirstMisfit(e, vs, mandatory, i);
    }
  }

  lemma UnshownFieldByPosition(e: Error, vs: seq<Value>, elements: seq<Type>)
    ensures (exists i: nat :: FirstUnshownField(e, vs, elements, i)) <==>
      exists i :: 0 <= i < |vs| && FieldUnshownAs(e, vs[i], elements)
                  && forall k :: 0 <= k < i ==> FitsOptional(vs[k], elements)
  {
    hide FieldUnshownAs, FitsOptional;
    if i: nat :| FirstUnshownField(e, vs, elements, i) {
      assert FieldUnshownAs(e, vs[i], elements);
    }
    if i :| 0 <= i < |vs| && FieldUnshownAs(e, vs[i], elements)
            && forall k :: 0 <= k < i ==> FitsOptional(vs[k], elements) {
      assert FirstUnshownField(e, vs, elements, i);
    }
  }

  /** The three ways a struct is not shown. */
  ghost predicate StructUnshownAs(e: Error, vs: seq<Value>, elements: seq<Type>) {
    var plain, fields := Filter(IsPlain, vs), Filter(IsField, vs);
    var mandatory := Filter(IsMandatoryType, elements);
    || MandatoryUnshownAs(e, plain, mandatory)
    || (&& |plain| == |mandatory| && FitUpTo(plain, mandatory, |plain|)
        && exists i: nat :: FirstUnshownField(e, fields, elements, i))
  }

  lemma StructNotShown(e: Error, v: Value, t: Type)
    requires t.shape.Struct? && v.List?
    ensures UnshownAs(e, v, t) <==> StructUnshownAs(e, v.items, t.shape.elements)
  {
    hide Filter, FieldUnshownAs, FitsOptional, Fits, FitUpTo, FirstMisfit, FirstUnshownField;
    MisfitByPosition(e, Filter(IsPlain, v.items), t.shape.elements);
    UnshownFieldByPosition(e, Filter(IsField, v.items), t.shape.elements);
  }

  lemma {:induction false} StructUnshown(e: Error, v: Value, t: Type, name: Naming)
    requires t.shape.Struct?
    ensures ToJson(v, t, name) == Err(e) <==> UnshownAs(e, v, t)
    decreases t.shape, 0, 0
  {
    hide Filter, FirstUnshownField, MandatoryUnshownAs, MandatoryToJson, OptionalToJson, UnshownAs, Fits;
    if v.List? {
      var elements := t.shape.elements;
      var plain, fields := Filter(IsPlain, v.items), Filter(IsField, v.items);
      MandatoryUnshown(e, plain, elements, name);
      OptionalUnshown(e, fields, elements, name);
      MandatoryPrints(plain, elements, name);
      StructNotShown(e, v, t);
    } else {
      NoList(e, v, t);
    }
  }

  lemma NoList(e: Error, v: Value, t: Type)
    requires t.shape.Struct? && !v.List?
    ensures UnshownAs(e, v, t) <==> e == UnexpectedType
  {
  }
}
