/** Method calls, results and their parameter lists (Method.hpp, Method.cpp, UID.hpp). */
module Methods {
  import opened Common
  import opened FlatBinary
  import opened Values

  //
  // Identifiers
  //

  type UID = uint64

  predicate IsTable(uid: UID) {
    uid % TWO_TO_32 == 0
  }

  predicate IsDescriptor(uid: UID) {
    uid / TWO_TO_32 == 1 && uid % TWO_TO_32 != 0
  }

  predicate IsObject(uid: UID) {
    !IsTable(uid) && !IsDescriptor(uid)
  }

  /** UID::ContainingTable of an object or a descriptor. */
  function ContainingTable(uid: UID): UID {
    uid - uid % TWO_TO_32
  }

  function UidBytes(uid: UID): seq<byte> {
    BigEndian(uid, 8)
  }

  /** DeSerialize(UID): the first eight bytes. */
  function UidOfBytes(b: seq<byte>): Result<UID> {
    if |b| < 8 then Err(InvalidArgument)
    else
      WriteAfterRead(b[..8]);
      PowValues();
      Ok(FromBigEndian(b[..8]))
  }

  function UidValue(uid: UID): Value {
    Bytes(UidBytes(uid))
  }

  /** value_cast<UID>. */
  function GetUid(v: Value): Result<UID> {
    var b :- GetBytes(v);
    UidOfBytes(b)
  }

  lemma UidRoundTrip(uid: UID)
    ensures UidOfBytes(UidBytes(uid)) == Ok(uid)
  {
    PowValues();
    ReadBack(uid, 8);
    assert UidBytes(uid)[..8] == UidBytes(uid);
  }

  const CLOSE_SESSION: UID := 0xFF06

  //
  // Calls and results
  //

  type Status = s: int | 0 <= s < 0x100

  const SUCCESS: Status := 0x00
  const SP_BUSY: Status := 0x03
  const INVALID_PARAMETER: Status := 0x0C
  const FAIL: Status := 0x3F

  datatype MethodCall = MethodCall(invokingId: UID, methodId: UID, args: seq<Value>, status: Status)

  datatype MethodResult = MethodResult(values: seq<Value>, status: Status)

  function StatusList(status: Status): Value {
    List([Integer(U8, status), Integer(U8, 0), Integer(U8, 0)])
  }

  function CallItems(call: MethodCall): seq<Value> {
    [Cmd(CALL), UidValue(call.invokingId), UidValue(call.methodId), List(call.args), Cmd(END_OF_DATA),
     StatusList(call.status)]
  }

  function CallToValue(call: MethodCall): Value {
    List(CallItems(call))
  }

  /** The status is cast to the enumeration's 8-bit type. */
  function StatusOf(list: Value): Result<Status> {
    var items :- GetList(list);
    if |items| != 3 then Err(InvalidArgument) else
    var code :- GetInteger(items[0], U32);
    Ok(code % 0x100)
  }

  function CallOfItems(content: seq<Value>): Result<MethodCall>
    requires |content| >= 6
  {
    var call :- GetCommand(content[0]);
    var invokingBytes :- GetBytes(content[1]);
    var methodBytes :- GetBytes(content[2]);
    var args :- GetList(content[3]);
    var eod :- GetCommand(content[4]);
    var status :- StatusOf(content[5]);
    if call != CALL || eod != END_OF_DATA then Err(InvalidArgument) else
    var methodId :- UidOfBytes(methodBytes);
    var invokingId :- UidOfBytes(invokingBytes);
    Ok(MethodCall(invokingId, methodId, args, status))
  }

  /** Every failure surfaces as an invalid argument. */
  function CallFromValue(v: Value): Result<MethodCall> {
    if !v.List? || |v.items| < 6 then Err(InvalidArgument) else
    var r := CallOfItems(v.items);
    if r.Err? then Err(InvalidArgument) else r
  }

  function ResultItems(result: MethodResult): seq<Value> {
    [List(result.values), Cmd(END_OF_DATA), StatusList(result.status)]
  }

  function ResultToValue(result: MethodResult): Value {
    List(ResultItems(result))
  }

  function ResultOfItems(content: seq<Value>): Result<MethodResult>
    requires |content| >= 3
  {
    var values :- GetList(content[0]);
    var eod :- GetCommand(content[1]);
    if eod != END_OF_DATA then Err(InvalidArgument) else
    var status :- StatusOf(content[2]);
    Ok(MethodResult(values, status))
  }

  /** A CloseSession call in place of a result is a failed method; any other call is malformed. */
  function ResultFromValue(v: Value): Result<MethodResult> {
    if !v.List? || |v.items| < 3 then Err(InvalidArgument)
    else if v.items[0] == Cmd(CALL) then
      var call :- CallFromValue(v);
      if call.methodId == CLOSE_SESSION then Ok(MethodResult([], FAIL)) else Err(InvalidArgument)
    else
      var r := ResultOfItems(v.items);
      if r.Err? then Err(InvalidArgument) else r
  }

  /** MethodStatusToException: the statuses that raise. */
  predicate Raises(status: Status) {
    status in {0x01, 0x02, 0x03, 0x04, 0x05, 0x06, 0x07, 0x08, 0x09, 0x0A, 0x0C, 0x0D, 0x0E, 0x0F, 0x10, 0x11, 0x12,
               0x3F}
  }

  /** Reading a call back from a value that went over the wire. */
  lemma CallValueRoundTrip(call: MethodCall)
    ensures CallFromValue(Normal(CallToValue(call))) == Ok(call.(args := NormalAll(call.args)))
    ensures Normal(CallToValue(call)).List? && |Normal(CallToValue(call)).items| == 6
    ensures Normal(CallToValue(call)).items[0] == Cmd(CALL)
  {
    UidRoundTrip(call.invokingId);
    UidRoundTrip(call.methodId);
    StatusSurvives(call.status);
    var items := NormalAll(CallItems(call));
    assert items[1] == UidValue(call.invokingId) && items[2] == UidValue(call.methodId);
    assert items[3] == List(NormalAll(call.args)) && items[5] == Normal(StatusList(call.status));
  }

  lemma StatusSurvives(status: Status)
    ensures StatusOf(Normal(StatusList(status))) == Ok(status)
  {
    var items := [Integer(U8, status), Integer(U8, 0), Integer(U8, 0)];
    assert NormalAll(items)[0] == items[0];
    assert Cast(U32, status) == status;
  }

  lemma ResultValueRoundTrip(result: MethodResult)
    ensures ResultFromValue(Normal(ResultToValue(result))) == Ok(result.(values := NormalAll(result.values)))
  {
    StatusSurvives(result.status);
    var items := NormalAll(ResultItems(result));
    assert items[0] == List(NormalAll(result.values)) && items[1] == Cmd(END_OF_DATA);
    assert items[2] == Normal(StatusList(result.status));
  }

  /** A call in place of a result: CloseSession reports a failed method, any other call is no result. */
  lemma CallInPlaceOfResult(call: MethodCall)
    ensures ResultFromValue(Normal(CallToValue(call)))
            == if call.methodId == CLOSE_SESSION then Ok(MethodResult([], FAIL)) else Err(InvalidArgument)
  {
    CallValueRoundTrip(call);
  }

  //
  // Parameter lists
  //

  /** PushOptional(MakeOptional(key, value)) for the keys from the given one on. */
  function PackOptionals(key: nat, optionals: seq<Option<Value>>): seq<Value>
    decreases optionals
  {
    if optionals == [] then []
    else
      (if optionals[0].Some? then [Named(Integer(U16, key % TWO_TO_16), optionals[0].value)] else [])
      + PackOptionals(key + 1, optionals[1..])
  }

  /** ParameterList::Pack. */
  function PackArgs(required: seq<Value>, optionals: seq<Option<Value>>): seq<Value> {
    required + PackOptionals(0, optionals)
  }

  /** A named value with an integer key; anything else makes the list malformed. */
  predicate IsOptionalItem(v: Value) {
    v.Named? && v.name.Integer?
  }

  /** name.Get<int>(). */
  function KeyOf(v: Value): int
    requires IsOptionalItem(v)
  {
    Cast(I32, v.name.n)
  }

  /** The loop of Unpack: later entries replace earlier ones. */
  function Present(items: seq<Value>): Result<map<int, Value>> {
    if items == [] then Ok(map[])
    else
      var last := items[|items| - 1];
      var m :- Present(items[..|items| - 1]);
      if IsOptionalItem(last) then Ok(m[KeyOf(last) := last.value]) else Err(BadParameterList)
  }

  function Slots(count: nat, m: map<int, Value>): (slots: seq<Option<Value>>)
    ensures |slots| == count
    ensures forall k :: 0 <= k < count ==> slots[k] == if k in m then Some(m[k]) else None
  {
    seq(count, k => if k in m then Some(m[k]) else None)
  }

  /** ParameterList::Unpack. */
  function UnpackArgs(requiredCount: nat, optionalCount: nat, args: seq<Value>)
    : Result<(seq<Value>, seq<Option<Value>>)>
  {
    if |args| < requiredCount then Err(BadParameterList) else
    var m :- Present(args[requiredCount..]);
    Ok((args[..requiredCount], Slots(optionalCount, m)))
  }

  /** Unpack with its loop over the named values. */
  method Unpack(requiredCount: nat, optionalCount: nat, args: seq<Value>)
    returns (r: Result<(seq<Value>, seq<Option<Value>>)>)
    ensures r == UnpackArgs(requiredCount, optionalCount, args)
  {
    if |args| < requiredCount {
      return Err(BadParameterList);
    }
    var subset := args[requiredCount..];
    var present: map<int, Value> := map[];
    for i := 0 to |subset|
      invariant Present(subset[..i]) == Ok(present)
    {
      assert subset[..i + 1][..i] == subset[..i];
      if !IsOptionalItem(subset[i]) {
        PresentFails(subset, i);
        return Err(BadParameterList);
      }
      present := present[KeyOf(subset[i]) := subset[i].value];
    }
    assert subset[..|subset|] == subset;
    r := Ok((args[..requiredCount], Slots(optionalCount, present)));
  }

  /** Unpack accepts exactly the lists whose items beyond the required ones are named by integers. */
  lemma {:induction false} PresentSucceedsIff(items: seq<Value>)
    ensures Present(items).Ok? <==> forall i :: 0 <= i < |items| ==> IsOptionalItem(items[i])
    ensures Present(items).Err? ==> Present(items).error == BadParameterList
  {
    if items != [] {
      var init := items[..|items| - 1];
      PresentSucceedsIff(init);
      assert forall i :: 0 <= i < |init| ==> items[i] == init[i];
    }
  }

  lemma PresentFails(items: seq<Value>, i: nat)
    requires i < |items| && !IsOptionalItem(items[i])
    ensures Present(items) == Err(BadParameterList)
  {
    PresentSucceedsIff(items);
  }

  predicate AllOptionalItems(items: seq<Value>) {
    forall i :: 0 <= i < |items| ==> IsOptionalItem(items[i])
  }

  /** Where the last item with a key stands, or -1. */
  function LastIndex(items: seq<Value>, key: int): (i: int)
    requires AllOptionalItems(items)
    ensures -1 <= i < |items|
    ensures i >= 0 ==> KeyOf(items[i]) == key
    ensures forall j :: i < j < |items| ==> KeyOf(items[j]) != key
  {
    if items == [] then -1
    else if KeyOf(items[|items| - 1]) == key then |items| - 1
    else LastIndex(items[..|items| - 1], key)
  }

  /** A key is present exactly if an item carries it, and the last such item gives the value. */
  lemma {:induction false} LastWins(items: seq<Value>, key: int)
    requires AllOptionalItems(items)
    ensures Present(items).Ok?
    ensures key in Present(items).value <==> LastIndex(items, key) >= 0
    ensures LastIndex(items, key) >= 0 ==> Present(items).value[key] == items[LastIndex(items, key)].value
  {
    hide KeyOf;
    if items != [] {
      LastWins(items[..|items| - 1], key);
    }
  }

  /** An unpacked slot holds the value of the last item with its key, and is absent when no item has it. */
  lemma UnpackTakesLast(requiredCount: nat, optionalCount: nat, args: seq<Value>, k: nat)
    requires UnpackArgs(requiredCount, optionalCount, args).Ok? && k < optionalCount
    ensures |args| >= requiredCount && AllOptionalItems(args[requiredCount..])
    ensures var (required, slots) := UnpackArgs(requiredCount, optionalCount, args).value;
      var items := args[requiredCount..];
      && required == args[..requiredCount]
      && |slots| == optionalCount
      && (slots[k] == None <==> forall j :: 0 <= j < |items| ==> KeyOf(items[j]) != k)
      && (forall i :: 0 <= i < |items| && KeyOf(items[i]) == k && (forall j :: i < j < |items| ==> KeyOf(items[j]) != k)
                      ==> slots[k] == Some(items[i].value))
  {
    hide KeyOf;
    var items := args[requiredCount..];
    PresentSucceedsIff(items);
    LastWins(items, k);
  }

  predicate DistinctKeys(items: seq<Value>) {
    && (forall i :: 0 <= i < |items| ==> IsOptionalItem(items[i]))
    && (forall i, j :: 0 <= i < j < |items| ==> KeyOf(items[i]) != KeyOf(items[j]))
  }

  lemma DistinctPresent(items: seq<Value>, key: int)
    requires DistinctKeys(items)
    ensures Present(items).Ok?
    ensures key in Present(items).value <==> exists v :: v in items && KeyOf(v) == key
    ensures forall v :: v in items && KeyOf(v) == key ==>
      key in Present(items).value && Present(items).value[key] == v.value
  {
    hide KeyOf, Present;
    LastWins(items, key);
    forall v | v in items && KeyOf(v) == key
      ensures key in Present(items).value && Present(items).value[key] == v.value
    {
      var i :| 0 <= i < |items| && items[i] == v;
      assert LastIndex(items, key) == i;
    }
  }

  /** Unpack does not depend on the order of optional parameters with distinct keys. */
  lemma UnpackIgnoresOrder(required: seq<Value>, a: seq<Value>, b: seq<Value>, optionalCount: nat)
    requires multiset(a) == multiset(b)
    requires DistinctKeys(a) && DistinctKeys(b)
    ensures UnpackArgs(|required|, optionalCount, required + a) == UnpackArgs(|required|, optionalCount, required + b)
  {
    hide KeyOf, Present;
    DropAppend(required, a);
    DropAppend(required, b);
    PresentSucceedsIff(a);
    PresentSucceedsIff(b);
    var m, n := Present(a).value, Present(b).value;
    assert forall v :: v in a <==> v in multiset(a);
    assert forall v :: v in b <==> v in multiset(b);
    forall key ensures key in m <==> key in n
      ensures key in m ==> m[key] == n[key]
    {
      DistinctPresent(a, key);
      DistinctPresent(b, key);
    }
    assert m == n;
  }

  lemma PackedKey(key: nat, value: Value)
    requires key < TWO_TO_16
    ensures key % TWO_TO_16 == key
    ensures IsOptionalItem(Named(Integer(U16, key), value)) && KeyOf(Named(Integer(U16, key), value)) == key
  {
  }

  lemma PackOptionalsCons(key: nat, optionals: seq<Option<Value>>)
    requires optionals != [] && key < TWO_TO_16
    ensures PackOptionals(key, optionals) ==
      if optionals[0].Some?
      then [Named(Integer(U16, key), optionals[0].value)] + PackOptionals(key + 1, optionals[1..])
      else PackOptionals(key + 1, optionals[1..])
  {
    PackedKey(key, Empty);
    assert [] + PackOptionals(key + 1, optionals[1..]) == PackOptionals(key + 1, optionals[1..]);
  }

  /** Every packed item carries the value of the slot that its key names. */
  lemma {:induction false} PackedItem(key: nat, optionals: seq<Option<Value>>, i: nat)
    requires key + |optionals| <= TWO_TO_16 && i < |PackOptionals(key, optionals)|
    ensures var v := PackOptionals(key, optionals)[i];
      && IsOptionalItem(v)
      && key <= KeyOf(v) < key + |optionals|
      && optionals[KeyOf(v) - key] == Some(v.value)
    decreases |optionals|
  {
    hide KeyOf;
    PackOptionalsCons(key, optionals);
    if optionals[0].None? {
      PackedItem(key + 1, optionals[1..], i);
    } else if i == 0 {
      PackedKey(key, optionals[0].value);
    } else {
      PackedItem(key + 1, optionals[1..], i - 1);
    }
  }

  lemma {:induction false} PackedDistinct(key: nat, optionals: seq<Option<Value>>)
    requires key + |optionals| <= TWO_TO_16
    ensures DistinctKeys(PackOptionals(key, optionals))
    decreases |optionals|
  {
    hide KeyOf;
    if optionals != [] {
      PackOptionalsCons(key, optionals);
      if optionals[0].Some? {
        PackedKey(key, optionals[0].value);
      }
      PackedDistinct(key + 1, optionals[1..]);
      var tail := PackOptionals(key + 1, optionals[1..]);
      forall i | 0 <= i < |tail| ensures KeyOf(tail[i]) > key {
        PackedItem(key + 1, optionals[1..], i);
      }
    }
  }

  /** Every present slot has its item. */
  lemma {:induction false} PackedCovers(key: nat, optionals: seq<Option<Value>>, k: nat)
    requires key + |optionals| <= TWO_TO_16 && k < |optionals| && optionals[k].Some?
    ensures Named(Integer(U16, key + k), optionals[k].value) in PackOptionals(key, optionals)
    decreases |optionals|
  {
    PackOptionalsCons(key, optionals);
    if k > 0 {
      PackedCovers(key + 1, optionals[1..], k - 1);
    }
  }

  lemma PackedSlot(optionals: seq<Option<Value>>, k: nat)
    requires |optionals| <= TWO_TO_16 && k < |optionals|
    ensures Present(PackOptionals(0, optionals)).Ok?
    ensures var m := Present(PackOptionals(0, optionals)).value;
      optionals[k] == if k in m then Some(m[k]) else None
  {
    hide KeyOf, Present, PackOptionals;
    var items := PackOptionals(0, optionals);
    PackedDistinct(0, optionals);
    DistinctPresent(items, k);
    if optionals[k].Some? {
      PackedCovers(0, optionals, k);
      PackedKey(k, optionals[k].value);
      var v := Named(Integer(U16, k), optionals[k].value);
      assert v in items && KeyOf(v) == k;
    } else if k in Present(items).value {
      var v :| v in items && KeyOf(v) == k;
      var i :| 0 <= i < |items| && items[i] == v;
      PackedItem(0, optionals, i);
      assert false;
    }
  }

  /** Unpack undoes Pack: every required value, every present slot and every absent slot comes back. */
  lemma UnpackUndoesPack(required: seq<Value>, optionals: seq<Option<Value>>)
    requires |optionals| <= TWO_TO_16
    ensures UnpackArgs(|required|, |optionals|, PackArgs(required, optionals)) == Ok((required, optionals))
  {
    hide KeyOf, Present;
    var items := PackOptionals(0, optionals);
    DropAppend(required, items);
    PackedDistinct(0, optionals);
    PresentSucceedsIff(items);
    var slots := Slots(|optionals|, Present(items).value);
    forall k | 0 <= k < |optionals| ensures slots[k] == optionals[k] {
      PackedSlot(optionals, k);
    }
    assert slots == optionals;
  }

  function NormalOptionals(optionals: seq<Option<Value>>): (r: seq<Option<Value>>)
    ensures |r| == |optionals|
    ensures forall i :: 0 <= i < |optionals| ==>
      r[i] == if optionals[i].Some? then Some(Normal(optionals[i].value)) else None
  {
    seq(|optionals|, i requires 0 <= i < |optionals| =>
      if optionals[i].Some? then Some(Normal(optionals[i].value)) else None)
  }

  /** Packing commutes with what the wire does to values. */
  lemma {:induction false} PackIsNatural(key: nat, optionals: seq<Option<Value>>)
    ensures NormalAll(PackOptionals(key, optionals)) == PackOptionals(key, NormalOptionals(optionals))
    decreases |optionals|
  {
    if optionals != [] {
      PackIsNatural(key + 1, optionals[1..]);
      assert NormalOptionals(optionals)[1..] == NormalOptionals(optionals[1..]);
      var head := if optionals[0].Some? then [Named(Integer(U16, key % TWO_TO_16), optionals[0].value)] else [];
      NormalAllConcat(head, PackOptionals(key + 1, optionals[1..]));
      if optionals[0].Some? {
        assert NormalAll(head) == [Normal(head[0])];
      }
    }
  }

  /** Parameters packed on one side and unpacked on the other arrive in their slots. */
  lemma UnpackAcrossWire(required: seq<Value>, optionals: seq<Option<Value>>)
    requires |optionals| <= TWO_TO_16
    ensures UnpackArgs(|required|, |optionals|, NormalAll(PackArgs(required, optionals)))
            == Ok((NormalAll(required), NormalOptionals(optionals)))
  {
    NormalAllConcat(required, PackOptionals(0, optionals));
    PackIsNatural(0, optionals);
    UnpackUndoesPack(NormalAll(required), NormalOptionals(optionals));
  }
}
