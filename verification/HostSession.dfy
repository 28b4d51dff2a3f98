/** The host's side of a session: the methods of the base and Opal templates (Session.cpp). */
module HostSession {
  import opened Common
  import opened Values
  import opened Methods
  import opened SessionMethods
  import opened RemoteCalls
  import M = MockDevice

  /** A session as the host holds it, with the environment its calls run in. */
  datatype Session = Session(id: M.SessionId, env: M.Env)

  /** The method object's call operator: results are unpacked into the declared number of slots. */
  function Invoke(d: M.Device, host: Session, call: MethodCall, requiredResults: nat): (Result<seq<Value>>, M.Device) {
    var (r, d') := RemoteCall(d, call, host.id, host.env);
    (UnpackResult(r, requiredResults), d')
  }

  function UnpackResult(r: Result<MethodResult>, requiredResults: nat): Result<seq<Value>> {
    var result :- r;
    var (required, _) :- UnpackArgs(requiredResults, 0, result.values);
    Ok(required)
  }

  /** ConvertArg of an optional argument. */
  function BytesOption(b: Option<seq<byte>>): Option<Value> {
    if b.Some? then Some(Bytes(b.value)) else None
  }

  function UidOption(u: Option<UID>): Option<Value> {
    if u.Some? then Some(UidValue(u.value)) else None
  }

  function IntegerOption(n: Option<uint32>): Option<Value> {
    if n.Some? then Some(Integer(U32, n.value)) else None
  }

  /** A method without results. */
  function InvokeVoid(d: M.Device, host: Session, call: MethodCall): (Result<()>, M.Device) {
    var (r, d') := Invoke(d, host, call, 0);
    (if r.Err? then Err(r.error) else Ok(()), d')
  }

  //
  // Set
  //

  function Min(a: nat, b: nat): nat {
    if a < b then a else b
  }

  /** Columns and values are paired up to the shorter of the two. */
  function LabelCells(columns: seq<uint32>, values: seq<Value>): (items: seq<Value>)
    ensures |items| == Min(|columns|, |values|)
    ensures forall i :: 0 <= i < |items| ==> items[i] == Named(Integer(U32, columns[i]), values[i])
  {
    seq(Min(|columns|, |values|),
        i requires 0 <= i < Min(|columns|, |values|) => Named(Integer(U32, columns[i]), values[i]))
  }

  method LabelValues(columns: seq<uint32>, values: seq<Value>) returns (labeledValues: seq<Value>)
    ensures labeledValues == LabelCells(columns, values)
  {
    labeledValues := [];
    var i := 0;
    while i < |columns| && i < |values|
      invariant i == |labeledValues| <= Min(|columns|, |values|)
      invariant labeledValues == LabelCells(columns, values)[..i]
    {
      labeledValues := labeledValues + [Named(Integer(U32, columns[i]), values[i])];
      i := i + 1;
    }
  }

  function SetRequest(uid: UID, columns: seq<uint32>, values: seq<Value>): MethodCall {
    MethodCall(uid, SET, PackArgs([], [None, Some(List(LabelCells(columns, values)))]), SUCCESS)
  }

  function HostSet(d: M.Device, host: Session, uid: UID, columns: seq<uint32>, values: seq<Value>)
    : (Result<()>, M.Device)
  {
    InvokeVoid(d, host, SetRequest(uid, columns, values))
  }

  //
  // Get
  //

  function ColumnBlock(startColumn: uint32, endColumn: uint32): Value {
    List([Named(Integer(U16, 3), Integer(U32, startColumn)),
          Named(Integer(U16, 4), Integer(U32, (endColumn - 1) % TWO_TO_32))])
  }

  function GetRequest(uid: UID, startColumn: uint32, endColumn: uint32): MethodCall {
    MethodCall(uid, GET, PackArgs([ColumnBlock(startColumn, endColumn)], []), SUCCESS)
  }

  function Blank(count: nat): (r: seq<Value>)
    ensures |r| == count && forall i :: 0 <= i < count ==> r[i] == Empty
  {
    seq(count, _ => Empty)
  }

  /**
   * The loop of Get stores each named value under its column. A column just past the end passes the check of
   * the original, which compares with the size itself, and would be written out of bounds.
   */
  function FillColumns(values: seq<Value>, startColumn: uint32, items: seq<Value>): Result<seq<Value>>
    decreases items
  {
    if items == [] then Ok(values)
    else if !items[0].Named? then Err(if items[0].Empty? then EmptyValue else TypeConversion)
    else
      var index :- GetInteger(items[0].name, U64);
      var at := (index - startColumn) % TWO_TO_64;
      if at > |values| then Err(InvalidResponse)
      else if at == |values| then Err(OutOfRange)
      else FillColumns(values[at := items[0].value], startColumn, items[1..])
  }

  /** A labeled value whose place lies within the columns asked for. */
  predicate FitsAt(item: Value, startColumn: uint32, count: nat) {
    item.Named? && item.name.Integer? && (Cast(U64, item.name.n) - startColumn) % TWO_TO_64 < count
  }

  /** A reply is stored exactly if every one of its items is labeled with a column that was asked for. */
  lemma {:induction false} StoredIff(values: seq<Value>, startColumn: uint32, items: seq<Value>)
    ensures FillColumns(values, startColumn, items).Ok?
            <==> forall i :: 0 <= i < |items| ==> FitsAt(items[i], startColumn, |values|)
    ensures FillColumns(values, startColumn, items).Ok? ==>
      |FillColumns(values, startColumn, items).value| == |values|
    decreases |items|
  {
    hide Cast;
    if items != [] {
      if FitsAt(items[0], startColumn, |values|) {
        var at := (Cast(U64, items[0].name.n) - startColumn) % TWO_TO_64;
        StoredIff(values[at := items[0].value], startColumn, items[1..]);
        assert forall i :: 0 < i < |items| ==> items[i] == items[1..][i - 1];
      }
    }
  }

  /** A column one past the last that was asked for, which the check of the original lets through. */
  predicate JustPast(item: Value, startColumn: uint32, count: nat) {
    item.Named? && item.name.Integer? && (Cast(U64, item.name.n) - startColumn) % TWO_TO_64 == count
  }

  /** A reply of that one column would be written out of bounds, for every range. */
  lemma PastTheEnd(startColumn: uint32, count: nat, value: Value)
    requires startColumn + count < TWO_TO_32
    ensures FillColumns(Blank(count), startColumn, [Named(Integer(U32, startColumn + count), value)]) == Err(OutOfRange)
  {
    var column := startColumn + count;
    assert Cast(U64, column) == column;
  }

  /** A reply is written out of bounds exactly if its first item that does not fit is one past the end. */
  lemma {:induction false} WrittenPastIff(values: seq<Value>, startColumn: uint32, items: seq<Value>)
    ensures FillColumns(values, startColumn, items) == Err(OutOfRange) <==>
      exists i :: 0 <= i < |items| && JustPast(items[i], startColumn, |values|)
                  && forall j :: 0 <= j < i ==> FitsAt(items[j], startColumn, |values|)
    decreases |items|
  {
    hide Cast;
    if items != [] {
      var rest := items[1..];
      assert forall i :: 0 < i < |items| ==> items[i] == rest[i - 1];
      if FitsAt(items[0], startColumn, |values|) {
        var at := (Cast(U64, items[0].name.n) - startColumn) % TWO_TO_64;
        WrittenPastIff(values[at := items[0].value], startColumn, rest);
        FirstMisfit(items, startColumn, |values|);
      }
    }
  }

  /** An item in front that fits does not change which is the first that does not. */
  lemma FirstMisfit(items: seq<Value>, startColumn: uint32, count: nat)
    requires items != [] && FitsAt(items[0], startColumn, count)
    ensures (exists i :: 0 <= i < |items| && JustPast(items[i], startColumn, count)
                         && forall j :: 0 <= j < i ==> FitsAt(items[j], startColumn, count))
            <==> exists i :: 0 <= i < |items[1..]| && JustPast(items[1..][i], startColumn, count)
                             && forall j :: 0 <= j < i ==> FitsAt(items[1..][j], startColumn, count)
  {
    hide Cast;
    var rest := items[1..];
    assert forall i :: 0 < i < |items| ==> items[i] == rest[i - 1];
    assert !JustPast(items[0], startColumn, count);
    if k :| 0 <= k < |rest| && JustPast(rest[k], startColumn, count)
            && forall j :: 0 <= j < k ==> FitsAt(rest[j], startColumn, count) {
      assert JustPast(items[k + 1], startColumn, count);
      assert forall j :: 0 <= j < k + 1 ==> FitsAt(items[j], startColumn, count);
    }
    if k :| 0 <= k < |items| && JustPast(items[k], startColumn, count)
            && forall j :: 0 <= j < k ==> FitsAt(items[j], startColumn, count) {
      assert JustPast(rest[k - 1], startColumn, count);
      assert forall j :: 0 <= j < k - 1 ==> rest[j] == items[j + 1];
    }
  }

  method StoreColumns(count: nat, startColumn: uint32, items: seq<Value>) returns (r: Result<seq<Value>>)
    ensures r == FillColumns(Blank(count), startColumn, items)
  {
    var values := Blank(count);
    for i := 0 to |items|
      invariant FillColumns(Blank(count), startColumn, items) == FillColumns(values, startColumn, items[i..])
    {
      assert items[i..][1..] == items[i + 1..];
      if !items[i].Named? {
        return Err(if items[i].Empty? then EmptyValue else TypeConversion);
      }
      var index :- GetInteger(items[i].name, U64);
      var at := (index - startColumn) % TWO_TO_64;
      if at > |values| {
        return Err(InvalidResponse);
      }
      if at == |values| {
        return Err(OutOfRange);
      }
      values := values[at := items[i].value];
    }
    r := Ok(values);
  }

  function HostGet(d: M.Device, host: Session, uid: UID, startColumn: uint32, endColumn: uint32)
    : (Result<seq<Value>>, M.Device)
  {
    var (r, d') := Invoke(d, host, GetRequest(uid, startColumn, endColumn), 1);
    (CollectColumns(r, startColumn, endColumn), d')
  }

  function CollectColumns(r: Result<seq<Value>>, startColumn: uint32, endColumn: uint32): Result<seq<Value>> {
    var results :- r;
    if results == [] then Err(BadParameterList) else
    var items :- GetList(results[0]);
    FillColumns(Blank((endColumn - startColumn) % TWO_TO_32), startColumn, items)
  }

  /** Get of a single column. */
  function HostGetOne(d: M.Device, host: Session, uid: UID, column: uint32): (Result<Value>, M.Device)
  {
    var (r, d') := HostGet(d, host, uid, column, Add32(column, 1));
    (if r.Err? then Err(r.error) else if r.value == [] then Err(InvalidResponse) else Ok(r.value[0]), d')
  }

  //
  // Next
  //

  function NextRequest(table: UID, row: Option<UID>, count: uint32): MethodCall {
    MethodCall(table, NEXT, PackArgs([], [UidOption(row), IntegerOption(Some(count))]), SUCCESS)
  }

  function UidsOf(vs: seq<Value>): Result<seq<UID>> {
    if vs == [] then Ok([])
    else
      var head :- GetUid(vs[0]);
      var tail :- UidsOf(vs[1..]);
      Ok([head] + tail)
  }

  function HostNext(d: M.Device, host: Session, table: UID, row: Option<UID>, count: uint32)
    : (Result<seq<UID>>, M.Device)
  {
    var (r, d') := Invoke(d, host, NextRequest(table, row, count), 1);
    (CollectUids(r), d')
  }

  function CollectUids(r: Result<seq<Value>>): Result<seq<UID>> {
    var results :- r;
    if results == [] then Err(BadParameterList) else
    var items :- GetList(results[0]);
    UidsOf(items)
  }

  /** Next of a single row. */
  function HostNextOne(d: M.Device, host: Session, table: UID, row: Option<UID>): (Result<Option<UID>>, M.Device) {
    var (r, d') := HostNext(d, host, table, row, 1);
    (if r.Err? then Err(r.error) else Ok(if r.value == [] then None else Some(r.value[0])), d')
  }

  //
  // Authenticate
  //

  const THIS_SP: UID := 1

  function AuthenticateRequest(authority: UID, proof: Option<seq<byte>>): MethodCall {
    MethodCall(THIS_SP, AUTHENTICATE, PackArgs([UidValue(authority)], [BytesOption(proof)]), SUCCESS)
  }

  /** A failed proof raises; a reply that is no integer would be a challenge, which is not supported. */
  function HostAuthenticate(d: M.Device, host: Session, authority: UID, proof: Option<seq<byte>>)
    : (Result<()>, M.Device)
  {
    var (r, d') := Invoke(d, host, AuthenticateRequest(authority, proof), 1);
    (Accepted(r), d')
  }

  function Accepted(r: Result<seq<Value>>): Result<()> {
    var results :- r;
    if results == [] then Err(BadParameterList)
    else if !results[0].Integer? then Err(NotImplemented)
    else if Cast(U8, results[0].n) == 0 then Err(PasswordRejected)
    else Ok(())
  }

  //
  // GenKey, Activate and Revert
  //

  function GenKeyRequest(uid: UID, publicExponent: Option<uint32>, pinLength: Option<uint32>): MethodCall {
    MethodCall(uid, GEN_KEY, PackArgs([], [IntegerOption(publicExponent), IntegerOption(pinLength)]), SUCCESS)
  }

  function ActivateRequest(securityProvider: UID): MethodCall {
    MethodCall(securityProvider, ACTIVATE, PackArgs([], []), SUCCESS)
  }

  function RevertRequest(securityProvider: UID): MethodCall {
    MethodCall(securityProvider, REVERT, PackArgs([], []), SUCCESS)
  }

  function HostGenKey(d: M.Device, host: Session, uid: UID, publicExponent: Option<uint32>, pinLength: Option<uint32>)
    : (Result<()>, M.Device)
  {
    InvokeVoid(d, host, GenKeyRequest(uid, publicExponent, pinLength))
  }

  function HostActivate(d: M.Device, host: Session, securityProvider: UID): (Result<()>, M.Device) {
    InvokeVoid(d, host, ActivateRequest(securityProvider))
  }

  function HostRevert(d: M.Device, host: Session, securityProvider: UID): (Result<()>, M.Device) {
    InvokeVoid(d, host, RevertRequest(securityProvider))
  }
}
