/** The methods the mock device executes inside a session (Get to Activate in MockDevice.cpp). */
module SessionMethods {
  import opened Common
  import opened Values
  import opened Methods
  import opened State

  const AUTHORITY_TABLE: UID := 0x9_0000_0000
  const C_PIN_TABLE: UID := 0xB_0000_0000
  const SP_TABLE: UID := 0x205_0000_0000
  const K_AES_128_TABLE: UID := 0x805_0000_0000
  const K_AES_256_TABLE: UID := 0x806_0000_0000
  const ADMIN_SP: UID := 0x205_0000_0001
  const LOCKING_SP: UID := 0x205_0000_0002
  const C_PIN_SID: UID := 0xB_0000_0001      // in the Admin SP
  const C_PIN_ADMIN1: UID := 0xB_0001_0001   // in the Locking SP

  const NEXT: UID := 0x6_0000_0008
  const GEN_KEY: UID := 0x6_0000_0010
  const GET: UID := 0x6_0000_0016
  const SET: UID := 0x6_0000_0017
  const AUTHENTICATE: UID := 0x6_0000_001C
  const REVERT: UID := 0x6_0000_0202
  const ACTIVATE: UID := 0x6_0000_0203

  const LIFE_CYCLE: nat := 6
  const PIN: nat := 3
  const CREDENTIAL: nat := 10

  /** A reply, and the providers after the call; an exception may leave earlier writes behind. */
  type Outcome = (Result<MethodResult>, seq<Provider>)

  //
  // Get
  //

  datatype CellBlock = CellBlock(startColumn: Option<uint32>, endColumn: Option<uint32>)

  /** The columns of a cell block; row fields are converted and then ignored. */
  function ParseFields(fields: seq<Value>, acc: CellBlock): Result<CellBlock>
    decreases fields
  {
    if fields == [] then Ok(acc)
    else if fields[0].Empty? then Err(EmptyValue)
    else if !fields[0].Named? then Err(TypeConversion)
    else
      var value := fields[0].value;
      var id :- GetInteger(fields[0].name, U16);
      if id == 0 then ParseFields(fields[1..], acc)
      else if id == 1 then
        var _ :- if value.Integer? then GetInteger(value, U32) else GetUid(value);
        ParseFields(fields[1..], acc)
      else if id == 2 then
        var _ :- if value.HasValue() then GetInteger(value, U32) else Ok(0);
        ParseFields(fields[1..], acc)
      else if id == 3 then
        var column :- GetInteger(value, U32);
        ParseFields(fields[1..], acc.(startColumn := Some(column)))
      else if id == 4 then
        var column :- GetInteger(value, U32);
        ParseFields(fields[1..], acc.(endColumn := Some(column)))
      else Err(InvalidFormat)
  }

  function ParseCellBlock(v: Value): Result<CellBlock> {
    var fields :- GetList(v);
    ParseFields(fields, CellBlock(None, None))
  }

  /** A cell under its column number; an empty cell is left out. */
  function Label(column: nat, cell: Value): seq<Value> {
    if cell.HasValue() then [Named(Integer(U32, column), cell)] else []
  }

  /** The cells of a row from first up to last. */
  function Labeled(row: seq<Value>, first: nat, last: nat): seq<Value>
    requires last <= |row|
    decreases last - first
  {
    if first >= last then []
    else Label(first, row[first]) + Labeled(row, first + 1, last)
  }

  /** One past the last column asked for, in 32-bit arithmetic: the default is the whole row. */
  function LastColumn(row: seq<Value>, block: CellBlock): uint32 {
    Add32(if block.endColumn.Some? then block.endColumn.value else (|row| - 1) % TWO_TO_32, 1)
  }

  function FirstColumn(block: CellBlock): uint32 {
    if block.startColumn.Some? then block.startColumn.value else 0
  }

  function GetCells(ts: Tables, uid: UID, block: CellBlock): Result<MethodResult> {
    if IsTable(uid) then Err(NotImplemented)
    else if !HasObject(ts, uid) then Ok(MethodResult([List([])], INVALID_PARAMETER))
    else
      var row := Row(ts, uid);
      var first, last := FirstColumn(block), LastColumn(row, block);
      if first > last || last > |row| then Ok(MethodResult([List([])], INVALID_PARAMETER))
      else Ok(MethodResult([List(Labeled(row, first, last))], SUCCESS))
  }

  //
  // Set
  //

  /** name.Get<uint16_t>() of a written item: columns are taken modulo 65,536. */
  function ColumnOf(item: Value): nat
    requires IsOptionalItem(item)
  {
    Cast(U16, item.name.n)
  }

  predicate Writable(item: Value, size: nat) {
    IsOptionalItem(item) && ColumnOf(item) < size
  }

  predicate AllWritable(items: seq<Value>, size: nat) {
    forall i :: 0 <= i < |items| ==> Writable(items[i], size)
  }

  /** The second loop of Set: every item overwrites its column, in order. */
  function WriteAll(row: seq<Value>, items: seq<Value>): (r: seq<Value>)
    requires AllWritable(items, |row|)
    ensures |r| == |row|
    decreases items
  {
    if items == [] then row
    else
      assert Writable(items[0], |row|);
      WriteAll(row[ColumnOf(items[0]) := items[0].value], items[1..])
  }

  function SetCells(ts: Tables, uid: UID, where_: Option<Value>, values: Option<Value>)
    : (Result<MethodResult>, Tables)
  {
    if IsTable(uid) then (Err(NotImplemented), ts)
    else if !HasObject(ts, uid) || where_.Some? || values.None? || !values.value.List?
            || !AllWritable(values.value.items, |Row(ts, uid)|)
    then (Ok(MethodResult([], INVALID_PARAMETER)), ts)
    else (Ok(MethodResult([], SUCCESS)), WithRow(ts, uid, WriteAll(Row(ts, uid), values.value.items)))
  }

  /** Where the last item that writes a column stands, or -1. */
  function LastWrite(items: seq<Value>, column: nat): (i: int)
    requires AllOptionalItems(items)
    ensures -1 <= i < |items|
    ensures i >= 0 ==> ColumnOf(items[i]) == column
    ensures forall j :: i < j < |items| ==> ColumnOf(items[j]) != column
  {
    if items == [] then -1
    else if ColumnOf(items[|items| - 1]) == column then |items| - 1
    else LastWrite(items[..|items| - 1], column)
  }

  /** The value of a column after the writes: that of the last item naming it, or what was there. */
  function AfterWrites(row: seq<Value>, items: seq<Value>, column: nat): Value
    requires AllOptionalItems(items) && column < |row|
  {
    var i := LastWrite(items, column);
    if i < 0 then row[column] else items[i].value
  }

  lemma {:induction false} WriteAllSnoc(row: seq<Value>, items: seq<Value>, item: Value)
    requires AllWritable(items, |row|) && Writable(item, |row|)
    ensures AllWritable(items + [item], |row|)
    ensures WriteAll(row, items + [item]) == WriteAll(row, items)[ColumnOf(item) := item.value]
    decreases |items|
  {
    hide ColumnOf;
    if items == [] {
      assert items + [item] == [item] && [item][1..] == [];
    } else {
      assert (items + [item])[1..] == items[1..] + [item];
      assert Writable(items[0], |row|);
      WriteAllSnoc(row[ColumnOf(items[0]) := items[0].value], items[1..], item);
    }
  }

  /** The last write to a column wins, and columns that no item names keep their value. */
  lemma {:induction false} LastWriteWins(row: seq<Value>, items: seq<Value>, column: nat)
    requires AllWritable(items, |row|) && column < |row|
    ensures AllOptionalItems(items)
    ensures WriteAll(row, items)[column] == AfterWrites(row, items, column)
    decreases |items|
  {
    hide ColumnOf;
    if items != [] {
      var n := |items| - 1;
      var init := items[..n];
      assert items == init + [items[n]];
      WriteAllSnoc(row, init, items[n]);
      LastWriteWins(row, init, column);
    }
  }

  /** Set either changes nothing at all or performs every one of its writes and touches nothing else. */
  lemma SetIsAllOrNothing(ts: Tables, uid: UID, where_: Option<Value>, values: Option<Value>)
    ensures var (r, us) := SetCells(ts, uid, where_, values);
      && SameTables(ts, us)
      && (r.Err? || r.value.status != SUCCESS ==> us == ts)
      && (r.Ok? && r.value.status == SUCCESS ==>
           && HasObject(ts, uid) && HasObject(us, uid) && |Row(us, uid)| == |Row(ts, uid)|
           && values.Some? && values.value.List? && AllOptionalItems(values.value.items)
           && (forall c :: 0 <= c < |Row(ts, uid)| ==>
                 Row(us, uid)[c] == AfterWrites(Row(ts, uid), values.value.items, c))
           && (forall o :: o != uid && HasObject(ts, o) ==> HasObject(us, o) && Row(us, o) == Row(ts, o)))
  {
    hide ColumnOf;
    var (r, us) := SetCells(ts, uid, where_, values);
    if r.Ok? && r.value.status == SUCCESS {
      var row, items := Row(ts, uid), values.value.items;
      WrittenTableIsValid(ts, uid, WriteAll(row, items));
      forall c | 0 <= c < |row|
        ensures WriteAll(row, items)[c] == AfterWrites(row, items, c)
      {
        LastWriteWins(row, items, c);
      }
    }
  }

  //
  // Set on the plain map
  //

  function WriteCells(m: Cells, p: nat, uid: UID, items: seq<Value>): Cells
    requires AllOptionalItems(items)
    decreases items
  {
    if items == [] then m
    else WriteCells(m[Cell(p, uid, ColumnOf(items[0])) := items[0].value], p, uid, items[1..])
  }

  /** Writing a row in one go is the same as updating the plain map item by item. */
  lemma {:induction false} WriteAllRefines(ps: seq<Provider>, m: Cells, p: nat, uid: UID, items: seq<Value>)
    requires Represents(ps, m) && p < |ps| && HasObject(ps[p].tables, uid)
    requires AllWritable(items, |Row(ps[p].tables, uid)|)
    ensures AllOptionalItems(items)
    ensures var ts := ps[p].tables;
      var qs := WithTables(ps, p, WithRow(ts, uid, WriteAll(Row(ts, uid), items)));
      && Represents(qs, WriteCells(m, p, uid, items))
      && SameShape(ps, qs)
      && (ValidProviders(ps) ==> ValidProviders(qs))
    decreases |items|
  {
    hide ColumnOf, Represents, ValidProviders;
    var ts := ps[p].tables;
    var row := Row(ts, uid);
    if items == [] {
      assert WithTables(ps, p, WithRow(ts, uid, row)) == ps by {
        var t := ts[ContainingTable(uid)];
        assert t.objects[uid := row] == t.objects;
        assert WithRow(ts, uid, row) == ts;
      }
    } else {
      assert Writable(items[0], |row|);
      var c, v := Cell(p, uid, ColumnOf(items[0])), items[0].value;
      WriteCell(ps, m, c, v);
      var row1 := row[c.column := v];
      var ts1 := WithRow(ts, uid, row1);
      var ps1 := WithTables(ps, p, ts1);
      WriteAllRefines(ps1, m[c := v], p, uid, items[1..]);
      OverwrittenRow(ts, uid, row1, WriteAll(row1, items[1..]));
      assert WithTables(ps1, p, WithRow(ts1, uid, WriteAll(row1, items[1..])))
          == WithTables(ps, p, WithRow(ts, uid, WriteAll(row1, items[1..])));
      SameShapeTransitive(ps, ps1, WithTables(ps1, p, WithRow(ts1, uid, WriteAll(row1, items[1..]))));
    }
  }

  //
  // Next
  //

  function IndexOf(rows: seq<UID>, uid: UID): (i: int)
    ensures -1 <= i < |rows|
    ensures i >= 0 ==> rows[i] == uid
    ensures i < 0 ==> uid !in rows
  {
    if rows == [] then -1
    else if rows[0] == uid then 0
    else
      var i := IndexOf(rows[1..], uid);
      if i < 0 then -1 else i + 1
  }

  function UidValues(uids: seq<UID>): (vs: seq<Value>)
    ensures |vs| == |uids|
    ensures forall i :: 0 <= i < |uids| ==> vs[i] == UidValue(uids[i])
  {
    seq(|uids|, i requires 0 <= i < |uids| => UidValue(uids[i]))
  }

  /** The rows behind the given one, or all of them. The original leaves a row it does not know undefined. */
  function RowsAfter(rows: seq<UID>, where_: Option<UID>): Result<seq<UID>> {
    if where_.None? then Ok(rows)
    else
      var i := IndexOf(rows, where_.value);
      if i < 0 then Err(AssertionFailed) else Ok(rows[i + 1..])
  }

  function TakeRows(rows: seq<UID>, count: Option<nat>): seq<UID> {
    if count.Some? && count.value < |rows| then rows[..count.value] else rows
  }

  function NextRows(ts: Tables, table: UID, where_: Option<UID>, count: Option<nat>): Result<MethodResult> {
    if table !in ts then Ok(MethodResult([List([])], INVALID_PARAMETER))
    else
      var rows :- RowsAfter(ts[table].rows, where_);
      Ok(MethodResult([List(UidValues(TakeRows(rows, count)))], SUCCESS))
  }

  //
  // Authenticate
  //

  /** The PIN object an authority refers to must exist; a missing table or column fails an assertion. */
  function CheckPin(ts: Tables, authority: UID, proof: Option<seq<byte>>): Result<(bool, Status)> {
    if AUTHORITY_TABLE !in ts || C_PIN_TABLE !in ts then Err(AssertionFailed)
    else if authority !in ts[AUTHORITY_TABLE].objects then Ok((false, INVALID_PARAMETER))
    else if |ts[AUTHORITY_TABLE].objects[authority]| <= CREDENTIAL then Err(AssertionFailed)
    else
      var credential :- GetUid(ts[AUTHORITY_TABLE].objects[authority][CREDENTIAL]);
      if credential == 0 then Ok((true, SUCCESS))
      else if credential !in ts[C_PIN_TABLE].objects || |ts[C_PIN_TABLE].objects[credential]| <= PIN then
        Err(AssertionFailed)
      else
        var pin :- GetBytes(ts[C_PIN_TABLE].objects[credential][PIN]);
        Ok((proof == Some(pin), SUCCESS))
  }

  function Authenticated(ts: Tables, authority: UID, proof: Option<seq<byte>>): Result<MethodResult> {
    var (success, status) :- CheckPin(ts, authority, proof);
    Ok(MethodResult([Integer(BoolKind, if success then 1 else 0)], status))
  }

  //
  // GenKey, Revert, Activate
  //

  /** What GenKey writes to column 3, given the random characters it draws for a length. */
  function NewKey(table: UID, pinLength: Option<nat>, random: nat -> seq<byte>): Option<Value> {
    if table == K_AES_256_TABLE then Some(Named(Bytes([0, 0, 2, 6]), Bytes(random(64))))
    else if table == K_AES_128_TABLE then Some(Named(Bytes([0, 0, 2, 5]), Bytes(random(32))))
    else if table == C_PIN_TABLE then Some(Bytes(random(if pinLength.Some? then pinLength.value else 32)))
    else None
  }

  function GenerateKey(ts: Tables, uid: UID, pinLength: Option<nat>, random: nat -> seq<byte>)
    : (Result<MethodResult>, Tables)
  {
    if !IsObject(uid) || !HasObject(ts, uid) then (Ok(MethodResult([], INVALID_PARAMETER)), ts)
    else
      var key := NewKey(ContainingTable(uid), pinLength, random);
      if key.None? then (Ok(MethodResult([], INVALID_PARAMETER)), ts)
      else if |Row(ts, uid)| <= PIN then (Err(AssertionFailed), ts)
      else (Ok(MethodResult([], SUCCESS)), WithRow(ts, uid, Row(ts, uid)[PIN := key.value]))
  }

  function RevertSp(ts: Tables, uid: UID): MethodResult {
    if SP_TABLE !in ts || uid !in ts[SP_TABLE].objects then MethodResult([], INVALID_PARAMETER)
    else MethodResult([], SUCCESS)
  }

  /** find_if over the registered providers. */
  function FindProvider(ps: seq<Provider>, uid: UID): (i: int)
    ensures -1 <= i < |ps|
    ensures i >= 0 ==> ps[i].uid == uid
    ensures i < 0 ==> forall j :: 0 <= j < |ps| ==> ps[j].uid != uid
    ensures forall j :: 0 <= j < i ==> ps[j].uid != uid
  {
    if ps == [] then -1
    else if ps[0].uid == uid then 0
    else
      var i := FindProvider(ps[1..], uid);
      if i < 0 then -1 else i + 1
  }

  predicate HasPin(ts: Tables, uid: UID) {
    C_PIN_TABLE in ts && uid in ts[C_PIN_TABLE].objects && |ts[C_PIN_TABLE].objects[uid]| > PIN
  }

  function WithCPin(ts: Tables, uid: UID, pin: Value): Tables
    requires HasPin(ts, uid)
  {
    var t := ts[C_PIN_TABLE];
    ts[C_PIN_TABLE := t.(objects := t.objects[uid := t.objects[uid][PIN := pin]])]
  }

  /** The second half of Activate: the SID PIN of the session's provider becomes the Admin1 PIN of the Locking SP. */
  function CopySidPin(ps: seq<Provider>, p: nat): (o: Outcome)
    requires p < |ps|
    ensures |o.1| == |ps|
  {
    if ps[p].uid != ADMIN_SP then (Err(BadOptional), ps)
    else
      var locking := FindProvider(ps, LOCKING_SP);
      if locking < 0 || !HasPin(ps[locking].tables, C_PIN_ADMIN1) || !HasPin(ps[p].tables, C_PIN_SID)
      then (Err(AssertionFailed), ps)
      else
        var pin := ps[p].tables[C_PIN_TABLE].objects[C_PIN_SID][PIN];
        (Ok(MethodResult([], SUCCESS)), WithTables(ps, locking, WithCPin(ps[locking].tables, C_PIN_ADMIN1, pin)))
  }

  const INACTIVE: Value := Integer(I32, 8)
  const ACTIVE: Value := Integer(I32, 9)

  function ActivateSp(ps: seq<Provider>, p: nat, uid: UID): (o: Outcome)
    requires p < |ps|
    ensures |o.1| == |ps|
  {
    var ts := ps[p].tables;
    if SP_TABLE !in ts || uid !in ts[SP_TABLE].objects then (Ok(MethodResult([], INVALID_PARAMETER)), ps)
    else
      var t := ts[SP_TABLE];
      var row := t.objects[uid];
      if |row| <= LIFE_CYCLE then (Err(AssertionFailed), ps)
      else if row[LIFE_CYCLE] != INACTIVE then (Ok(MethodResult([], SUCCESS)), ps)
      else
        var us := ts[SP_TABLE := t.(objects := t.objects[uid := row[LIFE_CYCLE := ACTIVE]])];
        CopySidPin(WithTables(ps, p, us), p)
  }

  //
  // Dispatch
  //

  function OptionalInteger(v: Option<Value>, kind: IntKind): Result<Option<int>> {
    if v.None? then Ok(None)
    else
      var n :- GetInteger(v.value, kind);
      Ok(Some(n))
  }

  function OptionalUid(v: Option<Value>): Result<Option<UID>> {
    if v.None? then Ok(None)
    else
      var u :- GetUid(v.value);
      Ok(Some(u))
  }

  function OptionalBytes(v: Option<Value>): Result<Option<seq<byte>>> {
    if v.None? then Ok(None)
    else
      var b :- GetBytes(v.value);
      Ok(Some(b))
  }

  function GetCall(ts: Tables, call: MethodCall): Result<MethodResult> {
    var (required, _) :- UnpackArgs(1, 0, call.args);
    var block :- ParseCellBlock(required[0]);
    GetCells(ts, call.invokingId, block)
  }

  function SetCall(ts: Tables, call: MethodCall): (Result<MethodResult>, Tables) {
    var args := UnpackArgs(0, 2, call.args);
    if args.Err? then (Err(args.error), ts)
    else SetCells(ts, call.invokingId, args.value.1[0], args.value.1[1])
  }

  function NextCall(ts: Tables, call: MethodCall): Result<MethodResult> {
    var (_, optionals) :- UnpackArgs(0, 2, call.args);
    var where_ :- OptionalUid(optionals[0]);
    var count :- OptionalInteger(optionals[1], U32);
    NextRows(ts, call.invokingId, where_, if count.None? then None else Some(count.value))
  }

  function AuthenticateCall(ts: Tables, call: MethodCall): Result<MethodResult> {
    var (required, optionals) :- UnpackArgs(1, 1, call.args);
    var authority :- GetUid(required[0]);
    var proof :- OptionalBytes(optionals[0]);
    Authenticated(ts, authority, proof)
  }

  function GenKeyCall(ts: Tables, call: MethodCall, random: nat -> seq<byte>): (Result<MethodResult>, Tables) {
    var args := UnpackArgs(0, 2, call.args);
    if args.Err? then (Err(args.error), ts) else
    var exponent, length := OptionalInteger(args.value.1[0], U32), OptionalInteger(args.value.1[1], U32);
    if exponent.Err? then (Err(exponent.error), ts)
    else if length.Err? then (Err(length.error), ts)
    else GenerateKey(ts, call.invokingId, if length.value.None? then None else Some(length.value.value), random)
  }

  /** The switch over method identifiers; an unknown method is the device's error. */
  function CallMethod(ps: seq<Provider>, p: nat, call: MethodCall, random: nat -> seq<byte>): (o: Outcome)
    requires p < |ps|
    ensures |o.1| == |ps|
  {
    var ts := ps[p].tables;
    if call.methodId == GET then (GetCall(ts, call), ps)
    else if call.methodId == SET then
      var (r, us) := SetCall(ts, call);
      (r, WithTables(ps, p, us))
    else if call.methodId == NEXT then (NextCall(ts, call), ps)
    else if call.methodId == AUTHENTICATE then (AuthenticateCall(ts, call), ps)
    else if call.methodId == GEN_KEY then
      var (r, us) := GenKeyCall(ts, call, random);
      (r, WithTables(ps, p, us))
    else if call.methodId == REVERT then
      var args := UnpackArgs(0, 0, call.args);
      (if args.Err? then Err(args.error) else Ok(RevertSp(ts, call.invokingId)), ps)
    else if call.methodId == ACTIVATE then
      var args := UnpackArgs(0, 0, call.args);
      if args.Err? then (Err(args.error), ps) else ActivateSp(ps, p, call.invokingId)
    else (Err(DeviceFailure), ps)
  }
}
