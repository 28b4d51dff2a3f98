/** Host reads and writes over the wire, and the plain map of cells that they read and write (Session.cpp). */
module RemoteTable {
  import opened Common
  import opened Values
  import opened Methods
  import opened Rpc
  import opened WireSizes
  import opened Exchange
  import opened State
  import opened SessionMethods
  import opened RemoteCalls
  import opened HostSession
  import M = MockDevice

  //
  // The plain table
  //

  /** Integers in cells are in the range of their kinds. */
  ghost predicate AllTyped(m: Cells) {
    forall c :: c in m ==> WellTyped(m[c])
  }

  /** A cell that a reply can show: empty cells are left out, and anything else has to be sent. */
  predicate Showable(v: Value) {
    v.Empty? || Sendable(v)
  }

  predicate AllShowable(row: seq<Value>) {
    forall i :: 0 <= i < |row| ==> Showable(row[i])
  }

  predicate HasUid(m: Cells, p: nat, uid: UID) {
    Cell(p, uid, 0) in m
  }

  /** Columns of a write are taken modulo 65,536. */
  function Target(p: nat, uid: UID, column: uint32): Cell {
    Cell(p, uid, column % TWO_TO_16)
  }

  /** The writes in order, values in wire form. */
  function PlainWrites(m: Cells, p: nat, uid: UID, columns: seq<uint32>, values: seq<Value>): Cells
    decreases columns
  {
    if columns == [] || values == [] then m
    else PlainWrites(m[Target(p, uid, columns[0]) := Normal(values[0])], p, uid, columns[1..], values[1..])
  }

  predicate AllTargetsExist(m: Cells, p: nat, uid: UID, columns: seq<uint32>, count: nat) {
    forall i :: 0 <= i < Min(|columns|, count) ==> Target(p, uid, columns[i]) in m
  }

  /** All or nothing: a value that cannot be sent or a column that does not exist leaves the map alone. */
  function PlainSet(m: Cells, p: nat, uid: UID, columns: seq<uint32>, values: seq<Value>): (Result<()>, Cells) {
    if !AllSendable(values[..Min(|columns|, |values|)]) then (Err(InvalidArgument), m)
    else if IsTable(uid) then (Err(NotImplemented), m)
    else if !HasUid(m, p, uid) || !AllTargetsExist(m, p, uid, columns, |values|) then
      (Err(InvocationFailure(INVALID_PARAMETER)), m)
    else (Ok(()), PlainWrites(m, p, uid, columns, values))
  }

  /** The cells from start up to end exist. */
  predicate HasColumns(m: Cells, p: nat, uid: UID, start: nat, end: nat) {
    HasUid(m, p, uid) && forall c :: start <= c < end ==> Cell(p, uid, c) in m
  }

  function Columns(m: Cells, p: nat, uid: UID, start: nat, end: nat): (r: seq<Value>)
    requires start <= end && HasColumns(m, p, uid, start, end)
    ensures |r| == end - start
    ensures forall i :: 0 <= i < end - start ==> r[i] == m[Cell(p, uid, start + i)]
  {
    seq(end - start, i requires 0 <= i < end - start => m[Cell(p, uid, start + i)])
  }

  /** What a reply with these columns weighs. */
  function ReplySize(start: nat, row: seq<Value>): nat {
    ResultSize([List(Labeled(Blank(start) + row, start, start + |row|))])
  }

  function PlainGet(m: Cells, p: nat, uid: UID, start: uint32, end: uint32): Result<seq<Value>> {
    if IsTable(uid) then Err(NotImplemented)
    else if start > end || !HasColumns(m, p, uid, start, end) || (end > 0 && Cell(p, uid, end - 1) !in m) then
      Err(InvocationFailure(INVALID_PARAMETER))
    else
      var row := Columns(m, p, uid, start, end);
      if !AllShowable(row) then Err(DeviceFailure)
      else if FrameSize(ReplySize(start, row)) >= BUFFER_LIMIT then Err(ProtocolFailure) else Ok(NormalAll(row))
  }

  //
  // What a device row shows of the map
  //

  /** Under Represents, a row is the columns of its object in the map. */
  lemma RowColumns(ps: seq<Provider>, m: Cells, p: nat, uid: UID)
    requires Represents(ps, m) && ValidProviders(ps) && p < |ps|
    ensures HasUid(m, p, uid) <==> HasObject(ps[p].tables, uid)
    ensures HasObject(ps[p].tables, uid) ==>
      forall c: nat :: (Cell(p, uid, c) in m <==> c < |Row(ps[p].tables, uid)|)
    ensures HasObject(ps[p].tables, uid) ==>
      forall c: nat :: c < |Row(ps[p].tables, uid)| ==> m[Cell(p, uid, c)] == Row(ps[p].tables, uid)[c]
  {
    var ts := ps[p].tables;
    if HasObject(ts, uid) {
      assert Row(ts, uid) != [] by {
        assert ValidTables(ts);
        assert ValidTable(ts[ContainingTable(uid)]);
      }
      forall c: nat ensures Cell(p, uid, c) in m <==> c < |Row(ts, uid)|
        ensures c < |Row(ts, uid)| ==> m[Cell(p, uid, c)] == Row(ts, uid)[c]
      {
        assert HasCell(ps, Cell(p, uid, c)) <==> c < |Row(ts, uid)|;
        if c < |Row(ts, uid)| {
          assert CellAt(ps, Cell(p, uid, c)) == Row(ts, uid)[c];
        }
      }
    } else {
      assert !HasCell(ps, Cell(p, uid, 0));
    }
  }

  //
  // Set
  //

  /** A column of a cell block, or any label: the wire leaves its number alone. */
  lemma NumberedValue(kind: IntKind, number: nat, value: Value)
    requires kind in {U16, U32} && InRange(kind, number)
    ensures var item := Named(Integer(kind, number), value);
      && Normal(item) == Named(Integer(kind, number), Normal(value))
      && (WellTyped(item) <==> WellTyped(value)) && (Sendable(item) <==> Sendable(value))
      && (Normal(value).HasValue() <==> value.HasValue())
  {
  }

  lemma FixedByWire(vs: seq<Value>)
    requires forall i :: 0 <= i < |vs| ==> Normal(vs[i]) == vs[i]
    ensures NormalAll(vs) == vs
  {
  }

  lemma ListOnWire(items: seq<Value>)
    ensures Sendable(List(items)) <==> AllSendable(items)
    ensures WellTyped(List(items)) <==> AllWellTyped(items)
  {
  }

  /** The parameters of a Set as they are packed: one named value under key 1. */
  lemma SetArgumentsPacked(columns: seq<uint32>, values: seq<Value>)
    ensures SetRequest(0, columns, values).args == [Named(Integer(U16, 1), List(LabelCells(columns, values)))]
  {
    var items := LabelCells(columns, values);
    var optionals := [None, Some(List(items))];
    assert optionals[1..] == [Some(List(items))] && optionals[1..][1..] == [];
    assert PackOptionals(2, []) == [];
    assert PackOptionals(1, optionals[1..]) == [Named(Integer(U16, 1), List(items))] + [];
    assert PackOptionals(0, optionals) == [] + PackOptionals(1, optionals[1..]);
  }

  lemma LabelsSendable(columns: seq<uint32>, values: seq<Value>)
    requires AllWellTyped(values)
    ensures AllWellTyped(LabelCells(columns, values))
    ensures AllSendable(LabelCells(columns, values)) <==> AllSendable(values[..Min(|columns|, |values|)])
    ensures AllOptionalItems(NormalAll(LabelCells(columns, values)))
  {
    var items := LabelCells(columns, values);
    var head := values[..|items|];
    assert forall i :: 0 <= i < |items| ==> items[i] == Named(Integer(U32, columns[i]), head[i]);
    assert forall i :: 0 <= i < |items| ==> (Sendable(items[i]) <==> Sendable(head[i]));
    forall i | 0 <= i < |items| ensures IsOptionalItem(NormalAll(items)[i]) {
      LabeledColumn(columns[i], values[i]);
    }
  }

  lemma SetArguments(columns: seq<uint32>, values: seq<Value>)
    requires AllWellTyped(values)
    ensures var items, args := LabelCells(columns, values), SetRequest(0, columns, values).args;
      && AllWellTyped(args)
      && (AllSendable(args) <==> AllSendable(values[..Min(|columns|, |values|)]))
      && UnpackArgs(0, 2, NormalAll(args)) == Ok(([], [None, Some(List(NormalAll(items)))]))
      && AllOptionalItems(NormalAll(items))
  {
    hide LabelCells, UnpackArgs, Sendable, WellTyped;
    var items := LabelCells(columns, values);
    var optionals := [None, Some(List(items))];
    SetArgumentsPacked(columns, values);
    LabelsSendable(columns, values);
    UnpackAcrossWire([], optionals);
    assert NormalOptionals(optionals) == [None, Some(List(NormalAll(items)))];
    assert NormalAll([]) == [];
    NumberedValue(U16, 1, List(items));
    ListOnWire(items);
  }

  lemma LabeledColumn(column: uint32, value: Value)
    ensures var item := Normal(Named(Integer(U32, column), value));
      && IsOptionalItem(item) && ColumnOf(item) == column % TWO_TO_16 && item.value == Normal(value)
  {
  }

  /** The device's view of the items and the host's view of the columns agree. */
  lemma LabelCellsCons(columns: seq<uint32>, values: seq<Value>)
    requires columns != [] && values != []
    ensures LabelCells(columns, values)
            == [Named(Integer(U32, columns[0]), values[0])] + LabelCells(columns[1..], values[1..])
  {
  }

  lemma NormalLabelsCons(columns: seq<uint32>, values: seq<Value>)
    requires columns != [] && values != []
    ensures var items := NormalAll(LabelCells(columns, values));
      && items != []
      && items[0] == Normal(Named(Integer(U32, columns[0]), values[0]))
      && items[1..] == NormalAll(LabelCells(columns[1..], values[1..]))
  {
    LabelCellsCons(columns, values);
    NormalAllConcat([Named(Integer(U32, columns[0]), values[0])], LabelCells(columns[1..], values[1..]));
  }

  lemma {:induction false} WritesAgree(m: Cells, p: nat, uid: UID, columns: seq<uint32>, values: seq<Value>)
    requires AllOptionalItems(NormalAll(LabelCells(columns, values)))
    ensures WriteCells(m, p, uid, NormalAll(LabelCells(columns, values))) == PlainWrites(m, p, uid, columns, values)
    decreases |columns|
  {
    hide ColumnOf, LabelCells, NormalAll, Normal, IsOptionalItem;
    var items := NormalAll(LabelCells(columns, values));
    if columns != [] && values != [] {
      NormalLabelsCons(columns, values);
      LabeledColumn(columns[0], values[0]);
      WritesAgree(m[Target(p, uid, columns[0]) := Normal(values[0])], p, uid, columns[1..], values[1..]);
    } else {
      NoLabels(columns, values);
    }
  }

  lemma NoLabels(columns: seq<uint32>, values: seq<Value>)
    requires columns == [] || values == []
    ensures NormalAll(LabelCells(columns, values)) == []
  {
  }

  lemma TargetsAgree(ps: seq<Provider>, m: Cells, p: nat, uid: UID, columns: seq<uint32>, values: seq<Value>)
    requires Represents(ps, m) && ValidProviders(ps) && p < |ps| && HasObject(ps[p].tables, uid)
    ensures AllWritable(NormalAll(LabelCells(columns, values)), |Row(ps[p].tables, uid)|)
            <==> AllTargetsExist(m, p, uid, columns, |values|)
  {
    hide ColumnOf;
    RowColumns(ps, m, p, uid);
    var items, size := NormalAll(LabelCells(columns, values)), |Row(ps[p].tables, uid)|;
    forall i | 0 <= i < |items| ensures Writable(items[i], size) <==> Target(p, uid, columns[i]) in m {
      LabeledColumn(columns[i], values[i]);
    }
  }

  /** What the device itself makes of a Set request. */
  lemma DeviceSet(ps: seq<Provider>, m: Cells, p: nat, uid: UID, columns: seq<uint32>, values: seq<Value>,
                  random: nat -> seq<byte>)
    requires Represents(ps, m) && ValidProviders(ps) && p < |ps| && AllWellTyped(values)
    requires AllSendable(values[..Min(|columns|, |values|)])
    ensures var request := SetRequest(uid, columns, values);
      var (r, qs) := CallMethod(ps, p, request.(args := NormalAll(request.args)), random);
      var (plain, m') := PlainSet(m, p, uid, columns, values);
      && Represents(qs, m') && SameShape(ps, qs) && ValidProviders(qs)
      && (plain.Ok? ==> plain == Ok(()))
      && (plain.Err? ==> plain.error in {NotImplemented, InvocationFailure(INVALID_PARAMETER)})
      && r == if plain.Ok? then Ok(MethodResult([], SUCCESS))
              else if plain.error == NotImplemented then Err(NotImplemented)
              else Ok(MethodResult([], INVALID_PARAMETER))
  {
    hide ColumnOf, Represents, ValidProviders, SameShape, UnpackArgs, AllWritable, AllTargetsExist;
    SetArguments(columns, values);
    RowColumns(ps, m, p, uid);
    M.SameShapeReflexive(ps);
    assert WithTables(ps, p, ps[p].tables) == ps;
    var items := NormalAll(LabelCells(columns, values));
    if !IsTable(uid) && HasObject(ps[p].tables, uid) {
      TargetsAgree(ps, m, p, uid, columns, values);
      if AllWritable(items, |Row(ps[p].tables, uid)|) {
        WriteAllRefines(ps, m, p, uid, items);
        WritesAgree(m, p, uid, columns, values);
      }
    }
  }

  /** The device as a table server for one session. */
  ghost predicate Serves(d: M.Device, host: Session, p: nat, m: Cells) {
    && d.comIdExtension == 0
    && host.id in d.sessions && d.sessions[host.id] == p
    && ValidProviders(d.providers) && Represents(d.providers, m) && AllTyped(m)
  }

  predicate SetFits(columns: seq<uint32>, values: seq<Value>) {
    AllWellTyped(values) && CallFits(SetRequest(0, columns, values))
  }

  /** What a call that writes nothing may change: the pending response. */
  predicate OnlyResponse(d: M.Device, d': M.Device) {
    d'.(response := d.response) == d
  }

  /** What any call inside a session may change: the tables and the pending response. */
  predicate OnlyTables(d: M.Device, d': M.Device) {
    d'.sessions == d.sessions && d'.nextTsn == d.nextTsn && d'.comId == d.comId && d'.comIdExtension == d.comIdExtension
  }

  function Unanswered(r: Result<MethodResult>): Result<()> {
    if r.Err? then Err(M.Escaping(r.error))
    else if Raises(r.value.status) then Err(InvocationFailure(r.value.status))
    else Ok(())
  }

  /** A method without results over the wire: what the device does, and its status or error. */
  lemma VoidCall(d: M.Device, host: Session, call: MethodCall)
    requires d.comIdExtension == 0 && host.id in d.sessions && call.invokingId != M.SESSION_MANAGER && CallFits(call)
    requires AllSendable(call.args) ==>
      var r := DeviceResult(d, call, host.id, host.env); r.Ok? ==> r.value.values == []
    ensures AllSendable(call.args) ==> ReplyFits(DeviceResult(d, call, host.id, host.env))
    ensures InvokeVoid(d, host, call) ==
      if !AllSendable(call.args) then (Err(InvalidArgument), d)
      else
        var received := call.(args := NormalAll(call.args));
        var (r, ps) := CallMethod(d.providers, d.sessions[host.id], received, host.env.random);
        (Unanswered(r), d.(providers := ps, response := if r.Err? then d.response else None))
  {
    hide CallMethod, RemoteCall, AllSendable, AllWellTyped, Frame, CallSize, NormalAll, ResultSize, Raises;
    EmptyResult();
    RemoteCallIsDirect(d, call, host.id, host.env);
  }

  /** A host Set over the wire is a Set of the plain map. */
  lemma SetRefines(d: M.Device, host: Session, p: nat, m: Cells, uid: UID, columns: seq<uint32>, values: seq<Value>)
    requires Serves(d, host, p, m) && uid != M.SESSION_MANAGER && SetFits(columns, values)
    ensures CallFits(SetRequest(uid, columns, values))
    ensures AllSendable(SetRequest(uid, columns, values).args) ==>
      ReplyFits(DeviceResult(d, SetRequest(uid, columns, values), host.id, host.env))
    ensures var (r, d') := HostSet(d, host, uid, columns, values);
      var (plain, m') := PlainSet(m, p, uid, columns, values);
      && r == plain && Represents(d'.providers, m') && ValidProviders(d'.providers) && AllTyped(m')
      && SameShape(d.providers, d'.providers) && OnlyTables(d, d')
  {
    hide CallMethod, PlainSet, Represents, ValidProviders, SameShape, AllTyped, PackArgs, LabelCells, AllSendable,
         Frame;
    var request := SetRequest(uid, columns, values);
    SetArguments(columns, values);
    M.SameShapeReflexive(d.providers);
    PlainSetTyped(m, p, uid, columns, values);
    if AllSendable(request.args) {
      DeviceSet(d.providers, m, p, uid, columns, values, host.env.random);
    } else {
      UnsendableSet(m, p, uid, columns, values);
    }
    VoidCall(d, host, request);
  }

  lemma UnsendableSet(m: Cells, p: nat, uid: UID, columns: seq<uint32>, values: seq<Value>)
    requires !AllSendable(values[..Min(|columns|, |values|)])
    ensures PlainSet(m, p, uid, columns, values) == (Err(InvalidArgument), m)
  {
  }

  lemma {:induction false} PlainWritesTyped(m: Cells, p: nat, uid: UID, columns: seq<uint32>, values: seq<Value>)
    requires AllTyped(m) && AllWellTyped(values)
    ensures AllTyped(PlainWrites(m, p, uid, columns, values))
    decreases |columns|
  {
    if columns != [] && values != [] {
      NormalIsStable(values[0]);
      PlainWritesTyped(m[Target(p, uid, columns[0]) := Normal(values[0])], p, uid, columns[1..], values[1..]);
    }
  }

  lemma PlainSetTyped(m: Cells, p: nat, uid: UID, columns: seq<uint32>, values: seq<Value>)
    requires AllTyped(m) && AllWellTyped(values)
    ensures AllTyped(PlainSet(m, p, uid, columns, values).1)
  {
    hide AllTyped;
    PlainWritesTyped(m, p, uid, columns, values);
  }

  lemma EmptyResult()
    ensures AllWellTyped([]) && AllSendable([]) && NormalAll([]) == [] && ResultSize([]) == 11
    ensures UnpackArgs(0, 0, []) == Ok(([], []))
  {
  }

  //
  // Get
  //

  function BlockFields(first: uint32, last: uint32): seq<Value> {
    [Named(Integer(U16, 3), Integer(U32, first)), Named(Integer(U16, 4), Integer(U32, last))]
  }

  lemma BlockFieldsOnWire(first: uint32, last: uint32)
    ensures var fields := BlockFields(first, last);
      && NormalAll(fields) == fields && AllWellTyped(fields) && AllSendable(fields) && WireSizeAll(fields) <= 40
  {
    var fields := BlockFields(first, last);
    NumberedValue(U16, 3, Integer(U32, first));
    NumberedValue(U16, 4, Integer(U32, last));
    FixedByWire(fields);
    BlockFieldsSize(fields);
  }

  lemma BlockFieldsSize(fields: seq<Value>)
    requires |fields| == 2
    requires forall i :: 0 <= i < 2 ==> fields[i].Named? && fields[i].name.Integer? && fields[i].value.Integer?
    ensures WireSizeAll(fields) <= 40
  {
    assert forall i :: 0 <= i < 2 ==> WireSize(fields[i]) <= 20;
    assert fields[1..] == [fields[1]] && fields[1..][1..] == [];
    assert WireSizeAll(fields[1..]) == WireSize(fields[1]);
  }

  lemma BlockFieldsParse(first: uint32, last: uint32)
    ensures ParseCellBlock(List(BlockFields(first, last))) == Ok(CellBlock(Some(first), Some(last)))
  {
    var fields := BlockFields(first, last);
    assert fields[1..] == [fields[1]] && fields[1..][1..] == [];
    assert ParseFields([], CellBlock(Some(first), Some(last))) == Ok(CellBlock(Some(first), Some(last)));
    assert ParseFields(fields[1..], CellBlock(Some(first), None)) == Ok(CellBlock(Some(first), Some(last)));
  }

  lemma GetArguments(startColumn: uint32, endColumn: uint32)
    ensures var args := GetRequest(0, startColumn, endColumn).args;
      && AllWellTyped(args) && AllSendable(args) && CallSize(args) < 100
      && UnpackArgs(1, 0, NormalAll(args)) == Ok((args, []))
      && |args| == 1
      && ParseCellBlock(args[0]) == Ok(CellBlock(Some(startColumn), Some((endColumn - 1) % TWO_TO_32)))
  {
    hide UnpackArgs, ParseCellBlock, BlockFields;
    var last := (endColumn - 1) % TWO_TO_32;
    var fields := BlockFields(startColumn, last);
    var args := [List(fields)];
    BlockFieldsOnWire(startColumn, last);
    BlockFieldsParse(startColumn, last);
    BlockIsFields(startColumn, endColumn);
    assert PackArgs(args, []) == args;
    FixedByWire(args);
    UnpackAcrossWire(args, []);
    assert NormalOptionals([]) == [];
    assert args[1..] == [] && WireSizeAll(args) == WireSize(args[0]);
  }

  lemma BlockIsFields(startColumn: uint32, endColumn: uint32)
    ensures ColumnBlock(startColumn, endColumn) == List(BlockFields(startColumn, (endColumn - 1) % TWO_TO_32))
  {
  }

  /** The labels of a stretch of columns depend on nothing but those columns. */
  lemma {:induction false} LabeledAgrees(row: seq<Value>, other: seq<Value>, first: nat, last: nat)
    requires last <= |row| && last <= |other|
    requires forall c :: first <= c < last ==> row[c] == other[c]
    ensures Labeled(row, first, last) == Labeled(other, first, last)
    decreases last - first
  {
    hide Label;
    if first < last {
      LabeledAgrees(row, other, first + 1, last);
    }
  }

  lemma {:induction false} LabeledSendable(row: seq<Value>, first: nat, last: nat)
    requires last <= |row| && last <= TWO_TO_32
    requires forall c :: first <= c < last ==> WellTyped(row[c])
    ensures AllWellTyped(Labeled(row, first, last))
    ensures AllSendable(Labeled(row, first, last)) <==> forall c :: first <= c < last ==> Showable(row[c])
    decreases last - first
  {
    hide WellTyped, Sendable;
    if first < last {
      NumberedValue(U32, first, row[first]);
      LabeledSendable(row, first + 1, last);
      FirstLabel(first, row[first], Labeled(row, first + 1, last));
    }
  }

  lemma FirstLabel(column: uint32, cell: Value, rest: seq<Value>)
    requires WellTyped(cell)
    ensures AllWellTyped(Label(column, cell) + rest) <==> AllWellTyped(rest)
    ensures AllSendable(Label(column, cell) + rest) <==> Showable(cell) && AllSendable(rest)
  {
    hide WellTyped, Sendable;
    NumberedValue(U32, column, cell);
    var all := Label(column, cell) + rest;
    var n := |Label(column, cell)|;
    assert forall i :: 0 <= i < |rest| ==> rest[i] == all[i + n];
    if cell.HasValue() {
      assert all[0] == Named(Integer(U32, column), cell);
    }
  }

  lemma {:induction false} LabeledNormal(row: seq<Value>, first: nat, last: nat)
    requires last <= |row| && last <= TWO_TO_32
    ensures NormalAll(Labeled(row, first, last)) == Labeled(NormalAll(row), first, last)
    decreases last - first
  {
    hide Normal, Label;
    if first < last {
      LabeledNormal(row, first + 1, last);
      LabelNormal(first, row[first]);
      NormalAllConcat(Label(first, row[first]), Labeled(row, first + 1, last));
    }
  }

  lemma LabelNormal(column: uint32, cell: Value)
    ensures NormalAll(Label(column, cell)) == Label(column, Normal(cell))
  {
    hide Normal;
    NumberedValue(U32, column, cell);
    if cell.HasValue() {
      var item := Named(Integer(U32, column), cell);
      assert NormalAll([item]) == [Normal(item)];
    }
  }

  lemma FillOne(values: seq<Value>, start: uint32, column: uint32, value: Value, rest: seq<Value>)
    requires start <= column < start + |values|
    ensures FillColumns(values, start, [Named(Integer(U32, column), value)] + rest)
            == FillColumns(values[column - start := value], start, rest)
  {
    var items := [Named(Integer(U32, column), value)] + rest;
    assert items[1..] == rest;
    assert Cast(U64, column) == column;
  }

  lemma FillNone(values: seq<Value>, start: uint32)
    ensures FillColumns(values, start, []) == Ok(values)
  {
  }

  /** Storing the labeled columns into a blank vector rebuilds the row: unlabeled columns are the empty ones. */
  lemma {:induction false} FillRebuilds(row: seq<Value>, start: nat, first: nat, last: nat, values: seq<Value>)
    requires start <= first <= last <= |row| && last < TWO_TO_32 && |values| == last - start
    requires forall i :: 0 <= i < first - start ==> values[i] == row[start + i]
    requires forall i :: first - start <= i < |values| ==> values[i] == Empty
    ensures FillColumns(values, start, Labeled(row, first, last)) == Ok(row[start..last])
    decreases last - first
  {
    hide FillColumns;
    if first >= last {
      assert values == row[start..last];
      FillNone(values, start);
    } else if row[first].HasValue() {
      FillOne(values, start, first, row[first], Labeled(row, first + 1, last));
      FillRebuilds(row, start, first + 1, last, values[first - start := row[first]]);
    } else {
      assert [] + Labeled(row, first + 1, last) == Labeled(row, first + 1, last);
      FillRebuilds(row, start, first + 1, last, values);
    }
  }

  lemma LastColumnIsEnd(row: seq<Value>, start: uint32, end: uint32)
    ensures LastColumn(row, CellBlock(Some(start), Some((end - 1) % TWO_TO_32))) == end
  {
  }

  /** The device finds the range invalid exactly when the plain map does, and otherwise labels the same cells. */
  lemma DeviceGet(ps: seq<Provider>, m: Cells, p: nat, uid: UID, start: uint32, end: uint32, random: nat -> seq<byte>)
    requires Represents(ps, m) && ValidProviders(ps) && p < |ps| && AllTyped(m)
    ensures var request := GetRequest(uid, start, end);
      var (r, qs) := CallMethod(ps, p, request.(args := NormalAll(request.args)), random);
      && qs == ps
      && if IsTable(uid) then r == Err(NotImplemented)
         else if start > end || !HasColumns(m, p, uid, start, end) || (end > 0 && Cell(p, uid, end - 1) !in m)
         then r == Ok(MethodResult([List([])], INVALID_PARAMETER))
         else
           && HasObject(ps[p].tables, uid) && end <= |Row(ps[p].tables, uid)|
           && Row(ps[p].tables, uid)[start..end] == Columns(m, p, uid, start, end)
           && (forall c :: start <= c < end ==> WellTyped(Row(ps[p].tables, uid)[c]))
           && r == Ok(MethodResult([List(Labeled(Row(ps[p].tables, uid), start, end))], SUCCESS))
  {
    hide UnpackArgs, ParseCellBlock, Represents, ValidProviders, WellTyped;
    GetArguments(start, end);
    RowColumns(ps, m, p, uid);
    if HasObject(ps[p].tables, uid) {
      var row := Row(ps[p].tables, uid);
      LastColumnIsEnd(row, start, end);
      assert end > |row| ==> Cell(p, uid, end - 1) !in m;
      if start <= end <= |row| {
        forall c | start <= c < end ensures WellTyped(row[c]) {
          assert m[Cell(p, uid, c)] == row[c];
        }
        assert row[start..end] == Columns(m, p, uid, start, end);
      }
    }
  }

  /** The reply to a range that exists is short enough for the 32-bit length fields. */
  predicate GetFits(m: Cells, p: nat, uid: UID, start: uint32, end: uint32) {
    start <= end && HasColumns(m, p, uid, start, end) && AllShowable(Columns(m, p, uid, start, end)) ==>
      ReplySize(start, Columns(m, p, uid, start, end)) < MAX_PAYLOAD
  }

  lemma ReplySizeOfSlice(row: seq<Value>, start: nat, end: nat)
    requires start <= end <= |row|
    ensures ResultSize([List(Labeled(row, start, end))]) == ReplySize(start, row[start..end])
  {
    hide ResultSize;
    var slice := row[start..end];
    var padded := Blank(start) + slice;
    assert forall c :: start <= c < end ==> padded[c] == slice[c - start];
    LabeledAgrees(row, padded, start, end);
  }

  /** The host's half of Get rebuilds the columns, in wire form, from the reply. */
  lemma ColumnsRead(row: seq<Value>, start: nat, end: nat)
    requires start <= end <= |row| && end < TWO_TO_32
    ensures CollectColumns(UnpackResult(Ok(MethodResult([List(Labeled(row, start, end))], SUCCESS)), 1), start, end)
            == Ok(row[start..end])
  {
    hide FillColumns, Labeled, UnpackArgs;
    var values := [List(Labeled(row, start, end))];
    UnpackUndoesPack(values, []);
    assert PackArgs(values, []) == values;
    assert (end - start) % TWO_TO_32 == end - start;
    FillRebuilds(row, start, start, end, Blank(end - start));
  }

  lemma ReplyOfColumns(row: seq<Value>, start: nat, end: nat)
    requires start <= end <= |row| && end < TWO_TO_32
    requires forall c :: start <= c < end ==> WellTyped(row[c])
    ensures var values := [List(Labeled(row, start, end))];
      && AllWellTyped(values) && (AllSendable(values) <==> AllShowable(row[start..end]))
      && ResultSize(values) == ReplySize(start, row[start..end])
      && CollectColumns(UnpackResult(Ok(MethodResult(NormalAll(values), SUCCESS)), 1), start, end)
         == Ok(NormalAll(row[start..end]))
  {
    hide WellTyped, Showable, CollectColumns, UnpackResult, Labeled, ReplySize, ResultSize;
    LabeledSendable(row, start, end);
    LabeledNormal(row, start, end);
    ReplySizeOfSlice(row, start, end);
    ColumnsRead(NormalAll(row), start, end);
    var values := [List(Labeled(row, start, end))];
    ListOnWire(Labeled(row, start, end));
    assert AllSendable(values) <==> Sendable(values[0]);
    ShowableSlice(row, start, end);
    assert NormalAll(values) == [Normal(values[0])];
    assert NormalAll(row)[start..end] == NormalAll(row[start..end]);
  }

  lemma ShowableSlice(row: seq<Value>, start: nat, end: nat)
    requires start <= end <= |row|
    ensures AllShowable(row[start..end]) <==> forall c :: start <= c < end ==> Showable(row[c])
  {
    hide Showable;
    assert forall c :: start <= c < end ==> row[c] == row[start..end][c - start];
  }

  lemma InvalidReply()
    ensures var values := [List([])];
      AllWellTyped(values) && AllSendable(values) && ResultSize(values) == 13
  {
    assert WireSizeAll([]) == 0 && WireSize(List([])) == 2;
    assert [List([])][1..] == [];
  }

  /** A host Get over the wire reads the plain map, and changes nothing but the pending response. */
  lemma GetRefines(d: M.Device, host: Session, p: nat, m: Cells, uid: UID, start: uint32, end: uint32)
    requires Serves(d, host, p, m) && uid != M.SESSION_MANAGER && GetFits(m, p, uid, start, end)
    ensures CallFits(GetRequest(uid, start, end)) && AllSendable(GetRequest(uid, start, end).args)
    ensures ReplyFits(DeviceResult(d, GetRequest(uid, start, end), host.id, host.env))
    ensures var (r, d') := HostGet(d, host, uid, start, end);
      r == PlainGet(m, p, uid, start, end) && OnlyResponse(d, d')
  {
    hide CallMethod, RemoteCall, Represents, ValidProviders, WellTyped, PackArgs, AllSendable, Frame, CollectColumns,
         UnpackResult, ColumnBlock, ReplySize, ResultSize, CallSize, AllShowable;
    var request := GetRequest(uid, start, end);
    GetArguments(start, end);
    DeviceGet(d.providers, m, p, uid, start, end, host.env.random);
    InvalidReply();
    if !IsTable(uid) && start <= end && HasColumns(m, p, uid, start, end) && (end > 0 ==> Cell(p, uid, end - 1) in m) {
      ReplyOfColumns(Row(d.providers[p].tables, uid), start, end);
    }
    RemoteCallIsDirect(d, request, host.id, host.env);
    PropagatesErrors(start, end);
  }

  lemma PropagatesErrors(start: uint32, end: uint32)
    ensures forall e: Error :: CollectColumns(UnpackResult(Err(e), 1), start, end) == Err(e)
  {
  }
}
