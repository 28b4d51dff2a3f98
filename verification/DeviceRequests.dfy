/**
 * How the mock device reads any request and words its replies, whoever asks (SecuritySend to Activate in
 * MockDevice.cpp).
 */
module DeviceRequests {
  import opened Common
  import opened FlatBinary
  import opened Values
  import opened Tokens
  import opened TokenStreams
  import opened ComPackets
  import opened Methods
  import opened Rpc
  import opened WireSizes
  import opened WireLayout
  import opened Reception
  import opened State
  import opened SessionMethods
  import opened HostSessions
  import opened HostReplies
  import M = MockDevice

  //
  // Requests
  //

  /** The bytes are a frame for the device, and the first sub-packet of its first packet has the payload. */
  ghost predicate Delivers(data: seq<byte>, comId: uint16, payload: seq<byte>, tsn: uint32, hsn: uint32) {
    exists c :: FrameIn(data, c) && IsFor(c, comId) && c.payload != [] && c.payload[0].payload != []
                && c.payload[0].payload[0].payload == payload
                && c.payload[0].tperSessionNumber == tsn && c.payload[0].hostSessionNumber == hsn
  }

  predicate IsFor(c: ComPacket, comId: uint16) {
    c.comId == comId && c.comIdExtension == 0
  }

  lemma ListIsRead(payload: seq<byte>)
    ensures ValueOfPayload(payload, true).Ok? ==> ValueOfPayload(payload, true).value.List?
  {
    hide ParseItems, ParseStream;
  }

  lemma DeliveredIff(data: seq<byte>, comId: uint16, payload: seq<byte>, tsn: uint32, hsn: uint32)
    ensures Delivers(data, comId, payload, tsn, hsn) <==>
      && LoadComPacket(data).Ok?
      && var c := LoadComPacket(data).value;
      && IsFor(c, comId) && c.payload != [] && c.payload[0].payload != []
      && c.payload[0].payload[0].payload == payload
      && c.payload[0].tperSessionNumber == tsn && c.payload[0].hostSessionNumber == hsn
  {
    hide LoadComPacket, FrameIn;
    forall c ensures LoadComPacket(data) == Ok(c) <==> FrameIn(data, c) {
      FrameReadIff(data, c);
    }
  }

  /** A method call is made of the bytes exactly if they deliver a payload that is one. */
  lemma CallMadeIff(data: seq<byte>, comId: uint16, call: MethodCall, tsn: uint32, hsn: uint32)
    ensures DecodeRequest(data, comId) == Ok(Call(call, tsn, hsn)) <==>
      exists payload, v ::
        Delivers(data, comId, payload, tsn, hsn) && ValueOfPayload(payload, true) == Ok(v) && IsCall(v, call)
  {
    hide LoadComPacket, FrameIn, Delivers, ValueOfPayload, IsCall, CallFromValue;
    forall payload ensures Delivers(data, comId, payload, tsn, hsn) <==>
      && LoadComPacket(data).Ok?
      && var c := LoadComPacket(data).value;
      && IsFor(c, comId) && c.payload != [] && c.payload[0].payload != []
      && c.payload[0].payload[0].payload == payload
      && c.payload[0].tperSessionNumber == tsn && c.payload[0].hostSessionNumber == hsn
    {
      DeliveredIff(data, comId, payload, tsn, hsn);
    }
    forall v ensures CallFromValue(v) == Ok(call) <==> IsCall(v, call) {
      CallReadIff(v, call);
    }
    forall v ensures IsCall(v, call) ==> v.List? && v.items != [] && v.items[0] == Cmd(CALL) {
      CallLeads(v, call);
    }
    forall payload ensures ValueOfPayload(payload, true).Ok? ==> ValueOfPayload(payload, true).value.List? {
      ListIsRead(payload);
    }
  }

  lemma CallLeads(v: Value, call: MethodCall)
    ensures IsCall(v, call) ==> v.List? && v.items != [] && v.items[0] == Cmd(CALL)
  {
  }

  /** The end of a session is made of them exactly if they deliver a payload that begins with the command. */
  lemma EndMadeIff(data: seq<byte>, comId: uint16, tsn: uint32, hsn: uint32)
    ensures DecodeRequest(data, comId) == Ok(EndOfSession(tsn, hsn)) <==>
      exists payload, items ::
        && Delivers(data, comId, payload, tsn, hsn) && ValueOfPayload(payload, true) == Ok(List(items))
        && items != [] && items[0] == Cmd(END_OF_SESSION)
  {
    hide LoadComPacket, FrameIn, Delivers, ValueOfPayload, CallFromValue;
    forall payload ensures Delivers(data, comId, payload, tsn, hsn) <==>
      && LoadComPacket(data).Ok?
      && var c := LoadComPacket(data).value;
      && IsFor(c, comId) && c.payload != [] && c.payload[0].payload != []
      && c.payload[0].payload[0].payload == payload
      && c.payload[0].tperSessionNumber == tsn && c.payload[0].hostSessionNumber == hsn
    {
      DeliveredIff(data, comId, payload, tsn, hsn);
    }
    forall payload ensures ValueOfPayload(payload, true).Ok? ==> ValueOfPayload(payload, true).value.List? {
      ListIsRead(payload);
    }
  }

  /** A frame without anything in it is taken for no request, one for another device or with anything else refused. */
  lemma OtherwiseMade(data: seq<byte>, comId: uint16)
    ensures DecodeRequest(data, comId) == Ok(NoRequest) <==>
      exists c :: FrameIn(data, c) && IsFor(c, comId) && (c.payload == [] || c.payload[0].payload == [])
    ensures (exists c :: FrameIn(data, c) && !IsFor(c, comId)) ==> DecodeRequest(data, comId) == Err(DeviceFailure)
    ensures forall payload, tsn, hsn, v ::
      Delivers(data, comId, payload, tsn, hsn) && ValueOfPayload(payload, true) == Ok(v) ==>
        DecodeRequest(data, comId).Ok? || DecodeRequest(data, comId) == Err(DeviceFailure)
  {
    hide LoadComPacket, FrameIn, Delivers, ValueOfPayload, CallFromValue;
    forall c ensures LoadComPacket(data) == Ok(c) <==> FrameIn(data, c) {
      FrameReadIff(data, c);
    }
    forall payload, tsn, hsn, v | Delivers(data, comId, payload, tsn, hsn) && ValueOfPayload(payload, true) == Ok(v)
      ensures DecodeRequest(data, comId).Ok? || DecodeRequest(data, comId) == Err(DeviceFailure)
    {
      DeliveredIff(data, comId, payload, tsn, hsn);
      ListIsRead(payload);
    }
  }

  //
  // Parameters
  //

  predicate AnyOctets(o: Option<Value>) {
    o.Some? ==> o.value.Bytes?
  }

  predicate AnyUid(o: Option<Value>) {
    o.Some? ==> o.value.Bytes? && |o.value.bytes| >= 8
  }

  predicate AnyNumber(o: Option<Value>) {
    o.Some? ==> o.value.Integer?
  }

  lemma OptionalsConvert(o: Option<Value>, kind: IntKind)
    ensures OptionalBytes(o).Ok? <==> AnyOctets(o)
    ensures OptionalUid(o).Ok? <==> AnyUid(o)
    ensures OptionalInteger(o, kind).Ok? <==> AnyNumber(o)
  {
    hide Cast;
    if o.Some? && o.value.Bytes? {
      UidRead(o.value.bytes);
    }
  }

  lemma UidArgument(v: Value, uid: UID)
    ensures GetUid(v) == Ok(uid) <==> v.Bytes? && |v.bytes| >= 8 && FromBigEndian(v.bytes[..8]) == uid
  {
    hide FromBigEndian, UidOfBytes;
    if v.Bytes? {
      UidRead(v.bytes);
    }
  }

  lemma WordOf(n: int)
    ensures Cast(U32, n) == n % 0x1_0000_0000
  {
  }

  /**
   * A start is understood exactly if its first three arguments are a number, a UID and an integer, the others are
   * named by integers, and the nine they may name are byte strings, UIDs and numbers in this order.
   */
  lemma StartUnderstoodIff(args: seq<Value>, hsn: uint32, spId: UID)
    ensures M.StartParameters(args) == Ok((hsn, spId)) <==>
      && |args| >= 3 && (forall i :: 3 <= i < |args| ==> args[i].Named? && args[i].name.Integer?)
      && args[0].Integer? && args[0].n % 0x1_0000_0000 == hsn
      && args[1].Bytes? && |args[1].bytes| >= 8 && FromBigEndian(args[1].bytes[..8]) == spId
      && args[2].Integer?
      && UnpackArgs(3, 9, args).Ok?
      && var slots := UnpackArgs(3, 9, args).value.1;
      && AnyOctets(slots[0]) && AnyUid(slots[1]) && AnyOctets(slots[2]) && AnyUid(slots[3]) && AnyOctets(slots[4])
      && AnyNumber(slots[5]) && AnyNumber(slots[6]) && AnyNumber(slots[7]) && AnyOctets(slots[8])
  {
    hide FromBigEndian, Present, GetUid, OptionalBytes, OptionalUid, OptionalInteger, AnyOctets, AnyUid, AnyNumber;
    if |args| >= 3 {
      PresentSucceedsIff(args[3..]);
      assert forall i :: 3 <= i < |args| ==> args[i] == args[3..][i - 3];
      UidArgument(args[1], spId);
      if args[0].Integer? {
        WordOf(args[0].n);
      }
      if UnpackArgs(3, 9, args).Ok? {
        var slots := UnpackArgs(3, 9, args).value.1;
        assert args[..3][0] == args[0] && args[..3][1] == args[1] && args[..3][2] == args[2];
        forall i | 0 <= i < 9
          ensures OptionalBytes(slots[i]).Ok? <==> AnyOctets(slots[i])
          ensures OptionalUid(slots[i]).Ok? <==> AnyUid(slots[i])
          ensures OptionalInteger(slots[i], U32).Ok? <==> AnyNumber(slots[i])
        {
          OptionalsConvert(slots[i], U32);
        }
      }
    }
  }

  /** The item is for a slot: its number, of which 32 bits count. */
  predicate NamesSlot(item: Value, k: nat) {
    item.Named? && item.name.Integer? && item.name.n % 0x1_0000_0000 == k
  }

  lemma KeyIsNumber(item: Value, k: nat)
    requires IsOptionalItem(item) && k < 0x8000_0000
    ensures KeyOf(item) == k <==> NamesSlot(item, k)
  {
  }

  /** Whatever the parameters of a call, or the values of a reply: a slot holds the last one that is for it, if any. */
  lemma SlotHolds(requiredCount: nat, optionalCount: nat, args: seq<Value>, k: nat)
    requires UnpackArgs(requiredCount, optionalCount, args).Ok? && k < optionalCount <= 0x8000_0000
    ensures |args| >= requiredCount && |UnpackArgs(requiredCount, optionalCount, args).value.1| == optionalCount
    ensures var slot := UnpackArgs(requiredCount, optionalCount, args).value.1[k];
      && (forall i :: requiredCount <= i < |args| && NamesSlot(args[i], k)
                      && (forall j :: i < j < |args| ==> !NamesSlot(args[j], k))
                      ==> slot == Some(args[i].value))
      && ((forall i :: requiredCount <= i < |args| ==> !NamesSlot(args[i], k)) ==> slot == None)
  {
    hide UnpackArgs, KeyOf, NamesSlot;
    UnpackTakesLast(requiredCount, optionalCount, args, k);
    var items := args[requiredCount..];
    forall i | 0 <= i < |items| ensures KeyOf(items[i]) == k <==> NamesSlot(args[requiredCount + i], k) {
      KeyIsNumber(items[i], k);
    }
    assert forall i :: requiredCount <= i < |args| ==> args[i] == items[i - requiredCount];
  }

  /** A field of a cell block: table, start row, end row, start column or end column. */
  predicate IsBlockField(item: Value) {
    && item.Named? && item.name.Integer?
    && match item.name.n % 0x1_0000
       case 0 => true
       case 1 => item.value.Integer? || (item.value.Bytes? && |item.value.bytes| >= 8)
       case 2 => item.value.Empty? || item.value.Integer?
       case 3 => item.value.Integer?
       case 4 => item.value.Integer?
       case _ => false
  }

  predicate HasField(item: Value, field: nat) {
    item.Named? && item.name.Integer? && item.name.n % 0x1_0000 == field && item.value.Integer?
  }

  /** The column that the last field of a kind gives, or the one there was before. */
  predicate ColumnIs(column: Option<uint32>, fields: seq<Value>, field: nat, before: Option<uint32>) {
    && (forall i :: 0 <= i < |fields| && HasField(fields[i], field)
                    && (forall j :: i < j < |fields| ==> !HasField(fields[j], field))
                    ==> column == Some(fields[i].value.n % 0x1_0000_0000))
    && ((forall i :: 0 <= i < |fields| ==> !HasField(fields[i], field)) ==> column == before)
  }

  predicate AllBlockFields(fields: seq<Value>) {
    forall i :: 0 <= i < |fields| ==> IsBlockField(fields[i])
  }

  lemma LowWord(n: int)
    ensures Cast(U16, n) == n % 0x1_0000
  {
  }

  /** What one field does to the columns. */
  function AfterField(item: Value, acc: CellBlock): CellBlock
    requires IsBlockField(item)
  {
    if HasField(item, 3) then acc.(startColumn := Some(item.value.n % 0x1_0000_0000))
    else if HasField(item, 4) then acc.(endColumn := Some(item.value.n % 0x1_0000_0000))
    else acc
  }

  lemma FieldParsed(fields: seq<Value>, acc: CellBlock)
    requires fields != []
    ensures IsBlockField(fields[0]) ==> ParseFields(fields, acc) == ParseFields(fields[1..], AfterField(fields[0], acc))
    ensures !IsBlockField(fields[0]) ==> ParseFields(fields, acc).Err?
  {
    hide Cast, FromBigEndian, UidOfBytes;
    var item := fields[0];
    if item.Named? && item.name.Integer? {
      LowWord(item.name.n);
      if item.value.Integer? {
        WordOf(item.value.n);
      } else if item.value.Bytes? {
        UidRead(item.value.bytes);
      }
    }
  }

  lemma ColumnCons(column: Option<uint32>, fields: seq<Value>, field: nat, before: Option<uint32>)
    requires fields != []
    ensures ColumnIs(column, fields, field, before) <==>
      ColumnIs(column, fields[1..], field,
               if HasField(fields[0], field) then Some(fields[0].value.n % 0x1_0000_0000) else before)
  {
    hide HasField;
    var rest := fields[1..];
    assert forall i :: 0 < i < |fields| ==> fields[i] == rest[i - 1];
    assert forall i :: 0 <= i < |rest| ==> rest[i] == fields[i + 1];
  }

  lemma {:induction false} FieldsParsedIff(fields: seq<Value>, acc: CellBlock, block: CellBlock)
    ensures ParseFields(fields, acc) == Ok(block) <==>
      && AllBlockFields(fields)
      && ColumnIs(block.startColumn, fields, 3, acc.startColumn)
      && ColumnIs(block.endColumn, fields, 4, acc.endColumn)
    decreases |fields|
  {
    hide ColumnIs, IsBlockField, HasField, AfterField, ParseFields;
    if fields == [] {
      NoFields(acc, block);
    } else {
      FieldParsed(fields, acc);
      ColumnCons(block.startColumn, fields, 3, acc.startColumn);
      ColumnCons(block.endColumn, fields, 4, acc.endColumn);
      assert AllBlockFields(fields) <==> IsBlockField(fields[0]) && AllBlockFields(fields[1..]) by {
        assert forall i :: 0 < i < |fields| ==> fields[i] == fields[1..][i - 1];
      }
      if IsBlockField(fields[0]) {
        FieldEffect(fields[0], acc);
        FieldsParsedIff(fields[1..], AfterField(fields[0], acc), block);
      }
    }
  }

  lemma NoFields(acc: CellBlock, block: CellBlock)
    ensures ParseFields([], acc) == Ok(acc)
    ensures ColumnIs(block.startColumn, [], 3, acc.startColumn) <==> block.startColumn == acc.startColumn
    ensures ColumnIs(block.endColumn, [], 4, acc.endColumn) <==> block.endColumn == acc.endColumn
  {
  }

  lemma FieldEffect(item: Value, acc: CellBlock)
    requires IsBlockField(item)
    ensures AfterField(item, acc).startColumn ==
      if HasField(item, 3) then Some(item.value.n % 0x1_0000_0000) else acc.startColumn
    ensures AfterField(item, acc).endColumn ==
      if HasField(item, 4) then Some(item.value.n % 0x1_0000_0000) else acc.endColumn
  {
  }

  /**
   * A cell block is understood exactly if it is a list of fields with the numbers 0 to 4 and values of their kinds; its
   * first and last column are those that the last fields 3 and 4 give, if there are any.
   */
  lemma BlockUnderstoodIff(v: Value, block: CellBlock)
    ensures ParseCellBlock(v) == Ok(block) <==>
      && v.List? && AllBlockFields(v.items)
      && ColumnIs(block.startColumn, v.items, 3, None) && ColumnIs(block.endColumn, v.items, 4, None)
  {
    hide ParseFields, ColumnIs, AllBlockFields;
    if v.List? {
      FieldsParsedIff(v.items, CellBlock(None, None), block);
    }
  }

  //
  // Methods
  //

  /** A non-empty cell of the range under its column. */
  predicate IsColumn(item: Value, row: seq<Value>, first: nat, last: nat)
    requires last <= |row|
  {
    && item.Named? && item.name.Integer? && item.name.kind == U32 && first <= item.name.n < last
    && item.value == row[item.name.n] && row[item.name.n] != Empty
  }

  predicate HasColumn(items: seq<Value>, c: nat) {
    exists i :: 0 <= i < |items| && items[i].Named? && items[i].name.Integer? && items[i].name.n == c
  }

  /** The non-empty cells of a range, each once, in the order of the columns. */
  predicate ShowsRange(items: seq<Value>, row: seq<Value>, first: nat, last: nat)
    requires last <= |row|
  {
    && (forall i :: 0 <= i < |items| ==> IsColumn(items[i], row, first, last))
    && (forall c: nat :: first <= c < last && row[c] != Empty ==> HasColumn(items, c))
    && (forall i, j :: 0 <= i < j < |items| ==> items[i].name.n < items[j].name.n)
  }

  lemma {:induction false} RangeIsShown(row: seq<Value>, first: nat, last: nat)
    requires last <= |row|
    ensures ShowsRange(Labeled(row, first, last), row, first, last)
    decreases last - first
  {
    if first < last {
      RangeIsShown(row, first + 1, last);
      ColumnInFront(Labeled(row, first + 1, last), row, first, last);
    }
  }

  lemma ColumnInFront(items: seq<Value>, row: seq<Value>, first: nat, last: nat)
    requires first < last <= |row| && ShowsRange(items, row, first + 1, last)
    ensures ShowsRange(Label(first, row[first]) + items, row, first, last)
  {
    hide HasColumn;
    var all := Label(first, row[first]) + items;
    if row[first] == Empty {
      assert all == items;
    } else {
      assert all[0] == Named(Integer(U32, first), row[first]);
      assert forall i :: 0 < i < |all| ==> all[i] == items[i - 1];
      forall c: nat | first <= c < last && row[c] != Empty ensures HasColumn(all, c) {
        ColumnStays(items, all[0], c);
        assert all == [all[0]] + items;
      }
    }
  }

  lemma ColumnStays(items: seq<Value>, item: Value, c: nat)
    ensures HasColumn(items, c) ==> HasColumn([item] + items, c)
    ensures item.Named? && item.name.Integer? && item.name.n == c ==> HasColumn([item] + items, c)
  {
    var all := [item] + items;
    assert all[0] == item;
    if i :| 0 <= i < |items| && items[i].Named? && items[i].name.Integer? && items[i].name.n == c {
      assert all[i + 1] == items[i];
    }
  }

  /**
   * Get, for any cell block: without a first column from the beginning, without a last column to the end, and in either
   * case the non-empty cells in order; a range that does not lie in the row is an invalid parameter.
   */
  lemma GetAnswers(ts: Tables, uid: UID, block: CellBlock)
    ensures var r := GetCells(ts, uid, block);
      var table := uid - uid % 0x1_0000_0000;
      if uid % 0x1_0000_0000 == 0 then r == Err(NotImplemented)
      else if table !in ts || uid !in ts[table].objects then r == Ok(MethodResult([List([])], 0x0C))
      else
        var row := ts[table].objects[uid];
        var first: nat := if block.startColumn.Some? then block.startColumn.value else 0;
        var last: nat := if block.endColumn.Some? then (block.endColumn.value + 1) % 0x1_0000_0000
                         else |row| % 0x1_0000_0000;
        if first > last || last > |row| then r == Ok(MethodResult([List([])], 0x0C))
        else
          && r.Ok? && r.value.status == 0x00 && |r.value.values| == 1 && r.value.values[0].List?
          && ShowsRange(r.value.values[0].items, row, first, last)
  {
    hide ShowsRange, Labeled;
    var table := ContainingTable(uid);
    if uid % 0x1_0000_0000 != 0 && table in ts && uid in ts[table].objects {
      var row := ts[table].objects[uid];
      LengthWraps(|row|);
      var first, last := FirstColumn(block), LastColumn(row, block);
      if first <= last <= |row| {
        RangeIsShown(row, first, last);
      }
    }
  }

  lemma LengthWraps(n: nat)
    ensures Add32((n - 1) % 0x1_0000_0000, 1) == n % 0x1_0000_0000
  {
    var q, r := (n - 1) / 0x1_0000_0000, (n - 1) % 0x1_0000_0000;
    assert n == q * 0x1_0000_0000 + (r + 1);
    if r + 1 < 0x1_0000_0000 {
      ModUnique(n, 0x1_0000_0000, q, r + 1);
    } else {
      ModUnique(n, 0x1_0000_0000, q + 1, 0);
    }
  }

  /** The rows from a place on, as many as asked for: from the first, or from behind a row. */
  predicate IsPage(shown: seq<Value>, rows: seq<UID>, row: Option<UID>, count: Option<nat>, from: nat) {
    && from <= |rows| && (if row.None? then from == 0 else from > 0 && rows[from - 1] == row.value)
    && |shown| == (if count.Some? && count.value < |rows| - from then count.value else |rows| - from)
    && forall i :: 0 <= i < |shown| ==> shown[i] == Bytes(BigEndian(rows[from + i], 8))
  }

  /** Next, with and without a row to start behind and a number of rows to stop after. */
  lemma NextAnswers(ts: Tables, table: UID, row: Option<UID>, count: Option<nat>)
    ensures var r := NextRows(ts, table, row, count);
      if table !in ts then r == Ok(MethodResult([List([])], 0x0C))
      else
        var rows := ts[table].rows;
        if row.Some? && row.value !in rows then r == Err(AssertionFailed)
        else
          && r.Ok? && r.value.status == 0x00 && |r.value.values| == 1 && r.value.values[0].List?
          && exists from: nat :: IsPage(r.value.values[0].items, rows, row, count, from)
  {
    hide IsPage, UidValues, TakeRows;
    if table in ts {
      var rows := ts[table].rows;
      var i := if row.Some? then IndexOf(rows, row.value) else -1;
      if row.None? || i >= 0 {
        assert rows[0..] == rows;
        PageShown(rows, row, count, i + 1);
      }
    }
  }

  lemma PageShown(rows: seq<UID>, row: Option<UID>, count: Option<nat>, from: nat)
    requires from <= |rows| && (if row.None? then from == 0 else from > 0 && rows[from - 1] == row.value)
    ensures IsPage(UidValues(TakeRows(rows[from..], count)), rows, row, count, from)
  {
    hide BigEndian;
  }

  /** A new key is tagged with its type and has its size; a new PIN has the length asked for, or 32. */
  lemma KeysMade(table: UID, length: Option<nat>, random: nat -> seq<byte>)
    ensures NewKey(table, length, random) ==
      if table == 0x806_0000_0000 then Some(Named(Bytes([0x00, 0x00, 0x02, 0x06]), Bytes(random(64))))
      else if table == 0x805_0000_0000 then Some(Named(Bytes([0x00, 0x00, 0x02, 0x05]), Bytes(random(32))))
      else if table == 0xB_0000_0000 then Some(Bytes(random(if length.Some? then length.value else 32)))
      else None
  {
  }

  /** A method that the device does not have is its error, and changes nothing. */
  lemma UnknownMethod(ps: seq<Provider>, p: nat, call: MethodCall, random: nat -> seq<byte>)
    requires p < |ps|
    requires call.methodId !in {0x6_0000_0008, 0x6_0000_0010, 0x6_0000_0016, 0x6_0000_0017, 0x6_0000_001C,
                                0x6_0000_0202, 0x6_0000_0203}
    ensures CallMethod(ps, p, call, random) == (Err(DeviceFailure), ps)
  {
  }

  //
  // Replies
  //

  /** A message with this payload is pending, under these session numbers. */
  predicate Pending(d: M.Device, payload: seq<byte>, tsn: uint32, hsn: uint32) {
    d.response.Some? && IsMessage(d.response.value, payload, Address(d.comId, d.comIdExtension, tsn, hsn))
  }

  /** It is read as this call, or as this result. */
  ghost predicate PendingCall(d: M.Device, call: MethodCall, tsn: uint32, hsn: uint32) {
    exists payload, v ::
      Pending(d, payload, tsn, hsn) && ValueOfPayload(payload, true) == Ok(v) && IsCall(v, call)
  }

  ghost predicate PendingResult(d: M.Device, result: MethodResult, tsn: uint32, hsn: uint32) {
    exists payload, v ::
      Pending(d, payload, tsn, hsn) && ValueOfPayload(payload, true) == Ok(v) && IsResult(v, result)
  }

  lemma Responds(d: M.Device, v: Value, isList: bool, tsn: uint32, hsn: uint32, payload: seq<byte>)
    requires PayloadOf(v, isList) == Ok(payload) && |payload| < MAX_PAYLOAD
    ensures var (r, d') := M.Respond(d, v, isList, tsn, hsn);
      r == Ok(()) && d'.(response := d.response) == d && Pending(d', payload, tsn, hsn)
  {
    hide PayloadOf, SaveComPacket, IsMessage;
    MessageLayout(payload, M.ReplyAddress(d, tsn, hsn));
  }

  lemma RespondsWithCall(d: M.Device, call: MethodCall, tsn: uint32, hsn: uint32)
    requires AllWellTyped(call.args) && AllSendable(call.args) && CallSize(call.args) < MAX_PAYLOAD
    ensures var (r, d') := M.Respond(d, CallToValue(call), true, tsn, hsn);
      && r == Ok(()) && d'.(response := d.response) == d
      && PendingCall(d', call.(args := NormalAll(call.args)), tsn, hsn)
  {
    hide PayloadOf, ValueOfPayload, IsCall, Pending, CallFromValue, AllWellTyped, AllSendable, CallSize;
    CallIsSendable(call);
    PayloadRoundTrip(CallToValue(call), true);
    PayloadSizeIsExact(CallToValue(call));
    CallSizeIsExact(call);
    CallValueRoundTrip(call);
    CallReadIff(Normal(CallToValue(call)), call.(args := NormalAll(call.args)));
    Responds(d, CallToValue(call), true, tsn, hsn, PayloadOf(CallToValue(call), true).value);
  }

  lemma RespondsWithResult(d: M.Device, result: MethodResult, tsn: uint32, hsn: uint32)
    requires AllWellTyped(result.values) && AllSendable(result.values) && ResultSize(result.values) < MAX_PAYLOAD
    ensures var (r, d') := M.Respond(d, ResultToValue(result), true, tsn, hsn);
      && r == Ok(()) && d'.(response := d.response) == d
      && PendingResult(d', result.(values := NormalAll(result.values)), tsn, hsn)
  {
    hide PayloadOf, ValueOfPayload, IsResult, Pending, ResultFromValue, AllWellTyped, AllSendable, ResultSize;
    ResultIsSendable(result);
    PayloadRoundTrip(ResultToValue(result), true);
    PayloadSizeIsExact(ResultToValue(result));
    ResultSizeIsExact(result);
    ResultValueRoundTrip(result);
    ResultReadIff(Normal(ResultToValue(result)), result.(values := NormalAll(result.values)));
    Responds(d, ResultToValue(result), true, tsn, hsn, PayloadOf(ResultToValue(result), true).value);
  }

  /**
   * The reply to any start that is understood is a SyncSession call outside of sessions, with the host's number and the
   * new session's, or 0 and the status that says why there is none.
   */
  lemma StartAnswered(d: M.Device, call: MethodCall, tsn: uint32, hsn: uint32, env: M.Env)
    requires call.invokingId == 0xFF && call.methodId == 0xFF02 && M.StartParameters(call.args).Ok?
    ensures var (number, spId) := M.StartParameters(call.args).value;
      var sp := FindProvider(d.providers, spId);
      var (r, d') := M.Handle(d, Call(call, tsn, hsn), env);
      var status: Status := if sp < 0 then 0x0C else if sp in d.sessions.Values then 0x03 else 0x00;
      var args := [Integer(U32, number), Integer(U32, if status == 0 then d.nextTsn else 0)];
      r == Ok(()) && PendingCall(d', MethodCall(0xFF, 0xFF03, args, status), 0, 0)
  {
    hide M.StartParameters, M.Respond, PendingCall, CallSize, FindProvider;
    var (number, spId) := M.StartParameters(call.args).value;
    var (status, issued, started) := M.StartSession(d, number, spId);
    SyncArguments(number, issued);
    RespondsWithCall(started, M.SyncSession(number, issued, status), 0, 0);
  }

  /** The reply to Properties is a Properties call, outside of sessions, with the device's list. */
  lemma PropertiesAnswered(d: M.Device, call: MethodCall, tsn: uint32, hsn: uint32, env: M.Env)
    requires call.invokingId == 0xFF && call.methodId == 0xFF01 && M.PropertiesParameter(call.args).Ok?
    requires var args := [List(env.properties)];
      AllWellTyped(args) && AllSendable(args) && CallSize(args) < MAX_PAYLOAD
    ensures var (r, d') := M.Handle(d, Call(call, tsn, hsn), env);
      && r == Ok(()) && d'.(response := d.response) == d
      && PendingCall(d', MethodCall(0xFF, 0xFF01, [List(NormalAll(env.properties))], 0x00), 0, 0)
  {
    hide M.PropertiesParameter, M.Respond, PendingCall, CallSize, AllWellTyped, AllSendable;
    RespondsWithCall(d, MethodCall(0xFF, 0xFF01, [List(env.properties)], SUCCESS), 0, 0);
    assert NormalAll([List(env.properties)]) == [List(NormalAll(env.properties))];
  }

  /** The reply to a method in a session is its result, under the numbers of the session. */
  lemma MethodAnswered(d: M.Device, call: MethodCall, id: M.SessionId, env: M.Env)
    requires call.invokingId != 0xFF && id in d.sessions
    requires CallMethod(d.providers, d.sessions[id], call, env.random).0.Ok?
    requires var result := CallMethod(d.providers, d.sessions[id], call, env.random).0.value;
      AllWellTyped(result.values) && AllSendable(result.values) && ResultSize(result.values) < MAX_PAYLOAD
    ensures var (result, ps) := CallMethod(d.providers, d.sessions[id], call, env.random);
      var (r, d') := M.Handle(d, Call(call, id.tsn, id.hsn), env);
      && r == Ok(()) && d'.(response := d.response) == d.(providers := ps)
      && PendingResult(d', result.value.(values := NormalAll(result.value.values)), id.tsn, id.hsn)
  {
    hide CallMethod, M.Respond, PendingResult, ResultSize, AllWellTyped, AllSendable;
    var (result, ps) := CallMethod(d.providers, d.sessions[id], call, env.random);
    RespondsWithResult(d.(providers := ps), result.value, id.tsn, id.hsn);
  }

  /** The reply to the end of an open session is the bare command, outside of sessions. */
  lemma EndAnswered(d: M.Device, id: M.SessionId, env: M.Env)
    requires id in d.sessions
    ensures var (r, d') := M.Handle(d, EndOfSession(id.tsn, id.hsn), env);
      && r == Ok(()) && d'.(response := d.response) == d.(sessions := d.sessions - {id})
      && Pending(d', [0xFA], 0, 0)
  {
    hide M.Respond, Pending, PayloadOf;
    EndOfSessionPayload();
    Responds(d.(sessions := d.sessions - {id}), Cmd(END_OF_SESSION), false, 0, 0, [0xFA]);
  }

  /** What is not understood is not answered: the error leaves the device, an invalid argument as the device's own. */
  lemma NotUnderstood(d: M.Device, call: MethodCall, tsn: uint32, hsn: uint32, env: M.Env, e: Error)
    requires call.invokingId == 0xFF
    requires if call.methodId == 0xFF02 then M.StartParameters(call.args) == Err(e)
             else if call.methodId == 0xFF01 then M.PropertiesParameter(call.args) == Err(e) else e == DeviceFailure
    ensures M.Handle(d, Call(call, tsn, hsn), env) == (Err(if e == InvalidArgument then DeviceFailure else e), d)
  {
    hide M.StartParameters, M.PropertiesParameter;
  }

  /** A frame of the header alone. */
  predicate IsHeader(b: seq<byte>, d: M.Device, outstanding: nat) {
    && |b| == 20 && Word32(b, 0) == 0 && Word16(b, 4) == d.comId && Word16(b, 6) == d.comIdExtension
    && Word32(b, 8) == outstanding && Word32(b, 12) == outstanding && Word32(b, 16) == 0
  }

  /**
   * A receive hands out what is pending if it fits, and it is no longer pending then. Otherwise it hands out a bare
   * header, with the number of bytes that are outstanding and that a receive must have room for; and without room even
   * for that it fails.
   */
  lemma Received(d: M.Device, size: nat)
    requires d.response.Some? ==> |d.response.value| < TWO_TO_32
    ensures var (r, d') := M.Receive(d, size);
      var pending := if d.response.Some? then |d.response.value| else 0;
      if d.response.Some? && pending <= size then r == Ok(d.response.value) && d' == d.(response := None)
      else d' == d && if size < 20 then r == Err(DeviceFailure) else r.Ok? && IsHeader(r.value, d, pending)
  {
    hide SaveComPacket, Word16, Word32;
    var pending := if d.response.Some? then |d.response.value| else 0;
    var c := ComPacket(d.comId, d.comIdExtension, pending, pending, []);
    assert PacketsBytes(c.payload) == 0;
    ComPacketWords(c);
    ComPacketSize(c);
  }
}
