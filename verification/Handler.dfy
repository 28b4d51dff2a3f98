/** The session layer handler as an object that updates its sessions, its response and the cells in place. */
module Handler {
  import opened Common
  import opened Values
  import opened ComPackets
  import opened Archives
  import opened Methods
  import opened Rpc
  import opened Exchange
  import opened State
  import opened SessionMethods
  import M = MockDevice

  /** A security provider, shared between the handler and the sessions that are open on it. */
  class SecurityProvider {
    const uid: UID
    var tables: Tables

    constructor (uid: UID, tables: Tables)
      ensures this.uid == uid && this.tables == tables
    {
      this.uid, this.tables := uid, tables;
    }

    //
    // Methods that only read
    //

    method Get(invokingId: UID, cellBlock: CellBlock) returns (r: Result<MethodResult>)
      ensures r == GetCells(tables, invokingId, cellBlock)
    {
      hide Label;
      if IsTable(invokingId) {
        return Err(NotImplemented);
      }
      if !HasObject(tables, invokingId) {
        return Ok(MethodResult([List([])], INVALID_PARAMETER));
      }
      var row := Row(tables, invokingId);
      var firstColumn := FirstColumn(cellBlock);
      var lastColumn := LastColumn(row, cellBlock);
      if firstColumn > lastColumn || lastColumn > |row| {
        return Ok(MethodResult([List([])], INVALID_PARAMETER));
      }
      var values: seq<Value> := [];
      for i := firstColumn to lastColumn
        invariant values + Labeled(row, i, lastColumn) == Labeled(row, firstColumn, lastColumn)
      {
        AppendAssociates(values, Label(i, row[i]), Labeled(row, i + 1, lastColumn));
        values := values + Label(i, row[i]);
      }
      assert values + [] == values;
      r := Ok(MethodResult([List(values)], SUCCESS));
    }

    method Next(invokingId: UID, where_: Option<UID>, count: Option<nat>) returns (r: Result<MethodResult>)
      ensures r == NextRows(tables, invokingId, where_, count)
    {
      hide UidBytes;
      if invokingId !in tables {
        return Ok(MethodResult([List([])], INVALID_PARAMETER));
      }
      var rows :- RowsAfter(tables[invokingId].rows, where_);
      var numFound := 0;
      var next: seq<Value> := [];
      while numFound < |rows| && (count.None? || numFound < count.value)
        invariant numFound <= |rows| && (count.Some? ==> numFound <= count.value)
        invariant next == UidValues(rows[..numFound])
      {
        assert rows[..numFound + 1] == rows[..numFound] + [rows[numFound]];
        next := next + [UidValue(rows[numFound])];
        numFound := numFound + 1;
      }
      assert rows[..numFound] == TakeRows(rows, count);
      r := Ok(MethodResult([List(next)], SUCCESS));
    }

    method Authenticate(authority: UID, proof: Option<seq<byte>>) returns (r: Result<MethodResult>)
      ensures r == Authenticated(tables, authority, proof)
    {
      if AUTHORITY_TABLE !in tables || C_PIN_TABLE !in tables {
        return Err(AssertionFailed);
      }
      var authorities, pins := tables[AUTHORITY_TABLE].objects, tables[C_PIN_TABLE].objects;
      if authority !in authorities {
        return Ok(MethodResult([Integer(BoolKind, 0)], INVALID_PARAMETER));
      }
      if |authorities[authority]| <= CREDENTIAL {
        return Err(AssertionFailed);
      }
      var credential :- GetUid(authorities[authority][CREDENTIAL]);
      if credential == 0 {
        return Ok(MethodResult([Integer(BoolKind, 1)], SUCCESS));
      }
      if credential !in pins || |pins[credential]| <= PIN {
        return Err(AssertionFailed);
      }
      var pin :- GetBytes(pins[credential][PIN]);
      r := Ok(MethodResult([Integer(BoolKind, if proof == Some(pin) then 1 else 0)], SUCCESS));
    }

    //
    // Methods that write cells in place
    //

    /** Both loops of Set: the first only looks, the second only writes. */
    method Set(invokingId: UID, where_: Option<Value>, values: Option<Value>) returns (r: Result<MethodResult>)
      modifies this
      ensures (r, tables) == SetCells(old(tables), invokingId, where_, values)
    {
      hide ColumnOf;
      if IsTable(invokingId) {
        return Err(NotImplemented);
      }
      if !HasObject(tables, invokingId) || where_.Some? || values.None? || !values.value.List? {
        return Ok(MethodResult([], INVALID_PARAMETER));
      }
      var items := values.value.items;
      ghost var before := Row(tables, invokingId);
      for i := 0 to |items|
        invariant tables == old(tables)
        invariant AllWritable(items[..i], |before|)
      {
        if !IsOptionalItem(items[i]) || ColumnOf(items[i]) >= |Row(tables, invokingId)| {
          assert !Writable(items[i], |before|);
          return Ok(MethodResult([], INVALID_PARAMETER));
        }
      }
      assert items[..|items|] == items;
      SameRow(tables, invokingId);
      for i := 0 to |items|
        invariant AllWritable(items[..i], |before|)
        invariant tables == WithRow(old(tables), invokingId, WriteAll(before, items[..i]))
      {
        assert Writable(items[i], |before|);
        WriteAllSnoc(before, items[..i], items[i]);
        assert items[..i + 1] == items[..i] + [items[i]];
        OverwrittenRow(old(tables), invokingId, WriteAll(before, items[..i]), WriteAll(before, items[..i + 1]));
        tables := WithRow(tables, invokingId, Row(tables, invokingId)[ColumnOf(items[i]) := items[i].value]);
      }
      r := Ok(MethodResult([], SUCCESS));
    }

    method GenKey(invokingId: UID, pinLength: Option<nat>, random: nat -> seq<byte>) returns (r: Result<MethodResult>)
      modifies this
      ensures (r, tables) == GenerateKey(old(tables), invokingId, pinLength, random)
    {
      if !IsObject(invokingId) || !HasObject(tables, invokingId) {
        return Ok(MethodResult([], INVALID_PARAMETER));
      }
      var key := NewKey(ContainingTable(invokingId), pinLength, random);
      if key.None? {
        return Ok(MethodResult([], INVALID_PARAMETER));
      }
      if |Row(tables, invokingId)| <= PIN {
        return Err(AssertionFailed);
      }
      tables := WithRow(tables, invokingId, Row(tables, invokingId)[PIN := key.value]);
      r := Ok(MethodResult([], SUCCESS));
    }

    method SetPin(invokingId: UID, pin: Value)
      requires HasPin(tables, invokingId)
      modifies this
      ensures tables == WithCPin(old(tables), invokingId, pin)
    {
      var t := tables[C_PIN_TABLE];
      tables := tables[C_PIN_TABLE := t.(objects := t.objects[invokingId := t.objects[invokingId][PIN := pin]])];
    }
  }

  lemma SameRow(ts: Tables, uid: UID)
    requires HasObject(ts, uid)
    ensures WithRow(ts, uid, Row(ts, uid)) == ts
  {
    var t := ts[ContainingTable(uid)];
    assert t.objects[uid := Row(ts, uid)] == t.objects;
  }

  /** Where a provider object stands among the registered ones. */
  ghost function PositionOf(providers: seq<SecurityProvider>, provider: SecurityProvider): (i: nat)
    requires provider in providers
    ensures i < |providers| && providers[i] == provider
  {
    if providers[0] == provider then 0 else 1 + PositionOf(providers[1..], provider)
  }

  predicate AllDistinct(providers: seq<SecurityProvider>) {
    forall i, j :: 0 <= i < j < |providers| ==> providers[i] != providers[j]
  }

  /** The positions of the providers of open sessions. */
  ghost predicate Locates(providers: seq<SecurityProvider>, sessions: map<M.SessionId, SecurityProvider>,
                          m: map<M.SessionId, nat>) {
    && m.Keys == sessions.Keys
    && forall id :: id in sessions ==> m[id] < |providers| && providers[m[id]] == sessions[id]
  }

  lemma LocatesUniquely(providers: seq<SecurityProvider>, sessions: map<M.SessionId, SecurityProvider>,
                        m: map<M.SessionId, nat>, n: map<M.SessionId, nat>)
    requires AllDistinct(providers) && Locates(providers, sessions, m) && Locates(providers, sessions, n)
    ensures m == n
  {
  }

  class SessionLayerHandler {
    const comId: uint16
    const comIdExtension: uint16
    const securityProviders: seq<SecurityProvider>
    var response: Option<seq<byte>>
    var sessions: map<M.SessionId, SecurityProvider>
    var nextTsn: uint32

    constructor (comId: uint16, comIdExtension: uint16, securityProviders: seq<SecurityProvider>)
      requires AllDistinct(securityProviders)
      ensures Valid() && this.securityProviders == securityProviders
      ensures View() == M.NewDevice(comId, Registered()).(comIdExtension := comIdExtension)
    {
      this.comId, this.comIdExtension, this.securityProviders := comId, comIdExtension, securityProviders;
      response, sessions, nextTsn := None, map[], M.FIRST_TSN;
    }

    ghost predicate Valid()
      reads this
    {
      && AllDistinct(securityProviders)
      && (forall id :: id in sessions ==> sessions[id] in securityProviders)
    }

    ghost function Registered(): (ps: seq<Provider>)
      reads securityProviders
      ensures |ps| == |securityProviders|
      ensures forall i :: 0 <= i < |ps| ==> ps[i] == Provider(securityProviders[i].uid, securityProviders[i].tables)
    {
      seq(|securityProviders|, i requires 0 <= i < |securityProviders| reads securityProviders =>
        Provider(securityProviders[i].uid, securityProviders[i].tables))
    }

    ghost function Positions(): (m: map<M.SessionId, nat>)
      requires Valid()
      reads this
      ensures Locates(securityProviders, sessions, m)
    {
      map id | id in sessions :: PositionOf(securityProviders, sessions[id])
    }

    /** The state as the state machine of module MockDevice has it. */
    ghost function View(): M.Device
      requires Valid()
      reads this, securityProviders
    {
      M.Device(comId, comIdExtension, Registered(), response, Positions(), nextTsn)
    }

    /** find_if over the registered providers. */
    method Find(uid: UID) returns (found: Option<SecurityProvider>)
      ensures found.None? <==> FindProvider(Registered(), uid) < 0
      ensures found.Some? ==> found.value == securityProviders[FindProvider(Registered(), uid)]
    {
      var i := 0;
      while i < |securityProviders|
        invariant i <= |securityProviders|
        invariant forall j :: 0 <= j < i ==> Registered()[j].uid != uid
      {
        if securityProviders[i].uid == uid {
          FirstFound(Registered(), uid, i);
          return Some(securityProviders[i]);
        }
        i := i + 1;
      }
      found := None;
    }

    //
    // Calls inside a session
    //

    method Activate(session: SecurityProvider, ghost p: nat, invokingId: UID) returns (r: Result<MethodResult>)
      requires Valid() && p < |securityProviders| && securityProviders[p] == session
      modifies securityProviders
      ensures (r, Registered()) == ActivateSp(old(Registered()), p, invokingId)
    {
      ghost var ps := Registered();
      if SP_TABLE !in session.tables || invokingId !in session.tables[SP_TABLE].objects {
        return Ok(MethodResult([], INVALID_PARAMETER));
      }
      var t := session.tables[SP_TABLE];
      var row := t.objects[invokingId];
      if |row| <= LIFE_CYCLE {
        return Err(AssertionFailed);
      }
      if row[LIFE_CYCLE] == INACTIVE {
        var us := session.tables[SP_TABLE := t.(objects := t.objects[invokingId := row[LIFE_CYCLE := ACTIVE]])];
        session.tables := us;
        assert Registered() == WithTables(ps, p, us);
        r := CopyPin(session, p);
        return;
      }
      r := Ok(MethodResult([], SUCCESS));
    }

    method CopyPin(session: SecurityProvider, ghost p: nat) returns (r: Result<MethodResult>)
      requires Valid() && p < |securityProviders| && securityProviders[p] == session
      modifies securityProviders
      ensures (r, Registered()) == CopySidPin(old(Registered()), p)
    {
      ghost var ps := Registered();
      if session.uid != ADMIN_SP {
        return Err(BadOptional);
      }
      var locking := Find(LOCKING_SP);
      if locking.None? || !HasPin(locking.value.tables, C_PIN_ADMIN1) || !HasPin(session.tables, C_PIN_SID) {
        return Err(AssertionFailed);
      }
      var pin := session.tables[C_PIN_TABLE].objects[C_PIN_SID][PIN];
      ghost var l := FindProvider(ps, LOCKING_SP);
      locking.value.SetPin(C_PIN_ADMIN1, pin);
      assert Registered() == WithTables(ps, l, WithCPin(ps[l].tables, C_PIN_ADMIN1, pin));
      r := Ok(MethodResult([], SUCCESS));
    }

    /** The switch over method identifiers, with the conversion of each method's parameters. */
    method CallMethod(session: SecurityProvider, ghost p: nat, call: MethodCall, random: nat -> seq<byte>)
      returns (r: Result<MethodResult>)
      requires Valid() && p < |securityProviders| && securityProviders[p] == session
      modifies securityProviders
      ensures (r, Registered()) == SessionMethods.CallMethod(old(Registered()), p, call, random)
    {
      hide UnpackArgs, GetCells, SetCells, NextRows, Authenticated, GenerateKey, ParseCellBlock, ActivateSp, GetUid;
      ghost var ps := Registered();
      assert WithTables(ps, p, ps[p].tables) == ps;
      if call.methodId == GET {
        var args :- Unpack(1, 0, call.args);
        OneRequired(call.args);
        var cellBlock :- ParseCellBlock(args.0[0]);
        r := session.Get(call.invokingId, cellBlock);
      } else if call.methodId == SET {
        var args :- Unpack(0, 2, call.args);
        M.TwoSlots(call.args);
        r := session.Set(call.invokingId, args.1[0], args.1[1]);
        assert Registered() == WithTables(ps, p, session.tables);
      } else if call.methodId == NEXT {
        var args :- Unpack(0, 2, call.args);
        M.TwoSlots(call.args);
        var where_ :- OptionalUid(args.1[0]);
        var count :- OptionalInteger(args.1[1], U32);
        r := session.Next(call.invokingId, where_, if count.None? then None else Some(count.value));
      } else if call.methodId == AUTHENTICATE {
        var args :- Unpack(1, 1, call.args);
        OneOfEach(call.args);
        var authority :- GetUid(args.0[0]);
        var proof :- OptionalBytes(args.1[0]);
        r := session.Authenticate(authority, proof);
      } else if call.methodId == GEN_KEY {
        var args :- Unpack(0, 2, call.args);
        M.TwoSlots(call.args);
        var publicExponent :- OptionalInteger(args.1[0], U32);
        var pinLength :- OptionalInteger(args.1[1], U32);
        r := session.GenKey(call.invokingId, if pinLength.None? then None else Some(pinLength.value), random);
        assert Registered() == WithTables(ps, p, session.tables);
      } else if call.methodId == REVERT {
        var args :- Unpack(0, 0, call.args);
        r := Ok(RevertSp(session.tables, call.invokingId));
      } else if call.methodId == ACTIVATE {
        var args :- Unpack(0, 0, call.args);
        r := Activate(session, p, call.invokingId);
      } else {
        r := Err(DeviceFailure);
      }
    }

    //
    // Session management
    //

    method Respond(v: Value, isList: bool, tsn: uint32, hsn: uint32) returns (r: Result<()>)
      requires Valid()
      modifies this
      ensures Valid() && unchanged(this`sessions, this`nextTsn)
      ensures (r, View()) == M.Respond(old(View()), v, isList, tsn, hsn)
    {
      var bytes := BuildMessage(v, isList, Address(comId, comIdExtension, tsn, hsn));
      if bytes.Err? {
        return Err(M.Escaping(bytes.error));
      }
      response := Some(bytes.value);
      r := Ok(());
    }

    /** Whether a session is open on a provider: the loop over the sessions compares objects. */
    predicate InUse(provider: SecurityProvider)
      reads this
    {
      provider in sessions.Values
    }

    lemma InUseIsHasSession(p: nat)
      requires Valid() && p < |securityProviders|
      ensures InUse(securityProviders[p]) <==> M.HasSession(View(), p)
    {
      if id :| id in sessions && sessions[id] == securityProviders[p] {
        assert Positions()[id] == p;
      }
    }

    method StartSession(hostSessionID: uint32, spId: UID) returns (status: Status, tsn: uint32)
      requires Valid()
      modifies this
      ensures Valid() && (status, tsn, View()) == M.StartSession(old(View()), hostSessionID, spId)
    {
      hide AllDistinct, PositionOf, Add32, Registered;
      var provider := Find(spId);
      if provider.None? {
        return INVALID_PARAMETER, 0;
      }
      ghost var sp := FindProvider(Registered(), spId);
      InUseIsHasSession(sp);
      if InUse(provider.value) {
        return SP_BUSY, 0;
      }
      tsn := nextTsn;
      nextTsn := Add32(nextTsn, 1);
      sessions := sessions[M.SessionId(tsn, hostSessionID) := provider.value];
      LocatesUniquely(securityProviders, sessions, Positions(),
                      old(Positions())[M.SessionId(tsn, hostSessionID) := sp]);
      status := SUCCESS;
    }

    method EndSession(id: M.SessionId) returns (r: Result<()>)
      requires Valid()
      modifies this
      ensures Valid() && (r, View()) == M.EndSession(old(View()), id)
    {
      hide M.Respond;
      if id !in sessions {
        return Err(DeviceFailure);
      }
      sessions := sessions - {id};
      LocatesUniquely(securityProviders, sessions, Positions(), old(Positions()) - {id});
      r := Respond(Cmd(END_OF_SESSION), false, 0, 0);
    }

    method DispatchManager(call: MethodCall, properties: seq<Value>) returns (r: Result<()>)
      requires Valid()
      modifies this
      ensures Valid() && (r, View()) == M.DispatchManager(old(View()), call, properties)
    {
      hide M.Respond, M.StartSession, M.StartParameters, M.PropertiesParameter;
      if call.methodId == M.PROPERTIES {
        var hostProperties := M.PropertiesParameter(call.args);
        if hostProperties.Err? {
          return Err(M.Escaping(hostProperties.error));
        }
        r := Respond(CallToValue(MethodCall(M.SESSION_MANAGER, M.PROPERTIES, [List(properties)], SUCCESS)), true, 0, 0);
      } else if call.methodId == M.START_SESSION {
        var parameters := M.StartParameters(call.args);
        if parameters.Err? {
          return Err(M.Escaping(parameters.error));
        }
        var status, tsn := StartSession(parameters.value.0, parameters.value.1);
        r := Respond(CallToValue(M.SyncSession(parameters.value.0, tsn, status)), true, 0, 0);
      } else {
        r := Err(DeviceFailure);
      }
    }

    method DispatchSession(call: MethodCall, id: M.SessionId, random: nat -> seq<byte>) returns (r: Result<()>)
      requires Valid()
      modifies this, securityProviders
      ensures Valid() && (r, View()) == M.DispatchSession(old(View()), call, id, random)
    {
      hide M.Respond, SessionMethods.CallMethod;
      if id !in sessions {
        return Err(DeviceFailure);
      }
      ghost var before := View();
      var result := CallMethod(sessions[id], Positions()[id], call, random);
      assert View() == before.(providers := Registered());
      if result.Err? {
        return Err(M.Escaping(result.error));
      }
      r := Respond(ResultToValue(result.value), true, id.tsn, id.hsn);
    }

    //
    // The interface of the device
    //

    /** Other protocols and other ComIDs are not handled at all. */
    method SecuritySend(securityProtocol: byte, toComId: uint16, data: seq<byte>, env: M.Env)
      returns (handled: bool, r: Result<()>)
      requires Valid()
      modifies this, securityProviders
      ensures Valid() && (handled <==> securityProtocol == 1 && toComId == comId)
      ensures if handled then (r, View()) == M.Send(old(View()), data, env) else View() == old(View())
    {
      hide M.EndSession, M.DispatchManager, M.DispatchSession, LoadComPacket, ValueOfPayload, CallFromValue;
      if securityProtocol != 1 || toComId != comId {
        return false, Ok(());
      }
      handled := true;
      var comPacket := DeSerializeComPacket(data);
      if comPacket.Err? {
        return true, Err(comPacket.error);
      }
      if comPacket.value.comId != comId || comPacket.value.comIdExtension != 0 {
        return true, Err(DeviceFailure);
      }
      if comPacket.value.payload == [] || comPacket.value.payload[0].payload == [] {
        return true, Ok(());
      }
      var packet := comPacket.value.payload[0];
      var value := ReadPayload(packet.payload[0].payload, true);
      if value.Err? {
        return true, Err(value.error);
      }
      var items := GetList(value.value);
      if items.Err? {
        return true, Err(items.error);
      }
      var id := M.SessionId(packet.tperSessionNumber, packet.hostSessionNumber);
      if items.value != [] && items.value[0] == Cmd(END_OF_SESSION) {
        r := EndSession(id);
        return;
      }
      var call := CallFromValue(value.value);
      if call.Err? {
        return true, Err(DeviceFailure);
      }
      if call.value.invokingId == M.SESSION_MANAGER {
        r := DispatchManager(call.value, env.properties);
      } else {
        r := DispatchSession(call.value, id, env.random);
      }
    }

    /** Writes to the front of the caller's buffer, or raises and leaves it alone. */
    method SecurityReceive(securityProtocol: byte, fromComId: uint16, data: array<byte>)
      returns (handled: bool, r: Result<()>)
      requires Valid()
      modifies this, data
      ensures Valid() && (handled <==> securityProtocol == 1 && fromComId == comId)
      ensures !handled ==> View() == old(View()) && data[..] == old(data[..])
      ensures handled ==>
        var (written, d) := M.Receive(old(View()), data.Length);
        && View() == d
        && (if written.Ok? then r == Ok(()) && data[..] == Overwrite(old(data[..]), written.value)
            else r == Err(written.error) && data[..] == old(data[..]))
    {
      hide SaveComPacket;
      if securityProtocol != 1 || fromComId != comId {
        return false, Ok(());
      }
      handled := true;
      var frame: seq<byte>;
      if response.None? {
        frame := SerializeComPacket(ComPacket(comId, comIdExtension, 0, 0, []));
      } else if |response.value| <= data.Length {
        frame := response.value;
        response := None;
      } else {
        var size := |response.value| % TWO_TO_32;
        frame := SerializeComPacket(ComPacket(comId, comIdExtension, size, size, []));
      }
      if |frame| > data.Length {
        return true, Err(DeviceFailure);
      }
      Copy(frame, data);
      r := Ok(());
    }
  }

  /** std::ranges::copy to the front of a buffer. */
  method Copy(source: seq<byte>, target: array<byte>)
    requires |source| <= target.Length
    modifies target
    ensures target[..] == source + old(target[..])[|source|..]
  {
    for i := 0 to |source|
      invariant target[..i] == source[..i]
      invariant target[i..] == old(target[..])[i..]
    {
      target[i] := source[i];
    }
  }

  lemma OneRequired(args: seq<Value>)
    ensures UnpackArgs(1, 0, args).Ok? ==> |UnpackArgs(1, 0, args).value.0| == 1
  {
  }

  lemma OneOfEach(args: seq<Value>)
    ensures var r := UnpackArgs(1, 1, args); r.Ok? ==> |r.value.0| == 1 && |r.value.1| == 1
  {
  }

  lemma {:induction false} FirstFound(ps: seq<Provider>, uid: UID, i: nat)
    requires i < |ps| && ps[i].uid == uid
    requires forall j :: 0 <= j < i ==> ps[j].uid != uid
    ensures FindProvider(ps, uid) == i
  {
    if i > 0 {
      FirstFound(ps[1..], uid, i - 1);
    }
  }
}
