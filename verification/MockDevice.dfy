/** The session layer of the mock device as a state machine over sends and receives (MockDevice.cpp). */
module MockDevice {
  import opened Common
  import opened Values
  import opened ComPackets
  import opened Methods
  import opened Rpc
  import opened State
  import opened SessionMethods

  datatype SessionId = SessionId(tsn: uint32, hsn: uint32)

  /** sessions maps an open session to the position of its provider among the registered ones. */
  datatype DeviceRecord = Device(
    comId: uint16,
    comIdExtension: uint16,
    providers: seq<Provider>,
    response: Option<seq<byte>>,
    sessions: map<SessionId, nat>,
    nextTsn: uint32)

  type Device = d: DeviceRecord | forall i :: i in d.sessions ==> d.sessions[i] < |d.providers|
    witness Device(0, 0, [], None, map[], 0)

  const FIRST_TSN: uint32 := 5000
  const SESSION_MANAGER: UID := 0xFF
  const PROPERTIES: UID := 0xFF01
  const START_SESSION: UID := 0xFF02
  const SYNC_SESSION: UID := 0xFF03

  function NewDevice(comId: uint16, providers: seq<Provider>): Device {
    Device(comId, 0, providers, None, map[], FIRST_TSN)
  }

  /** An exception of a method call as it leaves the device: only invalid arguments are translated. */
  function Escaping(e: Error): Error {
    if e == InvalidArgument then DeviceFailure else e
  }

  function ReplyAddress(d: Device, tsn: uint32, hsn: uint32): Address {
    Address(d.comId, d.comIdExtension, tsn, hsn)
  }

  /** Leave a reply for the next receive; a reply that cannot be encoded raises, and the old one stays. */
  function Respond(d: Device, v: Value, isList: bool, tsn: uint32, hsn: uint32): (Result<()>, Device) {
    var bytes := EncodeMessage(v, isList, ReplyAddress(d, tsn, hsn));
    if bytes.Err? then (Err(Escaping(bytes.error)), d) else (Ok(()), d.(response := Some(bytes.value)))
  }

  //
  // Session management
  //

  /** The conversions of StartSession's parameters; only the first two matter afterwards. */
  function StartParameters(args: seq<Value>): Result<(uint32, UID)> {
    var (required, optionals) :- UnpackArgs(3, 9, args);
    var hostSessionId :- GetInteger(required[0], U32);
    var spId :- GetUid(required[1]);
    var write :- GetInteger(required[2], BoolKind);
    var challenge :- OptionalBytes(optionals[0]);
    var exchangeAuthority :- OptionalUid(optionals[1]);
    var exchangeCert :- OptionalBytes(optionals[2]);
    var signingAuthority :- OptionalUid(optionals[3]);
    var signingCert :- OptionalBytes(optionals[4]);
    var sessionTimeout :- OptionalInteger(optionals[5], U32);
    var transTimeout :- OptionalInteger(optionals[6], U32);
    var initialCredit :- OptionalInteger(optionals[7], U32);
    var signedHash :- OptionalBytes(optionals[8]);
    Ok((hostSessionId, spId))
  }

  predicate HasSession(d: Device, provider: nat) {
    provider in d.sessions.Values
  }

  /** The status, the session number reported (0 on failure), and the device afterwards. */
  function StartSession(d: Device, hsn: uint32, spId: UID): (Status, uint32, Device) {
    var sp := FindProvider(d.providers, spId);
    if sp < 0 then (INVALID_PARAMETER, 0, d)
    else if HasSession(d, sp) then (SP_BUSY, 0, d)
    else
      (SUCCESS, d.nextTsn,
       d.(sessions := d.sessions[SessionId(d.nextTsn, hsn) := sp], nextTsn := Add32(d.nextTsn, 1)))
  }

  function SyncSession(hsn: uint32, tsn: uint32, status: Status): MethodCall {
    MethodCall(SESSION_MANAGER, SYNC_SESSION, [Integer(U32, hsn), Integer(U32, tsn)], status)
  }

  /** The host's property list, a map from text to numbers, as it is converted: later names replace earlier ones. */
  function HostProperties(items: seq<Value>): Result<map<seq<byte>, uint32>> {
    if items == [] then Ok(map[])
    else
      var last := items[|items| - 1];
      var m :- HostProperties(items[..|items| - 1]);
      if !last.Named? then Err(if last.Empty? then EmptyValue else TypeConversion)
      else
        var key :- GetBytes(last.name);
        var value :- GetInteger(last.value, U32);
        Ok(m[key := value])
  }

  function PropertiesParameter(args: seq<Value>): Result<Option<map<seq<byte>, uint32>>> {
    var (_, optionals) :- UnpackArgs(0, 1, args);
    if optionals[0].None? then Ok(None)
    else
      var items :- GetList(optionals[0].value);
      var properties :- HostProperties(items);
      Ok(Some(properties))
  }

  /** A property list is accepted exactly if it names integers by byte strings. */
  lemma {:induction false} PropertiesAcceptedIff(items: seq<Value>)
    ensures HostProperties(items).Ok? <==>
      forall i :: 0 <= i < |items| ==> items[i].Named? && items[i].name.Bytes? && items[i].value.Integer?
  {
    hide Cast;
    if items != [] {
      var n := |items| - 1;
      PropertiesAcceptedIff(items[..n]);
      assert forall i :: 0 <= i < n ==> items[i] == items[..n][i];
    }
  }

  /** Methods of the session manager. The property list of the reply is a parameter of the model. */
  function DispatchManager(d: Device, call: MethodCall, properties: seq<Value>): (Result<()>, Device) {
    if call.methodId == PROPERTIES then
      var hostProperties := PropertiesParameter(call.args);
      if hostProperties.Err? then (Err(Escaping(hostProperties.error)), d)
      else Respond(d, CallToValue(MethodCall(SESSION_MANAGER, PROPERTIES, [List(properties)], SUCCESS)), true, 0, 0)
    else if call.methodId == START_SESSION then
      var parameters := StartParameters(call.args);
      if parameters.Err? then (Err(Escaping(parameters.error)), d) else
      var (hsn, spId) := parameters.value;
      var (status, tsn, d') := StartSession(d, hsn, spId);
      Respond(d', CallToValue(SyncSession(hsn, tsn, status)), true, 0, 0)
    else (Err(DeviceFailure), d)
  }

  function EndSession(d: Device, id: SessionId): (Result<()>, Device) {
    if id !in d.sessions then (Err(DeviceFailure), d)
    else Respond(d.(sessions := d.sessions - {id}), Cmd(END_OF_SESSION), false, 0, 0)
  }

  /** Methods inside a session. */
  function DispatchSession(d: Device, call: MethodCall, id: SessionId, random: nat -> seq<byte>): (Result<()>, Device)
  {
    if id !in d.sessions then (Err(DeviceFailure), d)
    else
      var (r, ps) := CallMethod(d.providers, d.sessions[id], call, random);
      var d' := d.(providers := ps);
      if r.Err? then (Err(Escaping(r.error)), d')
      else Respond(d', ResultToValue(r.value), true, id.tsn, id.hsn)
  }

  //
  // Send and receive
  //

  /** What a send may depend on besides the device: random characters and the property list. */
  datatype Env = Env(random: nat -> seq<byte>, properties: seq<Value>)

  function Handle(d: Device, request: Request, env: Env): (Result<()>, Device)
  {
    match request
    case NoRequest => (Ok(()), d)
    case EndOfSession(tsn, hsn) => EndSession(d, SessionId(tsn, hsn))
    case Call(call, tsn, hsn) =>
      if call.invokingId == SESSION_MANAGER then DispatchManager(d, call, env.properties)
      else DispatchSession(d, call, SessionId(tsn, hsn), env.random)
  }

  function Send(d: Device, data: seq<byte>, env: Env): (Result<()>, Device)
  {
    var request := DecodeRequest(data, d.comId);
    if request.Err? then (Err(request.error), d) else Handle(d, request.value, env)
  }

  function EmptyFrame(d: Device): ComPacket {
    ComPacket(d.comId, d.comIdExtension, 0, 0, [])
  }

  function OutstandingFrame(d: Device, size: nat): ComPacket {
    ComPacket(d.comId, d.comIdExtension, size % TWO_TO_32, size % TWO_TO_32, [])
  }

  /** A frame that is written whole or, when the buffer is too small for it, not at all. */
  function Written(frame: seq<byte>, size: nat): Result<seq<byte>> {
    if |frame| <= size then Ok(frame) else Err(DeviceFailure)
  }

  /** A pending response is handed out once it fits; until then its size is reported and it stays pending. */
  function Receive(d: Device, size: nat): (Result<seq<byte>>, Device) {
    if d.response.None? then (Written(SaveComPacket(EmptyFrame(d)), size), d)
    else if |d.response.value| <= size then (Ok(d.response.value), d.(response := None))
    else (Written(SaveComPacket(OutstandingFrame(d, |d.response.value|)), size), d)
  }

  //
  // Runs
  //

  datatype Event =
    | Sending(data: seq<byte>, env: Env)
    | Receiving(size: nat)

  /** What holds of the session table at all times. */
  predicate SessionsValid(d: Device) {
    && FIRST_TSN <= d.nextTsn
    && (forall i, j :: i in d.sessions && j in d.sessions && i != j ==> d.sessions[i] != d.sessions[j])
    && (forall i, j :: i in d.sessions && j in d.sessions && i != j ==> i.tsn != j.tsn)
    && (forall i :: i in d.sessions ==> FIRST_TSN <= i.tsn < d.nextTsn)
  }

  function Next(d: Device, e: Event): Device {
    match e
    case Sending(data, env) => Send(d, data, env).1
    case Receiving(size) => Receive(d, size).1
  }

  /** An event either leaves the session table alone, or opens one session, or closes one. */
  datatype Change = Unchanged | Opened(id: SessionId, provider: nat) | Closed(id: SessionId)

  predicate Changes(d: Device, d': Device, c: Change) {
    match c
    case Unchanged => d'.sessions == d.sessions && d'.nextTsn == d.nextTsn
    case Opened(id, p) =>
      && p < |d.providers| && !HasSession(d, p) && id.tsn == d.nextTsn
      && d'.sessions == d.sessions[id := p] && d'.nextTsn == Add32(d.nextTsn, 1)
    case Closed(id) => id in d.sessions && d'.sessions == d.sessions - {id} && d'.nextTsn == d.nextTsn
  }

  /** Whatever bytes arrive, the device changes its session table in one of these ways, and no shape at all. */
  lemma EventChanges(d: Device, e: Event) returns (c: Change)
    ensures Changes(d, Next(d, e), c)
    ensures SameShape(d.providers, Next(d, e).providers)
    ensures Next(d, e).comId == d.comId && Next(d, e).comIdExtension == d.comIdExtension
    ensures c.Opened? <==> e.Sending? && StartsSession(d, e.data)
    ensures ValidProviders(d.providers) ==> ValidProviders(Next(d, e).providers)
  {
    hide DecodeRequest, EncodeMessage, EndSession, DispatchManager, DispatchSession, SameShape, ValidProviders;
    SameShapeReflexive(d.providers);
    c := Unchanged;
    if e.Sending? && DecodeRequest(e.data, d.comId).Ok? {
      match DecodeRequest(e.data, d.comId).value
      case NoRequest =>
      case EndOfSession(tsn, hsn) =>
        c := EndChanges(d, SessionId(tsn, hsn));
      case Call(call, tsn, hsn) =>
        if call.invokingId == SESSION_MANAGER {
          c := ManagerChanges(d, call, e.env.properties);
        } else {
          SessionChanges(d, call, SessionId(tsn, hsn), e.env.random);
        }
    }
  }

  lemma EndChanges(d: Device, id: SessionId) returns (c: Change)
    ensures var d' := EndSession(d, id).1;
      Changes(d, d', c) && !c.Opened? && d'.(sessions := d.sessions, response := d.response) == d
  {
    hide EncodeMessage;
    c := if id in d.sessions then Closed(id) else Unchanged;
  }

  /** A call of the session manager opens a session exactly if it is a well-formed start on a free provider. */
  predicate StartsOn(d: Device, call: MethodCall) {
    && call.methodId == START_SESSION
    && var parameters := StartParameters(call.args);
    && parameters.Ok?
    && var sp := FindProvider(d.providers, parameters.value.1);
    && sp >= 0 && !HasSession(d, sp)
  }

  lemma ManagerChanges(d: Device, call: MethodCall, properties: seq<Value>) returns (c: Change)
    ensures var d' := DispatchManager(d, call, properties).1;
      && Changes(d, d', c) && d'.providers == d.providers
      && d'.comId == d.comId && d'.comIdExtension == d.comIdExtension
    ensures c.Opened? <==> StartsOn(d, call)
  {
    hide EncodeMessage, StartParameters, PropertiesParameter, UnpackArgs;
    c := Unchanged;
    if StartsOn(d, call) {
      var (host, spId) := StartParameters(call.args).value;
      c := Opened(SessionId(d.nextTsn, host), FindProvider(d.providers, spId));
    }
  }

  lemma SessionChanges(d: Device, call: MethodCall, id: SessionId, random: nat -> seq<byte>)
    ensures var d' := DispatchSession(d, call, id, random).1;
      && Changes(d, d', Unchanged) && SameShape(d.providers, d'.providers)
      && (ValidProviders(d.providers) ==> ValidProviders(d'.providers))
      && d'.comId == d.comId && d'.comIdExtension == d.comIdExtension
  {
    hide EncodeMessage, CallMethod, SameShape, ValidProviders;
    SameShapeReflexive(d.providers);
    if id in d.sessions {
      CallKeepsShape(d.providers, d.sessions[id], call, random);
    }
  }

  lemma SameShapeReflexive(ps: seq<Provider>)
    ensures SameShape(ps, ps)
  {
  }

  /** The message is a well-formed start on a registered provider that has no open session. */
  predicate StartsSession(d: Device, data: seq<byte>) {
    var request := DecodeRequest(data, d.comId);
    && request.Ok? && request.value.Call?
    && request.value.call.invokingId == SESSION_MANAGER && StartsOn(d, request.value.call)
  }

  lemma TwoSlots(args: seq<Value>)
    ensures UnpackArgs(0, 2, args).Ok? ==> |UnpackArgs(0, 2, args).value.1| == 2
  {
  }

  lemma CallKeepsShape(ps: seq<Provider>, p: nat, call: MethodCall, random: nat -> seq<byte>)
    requires p < |ps|
    ensures var qs := CallMethod(ps, p, call, random).1;
      && SameShape(ps, qs)
      && (ValidProviders(ps) ==> ValidProviders(qs))
  {
    hide UnpackArgs, GetCells, NextRows, CheckPin, SetCells, GenerateKey, ActivateSp;
    SameShapeReflexive(ps);
    assert WithTables(ps, p, ps[p].tables) == ps;
    if call.methodId == SET {
      var args := UnpackArgs(0, 2, call.args);
      if args.Ok? {
        TwoSlots(call.args);
        SetKeepsShape(ps, p, call.invokingId, args.value.1[0], args.value.1[1]);
      }
    } else if call.methodId == GEN_KEY {
      var args := UnpackArgs(0, 2, call.args);
      if args.Ok? {
        TwoSlots(call.args);
        var length := OptionalInteger(args.value.1[1], U32);
        if length.Ok? {
          var pinLength := if length.value.None? then None else Some(length.value.value);
          GenKeyKeepsShape(ps, p, call.invokingId, pinLength, random);
        }
      }
    } else if call.methodId == ACTIVATE {
      ActivateKeepsShape(ps, p, call.invokingId);
    }
  }

  lemma RowKeepsShape(ps: seq<Provider>, p: nat, us: Tables)
    requires p < |ps| && SameTables(ps[p].tables, us)
    ensures SameShape(ps, WithTables(ps, p, us))
    ensures ValidProviders(ps) && ValidTables(us) ==> ValidProviders(WithTables(ps, p, us))
  {
  }

  lemma SetKeepsShape(ps: seq<Provider>, p: nat, uid: UID, where_: Option<Value>, values: Option<Value>)
    requires p < |ps|
    ensures var us := SetCells(ps[p].tables, uid, where_, values).1;
      && SameShape(ps, WithTables(ps, p, us))
      && (ValidProviders(ps) ==> ValidProviders(WithTables(ps, p, us)))
  {
    var ts := ps[p].tables;
    var (r, us) := SetCells(ts, uid, where_, values);
    SetIsAllOrNothing(ts, uid, where_, values);
    if us != ts {
      WrittenTableIsValid(ts, uid, Row(us, uid));
    }
    RowKeepsShape(ps, p, us);
    assert ValidProviders(ps) ==> ValidTables(ts);
  }

  lemma GenKeyKeepsShape(ps: seq<Provider>, p: nat, uid: UID, pinLength: Option<nat>, random: nat -> seq<byte>)
    requires p < |ps|
    ensures var us := GenerateKey(ps[p].tables, uid, pinLength, random).1;
      && SameShape(ps, WithTables(ps, p, us))
      && (ValidProviders(ps) ==> ValidProviders(WithTables(ps, p, us)))
  {
    hide NewKey;
    var ts := ps[p].tables;
    var us := GenerateKey(ts, uid, pinLength, random).1;
    if us != ts {
      WrittenTableIsValid(ts, uid, Row(us, uid));
    }
    RowKeepsShape(ps, p, us);
    assert ValidProviders(ps) ==> ValidTables(ts);
  }

  lemma WithRowIn(ts: Tables, table: UID, uid: UID, row: seq<Value>)
    requires table in ts && uid in ts[table].objects && |row| == |ts[table].objects[uid]|
    ensures var us := ts[table := ts[table].(objects := ts[table].objects[uid := row])];
      && SameTables(ts, us)
      && (ValidTables(ts) && row != [] ==> ValidTables(us))
  {
  }

  lemma ActivateKeepsShape(ps: seq<Provider>, p: nat, uid: UID)
    requires p < |ps|
    ensures SameShape(ps, ActivateSp(ps, p, uid).1)
    ensures ValidProviders(ps) ==> ValidProviders(ActivateSp(ps, p, uid).1)
  {
    hide CopySidPin, SameShape, ValidProviders;
    SameShapeReflexive(ps);
    var ts := ps[p].tables;
    if SP_TABLE in ts && uid in ts[SP_TABLE].objects {
      var row := ts[SP_TABLE].objects[uid];
      if |row| > LIFE_CYCLE && row[LIFE_CYCLE] == INACTIVE {
        WithRowIn(ts, SP_TABLE, uid, row[LIFE_CYCLE := ACTIVE]);
        var us := ts[SP_TABLE := ts[SP_TABLE].(objects := ts[SP_TABLE].objects[uid := row[LIFE_CYCLE := ACTIVE]])];
        RowKeepsShape(ps, p, us);
        var qs := WithTables(ps, p, us);
        CopyKeepsShape(qs, p);
        SameShapeTransitive(ps, qs, CopySidPin(qs, p).1);
        ProviderTablesValid(ps, p);
      }
    }
  }

  lemma ProviderTablesValid(ps: seq<Provider>, p: nat)
    requires p < |ps|
    ensures ValidProviders(ps) ==> ValidTables(ps[p].tables)
  {
  }

  lemma CopyKeepsShape(ps: seq<Provider>, p: nat)
    requires p < |ps|
    ensures SameShape(ps, CopySidPin(ps, p).1)
    ensures ValidProviders(ps) ==> ValidProviders(CopySidPin(ps, p).1)
  {
    SameShapeReflexive(ps);
    var locking := FindProvider(ps, LOCKING_SP);
    if ps[p].uid == ADMIN_SP && locking >= 0 && HasPin(ps[locking].tables, C_PIN_ADMIN1)
       && HasPin(ps[p].tables, C_PIN_SID) {
      var ts := ps[locking].tables;
      var pin := ps[p].tables[C_PIN_TABLE].objects[C_PIN_SID][PIN];
      WithRowIn(ts, C_PIN_TABLE, C_PIN_ADMIN1, ts[C_PIN_TABLE].objects[C_PIN_ADMIN1][PIN := pin]);
      RowKeepsShape(ps, locking, WithCPin(ts, C_PIN_ADMIN1, pin));
      ProviderTablesValid(ps, locking);
    }
  }

  predicate Starts(d: Device, e: Event) {
    e.Sending? && StartsSession(d, e.data)
  }

  /** One event keeps the session table valid, as long as the session numbers do not run out. */
  lemma EventKeepsSessions(d: Device, e: Event)
    requires SessionsValid(d)
    requires Starts(d, e) ==> d.nextTsn + 1 < TWO_TO_32
    ensures SessionsValid(Next(d, e))
    ensures Next(d, e).nextTsn == d.nextTsn + if Starts(d, e) then 1 else 0
  {
    hide Next, StartsSession;
    var c := EventChanges(d, e);
    if c.Opened? {
      OpeningKeepsSessions(d, c.id, c.provider, Next(d, e));
    }
  }

  lemma OpeningKeepsSessions(d: Device, id: SessionId, p: nat, d': Device)
    requires SessionsValid(d) && d.nextTsn + 1 < TWO_TO_32
    requires Changes(d, d', Opened(id, p))
    ensures SessionsValid(d') && d'.nextTsn == d.nextTsn + 1
  {
    Add32Exact(d.nextTsn, 1);
    assert forall i :: i in d.sessions ==> d.sessions[i] in d.sessions.Values;
  }

  function RunEvents(d: Device, events: seq<Event>): Device
    decreases |events|
  {
    if events == [] then d else RunEvents(Next(d, events[0]), events[1..])
  }

  /** The session numbers issued along a run, in order. */
  function Issued(d: Device, events: seq<Event>): seq<uint32>
    decreases |events|
  {
    if events == [] then []
    else (if Starts(d, events[0]) then [d.nextTsn] else []) + Issued(Next(d, events[0]), events[1..])
  }

  /** At most one open session per provider, so never more sessions than providers. */
  lemma {:induction false} SessionsFitProviders(sessions: map<SessionId, nat>, n: nat)
    requires forall i :: i in sessions ==> sessions[i] < n
    requires forall i, j :: i in sessions && j in sessions && i != j ==> sessions[i] != sessions[j]
    ensures |sessions| <= n
    decreases n
  {
    if n == 0 {
      assert forall i :: i !in sessions;
      assert sessions == map[];
    } else if i :| i in sessions && sessions[i] == n - 1 {
      var rest := sessions - {i};
      SessionsFitProviders(rest, n - 1);
      assert sessions.Keys == rest.Keys + {i};
    } else {
      SessionsFitProviders(sessions, n - 1);
    }
  }

  /**
   * The session invariant over all runs: whatever bytes a device receives, with fewer than 2^32 - 5000 starts
   * no provider has two open sessions, session numbers are distinct and have been issued, there are never more
   * sessions than providers, and no provider, table, object or column has come or gone.
   */
  lemma {:induction false} SessionInvariant(d: Device, events: seq<Event>)
    requires SessionsValid(d) && d.nextTsn + |Issued(d, events)| < TWO_TO_32
    ensures var d' := RunEvents(d, events);
      && SessionsValid(d')
      && d'.nextTsn == d.nextTsn + |Issued(d, events)|
      && |d'.sessions| <= |d'.providers|
      && SameShape(d.providers, d'.providers)
    decreases |events|
  {
    hide Next, StartsSession, SameShape;
    if events == [] {
      SessionsFitProviders(d.sessions, |d.providers|);
      SameShapeReflexive(d.providers);
    } else {
      EventKeepsSessions(d, events[0]);
      SessionInvariant(Next(d, events[0]), events[1..]);
      var c := EventChanges(d, events[0]);
      SameShapeTransitive(d.providers, Next(d, events[0]).providers, RunEvents(d, events).providers);
    }
  }

  /** Session numbers are issued consecutively, so none is issued twice, and a new session carries the next one. */
  lemma {:induction false} SessionNumbersAreConsecutive(d: Device, events: seq<Event>, k: nat)
    requires SessionsValid(d) && d.nextTsn + |Issued(d, events)| < TWO_TO_32
    requires k < |Issued(d, events)|
    ensures Issued(d, events)[k] == d.nextTsn + k
    decreases |events|
  {
    hide Next, StartsSession;
    EventKeepsSessions(d, events[0]);
    if !Starts(d, events[0]) {
      SessionNumbersAreConsecutive(Next(d, events[0]), events[1..], k);
    } else if k > 0 {
      SessionNumbersAreConsecutive(Next(d, events[0]), events[1..], k - 1);
    }
  }

  /** A start reports success exactly when the provider is registered and has no open session. */
  lemma StartSucceedsIff(d: Device, hsn: uint32, spId: UID)
    requires SessionsValid(d)
    ensures var (status, tsn, d') := StartSession(d, hsn, spId);
      && (status == SUCCESS <==>
           exists p :: 0 <= p < |d.providers| && d.providers[p].uid == spId
                       && (forall q :: 0 <= q < p ==> d.providers[q].uid != spId)
                       && (forall i :: i in d.sessions ==> d.sessions[i] != p))
      && (status == SUCCESS ==>
           && tsn == d.nextTsn
           && SessionId(tsn, hsn) in d'.sessions
           && d'.providers[d'.sessions[SessionId(tsn, hsn)]].uid == spId)
      && (status != SUCCESS ==> d' == d && tsn == 0)
  {
    var p := FindProvider(d.providers, spId);
    if p >= 0 {
      assert HasSession(d, p) <==> exists i :: i in d.sessions && d.sessions[i] == p;
    }
  }
}
