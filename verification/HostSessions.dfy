/** Opening and closing sessions over the wire (SessionManager.cpp, Session.cpp). */
module HostSessions {
  import opened Common
  import opened Values
  import opened ComPackets
  import opened Methods
  import opened Rpc
  import opened WireSizes
  import opened Exchange
  import opened SessionMethods
  import opened RemoteCalls
  import opened HostSession
  import opened RemoteTable
  import opened HostTables
  import M = MockDevice

  //
  // Calls of the session manager
  //

  /** CallRemoteSessionMethod: the response is itself a method call. */
  function SessionManagerCall(d: M.Device, call: MethodCall, env: M.Env): (Result<MethodResult>, M.Device) {
    var (response, d') := ExchangedValue(d, NO_SESSION, CallToValue(call), true, env);
    (ReadSessionResult(response), d')
  }

  const NO_SESSION: M.SessionId := M.SessionId(0, 0)

  function ReadSessionResult(response: Result<Value>): Result<MethodResult> {
    var v :- response;
    var call :- CallFromValue(v);
    if Raises(call.status) then Err(InvocationFailure(call.status)) else Ok(MethodResult(call.args, call.status))
  }

  function StartRequired(hsn: uint32, spId: UID): seq<Value> {
    [Integer(U32, hsn), UidValue(spId), Integer(BoolKind, 1)]
  }

  /** The password goes into the host challenge, the authority into the host signing authority. */
  function StartOptionals(password: Option<seq<byte>>, authority: Option<UID>): seq<Option<Value>> {
    [BytesOption(password), None, None, UidOption(authority), None, None, None, None, None]
  }

  function StartRequest(hsn: uint32, spId: UID, password: Option<seq<byte>>, authority: Option<UID>): MethodCall {
    MethodCall(M.SESSION_MANAGER, M.START_SESSION,
               PackArgs(StartRequired(hsn, spId), StartOptionals(password, authority)), SUCCESS)
  }

  /** Session::Start: the host's own number and the one the device reports. */
  function HostStart(d: M.Device, hsn: uint32, spId: UID, password: Option<seq<byte>>, authority: Option<UID>,
                     env: M.Env)
    : (Result<M.SessionId>, M.Device)
  {
    var (r, d') := SessionManagerCall(d, StartRequest(hsn, spId, password, authority), env);
    (StartedSession(r, hsn), d')
  }

  function StartedSession(r: Result<MethodResult>, hsn: uint32): Result<M.SessionId> {
    var result :- r;
    var (required, _) :- UnpackArgs(2, 6, result.values);
    if |required| < 2 then Err(BadParameterList) else
    var _ :- GetInteger(required[0], U32);
    var tsn :- GetInteger(required[1], U32);
    Ok(M.SessionId(tsn, hsn))
  }

  /** SessionManager::EndSession: a bare end-of-session command under the session's numbers. */
  function HostEnd(d: M.Device, id: M.SessionId, env: M.Env): (Result<()>, M.Device) {
    var (response, d') := ExchangedValue(d, id, Cmd(END_OF_SESSION), false, env);
    (if response.Err? then Err(response.error) else Ok(()), d')
  }

  //
  // Start
  //

  lemma {:induction false} OptionalsWellTyped(key: nat, optionals: seq<Option<Value>>)
    requires forall i :: 0 <= i < |optionals| && optionals[i].Some? ==> WellTyped(optionals[i].value)
    ensures AllWellTyped(PackOptionals(key, optionals))
    decreases |optionals|
  {
    hide WellTyped;
    if optionals != [] {
      OptionalsWellTyped(key + 1, optionals[1..]);
      if optionals[0].Some? {
        NumberedValue(U16, key % TWO_TO_16, optionals[0].value);
      }
    }
  }

  lemma {:induction false} OptionalsSendable(key: nat, optionals: seq<Option<Value>>)
    requires forall i :: 0 <= i < |optionals| && optionals[i].Some? ==> Sendable(optionals[i].value)
    ensures AllSendable(PackOptionals(key, optionals))
    decreases |optionals|
  {
    hide Sendable;
    if optionals != [] {
      OptionalsSendable(key + 1, optionals[1..]);
      if optionals[0].Some? {
        NumberedValue(U16, key % TWO_TO_16, optionals[0].value);
      }
    }
  }

  lemma UidOnWire(uid: UID)
    ensures WellTyped(UidValue(uid)) && Sendable(UidValue(uid)) && Normal(UidValue(uid)) == UidValue(uid)
    ensures GetUid(UidValue(uid)) == Ok(uid)
  {
    UidRoundTrip(uid);
    assert |UidBytes(uid)| == 8;
  }

  lemma StartArguments(hsn: uint32, spId: UID, password: Option<seq<byte>>, authority: Option<UID>)
    requires password.Some? ==> |password.value| <= MAX_ATOM
    ensures var args := StartRequest(hsn, spId, password, authority).args;
      && AllWellTyped(args) && AllSendable(args)
      && M.StartParameters(NormalAll(args)) == Ok((hsn, spId))
  {
    hide PackOptionals, UnpackArgs, M.StartParameters, UidBytes;
    var required, optionals := StartRequired(hsn, spId), StartOptionals(password, authority);
    UidOnWire(spId);
    if authority.Some? {
      UidOnWire(authority.value);
    }
    OptionalsWellTyped(0, optionals);
    OptionalsSendable(0, optionals);
    UnpackAcrossWire(required, optionals);
    var received := [Integer(U32, hsn), UidValue(spId), Integer(U8, 1)];
    assert NormalAll(required) == received;
    assert NormalOptionals(optionals) == optionals;
    StartConverts(NormalAll(PackArgs(required, optionals)), hsn, spId, password, authority);
  }

  lemma StartConverts(args: seq<Value>, hsn: uint32, spId: UID, password: Option<seq<byte>>, authority: Option<UID>)
    requires UnpackArgs(3, 9, args)
      == Ok(([Integer(U32, hsn), UidValue(spId), Integer(U8, 1)], StartOptionals(password, authority)))
    ensures M.StartParameters(args) == Ok((hsn, spId))
  {
    hide UnpackArgs, UidBytes;
    UidRoundTrip(spId);
    if authority.Some? {
      UidRoundTrip(authority.value);
    }
    assert Cast(U32, hsn) == hsn;
  }

  lemma SyncArguments(hsn: uint32, tsn: uint32)
    ensures var args := [Integer(U32, hsn), Integer(U32, tsn)];
      && AllWellTyped(args) && AllSendable(args) && NormalAll(args) == args && CallSize(args) <= 50
      && StartedSession(Ok(MethodResult(args, SUCCESS)), hsn) == Ok(M.SessionId(tsn, hsn))
  {
    hide UnpackArgs;
    var args := [Integer(U32, hsn), Integer(U32, tsn)];
    assert NormalAll(args) == args;
    assert args[1..] == [args[1]] && args[1..][1..] == [];
    assert WireSizeAll(args[1..]) == WireSize(args[1]) <= 10;
    assert WireSizeAll(args) == WireSize(args[0]) + WireSizeAll(args[1..]);
    UnpackUndoesPack(args, [None, None, None, None, None, None]);
    AllNone(0, [None, None, None, None, None, None]);
    assert PackArgs(args, [None, None, None, None, None, None]) == args;
    assert Cast(U32, tsn) == tsn;
  }

  lemma {:induction false} AllNone(key: nat, optionals: seq<Option<Value>>)
    requires forall i :: 0 <= i < |optionals| ==> optionals[i] == None
    ensures PackOptionals(key, optionals) == []
    decreases |optionals|
  {
    if optionals != [] {
      AllNone(key + 1, optionals[1..]);
    }
  }

  /** A reply that is a call: its frame is short enough for one receive and reads back as the call. */
  lemma SyncReply(d: M.Device, hsn: uint32, tsn: uint32, status: Status)
    returns (c: ComPacket)
    ensures var call := M.SyncSession(hsn, tsn, status);
      && EncodeMessage(CallToValue(call), true, M.ReplyAddress(d, 0, 0)) == Ok(SaveComPacket(c))
      && Deliverable(c) && |SaveComPacket(c)| < BUFFER_LIMIT
      && ReadSessionResult(ReadResponse(Ok(c), true)) ==
         if Raises(status) then Err(InvocationFailure(status)) else Ok(MethodResult(call.args, status))
  {
    hide SaveComPacket, LoadComPacket, ValueOfPayload, PayloadOf, CallFromValue, Raises, Deliverable, CallSize,
         WireSizeAll;
    var call, to := M.SyncSession(hsn, tsn, status), M.ReplyAddress(d, 0, 0);
    SyncArguments(hsn, tsn);
    CallIsSendable(call);
    PayloadSizeIsExact(CallToValue(call));
    CallSizeIsExact(call);
    CallReplyTransparency(call, to, []);
    var payload := PayloadOf(CallToValue(call), true).value;
    c := CreatePacket(payload, to);
    FrameRoundTrip(payload, to, []);
    CreatedIsDeliverable(payload, to);
    assert CallSize(call.args) < 60;
  }

  predicate PasswordFits(password: Option<seq<byte>>) {
    password.Some? ==> |password.value| <= MAX_ATOM
  }

  /** Parameters of bounded size make a list of bounded size. */
  lemma {:induction false} OptionalsSize(key: nat, optionals: seq<Option<Value>>, bound: nat)
    requires forall i :: 0 <= i < |optionals| && optionals[i].Some? ==> WireSize(optionals[i].value) <= bound
    ensures WireSizeAll(PackOptionals(key, optionals)) <= |optionals| * (bound + 5)
    decreases |optionals|
  {
    hide WireSize;
    if optionals != [] {
      OptionalsSize(key + 1, optionals[1..], bound);
      var tail := PackOptionals(key + 1, optionals[1..]);
      if optionals[0].Some? {
        var head := Named(Integer(U16, key % TWO_TO_16), optionals[0].value);
        NamedSize(key % TWO_TO_16, optionals[0].value);
        assert ([head] + tail)[0] == head && ([head] + tail)[1..] == tail;
      } else {
        assert [] + tail == tail;
      }
      assert |optionals| * (bound + 5) == |optionals[1..]| * (bound + 5) + bound + 5;
    }
  }

  lemma NamedSize(key: nat, value: Value)
    ensures WireSize(Named(Integer(U16, key), value)) == 5 + WireSize(value)
  {
  }

  lemma StartSize(hsn: uint32, spId: UID, password: Option<seq<byte>>, authority: Option<UID>)
    requires PasswordFits(password)
    ensures CallSize(StartRequest(hsn, spId, password, authority).args) < MAX_PAYLOAD
  {
    hide UidBytes, PackOptionals;
    var optionals := StartOptionals(password, authority);
    if authority.Some? {
      UidSize(authority.value);
    }
    RequiredSize(hsn, spId);
    OptionalsSize(0, optionals, MAX_ATOM + 4);
    WireSizeConcat(StartRequired(hsn, spId), PackOptionals(0, optionals));
  }

  lemma RequiredSize(hsn: uint32, spId: UID)
    ensures WireSizeAll(StartRequired(hsn, spId)) == 16
  {
    hide UidBytes;
    UidSize(spId);
    var r := StartRequired(hsn, spId);
    assert r[2..][1..] == [] && WireSizeAll(r[2..]) == WireSize(r[2]) == 2;
    assert r[1..][1..] == r[2..] && WireSizeAll(r[1..]) == 11;
    assert WireSize(r[0]) == 5;
  }

  lemma LongPassword(hsn: uint32, spId: UID, password: Option<seq<byte>>, authority: Option<UID>)
    requires !PasswordFits(password)
    ensures var args := StartRequest(hsn, spId, password, authority).args; AllWellTyped(args) && !AllSendable(args)
  {
    hide PackOptionals, UidBytes;
    var required, optionals := StartRequired(hsn, spId), StartOptionals(password, authority);
    UidOnWire(spId);
    if authority.Some? {
      UidOnWire(authority.value);
    }
    OptionalsWellTyped(0, optionals);
    PackOptionalsCons(0, optionals);
    var args := required + PackOptionals(0, optionals);
    assert args[3] == Named(Integer(U16, 0), Bytes(password.value));
    assert !Sendable(args[3]);
  }

  /** The outcome of a start, without the wire; whatever was pending has been replaced and collected. */
  function DirectStart(d: M.Device, hsn: uint32, spId: UID, password: Option<seq<byte>>)
    : (Result<M.SessionId>, M.Device)
  {
    var sp := FindProvider(d.providers, spId);
    if !PasswordFits(password) then (Err(InvalidArgument), d)
    else if sp < 0 then (Err(InvocationFailure(INVALID_PARAMETER)), d.(response := None))
    else if M.HasSession(d, sp) then (Err(InvocationFailure(SP_BUSY)), d.(response := None))
    else
      var id := M.SessionId(d.nextTsn, hsn);
      (Ok(id), d.(sessions := d.sessions[id := sp], nextTsn := Add32(d.nextTsn, 1), response := None))
  }

  /**
   * Starting a session over the wire: the host is told of the session exactly if the provider is registered and has
   * no open session; otherwise it gets the device's status as an exception, and no session has changed. A password
   * too long for an atom never leaves the host.
   */
  lemma StartRefines(d: M.Device, hsn: uint32, spId: UID, password: Option<seq<byte>>, authority: Option<UID>,
                     env: M.Env)
    requires d.comIdExtension == 0
    ensures Settled(d) ==> Answers(d, StartRequest(hsn, spId, password, authority), NO_SESSION, env)
    ensures HostStart(d, hsn, spId, password, authority, env) == DirectStart(d, hsn, spId, password)
  {
    hide EncodeMessage, Exchanged, ReadSessionResult, StartedSession, PackArgs, HostStart, Settled;
    if PasswordFits(password) {
      FittingStart(d, hsn, spId, password, authority, env);
    } else {
      UnsentStart(d, hsn, spId, password, authority, env);
    }
  }

  lemma UnsentStart(d: M.Device, hsn: uint32, spId: UID, password: Option<seq<byte>>, authority: Option<UID>,
                    env: M.Env)
    requires !PasswordFits(password)
    ensures Answers(d, StartRequest(hsn, spId, password, authority), NO_SESSION, env)
    ensures HostStart(d, hsn, spId, password, authority, env) == (Err(InvalidArgument), d)
  {
    hide EncodeMessage, Exchanged, StartedSession, PackArgs;
    LongPassword(hsn, spId, password, authority);
    CallIsSendable(StartRequest(hsn, spId, password, authority));
    UnsendableError(CallToValue(StartRequest(hsn, spId, password, authority)),
                    Address(d.comId, d.comIdExtension, 0, 0));
    ErrorIsPassedOn(hsn);
  }

  lemma FittingStart(d: M.Device, hsn: uint32, spId: UID, password: Option<seq<byte>>, authority: Option<UID>,
                     env: M.Env)
    requires d.comIdExtension == 0 && PasswordFits(password)
    ensures Answers(d, StartRequest(hsn, spId, password, authority), NO_SESSION, env)
    ensures var (status, tsn, started) := M.StartSession(d, hsn, spId);
      HostStart(d, hsn, spId, password, authority, env)
      == (if status == SUCCESS then Ok(M.SessionId(tsn, hsn)) else Err(InvocationFailure(status)),
          started.(response := None))
  {
    hide EncodeMessage, SaveComPacket, M.Send, Run, Deliverable, ReadSessionResult, StartedSession, PackArgs, CallSize,
         M.StartParameters, M.StartSession, UnpackArgs;
    var call := StartRequest(hsn, spId, password, authority);
    StartArguments(hsn, spId, password, authority);
    StartSize(hsn, spId, password, authority);
    SendReachesHandler(d, call, NO_SESSION, env);
    var (status, tsn, started) := M.StartSession(d, hsn, spId);
    var c := SyncReply(started, hsn, tsn, status);
    Handshake(started.(response := Some(SaveComPacket(c))), c);
    SyncArguments(hsn, tsn);
    StartOutcome(d, hsn, spId);
    StatusesRaise();
    ErrorIsPassedOn(hsn);
  }

  lemma StartOutcome(d: M.Device, hsn: uint32, spId: UID)
    ensures var (status, tsn, started) := M.StartSession(d, hsn, spId);
      && status in {SUCCESS, SP_BUSY, INVALID_PARAMETER}
      && started.(sessions := d.sessions, nextTsn := d.nextTsn) == d
  {
  }

  lemma StatusesRaise()
    ensures !Raises(SUCCESS) && Raises(SP_BUSY) && Raises(INVALID_PARAMETER)
  {
  }

  lemma ErrorIsPassedOn(hsn: uint32)
    ensures forall e: Error :: StartedSession(Err(e), hsn) == Err(e)
  {
  }

  //
  // End
  //

  lemma EndReply(to: Address) returns (c: ComPacket)
    ensures EncodeMessage(Cmd(END_OF_SESSION), false, to) == Ok(SaveComPacket(c))
    ensures Deliverable(c) && |SaveComPacket(c)| < BUFFER_LIMIT
    ensures DecodeReply(c, false) == Ok(Cmd(END_OF_SESSION))
  {
    hide SaveComPacket, LoadComPacket, ValueOfPayload, PayloadOf, Deliverable;
    EndOfSessionPayload();
    PayloadRoundTrip(Cmd(END_OF_SESSION), false);
    c := CreatePacket([0xFA], to);
    FrameRoundTrip([0xFA], to, []);
    CreatedIsDeliverable([0xFA], to);
  }

  /** Ending an open session over the wire closes that session and no other; there is nothing else to end. */
  lemma EndRefines(d: M.Device, id: M.SessionId, env: M.Env)
    requires d.comIdExtension == 0
    ensures Settled(d) ==> Ready(d, id, Cmd(END_OF_SESSION), false, env)
    ensures HostEnd(d, id, env) ==
      if id in d.sessions then (Ok(()), d.(sessions := d.sessions - {id}, response := None))
      else (Err(DeviceFailure), d)
  {
    hide SaveComPacket, EncodeMessage, DecodeRequest, Run, Deliverable, DecodeReply;
    EndOfSessionTransparency(Address(d.comId, d.comIdExtension, id.tsn, id.hsn));
    if id in d.sessions {
      var closed := d.(sessions := d.sessions - {id});
      var c := EndReply(M.ReplyAddress(closed, 0, 0));
      Handshake(closed.(response := Some(SaveComPacket(c))), c);
    }
  }

  //
  // The life of a session
  //

  /** A start that succeeds opens a session under a number never used, on a provider that had none. */
  lemma Opened(d: M.Device, hsn: uint32, spId: UID, password: Option<seq<byte>>, id: M.SessionId, d1: M.Device)
    requires M.SessionsValid(d) && d.nextTsn + 2 < TWO_TO_32
    requires DirectStart(d, hsn, spId, password) == (Ok(id), d1)
    ensures var sp := FindProvider(d.providers, spId);
      && sp >= 0 && !M.HasSession(d, sp) && id.tsn == d.nextTsn && id !in d.sessions
      && d1 == d.(sessions := d.sessions[id := sp], nextTsn := d.nextTsn + 1, response := None)
  {
    Add32Exact(d.nextTsn, 1);
  }

  lemma Busy(d: M.Device, hsn: uint32, spId: UID, password: Option<seq<byte>>, id: M.SessionId)
    requires PasswordFits(password) && id in d.sessions && d.sessions[id] == FindProvider(d.providers, spId)
    ensures DirectStart(d, hsn, spId, password) == (Err(InvocationFailure(SP_BUSY)), d.(response := None))
  {
    assert d.sessions[id] in d.sessions.Values;
  }

  lemma DirectLife(d: M.Device, hsn: uint32, spId: UID, password: Option<seq<byte>>, again: uint32,
                   password2: Option<seq<byte>>, id: M.SessionId, d1: M.Device, d2: M.Device, d3: M.Device)
    requires M.SessionsValid(d) && d.nextTsn + 2 < TWO_TO_32 && PasswordFits(password2)
    requires DirectStart(d, hsn, spId, password) == (Ok(id), d1)
    requires d2 == DirectStart(d1, again, spId, password2).1
    requires d3 == d2.(sessions := d2.sessions - {id}, response := None)
    ensures FindProvider(d.providers, spId) >= 0
    ensures id in d1.sessions && d1.sessions[id] == FindProvider(d.providers, spId)
    ensures d1.comIdExtension == d.comIdExtension
    ensures DirectStart(d1, again, spId, password2) == (Err(InvocationFailure(SP_BUSY)), d1)
    ensures d3.sessions == d.sessions
    ensures var r := DirectStart(d3, again, spId, password2).0; r.Ok? && r.value.tsn > id.tsn
  {
    hide M.SessionsValid, DirectStart, M.HasSession, PasswordFits, FindProvider;
    Opened(d, hsn, spId, password, id, d1);
    Busy(d1, again, spId, password2, id);
    assert d3.sessions == d.sessions;
    Free(d, d3, again, spId, password2);
  }

  lemma Free(d: M.Device, d3: M.Device, hsn: uint32, spId: UID, password: Option<seq<byte>>)
    requires PasswordFits(password) && FindProvider(d.providers, spId) >= 0
    requires !M.HasSession(d, FindProvider(d.providers, spId))
    requires d3.sessions == d.sessions && d3.providers == d.providers
    ensures DirectStart(d3, hsn, spId, password).0 == Ok(M.SessionId(d3.nextTsn, hsn))
  {
  }

  /**
   * From start to end: a started session is open for calls and keeps every other start on its provider out, with
   * the provider reported busy; once it has ended, the provider can be started again, under a number never used.
   */
  lemma SessionLife(d: M.Device, hsn: uint32, spId: UID, password: Option<seq<byte>>, authority: Option<UID>,
                    again: uint32, password2: Option<seq<byte>>, authority2: Option<UID>, env: M.Env, id: M.SessionId,
                    d1: M.Device, d2: M.Device, d3: M.Device)
    requires M.SessionsValid(d) && d.comIdExtension == 0 && d.nextTsn + 2 < TWO_TO_32
    requires PasswordFits(password2)
    requires HostStart(d, hsn, spId, password, authority, env) == (Ok(id), d1)
    requires d2 == HostStart(d1, again, spId, password2, authority2, env).1
    requires d3 == HostEnd(d2, id, env).1
    ensures FindProvider(d.providers, spId) >= 0
    ensures InSession(d1, Session(id, env), FindProvider(d.providers, spId))
    ensures HostStart(d1, again, spId, password2, authority2, env).0 == Err(InvocationFailure(SP_BUSY))
    ensures d2.sessions == d1.sessions
    ensures HostEnd(d2, id, env).0.Ok? && d3.sessions == d.sessions
    ensures var r := HostStart(d3, again, spId, password2, authority2, env).0; r.Ok? && r.value.tsn > id.tsn
  {
    hide HostStart, DirectStart, HostEnd, Settled, Answers, Ready, StartRequest, M.SessionsValid;
    StartRefines(d, hsn, spId, password, authority, env);
    StartKeepsExtension(d, hsn, spId, password);
    StartRefines(d1, again, spId, password2, authority2, env);
    StartKeepsExtension(d1, again, spId, password2);
    EndRefines(d2, id, env);
    DirectLife(d, hsn, spId, password, again, password2, id, d1, d2,
               d2.(sessions := d2.sessions - {id}, response := None));
    StartRefines(d3, again, spId, password2, authority2, env);
  }

  lemma StartKeepsExtension(d: M.Device, hsn: uint32, spId: UID, password: Option<seq<byte>>)
    ensures DirectStart(d, hsn, spId, password).1.comIdExtension == d.comIdExtension
  {
  }
}
