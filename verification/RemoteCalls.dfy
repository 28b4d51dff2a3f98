/** Host and mock device together: how a pending response is handed over, and what a remote call amounts to. */
module RemoteCalls {
  import opened Common
  import opened Values
  import opened Tokens
  import opened ComPackets
  import opened Methods
  import opened Rpc
  import opened WireSizes
  import opened Exchange
  import opened SessionMethods
  import M = MockDevice

  //
  // The hand-over of a pending response
  //

  /** Frames as the device leaves them pending: something in them, nothing outstanding, and they load. */
  predicate Deliverable(c: ComPacket) {
    && c.payload != [] && c.outstandingData == 0 && c.minTransfer == 0
    && PacketsBytes(c.payload) + 20 < TWO_TO_32 && PacketsLoadable(c.payload)
  }

  lemma DeliverableSize(c: ComPacket)
    requires Deliverable(c)
    ensures |SaveComPacket(c)| < TWO_TO_32
  {
    ComPacketSize(c);
    PacketsExact(c.payload);
  }

  lemma Overwritten(buffer: seq<byte>, data: seq<byte>)
    requires |data| <= |buffer|
    ensures Overwrite(buffer, data) == data + buffer[|data|..]
  {
  }

  lemma ShortFrameLoads(c: ComPacket, buffer: seq<byte>)
    requires c.payload == [] && |buffer| >= 20
    ensures |SaveComPacket(c)| == 20
    ensures LoadComPacket(Overwrite(buffer, SaveComPacket(c))) == Ok(c)
  {
    ComPacketSize(c);
    ComPacketRoundTripIff(c, buffer[20..]);
    Overwritten(buffer, SaveComPacket(c));
  }

  /** A receive big enough for the response hands it out whole and clears it. */
  lemma ReceiveDelivers(d: M.Device, c: ComPacket, h: Host<M.Device>)
    requires Deliverable(c) && d.response == Some(SaveComPacket(c))
    requires h.Running? && h.device == d && |SaveComPacket(c)| <= |h.buffer|
    ensures Step(M.Receive, h) == Stopped(d.(response := None), Conclude(h.received + [c]))
  {
    hide SaveComPacket, LoadComPacket;
    var frame := SaveComPacket(c);
    ComPacketRoundTripIff(c, h.buffer[|frame|..]);
    Overwritten(h.buffer, frame);
    assert M.Receive(d, |h.buffer|) == (Ok(frame), d.(response := None));
  }

  /** A receive too small for it leaves the response pending, and makes the host grow its buffer or give up. */
  lemma ReceiveTooSmall(d: M.Device, frame: seq<byte>, h: Host<M.Device>)
    requires d.response == Some(frame) && |frame| < TWO_TO_32
    requires h.Running? && h.device == d && 20 <= |h.buffer| < |frame|
    ensures var h' := Step(M.Receive, h);
      && h'.device == d
      && (|frame| < BUFFER_LIMIT ==>
            && h'.Running? && |h'.buffer| == |frame|
            && h'.received == h.received && h'.delay == h.delay && h'.total == h.total)
      && (|frame| >= BUFFER_LIMIT ==> h' == Stopped(d, Err(ProtocolFailure)))
  {
    hide SaveComPacket, LoadComPacket;
    var outstanding := M.OutstandingFrame(d, |frame|);
    ShortFrameLoads(outstanding, h.buffer);
    assert M.Receive(d, |h.buffer|) == (Ok(SaveComPacket(outstanding)), d);
  }

  /** With nothing pending, the device answers with an empty frame and the host finds no response. */
  lemma ReceiveNothing(d: M.Device)
    requires d.response == None
    ensures Run(M.Receive, Start(d), 1) == Stopped(d, Err(NoResponse))
  {
    hide SaveComPacket, LoadComPacket;
    var empty := M.EmptyFrame(d);
    ShortFrameLoads(empty, Zeros(INITIAL_BUFFER));
    assert M.Receive(d, INITIAL_BUFFER) == (Ok(SaveComPacket(empty)), d);
    assert Run(M.Receive, Start(d), 0) == Start(d);
  }

  /**
   * The handshake: after at most two receives the response has arrived intact and is no longer pending, or,
   * exactly when it has 1,048,576 bytes or more, the host has refused it and it is still pending.
   */
  lemma Handshake(d: M.Device, c: ComPacket)
    requires Deliverable(c) && d.response == Some(SaveComPacket(c))
    ensures Run(M.Receive, Start(d), 2) ==
      if |SaveComPacket(c)| < BUFFER_LIMIT then Stopped(d.(response := None), Ok(c))
      else Stopped(d, Err(ProtocolFailure))
    ensures Run(M.Receive, Start(d), 1).Stopped? <==>
      |SaveComPacket(c)| <= INITIAL_BUFFER || |SaveComPacket(c)| >= BUFFER_LIMIT
  {
    hide SaveComPacket, Step;
    DeliverableSize(c);
    var h0, h1 := Start(d), Run(M.Receive, Start(d), 1);
    assert Run(M.Receive, h0, 0) == h0;
    assert h1 == Step(M.Receive, h0);
    if |SaveComPacket(c)| <= INITIAL_BUFFER {
      ReceiveDelivers(d, c, h0);
      StoppedStays(M.Receive, h0, 1, 2);
    } else {
      ReceiveTooSmall(d, SaveComPacket(c), h0);
      if |SaveComPacket(c)| < BUFFER_LIMIT {
        ReceiveDelivers(d, c, h1);
      } else {
        StoppedStays(M.Receive, h0, 1, 2);
      }
    }
  }

  /** After the hand-over nothing is left: the next exchange of receives ends with no response. */
  lemma HandshakeHappensOnce(d: M.Device, c: ComPacket)
    requires Deliverable(c) && d.response == Some(SaveComPacket(c)) && |SaveComPacket(c)| < BUFFER_LIMIT
    ensures var h := Run(M.Receive, Start(d), 2);
      && h == Stopped(d.(response := None), Ok(c))
      && Run(M.Receive, Start(h.device), 1) == Stopped(h.device, Err(NoResponse))
  {
    Handshake(d, c);
    ReceiveNothing(d.(response := None));
  }

  //
  // One exchange with the mock device
  //

  /** The outcome of at most two receives, which is all the mock device needs. */
  function Settle(h: Host<M.Device>): (Result<ComPacket>, M.Device) {
    match h
    case Stopped(d, r) => (r, d)
    case Running(d, _, _, _, _) => (Err(NoResponse), d)
  }

  function Exchanged(d: M.Device, data: seq<byte>, env: M.Env): (Result<ComPacket>, M.Device) {
    var (sent, d') := M.Send(d, data, env);
    if sent.Err? then (Err(sent.error), d') else Settle(Run(M.Receive, Start(d'), 2))
  }

  /** Whenever the receive loop stops at all, it stops with what Exchanged describes. */
  lemma ExchangedIsTheLoop(d: M.Device, c: ComPacket, n: nat)
    requires Deliverable(c) && d.response == Some(SaveComPacket(c))
    requires Run(M.Receive, Start(d), n).Stopped?
    ensures Settle(Run(M.Receive, Start(d), n)) == Settle(Run(M.Receive, Start(d), 2))
  {
    hide SaveComPacket, Step;
    Handshake(d, c);
    StoppedStays(M.Receive, Start(d), n, n + 2);
    StoppedStays(M.Receive, Start(d), 2, n + 2);
  }

  /** The mock device never makes the host spin, so its exchanges always end. */
  lemma MockNeverSpins(d: M.Device, c: ComPacket, n: nat)
    requires Deliverable(c) && d.response == Some(SaveComPacket(c))
    ensures !Spins(M.Receive, Run(M.Receive, Start(d), n))
  {
    hide SaveComPacket, LoadComPacket;
    Handshake(d, c);
    DeliverableSize(c);
    assert Run(M.Receive, Start(d), 0) == Start(d);
    if n >= 2 {
      StoppedStays(M.Receive, Start(d), 2, n);
    } else if n == 0 && |SaveComPacket(c)| > INITIAL_BUFFER {
      ReceiveTooSmall(d, SaveComPacket(c), Start(d));
    }
  }

  /** What is pending, if anything, is a frame as the device builds them. */
  ghost predicate Settled(d: M.Device) {
    d.response.None? || exists c :: Deliverable(c) && d.response == Some(SaveComPacket(c))
  }

  lemma SettledRun(d: M.Device, n: nat)
    requires Settled(d)
    ensures !Spins(M.Receive, Run(M.Receive, Start(d), n))
    ensures Run(M.Receive, Start(d), n).Stopped? ==>
      Settle(Run(M.Receive, Start(d), n)) == Settle(Run(M.Receive, Start(d), 2))
  {
    hide SaveComPacket, M.Receive, Deliverable, Step;
    if d.response.None? {
      ReceiveNothing(d);
      StoppedStays(M.Receive, Start(d), 1, 2);
      if n > 0 {
        StoppedStays(M.Receive, Start(d), 1, n);
      } else {
        assert Run(M.Receive, Start(d), 0) == Start(d);
        assert Step(M.Receive, Start(d)) == Run(M.Receive, Start(d), 1);
      }
    } else {
      var c :| Deliverable(c) && d.response == Some(SaveComPacket(c));
      MockNeverSpins(d, c, n);
      if Run(M.Receive, Start(d), n).Stopped? {
        ExchangedIsTheLoop(d, c, n);
      }
    }
  }

  /** A frame that has been collected is gone, and one that was refused is still a frame as the device builds them. */
  lemma ExchangeSettles(d: M.Device, data: seq<byte>, env: M.Env)
    requires Settled(M.Send(d, data, env).1)
    ensures Settled(Exchanged(d, data, env).1)
  {
    hide SaveComPacket, M.Send, M.Receive, Deliverable, Run;
    var (sent, d') := M.Send(d, data, env);
    if sent.Ok? {
      if d'.response.None? {
        ReceiveNothing(d');
        StoppedStays(M.Receive, Start(d'), 1, 2);
      } else {
        var c :| Deliverable(c) && d'.response == Some(SaveComPacket(c));
        Handshake(d', c);
      }
    }
  }

  //
  // Remote calls
  //

  /** SendPacketizedValue: encode, exchange, decode. */
  function ExchangedValue(d: M.Device, id: M.SessionId, request: Value, isList: bool, env: M.Env)
    : (Result<Value>, M.Device)
  {
    var data := EncodeMessage(request, isList, Address(d.comId, d.comIdExtension, id.tsn, id.hsn));
    if data.Err? then (Err(data.error), d) else
    var (reply, d') := Exchanged(d, data.value, env);
    (ReadResponse(reply, isList), d')
  }

  function ReadResponse(reply: Result<ComPacket>, isList: bool): Result<Value> {
    var c :- reply;
    DecodeReply(c, isList)
  }

  /** CallRemoteMethod: the response is a result, and its status may raise. */
  function RemoteCall(d: M.Device, call: MethodCall, id: M.SessionId, env: M.Env): (Result<MethodResult>, M.Device) {
    var (response, d') := ExchangedValue(d, id, CallToValue(call), true, env);
    (ReadResult(response), d')
  }

  function ReadResult(response: Result<Value>): Result<MethodResult> {
    var v :- response;
    var result :- ResultFromValue(v);
    if Raises(result.status) then Err(InvocationFailure(result.status)) else Ok(result)
  }

  /** The arguments are in the range of their kinds, and a request that can be sent stays below 2^32 bytes. */
  predicate CallFits(call: MethodCall) {
    AllWellTyped(call.args) && (AllSendable(call.args) ==> CallSize(call.args) < MAX_PAYLOAD)
  }

  /** The same of a reply. */
  predicate ReplyFits(r: Result<MethodResult>) {
    r.Ok? ==>
      && AllWellTyped(r.value.values)
      && (AllSendable(r.value.values) ==> ResultSize(r.value.values) < MAX_PAYLOAD)
  }

  /** What the device makes of the call in the session, once it has arrived. */
  function DeviceResult(d: M.Device, call: MethodCall, id: M.SessionId, env: M.Env): Result<MethodResult>
    requires id in d.sessions
  {
    CallMethod(d.providers, d.sessions[id], call.(args := NormalAll(call.args)), env.random).0
  }

  /** What a call amounts to once the wire is taken away. */
  function DirectCall(d: M.Device, call: MethodCall, id: M.SessionId, env: M.Env): (Result<MethodResult>, M.Device)
    requires id in d.sessions
  {
    if !AllSendable(call.args) then (Err(InvalidArgument), d) else
    var (r, ps) := CallMethod(d.providers, d.sessions[id], call.(args := NormalAll(call.args)), env.random);
    var d' := d.(providers := ps);
    if r.Err? then (Err(M.Escaping(r.error)), d')
    else if !AllSendable(r.value.values) then (Err(DeviceFailure), d')
    else
      var frame := Frame(r.value, d, id);
      if FrameSize(ResultSize(r.value.values)) >= BUFFER_LIMIT then (Err(ProtocolFailure), d'.(response := Some(frame)))
      else if Raises(r.value.status) then (Err(InvocationFailure(r.value.status)), d'.(response := None))
      else (Ok(r.value.(values := NormalAll(r.value.values))), d'.(response := None))
  }

  function ReplyPacket(result: MethodResult, d: M.Device, id: M.SessionId): ComPacket {
    var payload := PayloadOf(ResultToValue(result), true);
    CreatePacket(if payload.Ok? then payload.value else [], M.ReplyAddress(d, id.tsn, id.hsn))
  }

  /** The reply as the device frames it. */
  function Frame(result: MethodResult, d: M.Device, id: M.SessionId): seq<byte> {
    SaveComPacket(ReplyPacket(result, d, id))
  }

  lemma {:induction false} TokenErrors(v: Value)
    ensures TokensOf(v).Err? ==> TokensOf(v).error == InvalidArgument
    decreases v, 1
  {
    match v
    case List(items) =>
      TokenErrorsAll(items);
    case Named(name, value) =>
      TokenErrors(name);
      TokenErrors(value);
    case _ =>
  }

  lemma {:induction false} TokenErrorsAll(vs: seq<Value>)
    ensures TokensOfAll(vs).Err? ==> TokensOfAll(vs).error == InvalidArgument
    decreases vs, 0
  {
    if vs != [] {
      TokenErrors(vs[0]);
      TokenErrorsAll(vs[1..]);
    }
  }

  lemma UnsendableError(v: Value, to: Address)
    requires WellTyped(v) && v.List? && !Sendable(v)
    ensures EncodeMessage(v, true, to) == Err(InvalidArgument)
  {
    PrintsExactlySendable(v);
    TokenErrors(v);
  }

  /** The reply frame is deliverable and reads back as the result in wire form. */
  lemma ReplyFrame(result: MethodResult, d: M.Device, id: M.SessionId)
    requires AllWellTyped(result.values) && AllSendable(result.values)
    requires ResultSize(result.values) < MAX_PAYLOAD
    ensures var c := ReplyPacket(result, d, id);
      && EncodeMessage(ResultToValue(result), true, M.ReplyAddress(d, id.tsn, id.hsn)) == Ok(SaveComPacket(c))
      && Frame(result, d, id) == SaveComPacket(c)
      && Deliverable(c)
      && |SaveComPacket(c)| == FrameSize(ResultSize(result.values))
      && ReadResult(ReadResponse(Ok(c), true)) ==
         if Raises(result.status) then Err(InvocationFailure(result.status))
         else Ok(result.(values := NormalAll(result.values)))
  {
    hide SaveComPacket, LoadComPacket, ValueOfPayload, PayloadOf, ResultFromValue, Raises;
    var to := M.ReplyAddress(d, id.tsn, id.hsn);
    ResultIsSendable(result);
    PayloadSizeIsExact(ResultToValue(result));
    ResultSizeIsExact(result);
    ResultTransparency(result, to, []);
    var payload := PayloadOf(ResultToValue(result), true).value;
    FrameRoundTrip(payload, to, []);
    CreatedIsDeliverable(payload, to);
  }

  lemma CreatedIsDeliverable(payload: seq<byte>, to: Address)
    requires |payload| < MAX_PAYLOAD
    ensures Deliverable(CreatePacket(payload, to))
  {
    var s := SubPacket(0, payload);
    var p := Packet(to.tsn, to.hsn, 0, 0, 0, [s]);
    assert [s][1..] == [] && [p][1..] == [];
    assert SubPacketsBytes([s]) == SubPacketBytes(s);
    assert PacketsBytes([p]) == 24 + SubPacketsBytes([s]);
    assert SubPacketsLoadable([s]) && PacketsLoadable([p]);
  }

  lemma SendReachesHandler(d: M.Device, call: MethodCall, id: M.SessionId, env: M.Env)
    requires d.comIdExtension == 0
    requires AllWellTyped(call.args) && AllSendable(call.args) && CallSize(call.args) < MAX_PAYLOAD
    ensures var data := EncodeMessage(CallToValue(call), true, Address(d.comId, d.comIdExtension, id.tsn, id.hsn));
      && data.Ok?
      && M.Send(d, data.value, env) == M.Handle(d, Call(call.(args := NormalAll(call.args)), id.tsn, id.hsn), env)
  {
    hide DecodeRequest, EncodeMessage, M.Handle, PayloadOf;
    CallIsSendable(call);
    PayloadSizeIsExact(CallToValue(call));
    CallSizeIsExact(call);
    CallTransparency(call, Address(d.comId, d.comIdExtension, id.tsn, id.hsn));
  }

  /** A call on the session manager that is not one of its methods, or in a session that is not open. */
  predicate Misdirected(d: M.Device, call: MethodCall, id: M.SessionId) {
    if call.invokingId == M.SESSION_MANAGER then call.methodId != M.PROPERTIES && call.methodId != M.START_SESSION
    else id !in d.sessions
  }

  /** Such a call is refused. */
  lemma RefusedCall(d: M.Device, call: MethodCall, id: M.SessionId, env: M.Env)
    requires d.comIdExtension == 0 && Misdirected(d, call, id) && CallFits(call)
    ensures RemoteCall(d, call, id, env)
            == (Err(if AllSendable(call.args) then DeviceFailure else InvalidArgument), d)
    ensures Settled(d) ==> Answers(d, call, id, env)
  {
    hide EncodeMessage, M.Send, Run, DecodeReply, ResultFromValue, Raises, Settled;
    CallIsSendable(call);
    if AllSendable(call.args) {
      SendReachesHandler(d, call, id, env);
    } else {
      UnsendableError(CallToValue(call), Address(d.comId, d.comIdExtension, id.tsn, id.hsn));
    }
  }

  /** A device with a ComID extension refuses every request of its own host, which stamps the extension on it. */
  lemma ExtensionRefusesAll(d: M.Device, call: MethodCall, id: M.SessionId, env: M.Env)
    requires d.comIdExtension != 0 && CallFits(call)
    ensures RemoteCall(d, call, id, env)
            == (Err(if AllSendable(call.args) then DeviceFailure else InvalidArgument), d)
  {
    hide SaveComPacket, LoadComPacket, PayloadOf, Run, DecodeReply, ResultFromValue, Raises;
    var to := Address(d.comId, d.comIdExtension, id.tsn, id.hsn);
    CallIsSendable(call);
    if AllSendable(call.args) {
      PayloadSizeIsExact(CallToValue(call));
      CallSizeIsExact(call);
      var payload := PayloadOf(CallToValue(call), true).value;
      FrameRoundTrip(payload, to, []);
      var data := SaveComPacket(CreatePacket(payload, to));
      assert data + [] == data;
    } else {
      UnsendableError(CallToValue(call), to);
    }
  }

  function RequestBytes(d: M.Device, id: M.SessionId, request: Value, isList: bool): Result<seq<byte>> {
    EncodeMessage(request, isList, Address(d.comId, d.comIdExtension, id.tsn, id.hsn))
  }

  /** The device comes out of the send with a frame to deliver, or none. */
  ghost predicate Ready(d: M.Device, id: M.SessionId, request: Value, isList: bool, env: M.Env) {
    var data := RequestBytes(d, id, request, isList);
    data.Ok? ==> Settled(M.Send(d, data.value, env).1)
  }

  ghost predicate Answers(d: M.Device, call: MethodCall, id: M.SessionId, env: M.Env) {
    Ready(d, id, CallToValue(call), true, env)
  }

  lemma ReadySettles(d: M.Device, id: M.SessionId, request: Value, isList: bool, env: M.Env)
    requires Settled(d) && Ready(d, id, request, isList, env)
    ensures Settled(ExchangedValue(d, id, request, isList, env).1)
  {
    hide EncodeMessage, M.Send, Settled, Exchanged, ReadResponse;
    var data := RequestBytes(d, id, request, isList);
    if data.Ok? {
      ExchangeSettles(d, data.value, env);
    }
  }

  /** What the device does with a call inside a session, once it has arrived. */
  function DirectSend(d: M.Device, call: MethodCall, id: M.SessionId, env: M.Env): (Result<()>, M.Device)
    requires id in d.sessions
  {
    var (r, ps) := CallMethod(d.providers, d.sessions[id], call.(args := NormalAll(call.args)), env.random);
    var d' := d.(providers := ps);
    if r.Err? then (Err(M.Escaping(r.error)), d')
    else if !AllSendable(r.value.values) then (Err(DeviceFailure), d')
    else (Ok(()), d'.(response := Some(SaveComPacket(ReplyPacket(r.value, d, id)))))
  }

  lemma SentCall(d: M.Device, call: MethodCall, id: M.SessionId, env: M.Env)
    requires d.comIdExtension == 0 && id in d.sessions && call.invokingId != M.SESSION_MANAGER
    requires CallFits(call) && AllSendable(call.args) && ReplyFits(DeviceResult(d, call, id, env))
    ensures RequestBytes(d, id, CallToValue(call), true).Ok?
    ensures M.Send(d, RequestBytes(d, id, CallToValue(call), true).value, env) == DirectSend(d, call, id, env)
  {
    hide CallMethod, EncodeMessage, ReplyPacket, Frame, M.Send, Raises, Deliverable, ReadResult;
    SendReachesHandler(d, call, id, env);
    var r := DeviceResult(d, call, id, env);
    if r.Ok? {
      ResultIsSendable(r.value);
      if AllSendable(r.value.values) {
        ReplyFrame(r.value, d, id);
      } else {
        UnsendableError(ResultToValue(r.value), M.ReplyAddress(d, id.tsn, id.hsn));
      }
    }
  }

  /** The host collects a pending reply, unless it is too long for its buffer. */
  lemma ReplyCollected(d: M.Device, result: MethodResult, id: M.SessionId, d': M.Device)
    requires AllWellTyped(result.values) && AllSendable(result.values)
    requires ResultSize(result.values) < MAX_PAYLOAD
    requires d'.response == Some(SaveComPacket(ReplyPacket(result, d, id)))
    ensures Settled(d')
    ensures var (reply, d'') := Settle(Run(M.Receive, Start(d'), 2));
      (ReadResult(ReadResponse(reply, true)), d'') ==
      if FrameSize(ResultSize(result.values)) >= BUFFER_LIMIT then (Err(ProtocolFailure), d')
      else if Raises(result.status) then (Err(InvocationFailure(result.status)), d'.(response := None))
      else (Ok(result.(values := NormalAll(result.values))), d'.(response := None))
  {
    hide ReplyPacket, DecodeReply, ResultFromValue, Run, Raises, Deliverable, SaveComPacket, ResultSize, Frame;
    ReplyFrame(result, d, id);
    Handshake(d', ReplyPacket(result, d, id));
  }

  /**
   * A remote call, all the way through tokens, bytes, frames, both state machines and back, is the direct call on
   * arguments in wire form, with its results in wire form.
   */
  lemma RemoteCallIsDirect(d: M.Device, call: MethodCall, id: M.SessionId, env: M.Env)
    requires d.comIdExtension == 0 && id in d.sessions && call.invokingId != M.SESSION_MANAGER
    requires CallFits(call) && (AllSendable(call.args) ==> ReplyFits(DeviceResult(d, call, id, env)))
    ensures RemoteCall(d, call, id, env) == DirectCall(d, call, id, env)
    ensures Settled(d) ==> Answers(d, call, id, env)
  {
    hide CallMethod, EncodeMessage, ReplyPacket, Settled, M.Send, Run, Raises, SaveComPacket, ResultSize, Settle;
    if AllSendable(call.args) {
      SentCall(d, call, id, env);
      var (r, ps) := CallMethod(d.providers, d.sessions[id], call.(args := NormalAll(call.args)), env.random);
      if r.Ok? && AllSendable(r.value.values) {
        ReplyCollected(d, r.value, id, DirectSend(d, call, id, env).1);
      } else {
        SameFrame(d, d.(providers := ps));
      }
    } else {
      CallIsSendable(call);
      UnsendableError(CallToValue(call), Address(d.comId, d.comIdExtension, id.tsn, id.hsn));
    }
  }

  lemma SameFrame(d: M.Device, d': M.Device)
    requires d'.response == d.response
    ensures Settled(d) <==> Settled(d')
  {
  }

  /** A call leaves the device with a frame to deliver, or none, and so ready for the next call. */
  lemma CallSettles(d: M.Device, call: MethodCall, id: M.SessionId, env: M.Env)
    requires Settled(d) && d.comIdExtension == 0 && CallFits(call)
    requires !Misdirected(d, call, id) ==>
      && call.invokingId != M.SESSION_MANAGER
      && (AllSendable(call.args) ==> ReplyFits(DeviceResult(d, call, id, env)))
    ensures Answers(d, call, id, env)
    ensures Settled(RemoteCall(d, call, id, env).1)
  {
    hide CallFits, Settled, ExchangedValue, ReadResult, Ready, DirectCall, DeviceResult, ReplyFits;
    if Misdirected(d, call, id) {
      RefusedCall(d, call, id, env);
    } else {
      RemoteCallIsDirect(d, call, id, env);
    }
    ReadySettles(d, id, CallToValue(call), true, env);
  }
}
