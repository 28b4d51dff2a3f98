/**
 * The host's calls as a program over a storage device (MethodUtils.cpp, SessionManager.cpp, Session.cpp), and whole
 * runs of it.
 */
module Template {
  import opened Common
  import opened Values
  import opened ComPackets
  import opened Methods
  import opened Rpc
  import opened Exchange
  import opened SessionMethods
  import opened RemoteCalls
  import opened HostSession
  import opened HostSessions
  import opened RemoteRuns
  import opened HostRequests
  import M = MockDevice

  //
  // A storage device that is the mock device
  //

  function BenchSend(envs: Envs, b: Bench, data: seq<byte>): (Result<()>, Bench) {
    var (r, d) := M.Send(b.device, data, envs(b.Count()));
    (r, Bench(d, b.sent + [data]))
  }

  function BenchReceive(b: Bench, size: nat): (Result<seq<byte>>, Bench) {
    var (r, d) := M.Receive(b.device, size);
    (r, Bench(d, b.sent))
  }

  ghost predicate IsBench(device: StorageDevice<Bench>, envs: Envs) {
    && (forall b: Bench, data: seq<byte> :: device.send(b, data) == BenchSend(envs, b, data))
    && (forall b: Bench, size: nat :: device.receive(b, size) == BenchReceive(b, size))
  }

  method NewBench(d: M.Device, envs: Envs) returns (device: StorageDevice<Bench>)
    ensures fresh(device) && IsBench(device, envs) && device.state == Bench(d, [])
  {
    hide M.Send, M.Receive;
    device := new StorageDevice(Bench(d, []),
                                (b, data) => BenchSend(envs, b, data), (b, size) => BenchReceive(b, size));
  }

  /** The loop variables over the bench, given those over the device alone. */
  function Lift(h: Host<M.Device>, sent: seq<seq<byte>>): Host<Bench> {
    match h
    case Running(d, buffer, delay, total, received) => Running(Bench(d, sent), buffer, delay, total, received)
    case Stopped(d, result) => Stopped(Bench(d, sent), result)
  }

  lemma LiftedStep(receive: Receiver<Bench>, h: Host<M.Device>, sent: seq<seq<byte>>)
    requires forall b: Bench, size: nat :: receive(b, size) == BenchReceive(b, size)
    ensures Step(receive, Lift(h, sent)) == Lift(Step(M.Receive, h), sent)
    ensures Spins(receive, Lift(h, sent)) <==> Spins(M.Receive, h)
  {
    hide M.Receive, LoadComPacket;
  }

  lemma {:induction false} LiftedRun(receive: Receiver<Bench>, h: Host<M.Device>, sent: seq<seq<byte>>, n: nat)
    requires forall b: Bench, size: nat :: receive(b, size) == BenchReceive(b, size)
    ensures Run(receive, Lift(h, sent), n) == Lift(Run(M.Receive, h, n), sent)
    ensures Spins(receive, Run(receive, Lift(h, sent), n)) <==> Spins(M.Receive, Run(M.Receive, h, n))
  {
    hide Step, Lift, Spins, BenchReceive;
    LiftedStep(receive, Run(M.Receive, h, n), sent);
    if n > 0 {
      LiftedRun(receive, h, sent, n - 1);
      LiftedStep(receive, Run(M.Receive, h, n - 1), sent);
    }
  }

  //
  // One exchange
  //

  lemma NeverSpins(device: StorageDevice<Bench>, envs: Envs, b: Bench, n: nat)
    requires IsBench(device, envs) && Settled(b.device)
    ensures !Spins(device.receive, Run(device.receive, Start(b), n))
    ensures Run(device.receive, Start(b), n) == Lift(Run(M.Receive, Start(b.device), n), b.sent)
  {
    hide M.Send, M.Receive, BenchReceive, Settled, Spins, Run;
    SettledRun(b.device, n);
    assert Lift(Start(b.device), b.sent) == Start(b);
    LiftedRun(device.receive, Start(b.device), b.sent, n);
  }

  /** The exchange will end. */
  lemma BenchExchange(device: StorageDevice<Bench>, envs: Envs, b: Bench, data: seq<byte>, b': Bench)
    requires IsBench(device, envs) && b' == BenchSend(envs, b, data).1 && Settled(b'.device)
    ensures device.send(b, data) == BenchSend(envs, b, data)
    ensures forall n: nat :: !Spins(device.receive, Run(device.receive, Start(b'), n))
  {
    hide M.Send, M.Receive, BenchReceive, Settled, Spins, Run;
    forall n: nat ensures !Spins(device.receive, Run(device.receive, Start(b'), n)) {
      NeverSpins(device, envs, b', n);
    }
  }

  /** And what it ends with is what the two receives of the handshake give. */
  lemma BenchReply(device: StorageDevice<Bench>, envs: Envs, b: Bench, data: seq<byte>, reply: Result<ComPacket>)
    requires IsBench(device, envs) && Settled(M.Send(b.device, data, envs(b.Count())).1)
    requires var (sent, b') := BenchSend(envs, b, data);
      if sent.Err? then reply == Err(sent.error) && device.state == b'
      else exists n: nat :: Run(device.receive, Start(b'), n) == Stopped(device.state, reply)
    ensures var (r, d) := Exchanged(b.device, data, envs(b.Count()));
      reply == r && device.state == Bench(d, b.sent + [data])
  {
    hide M.Send, M.Receive, BenchReceive, Settled, Run;
    var (sent, b') := BenchSend(envs, b, data);
    if sent.Ok? {
      var n: nat :| Run(device.receive, Start(b'), n) == Stopped(device.state, reply);
      SettledRun(b'.device, n);
      NeverSpins(device, envs, b', n);
    }
  }

  /** The bench after a request: one more message, if it could be encoded. */
  function Sent(b: Bench, id: M.SessionId, request: Value, isList: bool, d: M.Device): Bench {
    Bench(d, b.sent + Emitted(RequestBytes(b.device, id, request, isList)))
  }

  method SendPacketizedValue(device: StorageDevice<Bench>, ghost envs: Envs, id: M.SessionId, request: Value,
                             isList: bool)
    returns (r: Result<Value>)
    requires IsBench(device, envs)
    requires Ready(device.state.device, id, request, isList, envs(device.state.Count()))
    requires isList ==> request.List?
    modifies device
    ensures var b := old(device.state);
      var (response, d) := ExchangedValue(b.device, id, request, isList, envs(b.Count()));
      r == response && device.state == Sent(b, id, request, isList, d)
  {
    hide IsBench, PayloadOf, M.Send, M.Receive, Run, Settled, SaveComPacket, DecodeReply, Exchanged;
    ghost var b := device.state;
    var payload :- BuildPayload(request, isList);
    var requestPacket :=
      CreatePacket(payload, Address(device.state.device.comId, device.state.device.comIdExtension, id.tsn, id.hsn));
    ghost var data := SaveComPacket(requestPacket);
    BenchExchange(device, envs, b, data, BenchSend(envs, b, data).1);
    var reply := ExchangePacket(device, requestPacket);
    BenchReply(device, envs, b, data, reply);
    var responsePacket :- reply;
    r := ReadReply(responsePacket, isList);
  }

  /** CallRemoteMethod: the response is a result, and its status may raise. */
  method CallRemoteMethod(device: StorageDevice<Bench>, ghost envs: Envs, id: M.SessionId, call: MethodCall)
    returns (r: Result<MethodResult>)
    requires IsBench(device, envs) && Answers(device.state.device, call, id, envs(device.state.Count()))
    modifies device
    ensures var b := old(device.state);
      var (result, d) := RemoteCall(b.device, call, id, envs(b.Count()));
      r == result && device.state == Sent(b, id, CallToValue(call), true, d)
  {
    hide IsBench, ExchangedValue, CallToValue, Ready, RequestBytes, ResultFromValue, Raises;
    CallsAreLists(call);
    var response :- SendPacketizedValue(device, envs, id, CallToValue(call), true);
    var result :- ResultFromValue(response);
    if Raises(result.status) {
      return Err(InvocationFailure(result.status));
    }
    r := Ok(result);
  }

  lemma CallsAreLists(call: MethodCall)
    ensures CallToValue(call).List?
  {
  }

  /** CallRemoteSessionMethod: the response is itself a call, and its status may raise. */
  method CallRemoteSessionMethod(device: StorageDevice<Bench>, ghost envs: Envs, call: MethodCall)
    returns (r: Result<MethodResult>)
    requires IsBench(device, envs) && Answers(device.state.device, call, NO_SESSION, envs(device.state.Count()))
    modifies device
    ensures var b := old(device.state);
      var (result, d) := SessionManagerCall(b.device, call, envs(b.Count()));
      r == result && device.state == Sent(b, NO_SESSION, CallToValue(call), true, d)
  {
    hide IsBench, ExchangedValue, CallToValue, Ready, RequestBytes, CallFromValue, Raises;
    CallsAreLists(call);
    var response :- SendPacketizedValue(device, envs, NO_SESSION, CallToValue(call), true);
    var result :- CallFromValue(response);
    if Raises(result.status) {
      return Err(InvocationFailure(result.status));
    }
    r := Ok(MethodResult(result.args, result.status));
  }

  //
  // The session manager
  //

  /** Starts and ends sessions. */
  class SessionManager {
    const device: StorageDevice<Bench>
    ghost const envs: Envs

    constructor (device: StorageDevice<Bench>, ghost envs: Envs)
      ensures this.device == device && this.envs == envs
    {
      this.device, this.envs := device, envs;
    }

    /** StartSession, and Session::Start, which keeps the device's number next to its own. */
    method StartSession(hsn: uint32, spId: UID, password: Option<seq<byte>>, signingAuthority: Option<UID>)
      returns (r: Result<M.SessionId>)
      requires IsBench(device, envs)
      requires Answers(device.state.device, StartRequest(hsn, spId, password, signingAuthority), NO_SESSION,
                       envs(device.state.Count()))
      modifies device
      ensures var b := old(device.state);
        var (session, d) := HostStart(b.device, hsn, spId, password, signingAuthority, envs(b.Count()));
        r == session && device.state == After(b, Operation.StartSession(hsn, spId, password, signingAuthority), d)
      ensures old(device.state).device.comIdExtension == 0 && PasswordFits(password) ==>
        SaysStart(old(device.state), device.state, hsn, spId, password, signingAuthority)
    {
      hide IsBench, Answers, SessionManagerCall, StartRequest, RequestBytes, SaysStart,
           PasswordFits;
      ghost var b := device.state;
      if b.device.comIdExtension == 0 && PasswordFits(password) {
        StartIsSaid(b, HostStart(b.device, hsn, spId, password, signingAuthority, envs(b.Count())).1, hsn, spId,
                    password, signingAuthority);
      }
      var result := CallRemoteSessionMethod(device, envs, StartRequest(hsn, spId, password, signingAuthority));
      if result.Err? {
        return Err(result.error);
      }
      var unpacked := Unpack(2, 6, result.value.values);
      if unpacked.Err? {
        return Err(unpacked.error);
      }
      var required := unpacked.value.0;
      var _ :- GetInteger(required[0], U32);
      var tperSessionNumber :- GetInteger(required[1], U32);
      r := Ok(M.SessionId(tperSessionNumber, hsn));
    }

    method EndSession(id: M.SessionId) returns (r: Result<()>)
      requires IsBench(device, envs)
      requires Ready(device.state.device, id, Cmd(END_OF_SESSION), false, envs(device.state.Count()))
      modifies device
      ensures var b := old(device.state);
        var (done, d) := HostEnd(b.device, id, envs(b.Count()));
        r == done && device.state == After(b, Operation.EndSession(id), d)
    {
      hide IsBench, Ready, ExchangedValue, RequestBytes;
      var response := SendPacketizedValue(device, envs, id, Cmd(END_OF_SESSION), false);
      r := if response.Err? then Err(response.error) else Ok(());
    }
  }

  //
  // Templates
  //

  /** A host's session on a device: the methods of the base and the Opal template. */
  class SessionTemplate {
    const device: StorageDevice<Bench>
    const id: M.SessionId
    ghost const envs: Envs

    constructor (device: StorageDevice<Bench>, ghost envs: Envs, id: M.SessionId)
      ensures this.device == device && this.envs == envs && this.id == id
    {
      this.device, this.envs, this.id := device, envs, id;
    }

    /** The device answers the call. */
    ghost predicate Answered(call: MethodCall)
      reads device
    {
      IsBench(device, envs) && Answers(device.state.device, call, id, envs(device.state.Count()))
    }

    /** The session as the host holds it, for the next message. */
    ghost function Host(b: Bench): Session {
      Session(id, envs(b.Count()))
    }

    method Invoke(call: MethodCall, requiredResults: nat) returns (r: Result<seq<Value>>)
      requires Answered(call)
      modifies device
      ensures var b := old(device.state);
        var (results, d) := HostSession.Invoke(b.device, Host(b), call, requiredResults);
        r == results && device.state == Sent(b, id, CallToValue(call), true, d)
    {
      hide RemoteCall, IsBench, Answers, CallToValue, RequestBytes;
      var result := CallRemoteMethod(device, envs, id, call);
      if result.Err? {
        return Err(result.error);
      }
      var unpacked := Unpack(requiredResults, 0, result.value.values);
      if unpacked.Err? {
        return Err(unpacked.error);
      }
      r := Ok(unpacked.value.0);
    }

    method InvokeVoid(call: MethodCall) returns (r: Result<()>)
      requires Answered(call)
      modifies device
      ensures var b := old(device.state);
        var (done, d) := HostSession.InvokeVoid(b.device, Host(b), call);
        r == done && device.state == Sent(b, id, CallToValue(call), true, d)
    {
      hide IsBench, Answers, HostSession.Invoke, CallToValue, RequestBytes;
      var result := Invoke(call, 0);
      r := if result.Err? then Err(result.error) else Ok(());
    }

    method Set(uid: UID, columns: seq<uint32>, values: seq<Value>) returns (r: Result<()>)
      requires Answered(SetRequest(uid, columns, values))
      modifies device
      ensures var b := old(device.state);
        var (done, d) := HostSet(b.device, Host(b), uid, columns, values);
        r == done && device.state == After(b, Operation.Set(id, uid, columns, values), d)
    {
      hide IsBench, Answers, HostSession.Invoke, HostSession.InvokeVoid, RequestBytes, CallToValue;
      var labeledValues := LabelValues(columns, values);
      r := InvokeVoid(MethodCall(uid, SET, PackArgs([], [None, Some(List(labeledValues))]), SUCCESS));
    }

    method Get(uid: UID, startColumn: uint32, endColumn: uint32) returns (r: Result<seq<Value>>)
      requires Answered(GetRequest(uid, startColumn, endColumn))
      modifies device
      ensures var b := old(device.state);
        var (columns, d) := HostGet(b.device, Host(b), uid, startColumn, endColumn);
        r == columns && device.state == After(b, Operation.Get(id, uid, startColumn, endColumn), d)
    {
      hide IsBench, Answers, HostSession.Invoke, FillColumns, RequestBytes, CallToValue;
      var results := Invoke(GetRequest(uid, startColumn, endColumn), 1);
      if results.Err? {
        return Err(results.error);
      }
      if results.value == [] {
        return Err(BadParameterList);
      }
      var items := GetList(results.value[0]);
      if items.Err? {
        return Err(items.error);
      }
      r := StoreColumns((endColumn - startColumn) % TWO_TO_32, startColumn, items.value);
    }

    /** Get of a single column. */
    method GetOne(uid: UID, column: uint32) returns (r: Result<Value>)
      requires Answered(GetRequest(uid, column, Add32(column, 1)))
      modifies device
      ensures var b := old(device.state);
        var (value, d) := HostGetOne(b.device, Host(b), uid, column);
        r == value && device.state == After(b, Operation.Get(id, uid, column, Add32(column, 1)), d)
    {
      hide IsBench, Answers, HostGet, RequestBytes, CallToValue;
      var values := Get(uid, column, Add32(column, 1));
      if values.Err? {
        return Err(values.error);
      }
      if values.value == [] {
        return Err(InvalidResponse);
      }
      r := Ok(values.value[0]);
    }

    /** Next of a single row. */
    method NextOne(table: UID, row: Option<UID>) returns (r: Result<Option<UID>>)
      requires Answered(NextRequest(table, row, 1))
      modifies device
      ensures var b := old(device.state);
        var (uid, d) := HostNextOne(b.device, Host(b), table, row);
        r == uid && device.state == After(b, Operation.Next(id, table, row, 1), d)
    {
      hide IsBench, Answers, HostNext, RequestBytes, CallToValue;
      var nexts := Next(table, row, 1);
      if nexts.Err? {
        return Err(nexts.error);
      }
      r := Ok(if nexts.value == [] then None else Some(nexts.value[0]));
    }

    method Next(table: UID, row: Option<UID>, count: uint32) returns (r: Result<seq<UID>>)
      requires Answered(NextRequest(table, row, count))
      modifies device
      ensures var b := old(device.state);
        var (rows, d) := HostNext(b.device, Host(b), table, row, count);
        r == rows && device.state == After(b, Operation.Next(id, table, row, count), d)
    {
      hide IsBench, Answers, HostSession.Invoke, UidsOf, RequestBytes, CallToValue;
      var results := Invoke(NextRequest(table, row, count), 1);
      if results.Err? {
        return Err(results.error);
      }
      if results.value == [] {
        return Err(BadParameterList);
      }
      var items := GetList(results.value[0]);
      if items.Err? {
        return Err(items.error);
      }
      r := UidsOf(items.value);
    }

    method Authenticate(authority: UID, proof: Option<seq<byte>>) returns (r: Result<()>)
      requires Answered(AuthenticateRequest(authority, proof))
      modifies device
      ensures var b := old(device.state);
        var (done, d) := HostAuthenticate(b.device, Host(b), authority, proof);
        r == done && device.state == After(b, Operation.Authenticate(id, authority, proof), d)
    {
      hide IsBench, Answers, HostSession.Invoke, RequestBytes, CallToValue;
      var results := Invoke(AuthenticateRequest(authority, proof), 1);
      if results.Err? {
        return Err(results.error);
      }
      if results.value == [] {
        return Err(BadParameterList);
      }
      if !results.value[0].Integer? {
        return Err(NotImplemented);
      }
      r := if Cast(U8, results.value[0].n) == 0 then Err(PasswordRejected) else Ok(());
    }

    method GenKey(uid: UID, publicExponent: Option<uint32>, pinLength: Option<uint32>) returns (r: Result<()>)
      requires Answered(GenKeyRequest(uid, publicExponent, pinLength))
      modifies device
      ensures var b := old(device.state);
        var (done, d) := HostGenKey(b.device, Host(b), uid, publicExponent, pinLength);
        r == done && device.state == After(b, Operation.GenKey(id, uid, publicExponent, pinLength), d)
    {
      hide IsBench, Answers, HostSession.InvokeVoid, RequestBytes, CallToValue;
      r := InvokeVoid(GenKeyRequest(uid, publicExponent, pinLength));
    }

    method Revert(securityProvider: UID) returns (r: Result<()>)
      requires Answered(RevertRequest(securityProvider))
      modifies device
      ensures var b := old(device.state);
        var (done, d) := HostRevert(b.device, Host(b), securityProvider);
        r == done && device.state == After(b, Operation.Revert(id, securityProvider), d)
    {
      hide IsBench, Answers, HostSession.InvokeVoid, RequestBytes, CallToValue;
      r := InvokeVoid(RevertRequest(securityProvider));
    }

    method Activate(securityProvider: UID) returns (r: Result<()>)
      requires Answered(ActivateRequest(securityProvider))
      modifies device
      ensures var b := old(device.state);
        var (done, d) := HostActivate(b.device, Host(b), securityProvider);
        r == done && device.state == After(b, Operation.Activate(id, securityProvider), d)
    {
      hide IsBench, Answers, HostSession.InvokeVoid, RequestBytes, CallToValue;
      r := InvokeVoid(ActivateRequest(securityProvider));
    }
  }

  //
  // Runs of the program
  //

  /** One operation of a host, through the object it is a method of. */
  method Perform(device: StorageDevice<Bench>, ghost envs: Envs, op: Operation) returns (a: Answer)
    requires IsBench(device, envs)
    requires Ready(device.state.device, SentIn(op), RequestValue(op), !op.EndSession?, envs(device.state.Count()))
    modifies device
    ensures (a, device.state) == HostStep(old(device.state), envs, op)
  {
    hide IsBench, Ready, HostStart, HostEnd, HostGet, HostSet, HostNext, HostAuthenticate, HostGenKey, HostActivate,
         HostRevert, RequestBytes, StartRequest, GetRequest, SetRequest, NextRequest, AuthenticateRequest,
         GenKeyRequest, ActivateRequest, RevertRequest, CallToValue;
    match op {
      case StartSession(hsn, spId, password, signingAuthority) =>
        var manager := new SessionManager(device, envs);
        var session := manager.StartSession(hsn, spId, password, signingAuthority);
        a := SessionAnswer(session);
      case EndSession(id) =>
        var manager := new SessionManager(device, envs);
        var done := manager.EndSession(id);
        a := VoidAnswer(done);
      case Get(id, uid, startColumn, endColumn) =>
        var session := new SessionTemplate(device, envs, id);
        var columns := session.Get(uid, startColumn, endColumn);
        a := ColumnsAnswer(columns);
      case Set(id, uid, columns, values) =>
        var session := new SessionTemplate(device, envs, id);
        var done := session.Set(uid, columns, values);
        a := VoidAnswer(done);
      case Next(id, uid, row, count) =>
        var session := new SessionTemplate(device, envs, id);
        var rows := session.Next(uid, row, count);
        a := RowsAnswer(rows);
      case Authenticate(id, authority, proof) =>
        var session := new SessionTemplate(device, envs, id);
        var done := session.Authenticate(authority, proof);
        a := VoidAnswer(done);
      case GenKey(id, uid, publicExponent, pinLength) =>
        var session := new SessionTemplate(device, envs, id);
        var done := session.GenKey(uid, publicExponent, pinLength);
        a := VoidAnswer(done);
      case Activate(id, uid) =>
        var session := new SessionTemplate(device, envs, id);
        var done := session.Activate(uid);
        a := VoidAnswer(done);
      case Revert(id, uid) =>
        var session := new SessionTemplate(device, envs, id);
        var done := session.Revert(uid);
        a := VoidAnswer(done);
    }
  }

  /**
   * A run of the program itself: the hosts' methods one after another, each with its own receive loop, on a device
   * that is the mock device. The answers are those of the plain server, the device ends up holding what the server
   * holds, and what it has been told is the operations.
   */
  method Execute(device: StorageDevice<Bench>, ghost envs: Envs, ghost s: Server, ops: seq<Operation>)
    returns (answers: seq<Answer>)
    requires IsBench(device, envs) && Bears(device.state, s, device.state.Count())
    requires RunFits(s, envs, device.state.Count(), ops)
    modifies device
    ensures var (plain, s') := PlainRun(s, envs, old(device.state.Count()), ops);
      answers == plain && Bears(device.state, s', old(device.state.Count()) + MessagesOf(ops))
    ensures var b := old(device.state);
      b.sent <= device.state.sent && Transcript(Added(b, device.state), b.device.comId, ops)
  {
    hide IsBench, Bears, PlainStep, PlainRun, RunFits, Fits, Messages, MessagesOf, HostStep, HostRun, Ready,
         Transcript;
    answers := [];
    ghost var sent, server, first := device.state.Count(), s, device.state;
    RunIsTranscribed(first, s, envs, ops);
    assert ops[0..] == ops && [] + PlainRun(s, envs, sent, ops).0 == PlainRun(s, envs, sent, ops).0;
    for i := 0 to |ops|
      invariant device.state.Count() + MessagesOf(ops[i..]) == sent + MessagesOf(ops)
      invariant Bears(device.state, server, device.state.Count())
      invariant RunFits(server, envs, device.state.Count(), ops[i..])
      invariant HostRun(device.state, envs, ops[i..]).1 == HostRun(first, envs, ops).1
      invariant PlainRun(s, envs, sent, ops)
        == (answers + PlainRun(server, envs, device.state.Count(), ops[i..]).0,
            PlainRun(server, envs, device.state.Count(), ops[i..]).1)
    {
      ghost var b := device.state;
      assert ops[i..][0] == ops[i] && ops[i..][1..] == ops[i + 1..];
      RunStarts(server, envs, b.Count(), ops[i..]);
      RunInSteps(b, envs, ops[i..]);
      RequestIsReady(b, server, envs, ops[i]);
      var a := Perform(device, envs, ops[i]);
      StepKeepsBench(b, server, envs, ops[i]);
      server := PlainStep(server, envs(b.Count()).random, ops[i]).1;
      SentCount(device.state, server, b.Count() + Messages(ops[i]));
      AppendAssociates(answers, [a], PlainRun(server, envs, device.state.Count(), ops[i + 1..]).0);
      answers := answers + [a];
    }
    RunEnds(server, envs, device.state.Count());
    RunInSteps(device.state, envs, []);
    assert ops[|ops|..] == [] && answers + [] == answers;
  }

  lemma RunStarts(s: Server, envs: Envs, sent: nat, ops: seq<Operation>)
    requires ops != [] && RunFits(s, envs, sent, ops)
    ensures var (a, s1) := PlainStep(s, envs(sent).random, ops[0]);
      var next := sent + Messages(ops[0]);
      && Fits(s, ops[0]) && RunFits(s1, envs, next, ops[1..])
      && MessagesOf(ops) == Messages(ops[0]) + MessagesOf(ops[1..])
      && PlainRun(s, envs, sent, ops)
         == ([a] + PlainRun(s1, envs, next, ops[1..]).0, PlainRun(s1, envs, next, ops[1..]).1)
  {
    hide PlainStep, Fits, Messages;
  }

  lemma RunEnds(s: Server, envs: Envs, sent: nat)
    ensures PlainRun(s, envs, sent, []) == ([], s) && MessagesOf([]) == 0
  {
  }

  lemma RequestIsReady(b: Bench, s: Server, envs: Envs, op: Operation)
    requires Bears(b, s, b.Count()) && Fits(s, op)
    ensures Ready(b.device, SentIn(op), RequestValue(op), !op.EndSession?, envs(b.Count()))
  {
    hide Stores, Fits, Settled, Ready, StepAgrees, RequestValue, RequestBytes, Leaves;
    StepRefines(b.device, s, envs(b.Count()), op);
  }
}
