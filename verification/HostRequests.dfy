/**
 * What a drive is told: the bytes that each operation of a host puts on the wire, as the device decodes them
 * (Session.cpp, SessionManager.cpp, Method.hpp).
 */
module HostRequests {
  import opened Common
  import opened FlatBinary
  import opened Values
  import opened Methods
  import opened Rpc
  import opened WireSizes
  import opened Exchange
  import opened SessionMethods
  import opened RemoteCalls
  import opened HostSession
  import opened RemoteTable
  import opened HostTables
  import opened HostCredentials
  import opened HostSessions
  import opened HostKeys
  import opened RemoteRuns
  import M = MockDevice

  //
  // Requests as they are read
  //

  /** A call without anything wrong, on an object and of a method, whose arguments are these. */
  predicate Invokes(call: MethodCall, invokingId: UID, methodId: UID, required: seq<Value>,
                    optionals: seq<Option<Value>>)
  {
    && call.invokingId == invokingId && call.methodId == methodId && call.status == 0x00
    && UnpackArgs(|required|, |optionals|, call.args) == Ok((required, optionals))
  }

  function Octets(b: Option<seq<byte>>): Option<Value> {
    match b
    case Some(bytes) => Some(Bytes(bytes))
    case None => None
  }

  function Identifier(u: Option<UID>): Option<Value> {
    match u
    case Some(uid) => Some(Bytes(BigEndian(uid, 8)))
    case None => None
  }

  function Count(n: Option<uint32>): Option<Value> {
    match n
    case Some(number) => Some(Integer(U32, number))
    case None => None
  }

  /**
   * Behind the host's number, the provider and the wish to write, the password is the host challenge and the authority
   * the host signing authority; the other seven parameters of a start are absent.
   */
  predicate AsksToStart(call: MethodCall, hsn: uint32, spId: UID, password: Option<seq<byte>>, authority: Option<UID>)
  {
    && call.invokingId == 0xFF && call.methodId == 0xFF02 && call.status == 0x00
    && var unpacked := UnpackArgs(3, 9, call.args);
    && unpacked.Ok?
    && var (required, slots) := unpacked.value;
    && required == [Integer(U32, hsn), Bytes(BigEndian(spId, 8)), Integer(U8, 1)]
    && |slots| == 9
    && slots[0] == Octets(password)
    && slots[1] == None
    && slots[2] == None
    && slots[3] == Identifier(authority)
    && slots[4] == None && slots[5] == None && slots[6] == None && slots[7] == None && slots[8] == None
  }

  /** Columns from the first up to, and with, the last. */
  function Range(startColumn: uint32, endColumn: uint32): Value {
    List([Named(Integer(U16, 3), Integer(U32, startColumn)),
          Named(Integer(U16, 4), Integer(U32, if endColumn == 0 then 0xFFFF_FFFF else endColumn - 1))])
  }

  /** The columns with their values, which the wire has put into its form, as far as there are both. */
  predicate ListsCells(v: Value, columns: seq<uint32>, values: seq<Value>) {
    && v.List? && |v.items| == (if |columns| < |values| then |columns| else |values|)
    && forall i :: 0 <= i < |v.items| ==> v.items[i] == Named(Integer(U32, columns[i]), Normal(values[i]))
  }

  /** The call says what the operation is. */
  predicate Says(op: Operation, call: MethodCall)
    requires !op.EndSession?
  {
    match op
    case Get(_, uid, startColumn, endColumn) =>
      Invokes(call, uid, 0x6_0000_0016, [Range(startColumn, endColumn)], [])
    case Set(_, uid, columns, values) =>
      && call.invokingId == uid && call.methodId == 0x6_0000_0017 && call.status == 0x00
      && var unpacked := UnpackArgs(0, 2, call.args);
      && unpacked.Ok? && |unpacked.value.1| == 2 && unpacked.value.1[0] == None && unpacked.value.1[1].Some?
      && ListsCells(unpacked.value.1[1].value, columns, values)
    case Next(_, uid, row, count) =>
      Invokes(call, uid, 0x6_0000_0008, [], [Identifier(row), Some(Integer(U32, count))])
    case Authenticate(_, authority, proof) =>
      Invokes(call, 0x1, 0x6_0000_001C, [Bytes(BigEndian(authority, 8))], [Octets(proof)])
    case GenKey(_, uid, publicExponent, pinLength) =>
      Invokes(call, uid, 0x6_0000_0010, [], [Count(publicExponent), Count(pinLength)])
    case Activate(_, uid) => Invokes(call, uid, 0x6_0000_0203, [], [])
    case Revert(_, uid) => Invokes(call, uid, 0x6_0000_0202, [], [])
    case StartSession(hsn, spId, password, authority) => AsksToStart(call, hsn, spId, password, authority)
  }

  /** The message, at a device with the ComID, is the operation, under the numbers of its session or of none. */
  ghost predicate Asks(op: Operation, data: seq<byte>, comId: uint16) {
    match op
    case EndSession(id) => DecodeRequest(data, comId) == Ok(Request.EndOfSession(id.tsn, id.hsn))
    case StartSession(_, _, _, _) =>
      exists call :: DecodeRequest(data, comId) == Ok(Call(call, 0, 0)) && Says(op, call)
    case _ =>
      exists call :: DecodeRequest(data, comId) == Ok(Call(call, op.id.tsn, op.id.hsn)) && Says(op, call)
  }

  /** The request can be encoded and stays below 2^32 bytes. */
  predicate Sayable(op: Operation) {
    Leaves(op) && (op.Set? ==> SetFits(op.columns, op.values))
  }

  //
  // Each operation
  //

  /**
   * The message under which a session is started: if the device has no ComID extension and the password fits an atom,
   * exactly one, and the device reads it as the start that was asked for.
   */
  ghost predicate SaysStart(b: Bench, b': Bench, hsn: uint32, spId: UID, password: Option<seq<byte>>,
                            authority: Option<UID>)
  {
    && |b'.sent| == |b.sent| + 1 && b'.sent[..|b.sent|] == b.sent
    && exists call ::
         DecodeRequest(b'.sent[|b.sent|], b.device.comId) == Ok(Call(call, 0, 0))
         && AsksToStart(call, hsn, spId, password, authority)
  }

  lemma StartIsSaid(b: Bench, d: M.Device, hsn: uint32, spId: UID, password: Option<seq<byte>>, authority: Option<UID>)
    requires b.device.comIdExtension == 0 && PasswordFits(password)
    ensures SaysStart(b, After(b, Operation.StartSession(hsn, spId, password, authority), d), hsn, spId, password,
                      authority)
  {
    hide DecodeRequest, RequestBytes, AsksToStart, RequestValue;
    OperationArrives(b.device, Operation.StartSession(hsn, spId, password, authority));
  }

  /** The call as it arrives. */
  function Arrived(call: MethodCall): MethodCall {
    call.(args := NormalAll(call.args))
  }

  predicate Travels(call: MethodCall) {
    AllWellTyped(call.args) && AllSendable(call.args) && CallSize(call.args) < MAX_PAYLOAD
  }

  lemma GetSays(op: Operation)
    requires op.Get?
    ensures Travels(CallOf(op)) && Says(op, Arrived(CallOf(op)))
  {
    hide UnpackArgs, PackArgs, AllSendable, AllWellTyped, CallSize, ParseCellBlock, NormalAll;
    GetArguments(op.startColumn, op.endColumn);
    assert CallOf(op).args == [ColumnBlock(op.startColumn, op.endColumn)] by {
      BareArguments([ColumnBlock(op.startColumn, op.endColumn)]);
    }
  }

  lemma BareArguments(required: seq<Value>)
    ensures PackArgs(required, []) == required
  {
  }

  lemma SetSays(op: Operation)
    requires op.Set? && Sayable(op)
    ensures Travels(CallOf(op)) && Says(op, Arrived(CallOf(op)))
  {
    hide UnpackArgs, PackArgs, AllSendable, AllWellTyped, CallSize, Normal;
    SetArguments(op.columns, op.values);
    var items := NormalAll(LabelCells(op.columns, op.values));
    forall i | 0 <= i < |items| ensures items[i] == Named(Integer(U32, op.columns[i]), Normal(op.values[i])) {
      NumberedValue(U32, op.columns[i], op.values[i]);
    }
  }

  lemma NextSays(op: Operation)
    requires op.Next?
    ensures Travels(CallOf(op)) && Says(op, Arrived(CallOf(op)))
  {
    hide UnpackArgs, PackArgs, AllSendable, AllWellTyped, CallSize, NormalAll, BigEndian;
    NextArguments(op.row, op.count);
  }

  lemma AuthenticateSays(op: Operation)
    requires op.Authenticate? && Leaves(op)
    ensures Travels(CallOf(op)) && Says(op, Arrived(CallOf(op)))
  {
    hide UnpackArgs, PackArgs, AllSendable, AllWellTyped, CallSize, NormalAll, BigEndian;
    AuthenticateArguments(op.authority, op.proof);
    ProofSize(op.authority, op.proof);
  }

  lemma GenKeySays(op: Operation)
    requires op.GenKey?
    ensures Travels(CallOf(op)) && Says(op, Arrived(CallOf(op)))
  {
    hide UnpackArgs, PackArgs, AllSendable, AllWellTyped, CallSize, NormalAll;
    GenKeyFits(op.publicExponent, op.pinLength);
  }

  lemma ProviderCallSays(op: Operation)
    requires op.Activate? || op.Revert?
    ensures Travels(CallOf(op)) && Says(op, Arrived(CallOf(op)))
  {
    hide UnpackArgs, PackArgs, AllSendable, AllWellTyped, CallSize, NormalAll;
    NoArgumentsFit();
  }

  lemma StartSays(op: Operation)
    requires op.StartSession? && Leaves(op)
    ensures Travels(CallOf(op)) && Says(op, Arrived(CallOf(op)))
  {
    hide UnpackArgs, PackArgs, AllSendable, AllWellTyped, CallSize, NormalAll, BigEndian, M.StartParameters;
    StartArguments(op.hsn, op.spId, op.password, op.signingAuthority);
    StartSize(op.hsn, op.spId, op.password, op.signingAuthority);
    StartUnpacks(op.hsn, op.spId, op.password, op.signingAuthority);
  }

  lemma StartUnpacks(hsn: uint32, spId: UID, password: Option<seq<byte>>, authority: Option<UID>)
    ensures UnpackArgs(3, 9, NormalAll(StartRequest(hsn, spId, password, authority).args))
            == Ok(([Integer(U32, hsn), Bytes(BigEndian(spId, 8)), Integer(U8, 1)],
                   [Octets(password), None, None, Identifier(authority), None, None, None, None, None]))
  {
    hide UnpackArgs, PackArgs, BigEndian;
    var required, optionals := StartRequired(hsn, spId), StartOptionals(password, authority);
    UnpackAcrossWire(required, optionals);
    assert NormalAll(required) == [Integer(U32, hsn), Bytes(BigEndian(spId, 8)), Integer(U8, 1)];
    assert NormalOptionals(optionals)
        == [Octets(password), None, None, Identifier(authority), None, None, None, None, None];
  }

  lemma CallSays(op: Operation)
    requires !op.EndSession? && Sayable(op)
    ensures Travels(CallOf(op)) && Says(op, Arrived(CallOf(op)))
  {
    hide CallOf, Says, Travels, Leaves, SetFits, Arrived;
    match op
    case Get(_, _, _, _) => GetSays(op);
    case Set(_, _, _, _) => SetSays(op);
    case Next(_, _, _, _) => NextSays(op);
    case Authenticate(_, _, _) => AuthenticateSays(op);
    case GenKey(_, _, _, _) => GenKeySays(op);
    case Activate(_, _) => ProviderCallSays(op);
    case Revert(_, _) => ProviderCallSays(op);
    case StartSession(_, _, _, _) => StartSays(op);
  }

  /** A call that can travel arrives, under the numbers it is sent with. */
  lemma CallArrives(d: M.Device, call: MethodCall, id: M.SessionId)
    requires d.comIdExtension == 0 && Travels(call)
    ensures var data := RequestBytes(d, id, CallToValue(call), true);
      data.Ok? && DecodeRequest(data.value, d.comId) == Ok(Call(Arrived(call), id.tsn, id.hsn))
  {
    hide DecodeRequest, EncodeMessage, PayloadOf, AllWellTyped, AllSendable, CallSize;
    CallIsSendable(call);
    PayloadSizeIsExact(CallToValue(call));
    CallSizeIsExact(call);
    CallTransparency(call, Address(d.comId, d.comIdExtension, id.tsn, id.hsn));
  }

  /** The bytes that an operation puts on the wire are decoded by the device as that operation, to the last argument. */
  lemma OperationArrives(d: M.Device, op: Operation)
    requires d.comIdExtension == 0 && Sayable(op)
    ensures var data := RequestBytes(d, SentIn(op), RequestValue(op), !op.EndSession?);
      data.Ok? && Asks(op, data.value, d.comId)
  {
    hide DecodeRequest, EncodeMessage, Says, Travels, CallOf, Arrived, CallToValue, Leaves;
    if op.EndSession? {
      EndOfSessionTransparency(Address(d.comId, d.comIdExtension, op.id.tsn, op.id.hsn));
    } else {
      CallSays(op);
      CallArrives(d, CallOf(op), SentIn(op));
    }
  }

  //
  // Runs
  //

  /** The messages of a run: one for each operation whose request can be encoded, in order. */
  ghost predicate Transcript(sent: seq<seq<byte>>, comId: uint16, ops: seq<Operation>)
    decreases |ops|
  {
    if ops == [] then sent == []
    else if Leaves(ops[0]) then sent != [] && Asks(ops[0], sent[0], comId) && Transcript(sent[1..], comId, ops[1..])
    else Transcript(sent, comId, ops[1..])
  }

  lemma {:induction false} ReceivesKeepComId(d: M.Device, n: nat)
    ensures Run(M.Receive, Start(d), n).device.comId == d.comId
  {
    hide Step, M.Receive;
    if n > 0 {
      ReceivesKeepComId(d, n - 1);
      ReceiveKeepsComId(Run(M.Receive, Start(d), n - 1));
    }
  }

  lemma ReceiveKeepsComId(h: Host<M.Device>)
    ensures Step(M.Receive, h).device.comId == h.device.comId
  {
    hide Conclude, M.Written;
  }

  lemma StepKeepsComId(b: Bench, envs: Envs, op: Operation)
    ensures HostStep(b, envs, op).1.device.comId == b.device.comId
  {
    hide DeviceStep, ExchangedValue, Run, EncodeMessage, M.Send, RequestValue, ReadResponse, M.Receive;
    var d, env := b.device, envs(b.Count());
    StepIsSent(d, env, op);
    var data := RequestBytes(d, SentIn(op), RequestValue(op), !op.EndSession?);
    if data.Ok? {
      var _ := M.EventChanges(d, M.Sending(data.value, env));
      ReceivesKeepComId(M.Send(d, data.value, env).1, 2);
    }
    ValueExchanged(d, SentIn(op), RequestValue(op), !op.EndSession?, env);
  }

  lemma ValueExchanged(d: M.Device, id: M.SessionId, request: Value, isList: bool, env: M.Env)
    ensures ExchangedValue(d, id, request, isList, env).1 ==
      var data := RequestBytes(d, id, request, isList);
      if data.Ok? then Exchanged(d, data.value, env).1 else d
  {
    hide EncodeMessage, Exchanged, ReadResponse;
  }

  /** One operation of a host that the device's server serves. */
  lemma StepIsSaid(b: Bench, s: Server, envs: Envs, op: Operation)
    requires Bears(b, s, b.Count()) && RemoteRuns.Fits(s, op)
    ensures HostStep(b, envs, op).1.sent ==
      b.sent + Emitted(RequestBytes(b.device, SentIn(op), RequestValue(op), !op.EndSession?))
    ensures var said := Emitted(RequestBytes(b.device, SentIn(op), RequestValue(op), !op.EndSession?));
      if Leaves(op) then |said| == 1 && Asks(op, said[0], b.device.comId) else said == []
  {
    hide DeviceStep, Stores, RemoteRuns.Fits, RequestValue, RequestBytes, Leaves, Asks, StepAgrees, Settled, Ready,
         Sayable;
    StepRefines(b.device, s, envs(b.Count()), op);
    NoExtension(b.device, s);
    SayableIfFit(s, op);
    if Leaves(op) {
      OperationArrives(b.device, op);
    }
  }

  lemma NoExtension(d: M.Device, s: Server)
    requires Stores(d, s)
    ensures d.comIdExtension == 0
  {
  }

  lemma SayableIfFit(s: Server, op: Operation)
    requires RemoteRuns.Fits(s, op)
    ensures Sayable(op) <==> Leaves(op)
  {
  }

  /** The messages a run adds to those before it. */
  function Added(b: Bench, b': Bench): seq<seq<byte>>
    requires b.Count() <= b'.Count()
  {
    b'.sent[b.Count()..]
  }

  /**
   * Whatever hosts ask for, in any sessions and in any order, is what the device is told: the messages of a run are its
   * operations, one after another, without those whose request cannot be encoded.
   */
  lemma {:induction false} RunIsTranscribed(b: Bench, s: Server, envs: Envs, ops: seq<Operation>)
    requires Bears(b, s, b.Count()) && RunFits(s, envs, b.Count(), ops)
    ensures var b' := HostRun(b, envs, ops).1;
      b.sent <= b'.sent && Transcript(Added(b, b'), b.device.comId, ops)
    decreases |ops|
  {
    hide HostStep, PlainStep, Bears, RemoteRuns.Fits, Leaves, Asks, RequestBytes;
    if ops != [] {
      StepIsSaid(b, s, envs, ops[0]);
      StepKeepsBench(b, s, envs, ops[0]);
      StepKeepsComId(b, envs, ops[0]);
      var b1, s1 := HostStep(b, envs, ops[0]).1, PlainStep(s, envs(b.Count()).random, ops[0]).1;
      SentCount(b1, s1, b.Count() + Messages(ops[0]));
      RunIsTranscribed(b1, s1, envs, ops[1..]);
      var b2 := HostRun(b, envs, ops).1;
      assert b2 == HostRun(b1, envs, ops[1..]).1;
      AddedJoin(b.sent, b1.sent, b2.sent);
    }
  }

  /** The first operation of a run, and the rest of it. */
  lemma RunInSteps(b: Bench, envs: Envs, ops: seq<Operation>)
    ensures HostRun(b, envs, ops).1 == if ops == [] then b else HostRun(HostStep(b, envs, ops[0]).1, envs, ops[1..]).1
  {
    hide HostStep;
  }

  lemma AddedJoin(a: seq<seq<byte>>, b: seq<seq<byte>>, c: seq<seq<byte>>)
    requires a <= b <= c
    ensures a <= c && c[|a|..] == b[|a|..] + c[|b|..]
  {
  }
}
