/**
 * Runs of a host over the wire, in any sessions and in any order, refine runs of a plain server that has a map of
 * cells and a table of sessions (Session.cpp, SessionManager.cpp, MockDevice.cpp and everything between them).
 */
module RemoteRuns {
  import opened Common
  import opened Values
  import opened Methods
  import opened ComPackets
  import opened Rpc
  import opened WireSizes
  import opened State
  import opened SessionMethods
  import opened RemoteCalls
  import opened HostSession
  import opened RemoteTable
  import opened Credentials
  import opened HostTables
  import opened HostCredentials
  import opened HostSessions
  import opened HostKeys
  import M = MockDevice

  /** What hosts ask for: the methods of a session, and the start and the end of one. */
  datatype Operation =
    | Get(id: M.SessionId, uid: UID, startColumn: uint32, endColumn: uint32)
    | Set(id: M.SessionId, uid: UID, columns: seq<uint32>, values: seq<Value>)
    | Next(id: M.SessionId, uid: UID, row: Option<UID>, count: uint32)
    | Authenticate(id: M.SessionId, authority: UID, proof: Option<seq<byte>>)
    | GenKey(id: M.SessionId, uid: UID, publicExponent: Option<uint32>, pinLength: Option<uint32>)
    | Activate(id: M.SessionId, uid: UID)
    | Revert(id: M.SessionId, uid: UID)
    | StartSession(hsn: uint32, spId: UID, password: Option<seq<byte>>, signingAuthority: Option<UID>)
    | EndSession(id: M.SessionId)

  datatype Answer =
    | ColumnsAnswer(columns: Result<seq<Value>>)
    | RowsAnswer(rows: Result<seq<UID>>)
    | VoidAnswer(done: Result<()>)
    | SessionAnswer(session: Result<M.SessionId>)

  //
  // Over the wire
  //

  function DeviceStep(d: M.Device, env: M.Env, op: Operation): (Answer, M.Device) {
    match op
    case Get(id, uid, startColumn, endColumn) =>
      var (r, d') := HostGet(d, Session(id, env), uid, startColumn, endColumn);
      (ColumnsAnswer(r), d')
    case Set(id, uid, columns, values) =>
      var (r, d') := HostSet(d, Session(id, env), uid, columns, values);
      (VoidAnswer(r), d')
    case Next(id, uid, row, count) =>
      var (r, d') := HostNext(d, Session(id, env), uid, row, count);
      (RowsAnswer(r), d')
    case Authenticate(id, authority, proof) =>
      var (r, d') := HostAuthenticate(d, Session(id, env), authority, proof);
      (VoidAnswer(r), d')
    case GenKey(id, uid, publicExponent, pinLength) =>
      var (r, d') := HostGenKey(d, Session(id, env), uid, publicExponent, pinLength);
      (VoidAnswer(r), d')
    case Activate(id, uid) =>
      var (r, d') := HostActivate(d, Session(id, env), uid);
      (VoidAnswer(r), d')
    case Revert(id, uid) =>
      var (r, d') := HostRevert(d, Session(id, env), uid);
      (VoidAnswer(r), d')
    case StartSession(hsn, spId, password, signingAuthority) =>
      var (r, d') := HostStart(d, hsn, spId, password, signingAuthority, env);
      (SessionAnswer(r), d')
    case EndSession(id) =>
      var (r, d') := HostEnd(d, id, env);
      (VoidAnswer(r), d')
  }

  /** The call that an operation sends; the end of a session is no call. */
  function CallOf(op: Operation): MethodCall
    requires !op.EndSession?
  {
    match op
    case Get(_, uid, startColumn, endColumn) => GetRequest(uid, startColumn, endColumn)
    case Set(_, uid, columns, values) => SetRequest(uid, columns, values)
    case Next(_, uid, row, count) => NextRequest(uid, row, count)
    case Authenticate(_, authority, proof) => AuthenticateRequest(authority, proof)
    case GenKey(_, uid, publicExponent, pinLength) => GenKeyRequest(uid, publicExponent, pinLength)
    case Activate(_, uid) => ActivateRequest(uid)
    case Revert(_, uid) => RevertRequest(uid)
    case StartSession(hsn, spId, password, signingAuthority) => StartRequest(hsn, spId, password, signingAuthority)
  }

  /** The value that an operation sends, and the session it is sent in. */
  function RequestValue(op: Operation): Value {
    if op.EndSession? then Cmd(END_OF_SESSION) else CallToValue(CallOf(op))
  }

  function SentIn(op: Operation): M.SessionId {
    if op.StartSession? then NO_SESSION else op.id
  }

  /** A device, and the messages it has been sent: each of them is handled in an environment of its own. */
  datatype Bench = Bench(device: M.Device, sent: seq<seq<byte>>) {
    function Count(): nat { |sent| }
  }

  type Envs = nat -> M.Env

  /** A request that can be encoded is a message. */
  function Emitted(data: Result<seq<byte>>): seq<seq<byte>> {
    if data.Ok? then [data.value] else []
  }

  /** One more message has been sent, if the request could be encoded. */
  function After(b: Bench, op: Operation, d: M.Device): Bench {
    Bench(d, b.sent + Emitted(RequestBytes(b.device, SentIn(op), RequestValue(op), !op.EndSession?)))
  }

  function HostStep(b: Bench, envs: Envs, op: Operation): (Answer, Bench) {
    var (a, d) := DeviceStep(b.device, envs(b.Count()), op);
    (a, After(b, op, d))
  }

  function HostRun(b: Bench, envs: Envs, ops: seq<Operation>): (seq<Answer>, Bench)
    decreases |ops|
  {
    if ops == [] then ([], b)
    else
      var (a, b1) := HostStep(b, envs, ops[0]);
      var (answers, b2) := HostRun(b1, envs, ops[1..]);
      ([a] + answers, b2)
  }

  //
  // The plain server
  //

  /** The open sessions, each with the position of its provider. */
  type Sessions = map<M.SessionId, nat>

  /** Registered providers with the rows of their tables, the cells, the open sessions and the next session number. */
  datatype ServerRecord = Server(
    spIds: seq<UID>,
    lists: seq<RowLists>,
    cells: Cells,
    sessions: Sessions,
    nextTsn: uint32)

  type Server = s: ServerRecord | |s.lists| == |s.spIds| && forall i :: i in s.sessions ==> s.sessions[i] < |s.spIds|
    witness Server([], [], map[], map[], 0)

  /** Calls on the session manager's identifier and calls in a session that is not open never reach a table. */
  predicate Reaches(s: Server, id: M.SessionId, uid: UID) {
    uid != M.SESSION_MANAGER && id in s.sessions
  }

  /** The request can be encoded. */
  predicate Leaves(op: Operation) {
    match op
    case Set(_, _, columns, values) => AllSendable(values[..Min(|columns|, |values|)])
    case Authenticate(_, _, proof) => ProofFits(proof)
    case StartSession(_, _, password, _) => PasswordFits(password)
    case _ => true
  }

  /** The messages an operation, and a run, sends to the device. */
  function Messages(op: Operation): nat {
    if Leaves(op) then 1 else 0
  }

  function MessagesOf(ops: seq<Operation>): nat {
    if ops == [] then 0 else Messages(ops[0]) + MessagesOf(ops[1..])
  }

  function PlainStep(s: Server, random: nat -> seq<byte>, op: Operation): (Answer, Server) {
    match op
    case Get(id, uid, startColumn, endColumn) =>
      (ColumnsAnswer(if Reaches(s, id, uid) then PlainGet(s.cells, s.sessions[id], uid, startColumn, endColumn)
                     else Err(DeviceFailure)), s)
    case Set(id, uid, columns, values) =>
      if !Leaves(op) then (VoidAnswer(Err(InvalidArgument)), s)
      else if !Reaches(s, id, uid) then (VoidAnswer(Err(DeviceFailure)), s)
      else
        var (r, m) := PlainSet(s.cells, s.sessions[id], uid, columns, values);
        (VoidAnswer(r), s.(cells := m))
    case Next(id, uid, row, count) =>
      (RowsAnswer(if Reaches(s, id, uid) then PlainNext(s.lists[s.sessions[id]], uid, row, count)
                  else Err(DeviceFailure)), s)
    case Authenticate(id, authority, proof) =>
      (VoidAnswer(if !Leaves(op) then Err(InvalidArgument)
                  else if id in s.sessions
                  then PlainAuthenticate(s.lists[s.sessions[id]], s.cells, s.sessions[id], authority, proof)
                  else Err(DeviceFailure)), s)
    case GenKey(id, uid, _, pinLength) =>
      if !Reaches(s, id, uid) then (VoidAnswer(Err(DeviceFailure)), s)
      else
        var (r, m) := PlainGenKey(s.cells, s.sessions[id], uid, pinLength, random);
        (VoidAnswer(r), s.(cells := m))
    case Activate(id, uid) =>
      if !Reaches(s, id, uid) then (VoidAnswer(Err(DeviceFailure)), s)
      else
        var (r, m) := PlainActivate(s.spIds, s.cells, s.sessions[id], uid);
        (VoidAnswer(r), s.(cells := m))
    case Revert(id, uid) =>
      (VoidAnswer(if Reaches(s, id, uid) then PlainRevert(s.cells, s.sessions[id], uid) else Err(DeviceFailure)), s)
    case StartSession(hsn, spId, password, _) =>
      var sp := IndexOf(s.spIds, spId);
      if !Leaves(op) then (SessionAnswer(Err(InvalidArgument)), s)
      else if sp < 0 then (SessionAnswer(Err(InvocationFailure(INVALID_PARAMETER))), s)
      else if sp in s.sessions.Values then (SessionAnswer(Err(InvocationFailure(SP_BUSY))), s)
      else
        var id := M.SessionId(s.nextTsn, hsn);
        (SessionAnswer(Ok(id)), s.(sessions := s.sessions[id := sp], nextTsn := Add32(s.nextTsn, 1)))
    case EndSession(id) =>
      if id in s.sessions then (VoidAnswer(Ok(())), s.(sessions := s.sessions - {id}))
      else (VoidAnswer(Err(DeviceFailure)), s)
  }

  /** A run of the plain server, whose key generation draws from the environment of the message. */
  function PlainRun(s: Server, envs: Envs, sent: nat, ops: seq<Operation>): (seq<Answer>, Server)
    decreases |ops|
  {
    if ops == [] then ([], s)
    else
      var (a, s1) := PlainStep(s, envs(sent).random, ops[0]);
      var (answers, s2) := PlainRun(s1, envs, sent + Messages(ops[0]), ops[1..]);
      ([a] + answers, s2)
  }

  /** Integers are in the range of their kinds, and frames stay below 2^32 bytes. */
  predicate Fits(s: Server, op: Operation) {
    match op
    case Get(id, uid, startColumn, endColumn) =>
      id in s.sessions ==> GetFits(s.cells, s.sessions[id], uid, startColumn, endColumn)
    case Set(_, _, columns, values) => SetFits(columns, values)
    case Next(id, uid, _, _) => id in s.sessions ==> NextFits(s.lists[s.sessions[id]], uid)
    case _ => true
  }

  predicate RunFits(s: Server, envs: Envs, sent: nat, ops: seq<Operation>)
    decreases |ops|
  {
    ops == [] ||
    (&& Fits(s, ops[0])
     && RunFits(PlainStep(s, envs(sent).random, ops[0]).1, envs, sent + Messages(ops[0]), ops[1..]))
  }

  //
  // Refinement
  //

  function ListsOf(ps: seq<Provider>): (lists: seq<RowLists>)
    ensures |lists| == |ps| && forall i :: 0 <= i < |ps| ==> lists[i] == RowsOf(ps[i].tables)
  {
    seq(|ps|, i requires 0 <= i < |ps| => RowsOf(ps[i].tables))
  }

  /** The device holds exactly what the server holds. */
  ghost predicate Stores(d: M.Device, s: Server) {
    && d.comIdExtension == 0
    && ValidProviders(d.providers) && Filed(d.providers)
    && Represents(d.providers, s.cells) && AllTyped(s.cells)
    && s.spIds == SpIds(d.providers) && s.lists == ListsOf(d.providers)
    && s.sessions == d.sessions && s.nextTsn == d.nextTsn
  }

  lemma ShapeKeepsLists(ps: seq<Provider>, qs: seq<Provider>)
    requires SameShape(ps, qs)
    ensures SpIds(qs) == SpIds(ps) && ListsOf(qs) == ListsOf(ps)
  {
    forall i | 0 <= i < |ps| ensures RowsOf(qs[i].tables) == RowsOf(ps[i].tables) {
      assert SameTables(ps[i].tables, qs[i].tables);
    }
  }

  lemma TablesWritten(d: M.Device, s: Server, d': M.Device, m: Cells)
    requires Stores(d, s) && StillStores(d, d', m)
    ensures Stores(d', s.(cells := m))
  {
    hide Represents, ValidProviders, AllTyped, Filed, SameShape;
    ShapeKeepsFiling(d.providers, d'.providers);
    ShapeKeepsLists(d.providers, d'.providers);
  }

  lemma NothingWritten(d: M.Device, s: Server, d': M.Device)
    requires Stores(d, s) && OnlyResponse(d, d')
    ensures Stores(d', s)
  {
  }

  lemma Served(d: M.Device, s: Server, host: Session)
    requires Stores(d, s) && host.id in s.sessions
    ensures Serves(d, host, s.sessions[host.id], s.cells) && InSession(d, host, s.sessions[host.id])
    ensures s.lists[s.sessions[host.id]] == RowsOf(d.providers[s.sessions[host.id]].tables)
  {
  }

  /** One operation on the device gives the answer of the server, and leaves the device with what the server holds. */
  ghost predicate StepAgrees(d: M.Device, s: Server, env: M.Env, op: Operation) {
    var (a, d') := DeviceStep(d, env, op);
    var (plain, s') := PlainStep(s, env.random, op);
    a == plain && Stores(d', s')
  }

  /** The call can be sent exactly if the server says so, and neither it nor its reply outgrows the length fields. */
  predicate CallIsFit(d: M.Device, env: M.Env, op: Operation)
    requires !op.EndSession? && !op.StartSession?
  {
    var call := CallOf(op);
    && CallFits(call) && (AllSendable(call.args) <==> Leaves(op))
    && call.methodId != M.PROPERTIES && call.methodId != M.START_SESSION
    && (!Misdirected(d, call, op.id) && Leaves(op) ==> ReplyFits(DeviceResult(d, call, op.id, env)))
  }

  lemma RefusedVoid(d: M.Device, host: Session, call: MethodCall)
    requires d.comIdExtension == 0 && Misdirected(d, call, host.id) && CallFits(call)
    ensures InvokeVoid(d, host, call) == (Err(if AllSendable(call.args) then DeviceFailure else InvalidArgument), d)
  {
    hide RemoteCall, AllSendable, CallFits;
    RefusedCall(d, call, host.id, host.env);
  }

  lemma GetStep(d: M.Device, s: Server, env: M.Env, op: Operation)
    requires op.Get? && Stores(d, s) && Fits(s, op)
    ensures StepAgrees(d, s, env, op) && CallIsFit(d, env, op)
  {
    hide HostGet, PlainGet, Stores, GetFits, CallFits, ReplyFits, DeviceResult, AllSendable, GetRequest, RemoteCall;
    var host := Session(op.id, env);
    var (a, d') := DeviceStep(d, env, op);
    GetIdentifiers(op.uid, op.startColumn, op.endColumn);
    Outline(d, s);
    if Reaches(s, op.id, op.uid) {
      Served(d, s, host);
      GetRefines(d, host, s.sessions[op.id], s.cells, op.uid, op.startColumn, op.endColumn);
      NothingWritten(d, s, d');
    } else {
      RefusedGet(d, host, op.uid, op.startColumn, op.endColumn);
    }
  }

  lemma Outline(d: M.Device, s: Server)
    requires Stores(d, s)
    ensures d.comIdExtension == 0 && d.sessions == s.sessions
  {
  }

  lemma GetIdentifiers(uid: UID, startColumn: uint32, endColumn: uint32)
    ensures GetRequest(uid, startColumn, endColumn).invokingId == uid
    ensures GetRequest(uid, startColumn, endColumn).methodId == GET
  {
  }

  lemma RefusedGet(d: M.Device, host: Session, uid: UID, startColumn: uint32, endColumn: uint32)
    requires d.comIdExtension == 0 && (uid == M.SESSION_MANAGER || host.id !in d.sessions)
    ensures var request := GetRequest(uid, startColumn, endColumn); CallFits(request) && AllSendable(request.args)
    ensures HostGet(d, host, uid, startColumn, endColumn) == (Err(DeviceFailure), d)
  {
    hide RemoteCall, PackArgs, AllSendable, CollectColumns, UnpackResult, ColumnBlock, CallSize;
    GetArguments(startColumn, endColumn);
    RefusedCall(d, GetRequest(uid, startColumn, endColumn), host.id, host.env);
    PropagatesErrors(startColumn, endColumn);
  }

  lemma SetStep(d: M.Device, s: Server, env: M.Env, op: Operation)
    requires op.Set? && Stores(d, s) && Fits(s, op)
    ensures StepAgrees(d, s, env, op) && CallIsFit(d, env, op)
  {
    hide InvokeVoid, PlainSet, Stores, CallFits, ReplyFits, DeviceResult, AllSendable, SetRequest, RemoteCall,
         Represents, ValidProviders, AllTyped, SameShape;
    var host := Session(op.id, env);
    SetCallFits(op.uid, op.columns, op.values);
    Outline(d, s);
    if Reaches(s, op.id, op.uid) {
      Served(d, s, host);
      SetRefines(d, host, s.sessions[op.id], s.cells, op.uid, op.columns, op.values);
      UnsendableSetFails(s.cells, s.sessions[op.id], op.uid, op.columns, op.values);
      var (r, d') := HostSet(d, host, op.uid, op.columns, op.values);
      TablesWritten(d, s, d', PlainSet(s.cells, s.sessions[op.id], op.uid, op.columns, op.values).1);
    } else {
      RefusedVoid(d, host, SetRequest(op.uid, op.columns, op.values));
    }
  }

  lemma SetCallFits(uid: UID, columns: seq<uint32>, values: seq<Value>)
    requires SetFits(columns, values)
    ensures var request := SetRequest(uid, columns, values);
      && request.invokingId == uid && request.methodId == SET && CallFits(request)
      && (AllSendable(request.args) <==> AllSendable(values[..Min(|columns|, |values|)]))
  {
    hide PackArgs, AllSendable, LabelCells, CallSize;
    SetArguments(columns, values);
  }

  lemma UnsendableSetFails(m: Cells, p: nat, uid: UID, columns: seq<uint32>, values: seq<Value>)
    ensures !AllSendable(values[..Min(|columns|, |values|)]) ==>
      PlainSet(m, p, uid, columns, values) == (Err(InvalidArgument), m)
  {
  }

  lemma NextStep(d: M.Device, s: Server, env: M.Env, op: Operation)
    requires op.Next? && Stores(d, s) && Fits(s, op)
    ensures StepAgrees(d, s, env, op) && CallIsFit(d, env, op)
  {
    hide HostNext, PlainNext, Stores, NextFits, CallFits, ReplyFits, DeviceResult, AllSendable, NextRequest, RemoteCall;
    var host := Session(op.id, env);
    NextIdentifiers(op.uid, op.row, op.count);
    Outline(d, s);
    if Reaches(s, op.id, op.uid) {
      Served(d, s, host);
      NextRefines(d, host, s.sessions[op.id], op.uid, op.row, op.count);
      NothingWritten(d, s, HostNext(d, host, op.uid, op.row, op.count).1);
    } else {
      RefusedNext(d, host, op.uid, op.row, op.count);
    }
  }

  lemma NextIdentifiers(uid: UID, row: Option<UID>, count: uint32)
    ensures NextRequest(uid, row, count).invokingId == uid && NextRequest(uid, row, count).methodId == NEXT
  {
  }

  lemma RefusedNext(d: M.Device, host: Session, uid: UID, row: Option<UID>, count: uint32)
    requires d.comIdExtension == 0 && (uid == M.SESSION_MANAGER || host.id !in d.sessions)
    ensures var request := NextRequest(uid, row, count); CallFits(request) && AllSendable(request.args)
    ensures HostNext(d, host, uid, row, count) == (Err(DeviceFailure), d)
  {
    hide RemoteCall, PackArgs, AllSendable, CollectUids, UnpackResult, CallSize, UidValues;
    NextArguments(row, count);
    RefusedCall(d, NextRequest(uid, row, count), host.id, host.env);
    ErrorsPropagate();
  }

  lemma AuthenticateStep(d: M.Device, s: Server, env: M.Env, op: Operation)
    requires op.Authenticate? && Stores(d, s)
    ensures StepAgrees(d, s, env, op) && CallIsFit(d, env, op)
  {
    hide HostAuthenticate, PlainAuthenticate, Stores, CallFits, ReplyFits, DeviceResult, AllSendable,
         AuthenticateRequest, RemoteCall, Filed;
    var host := Session(op.id, env);
    AuthenticateIdentifiers(op.authority, op.proof);
    Outline(d, s);
    if op.id in s.sessions {
      Served(d, s, host);
      FiledStore(d, s);
      HostAuthenticateIsCheck(d, host, s.sessions[op.id], op.authority, op.proof);
      AuthenticateRefines(d, host, s.sessions[op.id], s.cells, op.authority, op.proof);
      if !ProofFits(op.proof) {
        LongProof(s.lists[s.sessions[op.id]], s.cells, s.sessions[op.id], op.authority, op.proof);
      }
      NothingWritten(d, s, HostAuthenticate(d, host, op.authority, op.proof).1);
    } else {
      RefusedAuthenticate(d, host, op.authority, op.proof);
    }
  }

  lemma FiledStore(d: M.Device, s: Server)
    requires Stores(d, s)
    ensures Filed(d.providers) && SpIds(d.providers) == s.spIds
  {
  }

  lemma AuthenticateIdentifiers(authority: UID, proof: Option<seq<byte>>)
    ensures AuthenticateRequest(authority, proof).invokingId == THIS_SP != M.SESSION_MANAGER
    ensures AuthenticateRequest(authority, proof).methodId == AUTHENTICATE
  {
  }

  lemma RefusedAuthenticate(d: M.Device, host: Session, authority: UID, proof: Option<seq<byte>>)
    requires d.comIdExtension == 0 && host.id !in d.sessions
    ensures var request := AuthenticateRequest(authority, proof);
      CallFits(request) && (AllSendable(request.args) <==> ProofFits(proof))
    ensures HostAuthenticate(d, host, authority, proof)
            == (Err(if ProofFits(proof) then DeviceFailure else InvalidArgument), d)
  {
    hide RemoteCall, PackArgs, AllSendable, Accepted, UnpackResult, CallSize, UidBytes;
    AuthenticateArguments(authority, proof);
    if ProofFits(proof) {
      ProofSize(authority, proof);
    }
    RefusedCall(d, AuthenticateRequest(authority, proof), host.id, host.env);
    FailurePropagates();
  }

  lemma GenKeyStep(d: M.Device, s: Server, env: M.Env, op: Operation)
    requires op.GenKey? && Stores(d, s)
    ensures StepAgrees(d, s, env, op) && CallIsFit(d, env, op)
  {
    hide InvokeVoid, PlainGenKey, Stores, CallFits, ReplyFits, DeviceResult, AllSendable, GenKeyRequest, RemoteCall,
         StillStores;
    var host := Session(op.id, env);
    GenKeyCallFits(op.uid, op.publicExponent, op.pinLength);
    Outline(d, s);
    if Reaches(s, op.id, op.uid) {
      Served(d, s, host);
      GenKeyRefines(d, host, s.sessions[op.id], s.cells, op.uid, op.publicExponent, op.pinLength);
      var (r, d') := HostGenKey(d, host, op.uid, op.publicExponent, op.pinLength);
      TablesWritten(d, s, d', PlainGenKey(s.cells, s.sessions[op.id], op.uid, op.pinLength, env.random).1);
    } else {
      RefusedVoid(d, host, GenKeyRequest(op.uid, op.publicExponent, op.pinLength));
    }
  }

  lemma GenKeyCallFits(uid: UID, publicExponent: Option<uint32>, pinLength: Option<uint32>)
    ensures var request := GenKeyRequest(uid, publicExponent, pinLength);
      && request.invokingId == uid && request.methodId == GEN_KEY && CallFits(request) && AllSendable(request.args)
  {
    hide PackArgs, AllSendable, AllWellTyped, CallSize, UnpackArgs;
    GenKeyFits(publicExponent, pinLength);
  }

  lemma ProviderCallsFit(uid: UID)
    ensures forall request :: request in {ActivateRequest(uid), RevertRequest(uid)} ==>
      request.invokingId == uid && CallFits(request) && AllSendable(request.args)
    ensures ActivateRequest(uid).methodId == ACTIVATE && RevertRequest(uid).methodId == REVERT
  {
    hide CallSize, UnpackArgs;
    NoArgumentsFit();
  }

  lemma ActivateStep(d: M.Device, s: Server, env: M.Env, op: Operation)
    requires op.Activate? && Stores(d, s)
    ensures StepAgrees(d, s, env, op) && CallIsFit(d, env, op)
  {
    hide InvokeVoid, PlainActivate, Stores, CallFits, ReplyFits, DeviceResult, AllSendable, ActivateRequest,
         RevertRequest, RemoteCall, StillStores, Filed;
    var host := Session(op.id, env);
    ProviderCallsFit(op.uid);
    Outline(d, s);
    if Reaches(s, op.id, op.uid) {
      Served(d, s, host);
      FiledStore(d, s);
      ActivateRefines(d, host, s.sessions[op.id], s.cells, op.uid);
      TablesWritten(d, s, HostActivate(d, host, op.uid).1,
                    PlainActivate(s.spIds, s.cells, s.sessions[op.id], op.uid).1);
    } else {
      RefusedVoid(d, host, ActivateRequest(op.uid));
    }
  }

  lemma RevertStep(d: M.Device, s: Server, env: M.Env, op: Operation)
    requires op.Revert? && Stores(d, s)
    ensures StepAgrees(d, s, env, op) && CallIsFit(d, env, op)
  {
    hide InvokeVoid, PlainRevert, Stores, CallFits, ReplyFits, DeviceResult, AllSendable, ActivateRequest,
         RevertRequest, RemoteCall, Filed;
    var host := Session(op.id, env);
    ProviderCallsFit(op.uid);
    Outline(d, s);
    if Reaches(s, op.id, op.uid) {
      Served(d, s, host);
      FiledStore(d, s);
      RevertRefines(d, host, s.sessions[op.id], s.cells, op.uid);
      NothingWritten(d, s, HostRevert(d, host, op.uid).1);
    } else {
      RefusedVoid(d, host, RevertRequest(op.uid));
    }
  }

  lemma StartStores(d: M.Device, s: Server, random: nat -> seq<byte>, op: Operation)
    requires op.StartSession? && Stores(d, s)
    ensures var (r, d') := DirectStart(d, op.hsn, op.spId, op.password);
      var (plain, s') := PlainStep(s, random, op);
      plain == SessionAnswer(r) && Stores(d', s')
  {
    hide Represents, ValidProviders, AllTyped, Filed, FindProvider, IndexOf, PasswordFits, RowsOf;
    FoundAtIndex(d.providers, op.spId);
  }

  lemma StartStep(d: M.Device, s: Server, env: M.Env, op: Operation)
    requires op.StartSession? && Stores(d, s)
    ensures StepAgrees(d, s, env, op)
    ensures Settled(d) ==> Answers(d, CallOf(op), NO_SESSION, env)
    ensures RequestBytes(d, NO_SESSION, RequestValue(op), true).Ok? <==> Leaves(op)
  {
    hide HostStart, DirectStart, PlainStep, Stores, Settled, Answers, EncodeMessage, StartRequest;
    Outline(d, s);
    StartRefines(d, op.hsn, op.spId, op.password, op.signingAuthority, env);
    StartStores(d, s, env.random, op);
    StartLeaves(op.hsn, op.spId, op.password, op.signingAuthority, Address(d.comId, d.comIdExtension, 0, 0));
  }

  lemma StartLeaves(hsn: uint32, spId: UID, password: Option<seq<byte>>, authority: Option<UID>, to: Address)
    ensures EncodeMessage(CallToValue(StartRequest(hsn, spId, password, authority)), true, to).Ok?
            <==> PasswordFits(password)
  {
    hide EncodeMessage, PackArgs, AllSendable, AllWellTyped, M.StartParameters;
    if PasswordFits(password) {
      StartArguments(hsn, spId, password, authority);
    } else {
      LongPassword(hsn, spId, password, authority);
    }
    CallEncodesIff(StartRequest(hsn, spId, password, authority), to);
  }

  lemma EndStep(d: M.Device, s: Server, env: M.Env, op: Operation)
    requires op.EndSession? && Stores(d, s)
    ensures StepAgrees(d, s, env, op)
    ensures Settled(d) ==> Ready(d, op.id, RequestValue(op), false, env)
    ensures RequestBytes(d, op.id, RequestValue(op), false).Ok?
  {
    hide HostEnd, Represents, ValidProviders, AllTyped, Filed, Settled, Ready, SaveComPacket;
    EndRefines(d, op.id, env);
    EndOfSessionPayload();
  }

  /** Every operation agrees with the server, and its request is encoded exactly if the server says so. */
  lemma StepRefines(d: M.Device, s: Server, env: M.Env, op: Operation)
    requires Stores(d, s) && Fits(s, op)
    ensures StepAgrees(d, s, env, op)
    ensures RequestBytes(d, SentIn(op), RequestValue(op), !op.EndSession?).Ok? <==> Leaves(op)
    ensures Settled(d) ==> Ready(d, SentIn(op), RequestValue(op), !op.EndSession?, env)
  {
    hide StepAgrees, Stores, Fits, CallFits, ReplyFits, AllSendable, Settled, EncodeMessage, DeviceResult, Ready,
         CallOf, Leaves;
    match op
    case StartSession(_, _, _, _) =>
      StartStep(d, s, env, op);
    case EndSession(_) =>
      EndStep(d, s, env, op);
      AlwaysLeaves(op);
    case Get(_, _, _, _) =>
      GetStep(d, s, env, op);
      CallIsSent(d, s, env, op);
    case Set(_, _, _, _) =>
      SetStep(d, s, env, op);
      CallIsSent(d, s, env, op);
    case Next(_, _, _, _) =>
      NextStep(d, s, env, op);
      CallIsSent(d, s, env, op);
    case Authenticate(_, _, _) =>
      AuthenticateStep(d, s, env, op);
      CallIsSent(d, s, env, op);
    case GenKey(_, _, _, _) =>
      GenKeyStep(d, s, env, op);
      CallIsSent(d, s, env, op);
    case Activate(_, _) =>
      ActivateStep(d, s, env, op);
      CallIsSent(d, s, env, op);
    case Revert(_, _) =>
      RevertStep(d, s, env, op);
      CallIsSent(d, s, env, op);
  }

  lemma AlwaysLeaves(op: Operation)
    requires op.EndSession?
    ensures Leaves(op)
  {
  }

  lemma CallIsSent(d: M.Device, s: Server, env: M.Env, op: Operation)
    requires !op.EndSession? && !op.StartSession? && Stores(d, s) && CallIsFit(d, env, op)
    ensures RequestBytes(d, op.id, RequestValue(op), true).Ok? <==> Leaves(op)
    ensures Settled(d) ==> Ready(d, op.id, RequestValue(op), true, env)
  {
    hide Stores, ReplyFits, AllSendable, Settled, EncodeMessage, DeviceResult, Ready, CallOf, Leaves, RemoteCall;
    Outline(d, s);
    CallEncodesIff(CallOf(op), Address(d.comId, d.comIdExtension, op.id.tsn, op.id.hsn));
    if Settled(d) {
      CallSettles(d, CallOf(op), op.id, env);
    }
  }

  /** The device that a step leaves behind is the one its request leaves behind. */
  lemma StepIsSent(d: M.Device, env: M.Env, op: Operation)
    ensures DeviceStep(d, env, op).1 == ExchangedValue(d, SentIn(op), RequestValue(op), !op.EndSession?, env).1
  {
    hide ExchangedValue, CallToValue, ReadResult, UnpackResult, CollectColumns, CollectUids, Accepted,
         StartedSession, ReadSessionResult;
  }

  /** The bench holds what the server holds, has been sent as many messages, and has nothing odd pending. */
  ghost predicate Bears(b: Bench, s: Server, sent: nat) {
    Stores(b.device, s) && b.Count() == sent && Settled(b.device)
  }

  lemma StepKeepsBench(b: Bench, s: Server, envs: Envs, op: Operation)
    requires Bears(b, s, b.Count()) && Fits(s, op)
    ensures var (a, b') := HostStep(b, envs, op);
      var (plain, s') := PlainStep(s, envs(b.Count()).random, op);
      a == plain && Bears(b', s', b.Count() + Messages(op))
  {
    hide DeviceStep, PlainStep, Stores, Fits, Settled, EncodeMessage, Ready, Leaves, ExchangedValue;
    StepRefines(b.device, s, envs(b.Count()), op);
    StepIsSent(b.device, envs(b.Count()), op);
    ReadySettles(b.device, SentIn(op), RequestValue(op), !op.EndSession?, envs(b.Count()));
  }

  /** The cells there are. */
  function CellSet(ps: seq<Provider>): (r: set<Cell>)
    ensures forall c :: c in r <==> HasCell(ps, c)
  {
    var r := set p, t, u, column | 0 <= p < |ps| && t in ps[p].tables && u in ps[p].tables[t].objects
                                   && 0 <= column < |ps[p].tables[t].objects[u]| && ContainingTable(u) == t
               :: Cell(p, u, column);
    assert forall c :: HasCell(ps, c) ==>
        var t := ContainingTable(c.uid);
        t in ps[c.provider].tables && c.uid in ps[c.provider].tables[t].objects;
    r
  }

  function CellsOf(ps: seq<Provider>): Cells {
    map c | c in CellSet(ps) :: CellAt(ps, c)
  }

  lemma CellsRepresent(ps: seq<Provider>)
    ensures Represents(ps, CellsOf(ps))
    ensures forall c :: c in CellsOf(ps) <==> HasCell(ps, c)
    ensures forall c :: HasCell(ps, c) ==> CellsOf(ps)[c] == CellAt(ps, c)
  {
    hide CellSet, HasCell, CellAt;
  }

  /** The server that holds what a device holds. */
  function ServerOf(d: M.Device): Server {
    Server(SpIds(d.providers), ListsOf(d.providers), CellsOf(d.providers), d.sessions, d.nextTsn)
  }

  /** What the theorem needs of a device: no odd frame pending, nothing misfiled, and integers in their ranges. */
  ghost predicate Regular(d: M.Device) {
    && d.comIdExtension == 0 && ValidProviders(d.providers) && Filed(d.providers) && Settled(d)
    && forall c :: HasCell(d.providers, c) ==> WellTyped(CellAt(d.providers, c))
  }

  /** Every such device has its server. */
  lemma EveryDeviceHasItsServer(b: Bench)
    requires Regular(b.device)
    ensures Bears(b, ServerOf(b.device), b.Count())
  {
    hide WellTyped, Settled, Filed, ValidProviders, CellsOf, HasCell, CellAt, Represents;
    CellsRepresent(b.device.providers);
  }

  /**
   * The main theorem: any run of hosts that start and end sessions, read, write, enumerate, authenticate, generate
   * keys, activate and revert, each request encoded, framed, sent, executed, pended, received and decoded, gives the
   * answers of the same run of the plain server, and leaves the device with exactly what the server holds.
   */
  lemma {:induction false} RunRefinesPlainServer(b: Bench, s: Server, envs: Envs, ops: seq<Operation>)
    requires Bears(b, s, b.Count()) && RunFits(s, envs, b.Count(), ops)
    ensures var (answers, b') := HostRun(b, envs, ops);
      var (plain, s') := PlainRun(s, envs, b.Count(), ops);
      answers == plain && Bears(b', s', b.Count() + MessagesOf(ops))
    decreases |ops|
  {
    hide HostStep, PlainStep, Bears, Fits, Leaves;
    if ops != [] {
      StepKeepsBench(b, s, envs, ops[0]);
      var b1, s1 := HostStep(b, envs, ops[0]).1, PlainStep(s, envs(b.Count()).random, ops[0]).1;
      SentCount(b1, s1, b.Count() + Messages(ops[0]));
      RunRefinesPlainServer(b1, s1, envs, ops[1..]);
    }
  }

  lemma SentCount(b: Bench, s: Server, sent: nat)
    requires Bears(b, s, sent)
    ensures b.Count() == sent
  {
  }

  //
  // What the plain map promises
  //

  /** Where the last written pair that targets a cell stands, or -1. */
  function LastPair(p: nat, uid: UID, columns: seq<uint32>, count: nat, c: Cell): (i: int)
    ensures -1 <= i < Min(|columns|, count)
    ensures i >= 0 ==> Target(p, uid, columns[i]) == c
    ensures forall j :: i < j < Min(|columns|, count) ==> Target(p, uid, columns[j]) != c
  {
    if columns == [] || count == 0 then -1
    else
      var later := LastPair(p, uid, columns[1..], count - 1, c);
      if later >= 0 then later + 1 else if Target(p, uid, columns[0]) == c then 0 else -1
  }

  /** The last write to a cell wins, every other cell keeps its value, and no cell comes or goes. */
  lemma {:induction false} LastPairWins(m: Cells, p: nat, uid: UID, columns: seq<uint32>, values: seq<Value>, c: Cell)
    requires AllTargetsExist(m, p, uid, columns, |values|)
    ensures PlainWrites(m, p, uid, columns, values).Keys == m.Keys
    ensures c in m ==>
      PlainWrites(m, p, uid, columns, values)[c] ==
      var i := LastPair(p, uid, columns, |values|, c); if i < 0 then m[c] else Normal(values[i])
    decreases |columns|
  {
    hide Normal, Target;
    if columns != [] && values != [] {
      var m1 := m[Target(p, uid, columns[0]) := Normal(values[0])];
      assert m1.Keys == m.Keys;
      assert AllTargetsExist(m1, p, uid, columns[1..], |values[1..]|);
      LastPairWins(m1, p, uid, columns[1..], values[1..], c);
    }
  }

  /** A read that follows a write shows, in each column, the last value written to it in wire form, or the old one. */
  lemma ReadYourWrites(m: Cells, p: nat, uid: UID, columns: seq<uint32>, values: seq<Value>, start: uint32, end: uint32,
                       column: uint32)
    requires PlainSet(m, p, uid, columns, values).0.Ok? && start <= column < end
    requires PlainGet(PlainSet(m, p, uid, columns, values).1, p, uid, start, end).Ok?
    ensures var row := PlainGet(PlainSet(m, p, uid, columns, values).1, p, uid, start, end).value;
      var c := Cell(p, uid, column);
      var i := LastPair(p, uid, columns, |values|, c);
      && |row| == end - start && c in m
      && row[column - start] == if i < 0 then Normal(m[c]) else Normal(values[i])
  {
    hide Normal, Target, ReplySize, AllSendable, AllShowable, LastPair;
    var m' := PlainWrites(m, p, uid, columns, values);
    var c := Cell(p, uid, column);
    assert c in m';
    LastPairWins(m, p, uid, columns, values, c);
    assert Columns(m', p, uid, start, end)[column - start] == m'[Cell(p, uid, start + (column - start))];
    var i := LastPair(p, uid, columns, |values|, c);
    if i >= 0 {
      NormalTwice(values[i]);
    }
  }

  lemma NormalTwice(v: Value)
    ensures Normal(Normal(v)) == Normal(v)
  {
    NormalIsStable(v);
  }

  //
  // What the plain server promises over runs
  //

  predicate SameCell(m: Cells, m': Cells, c: Cell) {
    (c in m <==> c in m') && (c in m ==> m'[c] == m[c])
  }

  lemma {:induction false} WritesStayInProvider(m: Cells, p: nat, uid: UID, columns: seq<uint32>, values: seq<Value>,
                                                c: Cell)
    requires c.provider != p
    ensures SameCell(m, PlainWrites(m, p, uid, columns, values), c)
    decreases |columns|
  {
    hide Normal;
    if columns != [] && values != [] {
      WritesStayInProvider(m[Target(p, uid, columns[0]) := Normal(values[0])], p, uid, columns[1..], values[1..], c);
    }
  }

  /** The one cell that a session on another provider can write. */
  predicate CopiedTo(s: Server, c: Cell) {
    c.provider < |s.spIds| && s.spIds[c.provider] == LOCKING_SP && c.uid == C_PIN_ADMIN1 && c.column == PIN
  }

  /** No session is open on the provider of the cell, and none is started. */
  predicate Untouchable(s: Server, op: Operation, c: Cell) {
    && c.provider < |s.spIds| && c.provider !in s.sessions.Values
    && (op.StartSession? ==> op.spId != s.spIds[c.provider])
    && (op.Activate? ==> !CopiedTo(s, c))
  }

  lemma StepStaysOut(s: Server, random: nat -> seq<byte>, op: Operation, c: Cell)
    requires Untouchable(s, op, c)
    ensures var s' := PlainStep(s, random, op).1;
      && SameCell(s.cells, s'.cells, c) && s'.spIds == s.spIds && s'.lists == s.lists
      && c.provider !in s'.sessions.Values
  {
    hide PlainGet, PlainNext, PlainAuthenticate, PlainRevert, NewKey, AllSendable, PlainWrites;
    if op.Set? && Reaches(s, op.id, op.uid) {
      assert s.sessions[op.id] in s.sessions.Values;
      WritesStayInProvider(s.cells, s.sessions[op.id], op.uid, op.columns, op.values, c);
    }
  }

  /**
   * Providers are isolated: over any run in which no session is or becomes open on a provider, none of its cells
   * changes, with one exception: an Activate in a session elsewhere may write the Admin1 PIN of the Locking SP.
   */
  lemma {:induction false} ClosedProviderIsUntouched(s: Server, envs: Envs, sent: nat, ops: seq<Operation>, c: Cell)
    requires c.provider < |s.spIds| && c.provider !in s.sessions.Values
    requires forall i :: 0 <= i < |ops| && ops[i].StartSession? ==> ops[i].spId != s.spIds[c.provider]
    requires CopiedTo(s, c) ==> forall i :: 0 <= i < |ops| ==> !ops[i].Activate?
    ensures var s' := PlainRun(s, envs, sent, ops).1;
      SameCell(s.cells, s'.cells, c) && s'.spIds == s.spIds && s'.lists == s.lists
    decreases |ops|
  {
    hide PlainStep, Leaves;
    if ops != [] {
      StepStaysOut(s, envs(sent).random, ops[0], c);
      var s1 := PlainStep(s, envs(sent).random, ops[0]).1;
      ClosedProviderIsUntouched(s1, envs, sent + Messages(ops[0]), ops[1..], c);
    }
  }
}
