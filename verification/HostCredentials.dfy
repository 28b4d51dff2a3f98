/** Authentication from the host, over the wire, against the PIN a run of calls has left behind. */
module HostCredentials {
  import opened Common
  import opened Values
  import opened Methods
  import opened Rpc
  import opened WireSizes
  import opened State
  import opened SessionMethods
  import opened RemoteCalls
  import opened HostSession
  import opened RemoteTable
  import opened Credentials
  import opened HostTables
  import M = MockDevice

  predicate ProofFits(proof: Option<seq<byte>>) {
    proof.Some? ==> |proof.value| <= MAX_ATOM
  }

  lemma ProofPacked(authority: UID, proof: Option<seq<byte>>)
    ensures AuthenticateRequest(authority, proof).args ==
      [UidValue(authority)] + if proof.Some? then [Named(Integer(U16, 0), Bytes(proof.value))] else []
  {
    hide UidBytes;
    var optionals := [BytesOption(proof)];
    assert optionals[1..] == [] && PackOptionals(1, []) == [];
    assert PackOptionals(0, optionals)
        == (if proof.Some? then [Named(Integer(U16, 0), Bytes(proof.value))] else []) + [];
  }

  lemma AuthenticateArguments(authority: UID, proof: Option<seq<byte>>)
    ensures var args := AuthenticateRequest(authority, proof).args;
      && AllWellTyped(args) && (AllSendable(args) <==> ProofFits(proof))
      && UnpackArgs(1, 1, NormalAll(args)) == Ok(([UidValue(authority)], [BytesOption(proof)]))
  {
    hide UnpackArgs, UidBytes;
    ProofPacked(authority, proof);
    UnpackAcrossWire([UidValue(authority)], [BytesOption(proof)]);
    assert NormalOptionals([BytesOption(proof)]) == [BytesOption(proof)];
    UidsOnWire([authority]);
    assert UidValues([authority])[0] == UidValue(authority);
    FixedByWire([UidValue(authority)]);
    if proof.Some? {
      NumberedValue(U16, 0, Bytes(proof.value));
      var args := AuthenticateRequest(authority, proof).args;
      assert args[1] == Named(Integer(U16, 0), Bytes(proof.value));
    }
  }

  lemma DeviceAuthenticate(ps: seq<Provider>, p: nat, authority: UID, proof: Option<seq<byte>>,
                           random: nat -> seq<byte>)
    requires p < |ps|
    ensures var request := AuthenticateRequest(authority, proof);
      CallMethod(ps, p, request.(args := NormalAll(request.args)), random)
      == (Authenticated(ps[p].tables, authority, proof), ps)
  {
    hide UnpackArgs, Authenticated, UidBytes;
    AuthenticateArguments(authority, proof);
    UidRoundTrip(authority);
  }

  lemma ProofSize(authority: UID, proof: Option<seq<byte>>)
    requires ProofFits(proof)
    ensures CallSize(AuthenticateRequest(authority, proof).args) < MAX_PAYLOAD
  {
    hide UidBytes;
    ProofPacked(authority, proof);
    UidSize(authority);
    var head, args := [UidValue(authority)], AuthenticateRequest(authority, proof).args;
    assert args[1..] == if proof.Some? then [Named(Integer(U16, 0), Bytes(proof.value))] else [];
    if proof.Some? {
      assert args[1..][1..] == [];
      assert WireSizeAll(args[1..]) == WireSize(args[1..][0]) <= MAX_ATOM + 9;
    }
  }

  /** The device's verdict as a reply. */
  lemma VerdictReply(accepted: bool, status: Status)
    ensures var values := [Integer(BoolKind, if accepted then 1 else 0)];
      && AllWellTyped(values) && AllSendable(values) && ResultSize(values) == 13
      && Accepted(UnpackResult(Ok(MethodResult(NormalAll(values), status)), 1))
         == if accepted then Ok(()) else Err(PasswordRejected)
  {
    hide UnpackArgs;
    var n := if accepted then 1 else 0;
    var values := [Integer(BoolKind, n)];
    var normal := [Integer(U8, n)];
    assert NormalAll(values) == normal;
    UnpackUndoesPack(normal, []);
    assert PackArgs(normal, []) == normal;
    assert values[1..] == [] && WireSizeAll(values) == WireSize(values[0]);
  }

  /** What a host learns of the device's check. */
  function Verdict(check: Result<(bool, Status)>): Result<()> {
    if check.Err? then Err(M.Escaping(check.error))
    else if Raises(check.value.1) then Err(InvocationFailure(check.value.1))
    else if check.value.0 then Ok(()) else Err(PasswordRejected)
  }

  /** Authentication over the wire is the device's check, and changes nothing but the pending response. */
  lemma HostAuthenticateIsCheck(d: M.Device, host: Session, p: nat, authority: UID, proof: Option<seq<byte>>)
    requires InSession(d, host, p)
    ensures var request := AuthenticateRequest(authority, proof);
      && CallFits(request) && (AllSendable(request.args) <==> ProofFits(proof))
      && ReplyFits(DeviceResult(d, request, host.id, host.env))
    ensures var (r, d') := HostAuthenticate(d, host, authority, proof);
      && OnlyResponse(d, d')
      && r == if ProofFits(proof) then Verdict(CheckPin(d.providers[p].tables, authority, proof))
              else Err(InvalidArgument)
  {
    hide CallMethod, RemoteCall, PackArgs, AllSendable, AllWellTyped, Frame, Accepted, UnpackResult, ResultSize,
         CallSize, UidBytes, CheckPin, AuthenticateRequest;
    AuthenticateArguments(authority, proof);
    AuthenticateTarget(authority, proof);
    DeviceAuthenticate(d.providers, p, authority, proof, host.env.random);
    if ProofFits(proof) {
      ProofSize(authority, proof);
    }
    var check := CheckPin(d.providers[p].tables, authority, proof);
    if check.Ok? {
      VerdictReply(check.value.0, check.value.1);
    }
    RemoteCallIsDirect(d, AuthenticateRequest(authority, proof), host.id, host.env);
    FailurePropagates();
  }

  lemma AuthenticateTarget(authority: UID, proof: Option<seq<byte>>)
    ensures AuthenticateRequest(authority, proof).invokingId != M.SESSION_MANAGER
  {
  }

  /** A host's proof is accepted exactly when it is the PIN in the credential's cell and can be sent. */
  lemma HostAuthenticateIff(d: M.Device, host: Session, p: nat, authority: UID, credential: UID, pin: seq<byte>,
                            proof: Option<seq<byte>>)
    requires InSession(d, host, p)
    requires Credential(d.providers, p, authority, credential) && credential != 0
    requires ContainingTable(credential) == C_PIN_TABLE && HasCell(d.providers, Cell(p, credential, PIN))
    requires CellAt(d.providers, Cell(p, credential, PIN)) == Bytes(pin)
    ensures var (r, d') := HostAuthenticate(d, host, authority, proof);
      && OnlyResponse(d, d')
      && r == if !ProofFits(proof) then Err(InvalidArgument)
              else if proof == Some(pin) then Ok(()) else Err(PasswordRejected)
  {
    hide HostAuthenticate, CheckPin, HasCell, CellAt, Credential, CallFits, ReplyFits, DeviceResult, AllSendable;
    HostAuthenticateIsCheck(d, host, p, authority, proof);
    AuthenticateIff(d.providers, p, authority, credential, pin, proof);
    VerdictOf(CheckPin(d.providers[p].tables, authority, proof), proof == Some(pin));
  }

  lemma VerdictOf(check: Result<(bool, Status)>, accepted: bool)
    requires var n := if accepted then 1 else 0;
      check.Ok? && MethodResult([Integer(BoolKind, if check.value.0 then 1 else 0)], check.value.1)
                   == MethodResult([Integer(BoolKind, n)], SUCCESS)
    ensures Verdict(check) == if accepted then Ok(()) else Err(PasswordRejected)
  {
    assert [Integer(BoolKind, if check.value.0 then 1 else 0)][0].n == if accepted then 1 else 0;
  }

  lemma FailurePropagates()
    ensures forall e: Error :: Accepted(UnpackResult(Err(e), 1)) == Err(e)
  {
  }

  /**
   * The same after any run over any bytes: the host gets in with the last PIN that a Set, a GenKey or an Activate has
   * written, and with nothing else, as long as the authority's credential cell has not been written.
   */
  lemma HostAuthenticateAfterRun(d: M.Device, events: seq<M.Event>, host: Session, p: nat, authority: UID,
                                 credential: UID, pin: seq<byte>, proof: Option<seq<byte>>)
    requires Filed(d.providers) && Credential(d.providers, p, authority, credential) && credential != 0
    requires LastWritten(d, events, Cell(p, authority, CREDENTIAL)) == None
    requires ContainingTable(credential) == C_PIN_TABLE && HasCell(d.providers, Cell(p, credential, PIN))
    requires var w := LastWritten(d, events, Cell(p, credential, PIN));
      Bytes(pin) == if w.Some? then w.value else CellAt(d.providers, Cell(p, credential, PIN))
    requires InSession(M.RunEvents(d, events), host, p)
    requires ProofFits(proof)
    ensures HostAuthenticate(M.RunEvents(d, events), host, authority, proof).0
            == if proof == Some(pin) then Ok(()) else Err(PasswordRejected)
  {
    hide M.RunEvents, LastWritten, HostAuthenticate, GetUid, Filed;
    CellAfterRun(d, events, Cell(p, authority, CREDENTIAL));
    CellAfterRun(d, events, Cell(p, credential, PIN));
    HostAuthenticateIff(M.RunEvents(d, events), host, p, authority, credential, pin, proof);
  }

  //
  // Authentication on the plain map
  //

  /** The PIN object that column 10 of the authority refers to decides; a missing table or column is an assertion. */
  function PlainAuthenticate(lists: RowLists, m: Cells, p: nat, authority: UID, proof: Option<seq<byte>>): Result<()> {
    if !ProofFits(proof) then Err(InvalidArgument)
    else if AUTHORITY_TABLE !in lists || C_PIN_TABLE !in lists then Err(AssertionFailed)
    else if ContainingTable(authority) != AUTHORITY_TABLE || !HasUid(m, p, authority) then
      Err(InvocationFailure(INVALID_PARAMETER))
    else if Cell(p, authority, CREDENTIAL) !in m then Err(AssertionFailed)
    else
      var credential := GetUid(m[Cell(p, authority, CREDENTIAL)]);
      if credential.Err? then Err(M.Escaping(credential.error))
      else if credential.value == 0 then Ok(())
      else if ContainingTable(credential.value) != C_PIN_TABLE || Cell(p, credential.value, PIN) !in m then
        Err(AssertionFailed)
      else
        var pin :- GetBytes(m[Cell(p, credential.value, PIN)]);
        if proof == Some(pin) then Ok(()) else Err(PasswordRejected)
  }

  lemma AuthenticateRefines(d: M.Device, host: Session, p: nat, m: Cells, authority: UID, proof: Option<seq<byte>>)
    requires Serves(d, host, p, m) && Filed(d.providers)
    ensures HostAuthenticate(d, host, authority, proof).0
            == PlainAuthenticate(RowsOf(d.providers[p].tables), m, p, authority, proof)
  {
    hide HostAuthenticate, CheckPin, PlainAuthenticate, Represents, Filed, ValidProviders, AllTyped, CallFits,
         ReplyFits, DeviceResult, AllSendable;
    HostAuthenticateIsCheck(d, host, p, authority, proof);
    if ProofFits(proof) {
      CheckRefines(d.providers, p, m, authority, proof);
    } else {
      LongProof(RowsOf(d.providers[p].tables), m, p, authority, proof);
    }
  }

  lemma LongProof(lists: RowLists, m: Cells, p: nat, authority: UID, proof: Option<seq<byte>>)
    requires !ProofFits(proof)
    ensures PlainAuthenticate(lists, m, p, authority, proof) == Err(InvalidArgument)
  {
  }

  /** An object of a table that files its objects, as the plain map has it. */
  lemma FiledObject(ps: seq<Provider>, p: nat, m: Cells, table: UID, uid: UID)
    requires p < |ps| && Filed(ps) && Represents(ps, m) && ValidProviders(ps) && table in ps[p].tables
    ensures uid in ps[p].tables[table].objects <==> ContainingTable(uid) == table && HasUid(m, p, uid)
    ensures uid in ps[p].tables[table].objects ==>
      var row := ps[p].tables[table].objects[uid];
      forall c: nat :: (Cell(p, uid, c) in m <==> c < |row|) && (c < |row| ==> m[Cell(p, uid, c)] == row[c])
    ensures uid !in ps[p].tables[table].objects && ContainingTable(uid) == table ==>
      forall c: nat :: Cell(p, uid, c) !in m
  {
    hide ValidProviders;
    RowColumns(ps, m, p, uid);
  }

  lemma CheckRefines(ps: seq<Provider>, p: nat, m: Cells, authority: UID, proof: Option<seq<byte>>)
    requires p < |ps| && Filed(ps) && Represents(ps, m) && ValidProviders(ps) && ProofFits(proof)
    ensures Verdict(CheckPin(ps[p].tables, authority, proof))
            == PlainAuthenticate(RowsOf(ps[p].tables), m, p, authority, proof)
  {
    hide GetUid, Filed, Represents, ValidProviders;
    var ts := ps[p].tables;
    if AUTHORITY_TABLE in ts && C_PIN_TABLE in ts {
      FiledObject(ps, p, m, AUTHORITY_TABLE, authority);
      if authority in ts[AUTHORITY_TABLE].objects && |ts[AUTHORITY_TABLE].objects[authority]| > CREDENTIAL {
        var credential := GetUid(ts[AUTHORITY_TABLE].objects[authority][CREDENTIAL]);
        if credential.Ok? {
          FiledObject(ps, p, m, C_PIN_TABLE, credential.value);
        }
      }
    }
  }
}
