/**
 * What the calls of a run write, cell by cell, and what that means for credentials and for activation
 * (Set, GenKey, Activate and Authenticate in MockDevice.cpp).
 */
module Credentials {
  import opened Common
  import opened FlatBinary
  import opened Values
  import opened Methods
  import opened Rpc
  import opened State
  import opened SessionMethods
  import M = MockDevice

  /** Objects are stored in the table that their UID names. */
  ghost predicate Filed(ps: seq<Provider>) {
    forall p, t, u :: 0 <= p < |ps| && t in ps[p].tables && u in ps[p].tables[t].objects ==> ContainingTable(u) == t
  }

  lemma ShapeKeepsFiling(ps: seq<Provider>, qs: seq<Provider>)
    requires Filed(ps) && SameShape(ps, qs)
    ensures Filed(qs)
  {
    forall p, t, u | 0 <= p < |qs| && t in qs[p].tables && u in qs[p].tables[t].objects
      ensures ContainingTable(u) == t
    {
      assert SameTables(ps[p].tables, qs[p].tables);
      assert t in ps[p].tables && u in ps[p].tables[t].objects;
    }
  }

  //
  // The writes of one call
  //

  /** Set writes a cell of its own object if it is successful and some item names the column: the last one counts. */
  function WrittenBySet(ts: Tables, call: MethodCall, column: nat): Option<Value> {
    var args := UnpackArgs(0, 2, call.args);
    if args.Err? then None else
    var where_, values := args.value.1[0], args.value.1[1];
    if IsTable(call.invokingId) || !HasObject(ts, call.invokingId) || where_.Some? || values.None?
       || !values.value.List? || !AllWritable(values.value.items, |Row(ts, call.invokingId)|) then None
    else
      var items := values.value.items;
      var i := LastWrite(items, column);
      if i < 0 then None else Some(items[i].value)
  }

  /** GenKey writes a new key or PIN to column 3 of an object that can hold one. */
  function WrittenByGenKey(ts: Tables, call: MethodCall, random: nat -> seq<byte>, column: nat): Option<Value> {
    var args := UnpackArgs(0, 2, call.args);
    if args.Err? || OptionalInteger(args.value.1[0], U32).Err? || OptionalInteger(args.value.1[1], U32).Err? then None
    else
      var length := OptionalInteger(args.value.1[1], U32).value;
      if column != PIN || !IsObject(call.invokingId) || !HasObject(ts, call.invokingId)
         || |Row(ts, call.invokingId)| <= PIN then None
      else NewKey(ContainingTable(call.invokingId), if length.None? then None else Some(length.value), random)
  }

  /** Activate is about to switch the life cycle of an inactive provider object. */
  predicate Activates(ts: Tables, uid: UID) {
    && SP_TABLE in ts && uid in ts[SP_TABLE].objects && |ts[SP_TABLE].objects[uid]| > LIFE_CYCLE
    && ts[SP_TABLE].objects[uid][LIFE_CYCLE] == INACTIVE
  }

  /** Where the SID PIN is copied to: only from the Admin SP, and only if both PIN objects exist. */
  predicate CopiesPin(ps: seq<Provider>, p: nat)
    requires p < |ps|
  {
    var locking := FindProvider(ps, LOCKING_SP);
    && ps[p].uid == ADMIN_SP && locking >= 0
    && HasPin(ps[locking].tables, C_PIN_ADMIN1) && HasPin(ps[p].tables, C_PIN_SID)
  }

  function WrittenByActivate(ps: seq<Provider>, p: nat, call: MethodCall, c: Cell): Option<Value>
    requires p < |ps|
  {
    if UnpackArgs(0, 0, call.args).Err? || !Activates(ps[p].tables, call.invokingId) then None
    else if c == Cell(p, call.invokingId, LIFE_CYCLE) then Some(ACTIVE)
    else if CopiesPin(ps, p) && c == Cell(FindProvider(ps, LOCKING_SP), C_PIN_ADMIN1, PIN) then
      Some(ps[p].tables[C_PIN_TABLE].objects[C_PIN_SID][PIN])
    else None
  }

  /** What a call writes to a cell, if anything. */
  function Written(ps: seq<Provider>, p: nat, call: MethodCall, random: nat -> seq<byte>, c: Cell): Option<Value>
    requires p < |ps|
  {
    if call.methodId == ACTIVATE then WrittenByActivate(ps, p, call, c)
    else if c.provider != p || c.uid != call.invokingId then None
    else if call.methodId == SET then WrittenBySet(ps[p].tables, call, c.column)
    else if call.methodId == GEN_KEY then WrittenByGenKey(ps[p].tables, call, random, c.column)
    else None
  }

  predicate CellBecomes(ps: seq<Provider>, qs: seq<Provider>, c: Cell, w: Option<Value>)
    requires HasCell(ps, c)
  {
    HasCell(qs, c) && CellAt(qs, c) == if w.Some? then w.value else CellAt(ps, c)
  }

  /** The frame of every method: a call writes exactly these cells, and leaves every other cell as it was. */
  lemma CallWrites(ps: seq<Provider>, p: nat, call: MethodCall, random: nat -> seq<byte>, c: Cell)
    requires p < |ps| && Filed(ps) && HasCell(ps, c)
    ensures CellBecomes(ps, CallMethod(ps, p, call, random).1, c, Written(ps, p, call, random, c))
  {
    hide UnpackArgs, GetCall, NextCall, AuthenticateCall, SetCall, GenKeyCall, ActivateSp, RevertSp,
         WrittenBySet, WrittenByGenKey, WrittenByActivate;
    assert WithTables(ps, p, ps[p].tables) == ps;
    if call.methodId == SET {
      SetWrites(ps, p, call, c);
    } else if call.methodId == GEN_KEY {
      GenKeyWrites(ps, p, call, random, c);
    } else if call.methodId == ACTIVATE {
      if UnpackArgs(0, 0, call.args).Err? {
        NothingActivated(ps, p, call, c);
      } else {
        ActivateWrites(ps, p, call, c);
      }
    }
  }

  lemma SetWrites(ps: seq<Provider>, p: nat, call: MethodCall, c: Cell)
    requires p < |ps| && HasCell(ps, c)
    ensures CellBecomes(ps, WithTables(ps, p, SetCall(ps[p].tables, call).1), c,
                        if c.provider == p && c.uid == call.invokingId
                        then WrittenBySet(ps[p].tables, call, c.column) else None)
  {
    hide UnpackArgs, ColumnOf, LastWrite;
    var ts := ps[p].tables;
    var args := UnpackArgs(0, 2, call.args);
    if args.Ok? {
      M.TwoSlots(call.args);
      SetIsAllOrNothing(ts, call.invokingId, args.value.1[0], args.value.1[1]);
    }
  }

  lemma GenKeyWrites(ps: seq<Provider>, p: nat, call: MethodCall, random: nat -> seq<byte>, c: Cell)
    requires p < |ps| && HasCell(ps, c)
    ensures CellBecomes(ps, WithTables(ps, p, GenKeyCall(ps[p].tables, call, random).1), c,
                        if c.provider == p && c.uid == call.invokingId
                        then WrittenByGenKey(ps[p].tables, call, random, c.column) else None)
  {
    hide UnpackArgs, NewKey;
    if UnpackArgs(0, 2, call.args).Ok? {
      M.TwoSlots(call.args);
    }
  }

  lemma NothingActivated(ps: seq<Provider>, p: nat, call: MethodCall, c: Cell)
    requires p < |ps| && UnpackArgs(0, 0, call.args).Err?
    ensures WrittenByActivate(ps, p, call, c) == None
  {
  }

  lemma ActivateWrites(ps: seq<Provider>, p: nat, call: MethodCall, c: Cell)
    requires p < |ps| && Filed(ps) && HasCell(ps, c) && UnpackArgs(0, 0, call.args).Ok?
    ensures CellBecomes(ps, ActivateSp(ps, p, call.invokingId).1, c, WrittenByActivate(ps, p, call, c))
  {
    hide UnpackArgs;
    var ts, uid := ps[p].tables, call.invokingId;
    if Activates(ts, uid) {
      assert ContainingTable(uid) == SP_TABLE;
      var us := WithRow(ts, uid, Row(ts, uid)[LIFE_CYCLE := ACTIVE]);
      var qs := WithTables(ps, p, us);
      SwitchedCell(ps, p, uid, c);
      assert FindProvider(qs, LOCKING_SP) == FindProvider(ps, LOCKING_SP) by {
        SameUidsFound(ps, qs, LOCKING_SP);
      }
      CopyWrites(ps, qs, p, uid, c);
    }
  }

  lemma SameUidsFound(ps: seq<Provider>, qs: seq<Provider>, uid: UID)
    requires |ps| == |qs| && forall i :: 0 <= i < |ps| ==> ps[i].uid == qs[i].uid
    ensures FindProvider(ps, uid) == FindProvider(qs, uid)
  {
  }

  lemma SwitchedCell(ps: seq<Provider>, p: nat, uid: UID, c: Cell)
    requires p < |ps| && HasCell(ps, c) && Activates(ps[p].tables, uid) && ContainingTable(uid) == SP_TABLE
    ensures var qs := WithTables(ps, p, WithRow(ps[p].tables, uid, Row(ps[p].tables, uid)[LIFE_CYCLE := ACTIVE]));
      && CellBecomes(ps, qs, c, if c == Cell(p, uid, LIFE_CYCLE) then Some(ACTIVE) else None)
      && |qs| == |ps| && (forall i :: 0 <= i < |ps| ==> ps[i].uid == qs[i].uid)
      && (forall i :: 0 <= i < |ps| ==> (C_PIN_TABLE in qs[i].tables <==> C_PIN_TABLE in ps[i].tables))
      && (forall i :: 0 <= i < |ps| && C_PIN_TABLE in ps[i].tables ==>
            qs[i].tables[C_PIN_TABLE] == ps[i].tables[C_PIN_TABLE])
  {
  }

  lemma CopyWrites(ps: seq<Provider>, qs: seq<Provider>, p: nat, uid: UID, c: Cell)
    requires p < |ps| == |qs| && HasCell(ps, c)
    requires CellBecomes(ps, qs, c, if c == Cell(p, uid, LIFE_CYCLE) then Some(ACTIVE) else None)
    requires ContainingTable(uid) == SP_TABLE
    requires forall i :: 0 <= i < |ps| ==> ps[i].uid == qs[i].uid
    requires forall i :: 0 <= i < |ps| ==> (C_PIN_TABLE in qs[i].tables <==> C_PIN_TABLE in ps[i].tables)
    requires forall i :: 0 <= i < |ps| && C_PIN_TABLE in ps[i].tables ==>
      qs[i].tables[C_PIN_TABLE] == ps[i].tables[C_PIN_TABLE]
    ensures CellBecomes(ps, CopySidPin(qs, p).1, c,
      if c == Cell(p, uid, LIFE_CYCLE) then Some(ACTIVE)
      else if CopiesPin(ps, p) && c == Cell(FindProvider(ps, LOCKING_SP), C_PIN_ADMIN1, PIN)
      then Some(ps[p].tables[C_PIN_TABLE].objects[C_PIN_SID][PIN]) else None)
  {
    SameUidsFound(ps, qs, LOCKING_SP);
    assert ContainingTable(C_PIN_ADMIN1) == C_PIN_TABLE;
    assert CopiesPin(qs, p) <==> CopiesPin(ps, p);
  }

  //
  // The writes of a run
  //

  /** The call that an event makes the device execute inside a session, if it does. */
  function Executed(d: M.Device, e: M.Event): Option<(nat, MethodCall)> {
    if e.Receiving? then None else
    var request := DecodeRequest(e.data, d.comId);
    if request.Err? || !request.value.Call? || request.value.call.invokingId == M.SESSION_MANAGER then None else
    var id := M.SessionId(request.value.tsn, request.value.hsn);
    if id !in d.sessions then None else Some((d.sessions[id], request.value.call))
  }

  lemma ExecutedInRange(d: M.Device, e: M.Event)
    ensures Executed(d, e).Some? ==> Executed(d, e).value.0 < |d.providers|
  {
    hide DecodeRequest;
  }

  function WrittenByEvent(d: M.Device, e: M.Event, c: Cell): Option<Value> {
    ExecutedInRange(d, e);
    var x := Executed(d, e);
    if x.None? then None else Written(d.providers, x.value.0, x.value.1, e.env.random, c)
  }

  /** The last value a run writes to a cell. */
  function LastWritten(d: M.Device, events: seq<M.Event>, c: Cell): Option<Value>
    decreases |events|
  {
    if events == [] then None
    else
      var later := LastWritten(M.Next(d, events[0]), events[1..], c);
      if later.Some? then later else WrittenByEvent(d, events[0], c)
  }

  /** The session manager and the end of a session never touch a provider. */
  lemma OthersWriteNothing(d: M.Device, e: M.Event)
    ensures e.Sending? ==>
      forall call: MethodCall :: M.DispatchManager(d, call, e.env.properties).1.providers == d.providers
    ensures forall id: M.SessionId :: M.EndSession(d, id).1.providers == d.providers
  {
    hide Rpc.EncodeMessage, M.StartParameters, M.PropertiesParameter;
  }

  lemma EventWrites(d: M.Device, e: M.Event, c: Cell)
    requires Filed(d.providers) && HasCell(d.providers, c)
    ensures CellBecomes(d.providers, M.Next(d, e).providers, c, WrittenByEvent(d, e, c))
  {
    hide DecodeRequest, Rpc.EncodeMessage, CallMethod, M.DispatchManager, M.EndSession, HasCell, CellAt, Written, Filed;
    ExecutedInRange(d, e);
    var x := Executed(d, e);
    OthersWriteNothing(d, e);
    if x.Some? {
      CallWrites(d.providers, x.value.0, x.value.1, e.env.random, c);
    }
  }

  /** After any run over any bytes, a cell holds the last value written to it, or what it held before. */
  lemma {:induction false} CellAfterRun(d: M.Device, events: seq<M.Event>, c: Cell)
    requires Filed(d.providers) && HasCell(d.providers, c)
    ensures CellBecomes(d.providers, M.RunEvents(d, events).providers, c, LastWritten(d, events, c))
    ensures Filed(M.RunEvents(d, events).providers)
    decreases |events|
  {
    hide M.Next, WrittenByEvent, HasCell, CellAt, Filed, SameShape;
    if events != [] {
      var d1 := M.Next(d, events[0]);
      EventWrites(d, events[0], c);
      var _ := M.EventChanges(d, events[0]);
      ShapeKeepsFiling(d.providers, d1.providers);
      CellAfterRun(d1, events[1..], c);
    }
  }

  //
  // Authentication
  //

  /** The credential object of an authority, as its cell in column 10 names it. */
  predicate Credential(ps: seq<Provider>, p: nat, authority: UID, credential: UID) {
    && HasCell(ps, Cell(p, authority, CREDENTIAL)) && ContainingTable(authority) == AUTHORITY_TABLE
    && GetUid(CellAt(ps, Cell(p, authority, CREDENTIAL))) == Ok(credential)
  }

  /** Authenticate accepts a proof exactly when it is the PIN that the credential's cell holds now. */
  lemma AuthenticateIff(ps: seq<Provider>, p: nat, authority: UID, credential: UID, pin: seq<byte>,
                        proof: Option<seq<byte>>)
    requires Credential(ps, p, authority, credential) && credential != 0
    requires ContainingTable(credential) == C_PIN_TABLE && HasCell(ps, Cell(p, credential, PIN))
    requires CellAt(ps, Cell(p, credential, PIN)) == Bytes(pin)
    ensures Authenticated(ps[p].tables, authority, proof)
            == Ok(MethodResult([Integer(BoolKind, if proof == Some(pin) then 1 else 0)], SUCCESS))
  {
    hide GetUid;
    assert Row(ps[p].tables, authority) == ps[p].tables[AUTHORITY_TABLE].objects[authority];
    assert Row(ps[p].tables, credential) == ps[p].tables[C_PIN_TABLE].objects[credential];
  }

  /**
   * Credentials over runs: whatever bytes the device receives in between, as long as nothing writes the authority's
   * credential cell, a proof is accepted exactly when it is the last PIN written by a Set, a GenKey or an Activate,
   * or the PIN there was at the start if nothing wrote it.
   */
  lemma AuthenticateAfterRun(d: M.Device, events: seq<M.Event>, p: nat, authority: UID, credential: UID,
                             pin: seq<byte>, proof: Option<seq<byte>>)
    requires Filed(d.providers) && Credential(d.providers, p, authority, credential) && credential != 0
    requires LastWritten(d, events, Cell(p, authority, CREDENTIAL)) == None
    requires ContainingTable(credential) == C_PIN_TABLE && HasCell(d.providers, Cell(p, credential, PIN))
    requires var w := LastWritten(d, events, Cell(p, credential, PIN));
      Bytes(pin) == if w.Some? then w.value else CellAt(d.providers, Cell(p, credential, PIN))
    ensures p < |M.RunEvents(d, events).providers|
    ensures Authenticated(M.RunEvents(d, events).providers[p].tables, authority, proof)
            == Ok(MethodResult([Integer(BoolKind, if proof == Some(pin) then 1 else 0)], SUCCESS))
  {
    hide M.RunEvents, LastWritten, Authenticated, GetUid, Filed;
    CellAfterRun(d, events, Cell(p, authority, CREDENTIAL));
    CellAfterRun(d, events, Cell(p, credential, PIN));
    AuthenticateIff(M.RunEvents(d, events).providers, p, authority, credential, pin, proof);
  }

  //
  // Activation
  //

  /**
   * Activate from life cycle 8 in the Admin SP: the cell becomes 9, the Locking SP's Admin1 PIN becomes the current
   * SID PIN, and no other cell changes.
   */
  lemma ActivateFromInactive(ps: seq<Provider>, p: nat, uid: UID, random: nat -> seq<byte>)
    requires p < |ps| && Filed(ps) && Activates(ps[p].tables, uid) && CopiesPin(ps, p)
    ensures var call := MethodCall(uid, ACTIVATE, [], SUCCESS);
      var (r, qs) := CallMethod(ps, p, call, random);
      var lifeCycle, admin1 := Cell(p, uid, LIFE_CYCLE), AdminCell(ps);
      && r == Ok(MethodResult([], SUCCESS))
      && HasCell(ps, lifeCycle) && HasCell(ps, admin1) && HasCell(ps, Cell(p, C_PIN_SID, PIN))
      && CellBecomes(ps, qs, lifeCycle, Some(ACTIVE))
      && CellBecomes(ps, qs, admin1, Some(CellAt(ps, Cell(p, C_PIN_SID, PIN))))
      && forall c :: HasCell(ps, c) && c != lifeCycle && c != admin1 ==> CellBecomes(ps, qs, c, None)
  {
    hide CellBecomes, HasCell, CellAt, WrittenByActivate, FindProvider, Filed, ActivateSp, UnpackArgs;
    var call := MethodCall(uid, ACTIVATE, [], SUCCESS);
    NoArguments();
    ActivationCells(ps, p, uid);
    forall c | HasCell(ps, c)
      ensures CellBecomes(ps, CallMethod(ps, p, call, random).1, c, WrittenByActivate(ps, p, call, c))
    {
      CallWrites(ps, p, call, random, c);
    }
    forall c | HasCell(ps, c) && c != Cell(p, uid, LIFE_CYCLE) && c != AdminCell(ps)
      ensures CellBecomes(ps, CallMethod(ps, p, call, random).1, c, None)
    {
      WrittenNowhereElse(ps, p, uid, c);
    }
    ActivateReports(ps, p, uid);
  }

  /** The PIN of the Locking SP's first administrator. */
  function AdminCell(ps: seq<Provider>): Cell
    requires FindProvider(ps, LOCKING_SP) >= 0
  {
    Cell(FindProvider(ps, LOCKING_SP), C_PIN_ADMIN1, PIN)
  }

  lemma ActivationCells(ps: seq<Provider>, p: nat, uid: UID)
    requires p < |ps| && Filed(ps) && Activates(ps[p].tables, uid) && CopiesPin(ps, p)
    ensures HasCell(ps, Cell(p, uid, LIFE_CYCLE)) && HasCell(ps, AdminCell(ps)) && HasCell(ps, Cell(p, C_PIN_SID, PIN))
    ensures var call := MethodCall(uid, ACTIVATE, [], SUCCESS);
      && WrittenByActivate(ps, p, call, Cell(p, uid, LIFE_CYCLE)) == Some(ACTIVE)
      && WrittenByActivate(ps, p, call, AdminCell(ps)) == Some(CellAt(ps, Cell(p, C_PIN_SID, PIN)))
  {
    NoArguments();
    FiledInSpTable(ps, p, uid);
    assert ContainingTable(C_PIN_ADMIN1) == C_PIN_TABLE && ContainingTable(C_PIN_SID) == C_PIN_TABLE;
  }

  lemma WrittenNowhereElse(ps: seq<Provider>, p: nat, uid: UID, c: Cell)
    requires p < |ps| && CopiesPin(ps, p) && c != Cell(p, uid, LIFE_CYCLE) && c != AdminCell(ps)
    ensures WrittenByActivate(ps, p, MethodCall(uid, ACTIVATE, [], SUCCESS), c) == None
  {
  }

  lemma NoArguments()
    ensures UnpackArgs(0, 0, []) == Ok(([], []))
  {
  }

  /** An inactive provider is activated without an error exactly when the PIN can be copied. */
  lemma ActivateReports(ps: seq<Provider>, p: nat, uid: UID)
    requires p < |ps| && Activates(ps[p].tables, uid)
    ensures ActivateSp(ps, p, uid).0.Ok? <==> CopiesPin(ps, p)
    ensures CopiesPin(ps, p) ==> ActivateSp(ps, p, uid).0 == Ok(MethodResult([], SUCCESS))
  {
    var ts := ps[p].tables;
    var t := ts[SP_TABLE];
    var us := ts[SP_TABLE := t.(objects := t.objects[uid := t.objects[uid][LIFE_CYCLE := ACTIVE]])];
    SameUidsFound(ps, WithTables(ps, p, us), LOCKING_SP);
  }

  /** Once the life cycle is anything but 8, an Activate reports success and changes nothing at all. */
  lemma ActivateAgain(ps: seq<Provider>, p: nat, uid: UID, random: nat -> seq<byte>)
    requires p < |ps| && HasCell(ps, Cell(p, uid, LIFE_CYCLE)) && ContainingTable(uid) == SP_TABLE
    requires CellAt(ps, Cell(p, uid, LIFE_CYCLE)) != INACTIVE
    ensures CallMethod(ps, p, MethodCall(uid, ACTIVATE, [], SUCCESS), random) == (Ok(MethodResult([], SUCCESS)), ps)
  {
    NoArguments();
    assert Row(ps[p].tables, uid) == ps[p].tables[SP_TABLE].objects[uid];
  }

  /**
   * Activation over runs: after an activation, and whatever bytes follow, every later Activate changes nothing
   * unless something other than an Activate has written the life-cycle cell, and Admin1's PIN is the SID PIN of the
   * time of the activation unless something has written it since.
   */
  lemma ActivationOverRuns(d: M.Device, p: nat, uid: UID, random: nat -> seq<byte>, d': M.Device, events: seq<M.Event>)
    requires p < |d.providers| && Filed(d.providers)
    requires Activates(d.providers[p].tables, uid) && CopiesPin(d.providers, p)
    requires d'.providers == CallMethod(d.providers, p, MethodCall(uid, ACTIVATE, [], SUCCESS), random).1
    requires LastWritten(d', events, Cell(p, uid, LIFE_CYCLE)) == None
    ensures var qs := M.RunEvents(d', events).providers;
      var admin1 := AdminCell(d.providers);
      && p < |qs|
      && CallMethod(qs, p, MethodCall(uid, ACTIVATE, [], SUCCESS), random) == (Ok(MethodResult([], SUCCESS)), qs)
      && HasCell(qs, admin1) && HasCell(d.providers, Cell(p, C_PIN_SID, PIN))
      && (LastWritten(d', events, admin1) == None ==>
            CellAt(qs, admin1) == CellAt(d.providers, Cell(p, C_PIN_SID, PIN)))
  {
    hide M.RunEvents, LastWritten, CallMethod, Filed, Activates;
    ActivateFromInactive(d.providers, p, uid, random);
    M.CallKeepsShape(d.providers, p, MethodCall(uid, ACTIVATE, [], SUCCESS), random);
    ShapeKeepsFiling(d.providers, d'.providers);
    CellAfterRun(d', events, Cell(p, uid, LIFE_CYCLE));
    CellAfterRun(d', events, AdminCell(d.providers));
    FiledInSpTable(d.providers, p, uid);
    ActivateAgain(M.RunEvents(d', events).providers, p, uid, random);
  }

  /** Revert only checks that the object is there: it changes nothing, the SID PIN and the life cycle included. */
  lemma RevertIff(ps: seq<Provider>, p: nat, uid: UID, random: nat -> seq<byte>)
    requires p < |ps| && Filed(ps)
    ensures CallMethod(ps, p, MethodCall(uid, REVERT, [], SUCCESS), random)
      == (Ok(MethodResult([], if ContainingTable(uid) == SP_TABLE && HasObject(ps[p].tables, uid)
                              then SUCCESS else INVALID_PARAMETER)), ps)
  {
    NoArguments();
  }

  /** The request of GenKey for a PIN of some length, or of the default length. */
  function GenKeyArguments(pinLength: Option<uint32>): seq<Value> {
    if pinLength.None? then [] else [Named(Integer(U16, 1), Integer(U32, pinLength.value))]
  }

  lemma GenKeyArgumentsRead(pinLength: Option<uint32>)
    ensures UnpackArgs(0, 2, GenKeyArguments(pinLength))
            == Ok(([], [None, if pinLength.None? then None else Some(Integer(U32, pinLength.value))]))
  {
    var args := GenKeyArguments(pinLength);
    PresentSucceedsIff(args);
    LastWins(args, 0);
    LastWins(args, 1);
    var slots := Slots(2, Present(args).value);
    assert args[..0] == [] && args[0..] == args;
    assert slots == [slots[0], slots[1]];
  }

  /** What the cell of a key holds: a key for the protocol of its table, twice the table's AES key size, or a PIN. */
  predicate HoldsKey(table: UID, cell: Value, pinLength: Option<uint32>) {
    if table == C_PIN_TABLE then
      cell.Bytes? && |cell.bytes| == if pinLength.Some? then pinLength.value else 32
    else
      && cell.Named? && cell.name.Bytes? && cell.value.Bytes?
      && FromBigEndian(cell.name.bytes) == (if table == K_AES_256_TABLE then 0x206 else 0x205)
      && 8 * |cell.value.bytes| == 2 * if table == K_AES_256_TABLE then 256 else 128
  }

  /** GenKey leaves a fresh key of the right kind and size in column 3 of a key or PIN object, and only there. */
  lemma GenKeyStores(ps: seq<Provider>, p: nat, uid: UID, pinLength: Option<uint32>, random: nat -> seq<byte>)
    requires p < |ps| && Filed(ps) && IsObject(uid) && HasCell(ps, Cell(p, uid, PIN))
    requires ContainingTable(uid) in {K_AES_256_TABLE, K_AES_128_TABLE, C_PIN_TABLE}
    requires forall n :: |random(n)| == n
    ensures var (r, qs) := CallMethod(ps, p, MethodCall(uid, GEN_KEY, GenKeyArguments(pinLength), SUCCESS), random);
      && r == Ok(MethodResult([], SUCCESS))
      && HasCell(qs, Cell(p, uid, PIN))
      && HoldsKey(ContainingTable(uid), CellAt(qs, Cell(p, uid, PIN)), pinLength)
      && forall c :: HasCell(ps, c) && c != Cell(p, uid, PIN) ==> CellBecomes(ps, qs, c, None)
  {
    hide UnpackArgs, CellBecomes, GenKeyArguments, HoldsKey, NewKey;
    var call := MethodCall(uid, GEN_KEY, GenKeyArguments(pinLength), SUCCESS);
    GenKeyArgumentsRead(pinLength);
    LengthRead(pinLength);
    NewKeyIsRight(ContainingTable(uid), pinLength, random);
    forall c | HasCell(ps, c)
      ensures CellBecomes(ps, CallMethod(ps, p, call, random).1, c, Written(ps, p, call, random, c))
    {
      CallWrites(ps, p, call, random, c);
    }
    var c := Cell(p, uid, PIN);
    WrittenCell(ps, CallMethod(ps, p, call, random).1, c, Written(ps, p, call, random, c));
  }

  lemma LengthRead(pinLength: Option<uint32>)
    ensures OptionalInteger(None, U32) == Ok(None)
    ensures pinLength.Some? ==> OptionalInteger(Some(Integer(U32, pinLength.value)), U32) == Ok(Some(pinLength.value))
  {
  }

  lemma WrittenCell(ps: seq<Provider>, qs: seq<Provider>, c: Cell, w: Option<Value>)
    requires HasCell(ps, c) && CellBecomes(ps, qs, c, w) && w.Some?
    ensures HasCell(qs, c) && CellAt(qs, c) == w.value
  {
  }

  lemma NewKeyIsRight(table: UID, pinLength: Option<nat>, random: nat -> seq<byte>)
    requires table in {K_AES_256_TABLE, K_AES_128_TABLE, C_PIN_TABLE} && forall n :: |random(n)| == n
    requires pinLength.Some? ==> pinLength.value < TWO_TO_32
    ensures NewKey(table, pinLength, random).Some?
    ensures HoldsKey(table, NewKey(table, pinLength, random).value,
                     if pinLength.None? then None else Some(pinLength.value))
  {
    ProtocolTag(6);
    ProtocolTag(5);
  }

  lemma ProtocolTag(low: byte)
    ensures FromBigEndian([0, 0, 2, low]) == 0x200 + low
  {
    var b: seq<byte> := [0, 0, 2, low];
    assert b[..3] == [0, 0, 2] && b[..3][..2] == [0, 0] && b[..3][..2][..1] == [0] && b[..3][..2][..1][..0] == [];
    assert FromBigEndian([0]) == 0 && FromBigEndian([0, 0]) == 0 && FromBigEndian([0, 0, 2]) == 2;
  }

  /** An Activate that fails halfway: one object in the SP table of a provider that is not the Admin SP. */
  lemma ActivateElsewhere(uid: UID, random: nat -> seq<byte>)
    requires ContainingTable(uid) == SP_TABLE
    ensures var row := [Empty, Empty, Empty, Empty, Empty, Empty, INACTIVE];
      var ts := map[SP_TABLE := Table([uid], map[uid := row])];
      var (r, qs) := CallMethod([Provider(LOCKING_SP, ts)], 0, MethodCall(uid, ACTIVATE, [], SUCCESS), random);
      && r == Err(BadOptional)
      && HasCell(qs, Cell(0, uid, LIFE_CYCLE)) && CellAt(qs, Cell(0, uid, LIFE_CYCLE)) == ACTIVE
  {
    NoArguments();
  }

  lemma FiledInSpTable(ps: seq<Provider>, p: nat, uid: UID)
    requires p < |ps| && Filed(ps) && Activates(ps[p].tables, uid)
    ensures ContainingTable(uid) == SP_TABLE
  {
  }
}
