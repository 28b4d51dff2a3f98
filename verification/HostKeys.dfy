/** Generating keys and activating providers from the host, over the wire (Session.cpp, MockDevice.cpp). */
module HostKeys {
  import opened Common
  import opened Values
  import opened Methods
  import opened WireSizes
  import opened State
  import opened SessionMethods
  import opened RemoteCalls
  import opened HostSession
  import opened RemoteTable
  import opened Credentials
  import opened HostCredentials
  import M = MockDevice

  //
  // GenKey
  //

  lemma IntegerOnWire(n: Option<uint32>)
    ensures n.Some? ==>
      var v := IntegerOption(n).value; WellTyped(v) && Sendable(v) && Normal(v) == v && WireSize(v) == 5
    ensures OptionalInteger(IntegerOption(n), U32) == Ok(n)
  {
  }

  function KeyItem(key: uint16, n: Option<uint32>): seq<Value> {
    if n.Some? then [Named(Integer(U16, key), Integer(U32, n.value))] else []
  }

  lemma KeyItemFits(key: uint16, n: Option<uint32>)
    ensures AllWellTyped(KeyItem(key, n)) && AllSendable(KeyItem(key, n)) && WireSizeAll(KeyItem(key, n)) <= 10
  {
    if n.Some? {
      assert KeyItem(key, n)[1..] == [];
      assert WireSizeAll(KeyItem(key, n)) == WireSize(KeyItem(key, n)[0]) + 0;
    }
  }

  lemma KeyArgumentsPacked(publicExponent: Option<uint32>, pinLength: Option<uint32>)
    ensures GenKeyRequest(0, publicExponent, pinLength).args == KeyItem(0, publicExponent) + KeyItem(1, pinLength)
  {
    var optionals := [IntegerOption(publicExponent), IntegerOption(pinLength)];
    assert optionals[1..] == [IntegerOption(pinLength)] && optionals[1..][1..] == [];
    PackOptionalsCons(1, optionals[1..]);
    PackOptionalsCons(0, optionals);
    assert PackOptionals(2, []) == [];
  }

  lemma GenKeyFits(publicExponent: Option<uint32>, pinLength: Option<uint32>)
    ensures var args := GenKeyRequest(0, publicExponent, pinLength).args;
      && AllWellTyped(args) && AllSendable(args) && CallSize(args) < 100
      && UnpackArgs(0, 2, NormalAll(args)) == Ok(([], [IntegerOption(publicExponent), IntegerOption(pinLength)]))
  {
    hide UnpackArgs, IntegerOption, PackOptionals, KeyItem, WellTyped, Sendable;
    var optionals := [IntegerOption(publicExponent), IntegerOption(pinLength)];
    KeyArgumentsPacked(publicExponent, pinLength);
    IntegerOnWire(publicExponent);
    IntegerOnWire(pinLength);
    KeyItemFits(0, publicExponent);
    KeyItemFits(1, pinLength);
    WireSizeConcat(KeyItem(0, publicExponent), KeyItem(1, pinLength));
    UnpackAcrossWire([], optionals);
    OptionalsUnchanged(publicExponent, pinLength);
  }

  lemma OptionalsUnchanged(publicExponent: Option<uint32>, pinLength: Option<uint32>)
    ensures var optionals := [IntegerOption(publicExponent), IntegerOption(pinLength)];
      NormalOptionals(optionals) == optionals
    ensures NormalAll([]) == []
  {
    hide IntegerOption;
    IntegerOnWire(publicExponent);
    IntegerOnWire(pinLength);
  }

  function LengthOf(pinLength: Option<uint32>): Option<nat> {
    if pinLength.Some? then Some(pinLength.value) else None
  }

  /** A new key or PIN goes into column 3 of an object that can hold one. */
  function PlainGenKey(m: Cells, p: nat, uid: UID, pinLength: Option<uint32>, random: nat -> seq<byte>)
    : (Result<()>, Cells)
  {
    var key := NewKey(ContainingTable(uid), LengthOf(pinLength), random);
    if !IsObject(uid) || !HasUid(m, p, uid) || key.None? then (Err(InvocationFailure(INVALID_PARAMETER)), m)
    else if Cell(p, uid, PIN) !in m then (Err(AssertionFailed), m)
    else (Ok(()), m[Cell(p, uid, PIN) := key.value])
  }

  /** What a device still stores after a call, for the map the call has left behind. */
  ghost predicate StillStores(d: M.Device, d': M.Device, m: Cells) {
    && Represents(d'.providers, m) && ValidProviders(d'.providers) && AllTyped(m)
    && SameShape(d.providers, d'.providers) && OnlyTables(d, d')
  }

  lemma NewKeyTyped(table: UID, pinLength: Option<nat>, random: nat -> seq<byte>)
    ensures var key := NewKey(table, pinLength, random); key.Some? ==> WellTyped(key.value)
  {
  }

  lemma GenerateRefines(ps: seq<Provider>, m: Cells, p: nat, uid: UID, pinLength: Option<uint32>,
                        random: nat -> seq<byte>)
    requires Represents(ps, m) && ValidProviders(ps) && p < |ps| && AllTyped(m)
    ensures var (r, us) := GenerateKey(ps[p].tables, uid, LengthOf(pinLength), random);
      var qs := WithTables(ps, p, us);
      var (plain, m') := PlainGenKey(m, p, uid, pinLength, random);
      && Represents(qs, m') && SameShape(ps, qs) && ValidProviders(qs) && AllTyped(m')
      && (r.Ok? ==> r.value.values == []) && Unanswered(r) == plain
  {
    hide Represents, ValidProviders, SameShape, NewKey, WellTyped;
    M.SameShapeReflexive(ps);
    assert WithTables(ps, p, ps[p].tables) == ps;
    RowColumns(ps, m, p, uid);
    var key := NewKey(ContainingTable(uid), LengthOf(pinLength), random);
    NewKeyTyped(ContainingTable(uid), LengthOf(pinLength), random);
    if HasUid(m, p, uid) && key.Some? && Cell(p, uid, PIN) in m {
      WriteCell(ps, m, Cell(p, uid, PIN), key.value);
    }
  }

  lemma DeviceGenKey(ps: seq<Provider>, p: nat, uid: UID, publicExponent: Option<uint32>, pinLength: Option<uint32>,
                     random: nat -> seq<byte>)
    requires p < |ps|
    ensures var request := GenKeyRequest(uid, publicExponent, pinLength);
      var (r, us) := GenerateKey(ps[p].tables, uid, LengthOf(pinLength), random);
      CallMethod(ps, p, request.(args := NormalAll(request.args)), random) == (r, WithTables(ps, p, us))
  {
    hide UnpackArgs, OptionalInteger, IntegerOption, GenerateKey, WellTyped, Sendable, CallSize;
    GenKeyFits(publicExponent, pinLength);
    IntegerOnWire(publicExponent);
    IntegerOnWire(pinLength);
  }

  /** A host GenKey over the wire is one write of the plain map. */
  lemma GenKeyRefines(d: M.Device, host: Session, p: nat, m: Cells, uid: UID, publicExponent: Option<uint32>,
                      pinLength: Option<uint32>)
    requires Serves(d, host, p, m) && uid != M.SESSION_MANAGER
    ensures CallFits(GenKeyRequest(uid, publicExponent, pinLength))
    ensures AllSendable(GenKeyRequest(uid, publicExponent, pinLength).args)
    ensures ReplyFits(DeviceResult(d, GenKeyRequest(uid, publicExponent, pinLength), host.id, host.env))
    ensures var (r, d') := HostGenKey(d, host, uid, publicExponent, pinLength);
      var (plain, m') := PlainGenKey(m, p, uid, pinLength, host.env.random);
      r == plain && StillStores(d, d', m')
  {
    hide CallMethod, InvokeVoid, PlainGenKey, Represents, ValidProviders, SameShape, AllTyped, PackArgs, AllSendable,
         AllWellTyped, CallSize, ReplyFits, Unanswered, GenerateKey;
    GenKeyFits(publicExponent, pinLength);
    DeviceGenKey(d.providers, p, uid, publicExponent, pinLength, host.env.random);
    GenerateRefines(d.providers, m, p, uid, pinLength, host.env.random);
    VoidCall(d, host, GenKeyRequest(uid, publicExponent, pinLength));
  }

  //
  // Activate and Revert
  //

  lemma NoArgumentsFit()
    ensures PackArgs([], []) == [] && NormalAll([]) == []
    ensures AllWellTyped([]) && AllSendable([]) && CallSize([]) < 100
    ensures UnpackArgs(0, 0, []) == Ok(([], []))
  {
  }

  predicate HasProviderObject(m: Cells, p: nat, uid: UID) {
    ContainingTable(uid) == SP_TABLE && HasUid(m, p, uid)
  }

  /** The identifiers of the registered providers. */
  function SpIds(ps: seq<Provider>): (ids: seq<UID>)
    ensures |ids| == |ps| && forall i :: 0 <= i < |ps| ==> ids[i] == ps[i].uid
  {
    seq(|ps|, i requires 0 <= i < |ps| => ps[i].uid)
  }

  lemma {:induction false} FoundAtIndex(ps: seq<Provider>, uid: UID)
    ensures IndexOf(SpIds(ps), uid) == FindProvider(ps, uid)
  {
    if ps != [] {
      assert SpIds(ps)[1..] == SpIds(ps[1..]);
      FoundAtIndex(ps[1..], uid);
    }
  }

  /** A PIN object of a provider, as the plain map has it. */
  lemma PinInMap(ps: seq<Provider>, m: Cells, p: nat, uid: UID)
    requires Represents(ps, m) && ContainingTable(uid) == C_PIN_TABLE
    ensures (p < |ps| && HasPin(ps[p].tables, uid)) <==> Cell(p, uid, PIN) in m
    ensures p < |ps| && HasPin(ps[p].tables, uid) ==>
      ps[p].tables[C_PIN_TABLE].objects[uid][PIN] == m[Cell(p, uid, PIN)]
  {
    var c := Cell(p, uid, PIN);
    assert c in m <==> HasCell(ps, c);
    if HasCell(ps, c) {
      assert CellAt(ps, c) == m[c];
    }
  }

  /** The second half of Activate. */
  function PlainCopy(spIds: seq<UID>, m: Cells, p: nat): (Result<()>, Cells)
    requires p < |spIds|
  {
    var locking := IndexOf(spIds, LOCKING_SP);
    if spIds[p] != ADMIN_SP then (Err(BadOptional), m)
    else if locking < 0 || Cell(locking, C_PIN_ADMIN1, PIN) !in m || Cell(p, C_PIN_SID, PIN) !in m then
      (Err(AssertionFailed), m)
    else (Ok(()), m[Cell(locking, C_PIN_ADMIN1, PIN) := m[Cell(p, C_PIN_SID, PIN)]])
  }

  lemma CopyRefines(ps: seq<Provider>, m: Cells, p: nat)
    requires Represents(ps, m) && ValidProviders(ps) && p < |ps|
    ensures var (r, qs) := CopySidPin(ps, p);
      var (plain, m') := PlainCopy(SpIds(ps), m, p);
      && Represents(qs, m') && SameShape(ps, qs) && ValidProviders(qs)
      && (r.Ok? ==> r.value.values == []) && Unanswered(r) == plain
  {
    hide Represents, ValidProviders, SameShape;
    M.SameShapeReflexive(ps);
    FoundAtIndex(ps, LOCKING_SP);
    var locking := FindProvider(ps, LOCKING_SP);
    assert ContainingTable(C_PIN_SID) == C_PIN_TABLE && ContainingTable(C_PIN_ADMIN1) == C_PIN_TABLE;
    PinInMap(ps, m, p, C_PIN_SID);
    if locking >= 0 {
      PinInMap(ps, m, locking, C_PIN_ADMIN1);
      if HasPin(ps[locking].tables, C_PIN_ADMIN1) && HasPin(ps[p].tables, C_PIN_SID) {
        WriteCell(ps, m, Cell(locking, C_PIN_ADMIN1, PIN), m[Cell(p, C_PIN_SID, PIN)]);
      }
    }
  }

  /** An inactive provider becomes active; its life cycle has changed even where the second half then fails. */
  function PlainActivate(spIds: seq<UID>, m: Cells, p: nat, uid: UID): (Result<()>, Cells)
    requires p < |spIds|
  {
    var lifeCycle := Cell(p, uid, LIFE_CYCLE);
    if !HasProviderObject(m, p, uid) then (Err(InvocationFailure(INVALID_PARAMETER)), m)
    else if lifeCycle !in m then (Err(AssertionFailed), m)
    else if m[lifeCycle] != INACTIVE then (Ok(()), m)
    else PlainCopy(spIds, m[lifeCycle := ACTIVE], p)
  }

  /** Objects of the table of providers, as the plain map has them. */
  lemma ProviderObject(ps: seq<Provider>, m: Cells, p: nat, uid: UID)
    requires p < |ps| && Filed(ps) && Represents(ps, m) && ValidProviders(ps)
    ensures var ts := ps[p].tables;
      (SP_TABLE in ts && uid in ts[SP_TABLE].objects) <==> HasProviderObject(m, p, uid)
    ensures HasProviderObject(m, p, uid) ==>
      var row := ps[p].tables[SP_TABLE].objects[uid];
      && HasObject(ps[p].tables, uid) && Row(ps[p].tables, uid) == row
      && (Cell(p, uid, LIFE_CYCLE) in m <==> LIFE_CYCLE < |row|)
      && (LIFE_CYCLE < |row| ==> m[Cell(p, uid, LIFE_CYCLE)] == row[LIFE_CYCLE])
  {
    hide Represents, ValidProviders, Filed;
    RowColumns(ps, m, p, uid);
    if SP_TABLE in ps[p].tables {
      FiledObject(ps, p, m, SP_TABLE, uid);
    }
  }

  lemma ActivateSpRefines(ps: seq<Provider>, m: Cells, p: nat, uid: UID)
    requires p < |ps| && Filed(ps) && Represents(ps, m) && ValidProviders(ps)
    ensures var (r, qs) := ActivateSp(ps, p, uid);
      var (plain, m') := PlainActivate(SpIds(ps), m, p, uid);
      && Represents(qs, m') && SameShape(ps, qs) && ValidProviders(qs)
      && (r.Ok? ==> r.value.values == []) && Unanswered(r) == plain
  {
    hide Represents, ValidProviders, SameShape, CopySidPin, PlainCopy, Filed, HasProviderObject, HasObject;
    M.SameShapeReflexive(ps);
    ProviderObject(ps, m, p, uid);
    if HasProviderObject(m, p, uid) {
      var lifeCycle := Cell(p, uid, LIFE_CYCLE);
      if lifeCycle in m && m[lifeCycle] == INACTIVE {
        SwitchRefines(ps, m, p, uid);
        var qs := ActivatedProviders(ps, p, uid);
        CopyRefines(qs, m[lifeCycle := ACTIVE], p);
        SameShapeTransitive(ps, qs, CopySidPin(qs, p).1);
      }
    }
  }

  function ActivatedProviders(ps: seq<Provider>, p: nat, uid: UID): seq<Provider>
    requires p < |ps| && HasObject(ps[p].tables, uid) && |Row(ps[p].tables, uid)| > LIFE_CYCLE
  {
    WithTables(ps, p, WithRow(ps[p].tables, uid, Row(ps[p].tables, uid)[LIFE_CYCLE := ACTIVE]))
  }

  lemma SwitchRefines(ps: seq<Provider>, m: Cells, p: nat, uid: UID)
    requires p < |ps| && Represents(ps, m) && ValidProviders(ps) && HasProviderObject(m, p, uid)
    requires HasObject(ps[p].tables, uid) && |Row(ps[p].tables, uid)| > LIFE_CYCLE
    ensures var qs := ActivatedProviders(ps, p, uid);
      && Represents(qs, m[Cell(p, uid, LIFE_CYCLE) := ACTIVE]) && SameShape(ps, qs) && ValidProviders(qs)
      && SpIds(qs) == SpIds(ps)
      && var ts, t := ps[p].tables, ps[p].tables[SP_TABLE];
         var row := t.objects[uid][LIFE_CYCLE := ACTIVE];
         qs == WithTables(ps, p, ts[SP_TABLE := t.(objects := t.objects[uid := row])])
  {
    hide Represents, ValidProviders, SameShape;
    WriteCell(ps, m, Cell(p, uid, LIFE_CYCLE), ACTIVE);
  }

  lemma CopyTyped(spIds: seq<UID>, m: Cells, p: nat, uid: UID)
    requires p < |spIds| && AllTyped(m)
    ensures AllTyped(PlainActivate(spIds, m, p, uid).1)
  {
  }

  /** A host Activate over the wire writes at most the two cells of the plain map. */
  lemma ActivateRefines(d: M.Device, host: Session, p: nat, m: Cells, uid: UID)
    requires Serves(d, host, p, m) && Filed(d.providers) && uid != M.SESSION_MANAGER
    ensures CallFits(ActivateRequest(uid)) && AllSendable(ActivateRequest(uid).args)
    ensures ReplyFits(DeviceResult(d, ActivateRequest(uid), host.id, host.env))
    ensures var (r, d') := HostActivate(d, host, uid);
      var (plain, m') := PlainActivate(SpIds(d.providers), m, p, uid);
      r == plain && StillStores(d, d', m')
  {
    hide InvokeVoid, PlainActivate, Represents, ValidProviders, SameShape, AllTyped, PackArgs, AllSendable,
         AllWellTyped, CallSize, ReplyFits, Unanswered, ActivateSp, UnpackArgs, Filed;
    NoArgumentsFit();
    ActivateSpRefines(d.providers, m, p, uid);
    CopyTyped(SpIds(d.providers), m, p, uid);
    VoidCall(d, host, ActivateRequest(uid));
  }

  /** Revert only looks whether the object is there. */
  function PlainRevert(m: Cells, p: nat, uid: UID): Result<()> {
    if HasProviderObject(m, p, uid) then Ok(()) else Err(InvocationFailure(INVALID_PARAMETER))
  }

  lemma RevertRefines(d: M.Device, host: Session, p: nat, m: Cells, uid: UID)
    requires Serves(d, host, p, m) && Filed(d.providers) && uid != M.SESSION_MANAGER
    ensures CallFits(RevertRequest(uid)) && AllSendable(RevertRequest(uid).args)
    ensures ReplyFits(DeviceResult(d, RevertRequest(uid), host.id, host.env))
    ensures HostRevert(d, host, uid).0 == PlainRevert(m, p, uid) && OnlyResponse(d, HostRevert(d, host, uid).1)
  {
    hide InvokeVoid, Represents, ValidProviders, SameShape, AllTyped, PackArgs, AllSendable, AllWellTyped, CallSize,
         ReplyFits, UnpackArgs, Filed, HasProviderObject;
    NoArgumentsFit();
    ProviderObject(d.providers, m, p, uid);
    VoidCall(d, host, RevertRequest(uid));
  }
}
