/**
 * How the host reads a reply, whatever drive it comes from (Method.cpp, MethodUtils.cpp, Session.cpp,
 * SessionManager.cpp).
 */
module HostReplies {
  import opened Common
  import opened FlatBinary
  import opened Values
  import opened ComPackets
  import opened Methods
  import opened Rpc
  import opened RemoteCalls
  import opened HostSession
  import opened HostSessions
  import M = MockDevice

  //
  // Status
  //

  /** The members of eMethodStatus. */
  datatype MethodStatus =
    | Success
    | NotAuthorized
    | Obsolete
    | SpBusy
    | SpFailed
    | SpDisabled
    | SpFrozen
    | NoSessionsAvailable
    | UniquenessConflict
    | InsufficientSpace
    | InsufficientRows
    | InvalidParameter
    | Obsolete1
    | Obsolete2
    | TPerMalfunction
    | TransactionFailure
    | ResponseOverflow
    | AuthorityLockedOut
    | Failure
  {
    function Code(): Status {
      match this
      case Success => 0x00
      case NotAuthorized => 0x01
      case Obsolete => 0x02
      case SpBusy => 0x03
      case SpFailed => 0x04
      case SpDisabled => 0x05
      case SpFrozen => 0x06
      case NoSessionsAvailable => 0x07
      case UniquenessConflict => 0x08
      case InsufficientSpace => 0x09
      case InsufficientRows => 0x0A
      case InvalidParameter => 0x0C
      case Obsolete1 => 0x0D
      case Obsolete2 => 0x0E
      case TPerMalfunction => 0x0F
      case TransactionFailure => 0x10
      case ResponseOverflow => 0x11
      case AuthorityLockedOut => 0x12
      case Failure => 0x3F
    }
  }

  /** A status that has a name, other than success. */
  ghost predicate IsFailure(status: Status) {
    exists m: MethodStatus :: m != Success && m.Code() == status
  }

  /** The value of a status list, with the code as any integer. */
  predicate IsStatus(v: Value, status: Status) {
    v.List? && |v.items| == 3 && v.items[0].Integer? && v.items[0].n % 0x100 == status
  }

  lemma StatusRead(v: Value)
    ensures StatusOf(v).Ok? <==> v.List? && |v.items| == 3 && v.items[0].Integer?
    ensures StatusOf(v).Ok? ==> IsStatus(v, StatusOf(v).value)
  {
    if v.List? && |v.items| == 3 && v.items[0].Integer? {
      LowByte(v.items[0].n);
    }
  }

  lemma LowByte(n: int)
    ensures Cast(U32, n) % 0x100 == n % 0x100
  {
    var q, r := n / 0x1_0000_0000, n % 0x1_0000_0000;
    assert n == 0x100 * (0x100_0000 * q + r / 0x100) + r % 0x100;
    ModOfInt(n, 0x100, 0x100_0000 * q + r / 0x100, r % 0x100);
  }

  lemma ModOfInt(n: int, m: nat, k: int, x: nat)
    requires 0 <= x < m && n == m * k + x
    ensures n % m == x
  {
    ModUnique(n, m, k, x);
  }

  lemma NamedStatuses()
    ensures forall status: Status :: Raises(status) <==> IsFailure(status)
  {
    forall status: Status ensures Raises(status) <==> IsFailure(status) {
      if Raises(status) {
        var m := if status == 0x01 then NotAuthorized else if status == 0x02 then Obsolete
          else if status == 0x03 then SpBusy else if status == 0x04 then SpFailed
          else if status == 0x05 then SpDisabled else if status == 0x06 then SpFrozen
          else if status == 0x07 then NoSessionsAvailable else if status == 0x08 then UniquenessConflict
          else if status == 0x09 then InsufficientSpace else if status == 0x0A then InsufficientRows
          else if status == 0x0C then InvalidParameter else if status == 0x0D then Obsolete1
          else if status == 0x0E then Obsolete2 else if status == 0x0F then TPerMalfunction
          else if status == 0x10 then TransactionFailure else if status == 0x11 then ResponseOverflow
          else if status == 0x12 then AuthorityLockedOut else Failure;
        assert m != Success && m.Code() == status;
      }
    }
  }

  /**
   * A reply with some values and any status, as the result of a method and as a call of the session manager: the host
   * takes it for a success exactly if the status is that of success or has no name, and otherwise raises it.
   */
  lemma StatusDecides(vs: seq<Value>, uid: UID, methodId: UID, status: Status, code: Value, rest: seq<Value>)
    requires code.Integer? && code.n % 0x100 == status && |rest| == 2
    ensures ReadResult(Ok(List([List(vs), Cmd(END_OF_DATA), List([code] + rest)])))
            == if IsFailure(status) then Err(InvocationFailure(status)) else Ok(MethodResult(vs, status))
    ensures ReadSessionResult(Ok(List([Cmd(CALL), Bytes(BigEndian(uid, 8)), Bytes(BigEndian(methodId, 8)), List(vs),
                                       Cmd(END_OF_DATA), List([code] + rest)])))
            == if IsFailure(status) then Err(InvocationFailure(status)) else Ok(MethodResult(vs, status))
  {
    hide Raises, IsFailure, FromBigEndian, BigEndian, Cast;
    NamedStatuses();
    StatusRead(List([code] + rest));
    UidRoundTrip(uid);
    UidRoundTrip(methodId);
  }

  //
  // Results and calls
  //

  /** A well-formed method call with these parts. */
  predicate IsCall(v: Value, call: MethodCall) {
    && v.List? && |v.items| >= 6
    && v.items[0] == Cmd(CALL)
    && v.items[1].Bytes? && |v.items[1].bytes| >= 8 && FromBigEndian(v.items[1].bytes[..8]) == call.invokingId
    && v.items[2].Bytes? && |v.items[2].bytes| >= 8 && FromBigEndian(v.items[2].bytes[..8]) == call.methodId
    && v.items[3] == List(call.args)
    && v.items[4] == Cmd(END_OF_DATA)
    && IsStatus(v.items[5], call.status)
  }

  lemma UidRead(b: seq<byte>)
    ensures UidOfBytes(b).Ok? <==> |b| >= 8
    ensures UidOfBytes(b).Ok? ==> UidOfBytes(b).value == FromBigEndian(b[..8])
    ensures UidOfBytes(b).Err? ==> UidOfBytes(b).error == InvalidArgument
  {
  }

  /** A value is read as a call exactly if it is one; items behind the sixth are ignored. */
  lemma CallReadIff(v: Value, call: MethodCall)
    ensures CallFromValue(v) == Ok(call) <==> IsCall(v, call)
    ensures CallFromValue(v).Err? ==> CallFromValue(v).error == InvalidArgument
  {
    hide UidOfBytes, StatusOf, FromBigEndian;
    if v.List? && |v.items| >= 6 {
      StatusRead(v.items[5]);
      if v.items[1].Bytes? {
        UidRead(v.items[1].bytes);
      }
      if v.items[2].Bytes? {
        UidRead(v.items[2].bytes);
      }
    }
  }

  /** A well-formed result with these parts: a closed session counts as a failed method without values. */
  ghost predicate IsResult(v: Value, result: MethodResult) {
    && v.List? && |v.items| >= 3
    && if v.items[0] == Cmd(CALL)
       then (exists call :: IsCall(v, call) && call.methodId == 0xFF06) && result == MethodResult([], 0x3F)
       else v.items[0] == List(result.values) && v.items[1] == Cmd(END_OF_DATA) && IsStatus(v.items[2], result.status)
  }

  /** A value is read as a result exactly if it is one; items behind the third are ignored. */
  lemma ResultReadIff(v: Value, result: MethodResult)
    ensures ResultFromValue(v) == Ok(result) <==> IsResult(v, result)
    ensures ResultFromValue(v).Err? ==> ResultFromValue(v).error == InvalidArgument
  {
    hide CallFromValue, StatusOf, IsCall;
    if v.List? && |v.items| >= 3 {
      StatusRead(v.items[2]);
      if v.items[0] == Cmd(CALL) {
        forall call ensures CallFromValue(v) == Ok(call) <==> IsCall(v, call) {
          CallReadIff(v, call);
        }
        CallReadIff(v, MethodCall(0, 0, [], 0));
      }
    }
  }

  /** Of a frame the host reads the first sub-packet of the first packet; without one there is no response. */
  lemma ReplyPayload(c: ComPacket, isList: bool)
    ensures DecodeReply(c, isList) ==
      if |c.payload| == 0 || |c.payload[0].payload| == 0 then Err(NoResponse)
      else ValueOfPayload(c.payload[0].payload[0].payload, isList)
  {
    hide ValueOfPayload;
  }

  //
  // Results of the methods
  //

  /** Behind the results that a method must have, a reply may hold more, as long as integers name it. */
  lemma ResultsUnpackIff(vs: seq<Value>, status: Status, count: nat)
    ensures var r := UnpackResult(Ok(MethodResult(vs, status)), count);
      && (r.Ok? <==> |vs| >= count && forall i :: count <= i < |vs| ==> vs[i].Named? && vs[i].name.Integer?)
      && (r.Ok? ==> r.value == vs[..count])
      && (r.Err? ==> r.error == BadParameterList)
  {
    hide Present;
    if |vs| >= count {
      PresentSucceedsIff(vs[count..]);
      assert forall i :: count <= i < |vs| ==> vs[i] == vs[count..][i - count];
    }
  }

  /** A proof is accepted on any integer whose low byte is not zero; a challenge in place of it is not supported. */
  lemma VerdictRead(vs: seq<Value>)
    ensures Accepted(Ok(vs)) ==
      if |vs| == 0 then Err(BadParameterList)
      else if !vs[0].Integer? then Err(NotImplemented)
      else if vs[0].kind.BoolKind? && InRange(BoolKind, vs[0].n)
      then (if vs[0].n == 1 then Ok(()) else Err(PasswordRejected))
      else if vs[0].n % 0x100 != 0 then Ok(()) else Err(PasswordRejected)
  {
  }

  /** Rows are read exactly from a list of byte strings of eight bytes or more, of which the first eight count. */
  lemma RowsReadIff(v: Value, uids: seq<UID>)
    ensures CollectUids(Ok([v])) == Ok(uids) <==>
      && v.List? && |v.items| == |uids|
      && forall i :: 0 <= i < |uids| ==>
           v.items[i].Bytes? && |v.items[i].bytes| >= 8 && FromBigEndian(v.items[i].bytes[..8]) == uids[i]
  {
    hide UidsOf;
    if v.List? {
      UidsReadIff(v.items, uids);
    }
  }

  lemma {:induction false} UidsReadIff(vs: seq<Value>, uids: seq<UID>)
    ensures UidsOf(vs) == Ok(uids) <==>
      && |vs| == |uids|
      && forall i :: 0 <= i < |uids| ==>
           vs[i].Bytes? && |vs[i].bytes| >= 8 && FromBigEndian(vs[i].bytes[..8]) == uids[i]
  {
    hide UidOfBytes, FromBigEndian;
    if vs != [] {
      if vs[0].Bytes? {
        UidRead(vs[0].bytes);
      }
      if uids != [] {
        UidsReadIff(vs[1..], uids[1..]);
        assert uids == [uids[0]] + uids[1..];
        assert forall i :: 0 < i < |vs| ==> vs[i] == vs[1..][i - 1];
        assert forall i :: 0 < i < |uids| ==> uids[i] == uids[1..][i - 1];
      }
      if UidsOf(vs[1..]).Ok? {
        UidsReadIff(vs[1..], UidsOf(vs[1..]).value);
      }
    }
  }

  /** Of the reply to a start the host takes the second number as the device's, and its own number as its own. */
  lemma StartReadIff(vs: seq<Value>, status: Status, hsn: uint32, id: M.SessionId)
    ensures StartedSession(Ok(MethodResult(vs, status)), hsn) == Ok(id) <==>
      && |vs| >= 2 && vs[0].Integer? && vs[1].Integer?
      && (forall i :: 2 <= i < |vs| ==> vs[i].Named? && vs[i].name.Integer?)
      && id.hsn == hsn && id.tsn == vs[1].n % 0x1_0000_0000
  {
    hide Present;
    if |vs| >= 2 {
      PresentSucceedsIff(vs[2..]);
      assert forall i :: 2 <= i < |vs| ==> vs[i] == vs[2..][i - 2];
    }
  }

  /** Where a labeled value goes: its number less the first column asked for, in 64-bit arithmetic. */
  predicate GoesTo(item: Value, startColumn: uint32, place: nat) {
    item.Named? && item.name.Integer? && (item.name.n - startColumn) % TWO_TO_64 == place
  }

  lemma PlaceOf(item: Value, startColumn: uint32)
    requires item.Named? && item.name.Integer?
    ensures (Cast(U64, item.name.n) - startColumn) % TWO_TO_64 == (item.name.n - startColumn) % TWO_TO_64
  {
    var n := item.name.n;
    var q, r := n / TWO_TO_64, n % TWO_TO_64;
    var a, b := (r - startColumn) / TWO_TO_64, (r - startColumn) % TWO_TO_64;
    assert n - startColumn == (q + a) * TWO_TO_64 + b;
    ModUnique(n - startColumn, TWO_TO_64, q + a, b);
  }

  /** A column holds the value of the last item that goes there, or what was there before. */
  lemma {:induction false} ColumnHolds(values: seq<Value>, startColumn: uint32, items: seq<Value>, place: nat)
    requires FillColumns(values, startColumn, items).Ok? && place < |values|
    ensures var stored := FillColumns(values, startColumn, items).value;
      && |stored| == |values|
      && (forall i :: 0 <= i < |items| && GoesTo(items[i], startColumn, place)
                      && (forall j :: i < j < |items| ==> !GoesTo(items[j], startColumn, place))
                      ==> stored[place] == items[i].value)
      && ((forall i :: 0 <= i < |items| ==> !GoesTo(items[i], startColumn, place)) ==> stored[place] == values[place])
    decreases |items|
  {
    hide Cast;
    if items != [] {
      PlaceOf(items[0], startColumn);
      var rest := items[1..];
      assert forall i :: 0 < i < |items| ==> items[i] == rest[i - 1];
      var at := (Cast(U64, items[0].name.n) - startColumn) % TWO_TO_64;
      ColumnHolds(values[at := items[0].value], startColumn, rest, place);
    }
  }
}
