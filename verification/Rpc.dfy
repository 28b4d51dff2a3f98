/** The message pipeline of host and device (MethodUtils.cpp; SecuritySend and the replies in MockDevice.cpp). */
module Rpc {
  import opened Common
  import opened Values
  import opened Tokens
  import opened TokenStreams
  import opened ComPackets
  import opened Archives
  import opened Methods

  /** The numbers every message is stamped with. */
  datatype Address = Address(comId: uint16, comIdExtension: uint16, tsn: uint32, hsn: uint32)

  /** CreatePacket on the host and Packetize on the device build the same frame. */
  function CreatePacket(payload: seq<byte>, to: Address): ComPacket {
    ComPacket(to.comId, to.comIdExtension, 0, 0,
              [Packet(to.tsn, to.hsn, 0, 0, 0, [SubPacket(0, payload)])])
  }

  /** The bytes of a value, without its outermost list when it is sent as one. */
  function PayloadOf(v: Value, isList: bool): Result<seq<byte>> {
    var tokens :- TokensOf(v);
    var stream :- if isList then UnSurroundWithList(tokens) else Ok(tokens);
    PrintStream(stream)
  }

  function EncodeMessage(v: Value, isList: bool, to: Address): Result<seq<byte>> {
    var payload :- PayloadOf(v, isList);
    Ok(SaveComPacket(CreatePacket(payload, to)))
  }

  function ValueOfPayload(payload: seq<byte>, isList: bool): Result<Value> {
    var tokens :- ParseStream(payload);
    var parsed :- ParseValue(Received(tokens, isList));
    Ok(parsed.0)
  }

  /** UnwrapPacket. */
  function UnwrapPacket(c: ComPacket): Result<seq<byte>> {
    if c.payload == [] || c.payload[0].payload == [] then Err(NoResponse)
    else Ok(c.payload[0].payload[0].payload)
  }

  /** What the host makes of a received frame. */
  function DecodeReply(c: ComPacket, isList: bool): Result<Value> {
    var payload :- UnwrapPacket(c);
    ValueOfPayload(payload, isList)
  }

  /** What the device makes of received bytes: nothing, the end of a session, or a method call. */
  datatype Request =
    | NoRequest
    | EndOfSession(tsn: uint32, hsn: uint32)
    | Call(call: MethodCall, tsn: uint32, hsn: uint32)

  /** The first half of SecuritySend, up to the point where a method is dispatched. */
  function DecodeRequest(data: seq<byte>, comId: uint16): Result<Request> {
    var c :- LoadComPacket(data);
    if c.comId != comId || c.comIdExtension != 0 then Err(DeviceFailure)
    else if c.payload == [] || c.payload[0].payload == [] then Ok(NoRequest)
    else
      var packet := c.payload[0];
      var v :- ValueOfPayload(packet.payload[0].payload, true);
      var items :- GetList(v);
      if items != [] && items[0] == Cmd(END_OF_SESSION) then
        Ok(EndOfSession(packet.tperSessionNumber, packet.hostSessionNumber))
      else
        var call := CallFromValue(v);
        if call.Err? then Err(DeviceFailure)
        else Ok(Call(call.value, packet.tperSessionNumber, packet.hostSessionNumber))
  }

  //
  // One payload there and back
  //

  lemma {:induction false} PrintedTokensAreWellFormed(v: Value)
    requires TokensOf(v).Ok?
    ensures AllWellFormed(TokensOf(v).value)
    decreases v, 1
  {
    match v
    case List(items) =>
      PrintedItemsAreWellFormed(items);
    case Named(name, value) =>
      PrintedTokensAreWellFormed(name);
      PrintedTokensAreWellFormed(value);
    case _ =>
  }

  lemma {:induction false} PrintedItemsAreWellFormed(vs: seq<Value>)
    requires TokensOfAll(vs).Ok?
    ensures AllWellFormed(TokensOfAll(vs).value)
    decreases vs, 0
  {
    if vs != [] {
      PrintedTokensAreWellFormed(vs[0]);
      PrintedItemsAreWellFormed(vs[1..]);
    }
  }

  /** A sendable value survives the payload bytes up to its normal form; a list may leave its brackets at home. */
  lemma PayloadRoundTrip(v: Value, isList: bool)
    requires WellTyped(v) && Sendable(v) && (isList ==> v.List?)
    ensures PayloadOf(v, isList).Ok?
    ensures ValueOfPayload(PayloadOf(v, isList).value, isList) == Ok(Normal(v))
  {
    PrintsExactlySendable(v);
    PrintedTokensAreWellFormed(v);
    ValueRoundTrip(v, []);
    var tokens := TokensOf(v).value;
    assert tokens + [] == tokens;
    if isList {
      var inner := TokensOfAll(v.items).value;
      assert tokens == SurroundWithList(inner);
      UnSurroundSurround(inner);
      assert AllWellFormed(inner) by {
        assert forall i :: 0 <= i < |inner| ==> inner[i] == tokens[i + 1];
      }
      StreamRoundTripIff(inner);
    } else {
      StreamRoundTripIff(tokens);
    }
  }

  /** The tokens a receiver hands to the grammar parser. */
  function Received(tokens: seq<Token>, isList: bool): seq<Token> {
    if isList then SurroundWithList(tokens) else tokens
  }

  lemma ReceivedTokens(tokens: seq<Token>, isList: bool)
    ensures Bounded(tokens) ==> Bounded(Received(tokens, isList))
    ensures Received(tokens, isList) == [] <==> tokens == [] && !isList
    ensures isList && ParseValue(Received(tokens, isList)).Ok? ==> ParseValue(Received(tokens, isList)).value.0.List?
  {
    hide ParseItems;
  }

  /**
   * Whatever bytes a receiver accepts, the value it makes of them can be sent, and the bytes it is then sent as, which
   * may be others, are received as the very same value. Only no bytes at all, where no list is expected, are received
   * as the empty value, which cannot be sent.
   */
  lemma ReceivedValueComesBack(payload: seq<byte>, isList: bool)
    requires ValueOfPayload(payload, isList).Ok?
    ensures var v := ValueOfPayload(payload, isList).value;
      if payload == [] && !isList then v == Empty && PayloadOf(v, isList).Err?
      else
        && (isList ==> v.List?) && PayloadOf(v, isList).Ok?
        && ValueOfPayload(PayloadOf(v, isList).value, isList) == Ok(v)
  {
    if payload == [] && !isList {
      return;
    }
    hide ParseStream, ParseValue, PayloadOf, Bounded, Received;
    var tokens := ParseStream(payload).value;
    ParsedIsBounded(payload);
    ReceivedTokens(tokens, isList);
    ParsedIsCanonical(Received(tokens, isList));
    PayloadRoundTrip(ValueOfPayload(payload, isList).value, isList);
  }

  /** A payload is refused by the sender exactly when some part of the value cannot be sent. */
  lemma PayloadFailsIff(v: Value, isList: bool)
    requires WellTyped(v) && (isList ==> v.List?)
    ensures PayloadOf(v, isList).Ok? <==> Sendable(v)
  {
    if Sendable(v) {
      PayloadRoundTrip(v, isList);
    } else {
      PrintsExactlySendable(v);
    }
  }

  const MAX_PAYLOAD: nat := TWO_TO_32 - 60

  lemma FrameRoundTrip(payload: seq<byte>, to: Address, trailing: seq<byte>)
    requires |payload| < MAX_PAYLOAD
    ensures LoadComPacket(SaveComPacket(CreatePacket(payload, to)) + trailing) == Ok(CreatePacket(payload, to))
    ensures |SaveComPacket(CreatePacket(payload, to))| == 56 + (|payload| + 3) / 4 * 4
  {
    var c := CreatePacket(payload, to);
    SingleSubPacketLoads(c, c.payload[0], SubPacket(0, payload), trailing);
  }

  //
  // Transparency
  //

  lemma StatusIsSendable(status: Status)
    ensures WellTyped(StatusList(status)) && Sendable(StatusList(status))
  {
  }

  lemma CallIsSendable(call: MethodCall)
    ensures WellTyped(CallToValue(call)) <==> AllWellTyped(call.args)
    ensures Sendable(CallToValue(call)) <==> AllSendable(call.args)
  {
    hide StatusList;
    var items := CallItems(call);
    StatusIsSendable(call.status);
    assert forall i :: 0 <= i < |items| && i != 3 ==> WellTyped(items[i]) && Sendable(items[i]);
    assert items[3] == List(call.args);
  }

  lemma ResultIsSendable(result: MethodResult)
    ensures WellTyped(ResultToValue(result)) <==> AllWellTyped(result.values)
    ensures Sendable(ResultToValue(result)) <==> AllSendable(result.values)
  {
    hide StatusList;
    var items := ResultItems(result);
    StatusIsSendable(result.status);
    assert forall i :: 0 < i < |items| ==> WellTyped(items[i]) && Sendable(items[i]);
    assert items[0] == List(result.values);
  }

  /** The host sends a call exactly when all of its arguments can be sent. */
  lemma CallEncodesIff(call: MethodCall, to: Address)
    requires AllWellTyped(call.args)
    ensures EncodeMessage(CallToValue(call), true, to).Ok? <==> AllSendable(call.args)
  {
    CallIsSendable(call);
    PayloadFailsIff(CallToValue(call), true);
  }

  /**
   * RPC transparency, host to device: the bytes of a call are decoded to the same identifiers, status and
   * arguments in wire form, under the session numbers they were sent with.
   */
  lemma CallTransparency(call: MethodCall, to: Address)
    requires AllWellTyped(call.args) && AllSendable(call.args) && to.comIdExtension == 0
    ensures PayloadOf(CallToValue(call), true).Ok?
    ensures |PayloadOf(CallToValue(call), true).value| < MAX_PAYLOAD ==>
      && EncodeMessage(CallToValue(call), true, to).Ok?
      && DecodeRequest(EncodeMessage(CallToValue(call), true, to).value, to.comId)
         == Ok(Call(call.(args := NormalAll(call.args)), to.tsn, to.hsn))
  {
    hide SaveComPacket, LoadComPacket, PayloadOf, ValueOfPayload, CallFromValue, Normal, AllSendable, AllWellTyped;
    var v := CallToValue(call);
    CallIsSendable(call);
    PayloadRoundTrip(v, true);
    CallValueRoundTrip(call);
    var payload := PayloadOf(v, true).value;
    if |payload| < MAX_PAYLOAD {
      var data := SaveComPacket(CreatePacket(payload, to));
      FrameRoundTrip(payload, to, []);
      assert data + [] == data;
    }
  }

  /** RPC transparency, device to host, whatever stale bytes follow the reply in the host's buffer. */
  lemma ResultTransparency(result: MethodResult, to: Address, stale: seq<byte>)
    requires AllWellTyped(result.values) && AllSendable(result.values)
    ensures PayloadOf(ResultToValue(result), true).Ok?
    ensures |PayloadOf(ResultToValue(result), true).value| < MAX_PAYLOAD ==>
      && EncodeMessage(ResultToValue(result), true, to).Ok?
      && var bytes := EncodeMessage(ResultToValue(result), true, to).value;
      && LoadComPacket(bytes + stale).Ok?
      && var reply := DecodeReply(LoadComPacket(bytes + stale).value, true);
      && reply.Ok?
      && ResultFromValue(reply.value) == Ok(result.(values := NormalAll(result.values)))
  {
    var v := ResultToValue(result);
    ResultIsSendable(result);
    PayloadRoundTrip(v, true);
    ResultValueRoundTrip(result);
    var payload := PayloadOf(v, true).value;
    if |payload| < MAX_PAYLOAD {
      FrameRoundTrip(payload, to, stale);
    }
  }

  /** Replies that are calls themselves: SyncSession and Properties. */
  lemma CallReplyTransparency(call: MethodCall, to: Address, stale: seq<byte>)
    requires AllWellTyped(call.args) && AllSendable(call.args)
    ensures PayloadOf(CallToValue(call), true).Ok?
    ensures |PayloadOf(CallToValue(call), true).value| < MAX_PAYLOAD ==>
      && EncodeMessage(CallToValue(call), true, to).Ok?
      && var bytes := EncodeMessage(CallToValue(call), true, to).value;
      && LoadComPacket(bytes + stale).Ok?
      && var reply := DecodeReply(LoadComPacket(bytes + stale).value, true);
      && reply.Ok?
      && CallFromValue(reply.value) == Ok(call.(args := NormalAll(call.args)))
  {
    var v := CallToValue(call);
    CallIsSendable(call);
    PayloadRoundTrip(v, true);
    CallValueRoundTrip(call);
    var payload := PayloadOf(v, true).value;
    if |payload| < MAX_PAYLOAD {
      FrameRoundTrip(payload, to, stale);
    }
  }

  /** Sent bare, the command has the same single byte as a list that leaves its brackets at home. */
  lemma EndOfSessionPayload()
    ensures PayloadOf(Cmd(END_OF_SESSION), false) == Ok([0xFA])
    ensures PayloadOf(List([Cmd(END_OF_SESSION)]), true) == Ok([0xFA])
  {
    var items, t := [Cmd(END_OF_SESSION)], Control(0xFA);
    assert TokensOfAll(items) == Ok([t]) by {
      assert items[1..] == [] && [t] + [] == [t];
      assert TokensOf(items[0]) == Ok([t]) && TokensOfAll([]) == Ok([]);
    }
    UnSurroundSurround([t]);
    assert PrintStream([t]) == Ok([0xFA]) by {
      assert [t][1..] == [] && PrintStream([]) == Ok([]);
      assert [0xFA] + [] == [0xFA];
    }
  }

  /** The end-of-session request, sent bare, reaches the device as such. */
  lemma EndOfSessionTransparency(to: Address)
    requires to.comIdExtension == 0
    ensures EncodeMessage(Cmd(END_OF_SESSION), false, to).Ok?
    ensures DecodeRequest(EncodeMessage(Cmd(END_OF_SESSION), false, to).value, to.comId)
            == Ok(EndOfSession(to.tsn, to.hsn))
  {
    EndOfSessionPayload();
    var v := List([Cmd(END_OF_SESSION)]);
    PayloadRoundTrip(v, true);
    assert NormalAll(v.items) == v.items;
    var data := SaveComPacket(CreatePacket([0xFA], to));
    FrameRoundTrip([0xFA], to, []);
    assert data + [] == data;
  }

  /** A method call and an end-of-session request never have the same bytes, under any addresses. */
  lemma CallIsNeverEndOfSession(call: MethodCall, to: Address, to': Address)
    requires AllWellTyped(call.args) && AllSendable(call.args)
    requires to.comIdExtension == 0 && to'.comIdExtension == 0
    requires PayloadOf(CallToValue(call), true).Ok? && |PayloadOf(CallToValue(call), true).value| < MAX_PAYLOAD
    ensures EncodeMessage(CallToValue(call), true, to) != EncodeMessage(Cmd(END_OF_SESSION), false, to')
  {
    CallTransparency(call, to);
    EndOfSessionTransparency(to');
  }

  //
  // The steps of SendPacketizedValue
  //

  /** Tokens, brackets, bytes. */
  method BuildPayload(value: Value, isList: bool) returns (r: Result<seq<byte>>)
    ensures r == PayloadOf(value, isList)
  {
    var stream :- Tokenize(value);
    if isList {
      stream :- UnSurroundWithList(stream);
    }
    r := Serialize(stream);
  }

  /** How the device builds a reply. */
  method BuildMessage(value: Value, isList: bool, to: Address) returns (r: Result<seq<byte>>)
    ensures r == EncodeMessage(value, isList, to)
  {
    var payload :- BuildPayload(value, isList);
    var bytes := SerializeComPacket(CreatePacket(payload, to));
    r := Ok(bytes);
  }

  /** The host's half after the exchange. */
  method ReadReply(responsePacket: ComPacket, isRequestList: bool) returns (r: Result<Value>)
    ensures r == DecodeReply(responsePacket, isRequestList)
  {
    var responseBytes :- UnwrapPacket(responsePacket);
    r := ReadPayload(responseBytes, isRequestList);
  }

  /** Bytes, brackets, tokens, value. */
  method ReadPayload(payload: seq<byte>, isList: bool) returns (r: Result<Value>)
    ensures r == ValueOfPayload(payload, isList)
  {
    var stream :- DeSerialize(payload);
    if isList {
      stream := SurroundWithList(stream);
    }
    var value :- DeTokenize(stream);
    r := Ok(value.0);
  }
}
