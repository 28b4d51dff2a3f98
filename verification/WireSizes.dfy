/** Exact sizes of encoded values and of the frames around them. */
module WireSizes {
  import opened Common
  import opened Values
  import opened Tokens
  import opened TokenStreams
  import opened Methods
  import opened Rpc

  function AtomSize(length: nat): nat {
    length + if length <= 15 then 1 else if length <= 2047 then 2 else 4
  }

  /** Bytes of a sendable value on the wire. */
  function WireSize(v: Value): (n: nat)
    decreases v, 1
  {
    match v
    case Empty => 0
    case Integer(kind, _) => AtomSize(Width(kind))
    case Cmd(_) => 1
    case Bytes(b) => AtomSize(|b|)
    case Named(name, value) => 2 + WireSize(name) + WireSize(value)
    case List(items) => 2 + WireSizeAll(items)
  }

  function WireSizeAll(vs: seq<Value>): nat
    decreases vs, 0
  {
    if vs == [] then 0 else WireSize(vs[0]) + WireSizeAll(vs[1..])
  }

  function Printed(ts: seq<Token>): nat {
    if PrintStream(ts).Ok? then |PrintStream(ts).value| else 0
  }

  lemma PrintedOne(t: Token)
    requires PrintToken(t).Ok?
    ensures PrintStream([t]).Ok? && Printed([t]) == |PrintToken(t).value|
  {
    assert [t][1..] == [];
  }

  lemma PrintedJoin(a: seq<Token>, b: seq<Token>)
    requires PrintStream(a).Ok? && PrintStream(b).Ok?
    ensures PrintStream(a + b).Ok? && Printed(a + b) == Printed(a) + Printed(b)
  {
    PrintStreamConcat(a, b);
  }

  /** The encoding of a sendable value has exactly WireSize bytes. */
  lemma {:induction false} WireSizeIsExact(v: Value)
    requires Sendable(v)
    ensures TokensOf(v).Ok? && PrintStream(TokensOf(v).value).Ok?
    ensures Printed(TokensOf(v).value) == WireSize(v)
    decreases v, 1
  {
    hide PrintStream, PrintToken;
    PrintsExactlySendable(v);
    match v
    case Integer(kind, n) =>
      AtomPrinted(IntegerToken(kind, n));
      PrintedOne(IntegerToken(kind, n));
    case Cmd(c) =>
      ControlPrinted(CommandTag(c));
    case Bytes(b) =>
      AtomPrinted(BytesToken(b).value);
      PrintedOne(BytesToken(b).value);
    case List(items) =>
      WireSizeAllIsExact(items);
      ControlPrinted(START_LIST);
      ControlPrinted(END_LIST);
      var inner := TokensOfAll(items).value;
      PrintedJoin([Control(START_LIST)], inner);
      PrintedJoin([Control(START_LIST)] + inner, [Control(END_LIST)]);
    case Named(name, value) =>
      WireSizeIsExact(name);
      WireSizeIsExact(value);
      ControlPrinted(START_NAME);
      ControlPrinted(END_NAME);
      var ns, vs := TokensOf(name).value, TokensOf(value).value;
      PrintedJoin([Control(START_NAME)], ns);
      PrintedJoin([Control(START_NAME)] + ns, vs);
      PrintedJoin([Control(START_NAME)] + ns + vs, [Control(END_NAME)]);
  }

  lemma {:induction false} WireSizeAllIsExact(vs: seq<Value>)
    requires AllSendable(vs)
    ensures TokensOfAll(vs).Ok? && PrintStream(TokensOfAll(vs).value).Ok?
    ensures Printed(TokensOfAll(vs).value) == WireSizeAll(vs)
    decreases vs, 0
  {
    if vs != [] {
      WireSizeIsExact(vs[0]);
      WireSizeAllIsExact(vs[1..]);
      PrintedJoin(TokensOf(vs[0]).value, TokensOfAll(vs[1..]).value);
    }
  }

  lemma AtomPrinted(t: Token)
    requires t.tag == SHORT_ATOM || t.tag == MEDIUM_ATOM || t.tag == LONG_ATOM
    requires AtomTag(|t.data|) == Ok(t.tag)
    ensures PrintToken(t).Ok? && |PrintToken(t).value| == AtomSize(|t.data|)
  {
  }

  lemma ControlPrinted(tag: byte)
    requires tag >= 0xF0
    ensures PrintToken(Control(tag)).Ok? && PrintStream([Control(tag)]).Ok? && Printed([Control(tag)]) == 1
  {
    PrintedOne(Control(tag));
  }

  /** The payload of a message leaves out the two brackets of its list. */
  lemma PayloadSizeIsExact(v: Value)
    requires Sendable(v) && v.List?
    ensures PayloadOf(v, true).Ok? && |PayloadOf(v, true).value| == WireSizeAll(v.items)
  {
    hide PrintStream;
    WireSizeAllIsExact(v.items);
    PrintsExactlySendable(v);
    UnSurroundSurround(TokensOfAll(v.items).value);
    assert TokensOf(v) == Ok(SurroundWithList(TokensOfAll(v.items).value));
  }

  /** A frame: its headers and the payload rounded up to a multiple of four. */
  function FrameSize(payload: nat): nat {
    56 + (payload + 3) / 4 * 4
  }

  lemma FrameSizeIsExact(v: Value, to: Address)
    requires Sendable(v) && v.List? && WireSizeAll(v.items) < MAX_PAYLOAD
    ensures EncodeMessage(v, true, to).Ok?
    ensures |EncodeMessage(v, true, to).value| == FrameSize(WireSizeAll(v.items))
  {
    PayloadSizeIsExact(v);
    FrameRoundTrip(PayloadOf(v, true).value, to, []);
  }

  /** A result's payload: the values, the end-of-data command and the status list. */
  function ResultSize(values: seq<Value>): nat {
    WireSizeAll(values) + 11
  }

  /** A call's payload: the command, two identifiers, the arguments, the end-of-data command and the status list. */
  function CallSize(args: seq<Value>): nat {
    WireSizeAll(args) + 30
  }

  lemma StatusSize(status: Status)
    ensures WireSize(StatusList(status)) == 8
  {
    var items := [Integer(U8, status), Integer(U8, 0), Integer(U8, 0)];
    assert WireSize(items[0]) == WireSize(items[1]) == WireSize(items[2]) == 2;
    assert items[2..] == [items[2]] && [items[2]][1..] == [] && WireSizeAll(items[2..]) == 2;
    assert items[1..][1..] == items[2..] && WireSizeAll(items[1..]) == 4;
    assert WireSizeAll(items) == 6;
  }

  lemma ResultSizeIsExact(result: MethodResult)
    ensures WireSizeAll(ResultItems(result)) == ResultSize(result.values)
  {
    hide StatusList;
    StatusSize(result.status);
    var items := ResultItems(result);
    assert items[1..] == [items[1], items[2]] && items[1..][1..] == [items[2]] && [items[2]][1..] == [];
    assert WireSizeAll([items[2]]) == 8;
    assert WireSizeAll(items[1..]) == 9;
  }

  lemma CallSizeIsExact(call: MethodCall)
    ensures WireSizeAll(CallItems(call)) == CallSize(call.args)
  {
    hide StatusList, UidBytes;
    StatusSize(call.status);
    UidSize(call.invokingId);
    UidSize(call.methodId);
    var items := CallItems(call);
    assert items[5..] == [items[5]] && [items[5]][1..] == [] && WireSizeAll(items[5..]) == 8;
    assert items[4..][1..] == items[5..] && WireSizeAll(items[4..]) == 9;
    assert items[3..][1..] == items[4..] && WireSizeAll(items[3..]) == 11 + WireSizeAll(call.args);
    assert items[2..][1..] == items[3..] && WireSizeAll(items[2..]) == 20 + WireSizeAll(call.args);
    assert items[1..][1..] == items[2..] && WireSizeAll(items[1..]) == 29 + WireSizeAll(call.args);
  }

  lemma UidSize(uid: UID)
    ensures WireSize(UidValue(uid)) == 9
  {
  }

  lemma {:induction false} WireSizeConcat(a: seq<Value>, b: seq<Value>)
    ensures WireSizeAll(a + b) == WireSizeAll(a) + WireSizeAll(b)
  {
    if a == [] {
      assert a + b == b;
    } else {
      WireSizeConcat(a[1..], b);
      assert (a + b)[1..] == a[1..] + b;
    }
  }

  /** The normal form takes the same room. */
  lemma {:induction false} NormalHasSameSize(v: Value)
    ensures WireSize(Normal(v)) == WireSize(v)
    decreases v, 1
  {
    match v
    case List(items) =>
      NormalAllHasSameSize(items);
    case Named(name, value) =>
      NormalHasSameSize(name);
      NormalHasSameSize(value);
    case Integer(kind, _) =>
      assert Width(WireKind(kind)) == Width(kind);
    case _ =>
  }

  lemma {:induction false} NormalAllHasSameSize(vs: seq<Value>)
    ensures WireSizeAll(NormalAll(vs)) == WireSizeAll(vs)
    decreases vs, 0
  {
    if vs != [] {
      NormalHasSameSize(vs[0]);
      NormalAllHasSameSize(vs[1..]);
    }
  }
}
