/**
 * Where everything stands in the bytes of a message: a reference encoder written from the layout alone, and the words
 * of the frame (TokenStream.cpp, Token.cpp, Value.cpp, Method.cpp, ComPacket.hpp).
 */
module WireLayout {
  import opened Common
  import opened FlatBinary
  import opened Values
  import opened Tokens
  import opened TokenStreams
  import opened ComPackets
  import opened Methods
  import opened Rpc

  //
  // Numbers
  //

  /** Byte i of a number is its digit in base 256, counted from the most significant one. */
  lemma {:induction false} NumberByte(n: nat, width: nat, i: nat)
    requires i < width
    ensures BigEndian(n, width)[i] == n / Pow256(width - 1 - i) % 256
  {
    if i < width - 1 {
      NumberByte(n / 256, width - 1, i);
      DivTwice(n, Pow256(width - 2 - i));
    }
  }

  lemma DivTwice(n: nat, p: nat)
    requires p > 0
    ensures n / 256 / p == n / (256 * p)
  {
    var q, r := n / 256, n % 256;
    var a, b := q / p, q % p;
    assert q == p * a + b;
    assert n == a * (256 * p) + (256 * b + r) by {
      assert 256 * (p * a) == a * (256 * p);
    }
    ModUnique(n, 256 * p, a, 256 * b + r);
  }

  function Word16(b: seq<byte>, at: nat): nat
    requires at + 2 <= |b|
  {
    var high: nat, low: nat := b[at], b[at + 1];
    0x100 * high + low
  }

  function Word32(b: seq<byte>, at: nat): nat
    requires at + 4 <= |b|
  {
    0x1_0000 * Word16(b, at) + Word16(b, at + 2)
  }

  lemma TwoBytes(n: nat)
    requires n < 0x1_0000
    ensures BigEndian(n, 2) == [n / 0x100, n % 0x100]
  {
    assert BigEndian(n / 256, 1) == [] + [n / 256 % 256];
  }

  lemma FourBytes(n: nat)
    requires n < TWO_TO_32
    ensures BigEndian(n, 4) == [n / 0x100_0000, n / 0x1_0000 % 0x100, n / 0x100 % 0x100, n % 0x100]
  {
    PowValues();
    forall i: nat | i < 4 ensures BigEndian(n, 4)[i] == n / Pow256(3 - i) % 256 {
      NumberByte(n, 4, i);
    }
    assert Pow256(0) == 1;
  }

  lemma Reassembled(n: nat)
    requires n < TWO_TO_32
    ensures
      0x100_0000 * (n / 0x100_0000) + 0x1_0000 * (n / 0x1_0000 % 0x100) + 0x100 * (n / 0x100 % 0x100) + n % 0x100 == n
  {
    var a, b := n / 0x100, n / 0x1_0000;
    assert a / 0x100 == b && b / 0x100 == n / 0x100_0000;
  }

  //
  // Frames
  //

  /** The words of a number written at a place. */
  lemma WordsAt(before: seq<byte>, n: nat, after: seq<byte>)
    ensures n < 0x1_0000 ==> Word16(before + BigEndian(n, 2) + after, |before|) == n
    ensures n < TWO_TO_32 ==> Word32(before + BigEndian(n, 4) + after, |before|) == n
  {
    if n < 0x1_0000 {
      TwoBytes(n);
      var b := before + BigEndian(n, 2) + after;
      assert b[|before|] == BigEndian(n, 2)[0] && b[|before| + 1] == BigEndian(n, 2)[1];
    }
    if n < TWO_TO_32 {
      FourBytes(n);
      Reassembled(n);
      var b := before + BigEndian(n, 4) + after;
      assert b[|before|] == BigEndian(n, 4)[0] && b[|before| + 1] == BigEndian(n, 4)[1];
      assert b[|before| + 2] == BigEndian(n, 4)[2] && b[|before| + 3] == BigEndian(n, 4)[3];
    }
  }

  /** A message: 20 bytes of ComPacket header, 24 of Packet header, 12 of SubPacket header, payload, padding. */
  predicate IsMessage(b: seq<byte>, payload: seq<byte>, to: Address) {
    && |b| == 56 + |payload| + (3 - (|payload| + 3) % 4)
    // ComPacket
    && Word32(b, 0) == 0 && Word16(b, 4) == to.comId && Word16(b, 6) == to.comIdExtension
    && Word32(b, 8) == 0 && Word32(b, 12) == 0 && Word32(b, 16) == |b| - 20
    // Packet
    && Word32(b, 20) == to.tsn && Word32(b, 24) == to.hsn && Word32(b, 28) == 0
    && Word16(b, 32) == 0 && Word16(b, 34) == 0 && Word32(b, 36) == 0 && Word32(b, 40) == |b| - 44
    // SubPacket
    && Word32(b, 44) == 0 && Word16(b, 48) == 0 && Word16(b, 50) == 0 && Word32(b, 52) == |payload|
    && b[56..56 + |payload|] == payload
    && forall i :: 56 + |payload| <= i < |b| ==> b[i] == 0
  }

  lemma SubPacketWords(s: SubPacket)
    requires |s.payload| + 3 < TWO_TO_32
    ensures var b := SaveSubPacket(s);
      && |b| == 12 + |s.payload| + (3 - (|s.payload| + 3) % 4)
      && Word32(b, 0) == 0 && Word16(b, 4) == 0 && Word16(b, 6) == s.kind && Word32(b, 8) == |s.payload|
      && b[12..12 + |s.payload|] == s.payload
      && forall i :: 12 + |s.payload| <= i < |b| ==> b[i] == 0
  {
    hide BigEndian;
    var n := |s.payload|;
    var tail := s.payload + Zeros(Padding(s));
    WordsAt(Zeros(6), s.kind, BigEndian(n, 4) + tail);
    WordsAt(Zeros(6) + BigEndian(s.kind, 2), n, tail);
    var b := SaveSubPacket(s);
    assert b == Zeros(6) + BigEndian(s.kind, 2) + (BigEndian(n, 4) + tail);
    assert b == Zeros(6) + BigEndian(s.kind, 2) + BigEndian(n, 4) + tail;
    assert b[12..12 + n] == s.payload;
  }

  /** A Packet: its numbers, and how many bytes of SubPackets follow. */
  lemma PacketWords(p: Packet)
    requires SubPacketsBytes(p.payload) + 24 < TWO_TO_32
    ensures var b := SavePacket(p);
      && |b| >= 24
      && Word32(b, 0) == p.tperSessionNumber && Word32(b, 4) == p.hostSessionNumber && Word32(b, 8) == p.sequenceNumber
      && Word16(b, 12) == 0 && Word16(b, 14) == p.ackType && Word32(b, 16) == p.acknowledgement
      && Word32(b, 20) == |b| - 24 && b[24..] == SaveSubPackets(p.payload)
  {
    hide BigEndian, SaveSubPackets, SubPacketsLength, SubPacketsBytes;
    SubPacketsExact(p.payload);
    var n := SubPacketsLength(p.payload);
    var tsn, hsn := BigEndian(p.tperSessionNumber, 4), BigEndian(p.hostSessionNumber, 4);
    var seq_ := BigEndian(p.sequenceNumber, 4);
    var ack, acked, length := BigEndian(p.ackType, 2), BigEndian(p.acknowledgement, 4), BigEndian(n, 4);
    var subs := SaveSubPackets(p.payload);
    var b := SavePacket(p);
    assert b == [] + tsn + (hsn + seq_ + Zeros(2) + ack + acked + length + subs);
    WordsAt([], p.tperSessionNumber, hsn + seq_ + Zeros(2) + ack + acked + length + subs);
    assert b == tsn + hsn + (seq_ + Zeros(2) + ack + acked + length + subs);
    WordsAt(tsn, p.hostSessionNumber, seq_ + Zeros(2) + ack + acked + length + subs);
    assert b == tsn + hsn + seq_ + (Zeros(2) + ack + acked + length + subs);
    WordsAt(tsn + hsn, p.sequenceNumber, Zeros(2) + ack + acked + length + subs);
    assert b[12] == 0 && b[13] == 0;
    assert b == tsn + hsn + seq_ + Zeros(2) + ack + (acked + length + subs);
    WordsAt(tsn + hsn + seq_ + Zeros(2), p.ackType, acked + length + subs);
    assert b == tsn + hsn + seq_ + Zeros(2) + ack + acked + (length + subs);
    WordsAt(tsn + hsn + seq_ + Zeros(2) + ack, p.acknowledgement, length + subs);
    assert b == tsn + hsn + seq_ + Zeros(2) + ack + acked + length + subs;
    WordsAt(tsn + hsn + seq_ + Zeros(2) + ack + acked, n, subs);
  }

  /** A ComPacket: its numbers, and how many bytes of Packets follow. */
  lemma ComPacketWords(c: ComPacket)
    requires PacketsBytes(c.payload) + 20 < TWO_TO_32
    ensures var b := SaveComPacket(c);
      && |b| >= 20
      && Word32(b, 0) == 0 && Word16(b, 4) == c.comId && Word16(b, 6) == c.comIdExtension
      && Word32(b, 8) == c.outstandingData && Word32(b, 12) == c.minTransfer
      && Word32(b, 16) == |b| - 20 && b[20..] == SavePackets(c.payload)
  {
    hide BigEndian, SavePackets, PacketsLength, PacketsBytes;
    PacketsExact(c.payload);
    var n := PacketsLength(c.payload);
    var id, ext := BigEndian(c.comId, 2), BigEndian(c.comIdExtension, 2);
    var out, min, length := BigEndian(c.outstandingData, 4), BigEndian(c.minTransfer, 4), BigEndian(n, 4);
    var packets := SavePackets(c.payload);
    var b := SaveComPacket(c);
    assert b[0] == 0 && b[1] == 0 && b[2] == 0 && b[3] == 0;
    assert b == Zeros(4) + id + (ext + out + min + length + packets);
    WordsAt(Zeros(4), c.comId, ext + out + min + length + packets);
    assert b == Zeros(4) + id + ext + (out + min + length + packets);
    WordsAt(Zeros(4) + id, c.comIdExtension, out + min + length + packets);
    assert b == Zeros(4) + id + ext + out + (min + length + packets);
    WordsAt(Zeros(4) + id + ext, c.outstandingData, min + length + packets);
    assert b == Zeros(4) + id + ext + out + min + (length + packets);
    WordsAt(Zeros(4) + id + ext + out, c.minTransfer, length + packets);
    assert b == Zeros(4) + id + ext + out + min + length + packets;
    WordsAt(Zeros(4) + id + ext + out + min, n, packets);
  }

  /** Words of a tail are words further on. */
  lemma WordsOfTail(b: seq<byte>, from: nat, tail: seq<byte>, at: nat)
    requires from <= |b| && b[from..] == tail
    ensures at + 2 <= |tail| ==> Word16(b, from + at) == Word16(tail, at)
    ensures at + 4 <= |tail| ==> Word32(b, from + at) == Word32(tail, at)
  {
    assert forall i :: 0 <= i < |tail| ==> b[from + i] == tail[i];
  }

  /** What host and device send around a payload. */
  lemma MessageLayout(payload: seq<byte>, to: Address)
    requires |payload| < MAX_PAYLOAD
    ensures IsMessage(SaveComPacket(CreatePacket(payload, to)), payload, to)
  {
    hide SaveComPacket, SavePacket, SaveSubPacket;
    var s := SubPacket(0, payload);
    var p := Packet(to.tsn, to.hsn, 0, 0, 0, [s]);
    var c := CreatePacket(payload, to);
    assert [s][1..] == [] && [p][1..] == [];
    assert SubPacketsBytes([s]) == SubPacketBytes(s) && PacketsBytes([p]) == 24 + SubPacketsBytes([s]);
    SubPacketWords(s);
    PacketWords(p);
    ComPacketWords(c);
    OnlyOne(p, s);
    Nested(SaveComPacket(c), SavePacket(p), SaveSubPacket(s), payload, to);
  }

  lemma OnlyOne(p: Packet, s: SubPacket)
    ensures SavePackets([p]) == SavePacket(p) && SaveSubPackets([s]) == SaveSubPacket(s)
  {
    hide SavePacket, SaveSubPacket;
    assert [s][1..] == [] && [p][1..] == [];
    assert SavePacket(p) + [] == SavePacket(p) && SaveSubPacket(s) + [] == SaveSubPacket(s);
  }

  lemma Nested(b: seq<byte>, p: seq<byte>, s: seq<byte>, payload: seq<byte>, to: Address)
    requires |b| >= 20 && |p| >= 24 && |s| == 12 + |payload| + (3 - (|payload| + 3) % 4)
    requires b[20..] == p && p[24..] == s
    requires Word32(b, 0) == 0 && Word16(b, 4) == to.comId && Word16(b, 6) == to.comIdExtension
    requires Word32(b, 8) == 0 && Word32(b, 12) == 0 && Word32(b, 16) == |b| - 20
    requires Word32(p, 0) == to.tsn && Word32(p, 4) == to.hsn && Word32(p, 8) == 0
    requires Word16(p, 12) == 0 && Word16(p, 14) == 0 && Word32(p, 16) == 0 && Word32(p, 20) == |p| - 24
    requires Word32(s, 0) == 0 && Word16(s, 4) == 0 && Word16(s, 6) == 0 && Word32(s, 8) == |payload|
    requires s[12..12 + |payload|] == payload && forall i :: 12 + |payload| <= i < |s| ==> s[i] == 0
    ensures IsMessage(b, payload, to)
  {
    hide Word16, Word32;
    assert b[44..] == s;
    WordsOfTail(b, 20, p, 0);
    WordsOfTail(b, 20, p, 4);
    WordsOfTail(b, 20, p, 8);
    WordsOfTail(b, 20, p, 12);
    WordsOfTail(b, 20, p, 14);
    WordsOfTail(b, 20, p, 16);
    WordsOfTail(b, 20, p, 20);
    WordsOfTail(b, 44, s, 0);
    WordsOfTail(b, 44, s, 4);
    WordsOfTail(b, 44, s, 6);
    WordsOfTail(b, 44, s, 8);
    assert forall i :: 0 <= i < |s| ==> b[44 + i] == s[i];
  }

  //
  // Values
  //

  /** The bytes in front of an integer: a short atom, with bit 4 for a signed kind, and the width. */
  function IntegerHeader(kind: IntKind): byte {
    match kind
    case BoolKind | U8 => 0x81
    case U16 => 0x82
    case U32 => 0x84
    case U64 => 0x88
    case CharKind | I8 => 0x91
    case I16 => 0x92
    case I32 => 0x94
    case I64 => 0x98
  }

  /** How many values a kind of integer can tell apart. */
  function Patterns(kind: IntKind): nat {
    match kind
    case BoolKind | U8 | CharKind | I8 => 0x100
    case U16 | I16 => 0x1_0000
    case U32 | I32 => 0x1_0000_0000
    case U64 | I64 => 0x1_0000_0000_0000_0000
  }

  /** The bytes in front of a byte string: a short, a medium or a long atom with the byte bit, and the length. */
  function StringHeader(n: nat): seq<byte>
    requires n <= 16_777_215
  {
    if n <= 15 then [0xA0 + n]
    else if n <= 2047 then [0xD0 + n / 0x100, n % 0x100]
    else [0xE2, n / 0x1_0000, n / 0x100 % 0x100, n % 0x100]
  }

  /** The reference encoder: the bytes of a value, without any tokens in between. */
  function ByteForm(v: Value): seq<byte>
    requires Sendable(v)
    decreases v, 1
  {
    match v
    case Integer(kind, n) =>
      [IntegerHeader(kind)] + BigEndian(n % Patterns(kind), if Patterns(kind) == 0x100 then 1
                                                            else if Patterns(kind) == 0x1_0000 then 2
                                                            else if Patterns(kind) == 0x1_0000_0000 then 4 else 8)
    case Cmd(c) =>
      [match c
       case CALL => 0xF8
       case END_OF_DATA => 0xF9
       case END_OF_SESSION => 0xFA
       case START_TRANSACTION => 0xFB
       case END_TRANSACTION => 0xFC
       case EMPTY => 0xFF]
    case Bytes(b) => StringHeader(|b|) + b
    case List(items) => [0xF0] + AllByteForms(items) + [0xF1]
    case Named(name, value) => [0xF2] + ByteForm(name) + ByteForm(value) + [0xF3]
  }

  function AllByteForms(vs: seq<Value>): seq<byte>
    requires AllSendable(vs)
    decreases vs, 0
  {
    if vs == [] then [] else ByteForm(vs[0]) + AllByteForms(vs[1..])
  }

  lemma ControlBytes(tag: byte)
    requires tag >= 0xF0
    ensures PrintStream([Control(tag)]) == Ok([tag])
  {
    assert [Control(tag)][1..] == [] && [tag] + [] == [tag];
  }

  lemma AtomBytes(t: Token, bytes: seq<byte>)
    requires PrintToken(t) == Ok(bytes)
    ensures PrintStream([t]) == Ok(bytes)
  {
    hide PrintToken;
    assert [t][1..] == [] && bytes + [] == bytes;
  }

  lemma IntegerBytes(kind: IntKind, n: int)
    ensures PrintStream([IntegerToken(kind, n)]) == Ok(ByteForm(Integer(kind, n)))
  {
    AtomBytes(IntegerToken(kind, n), ByteForm(Integer(kind, n)));
  }

  lemma StringBytes(b: seq<byte>)
    requires |b| <= 16_777_215
    ensures BytesToken(b).Ok? && PrintStream([BytesToken(b).value]) == Ok(StringHeader(|b|) + b)
  {
    if |b| <= 15 {
      ShortString(b);
    } else if |b| <= 2047 {
      MediumString(b);
    } else {
      LongString(b);
    }
    AtomBytes(BytesToken(b).value, StringHeader(|b|) + b);
  }

  lemma ShortString(b: seq<byte>)
    requires |b| <= 15
    ensures BytesToken(b).Ok? && PrintToken(BytesToken(b).value) == Ok(StringHeader(|b|) + b)
  {
  }

  lemma MediumString(b: seq<byte>)
    requires 15 < |b| <= 2047
    ensures BytesToken(b).Ok? && PrintToken(BytesToken(b).value) == Ok(StringHeader(|b|) + b)
  {
    assert |b| % 0x800 == |b|;
  }

  lemma LongString(b: seq<byte>)
    requires 2047 < |b| <= 16_777_215
    ensures BytesToken(b).Ok? && PrintToken(BytesToken(b).value) == Ok(StringHeader(|b|) + b)
  {
    assert |b| % 0x100_0000 == |b|;
  }

  /** Two streams printed one behind the other. */
  lemma Printed(a: seq<Token>, b: seq<Token>, front: seq<byte>, back: seq<byte>)
    requires PrintStream(a) == Ok(front) && PrintStream(b) == Ok(back)
    ensures PrintStream(a + b) == Ok(front + back)
  {
    hide PrintStream;
    PrintStreamConcat(a, b);
  }

  /** The program's way over tokens gives the bytes of the reference encoder. */
  lemma {:induction false} EncodedAs(v: Value)
    requires Sendable(v)
    ensures TokensOf(v).Ok? && PrintStream(TokensOf(v).value) == Ok(ByteForm(v))
    decreases v, 1
  {
    hide PrintStream, PrintToken, IntegerHeader, StringHeader;
    match v
    case Integer(kind, n) =>
      IntegerBytes(kind, n);
    case Cmd(c) =>
      ControlBytes(CommandTag(c));
    case Bytes(b) =>
      StringBytes(b);
    case List(items) =>
      AllEncodedAs(items);
      ControlBytes(0xF0);
      ControlBytes(0xF1);
      var inner := TokensOfAll(items).value;
      Printed([Control(0xF0)], inner, [0xF0], AllByteForms(items));
      Printed([Control(0xF0)] + inner, [Control(0xF1)], [0xF0] + AllByteForms(items), [0xF1]);
    case Named(name, value) =>
      EncodedAs(name);
      EncodedAs(value);
      ControlBytes(0xF2);
      ControlBytes(0xF3);
      var ns, vs := TokensOf(name).value, TokensOf(value).value;
      Printed([Control(0xF2)], ns, [0xF2], ByteForm(name));
      Printed([Control(0xF2)] + ns, vs, [0xF2] + ByteForm(name), ByteForm(value));
      Printed([Control(0xF2)] + ns + vs, [Control(0xF3)], [0xF2] + ByteForm(name) + ByteForm(value), [0xF3]);
  }

  lemma {:induction false} AllEncodedAs(vs: seq<Value>)
    requires AllSendable(vs)
    ensures TokensOfAll(vs).Ok? && PrintStream(TokensOfAll(vs).value) == Ok(AllByteForms(vs))
    decreases vs, 0
  {
    if vs != [] {
      EncodedAs(vs[0]);
      AllEncodedAs(vs[1..]);
      Printed(TokensOf(vs[0]).value, TokensOfAll(vs[1..]).value, ByteForm(vs[0]), AllByteForms(vs[1..]));
    }
  }

  /** The payload of a value, and of a list, which leaves its brackets at home. */
  lemma PayloadBytes(v: Value)
    requires Sendable(v)
    ensures PayloadOf(v, false) == Ok(ByteForm(v))
    ensures v.List? ==> PayloadOf(v, true) == Ok(AllByteForms(v.items))
  {
    hide PrintStream;
    EncodedAs(v);
    if v.List? {
      AllEncodedAs(v.items);
      UnSurroundSurround(TokensOfAll(v.items).value);
      assert TokensOf(v) == Ok(SurroundWithList(TokensOfAll(v.items).value));
    }
  }

  //
  // Calls and results
  //

  lemma StatusBytes(status: Status)
    ensures Sendable(StatusList(status))
    ensures ByteForm(StatusList(status)) == [0xF0, 0x81, status, 0x81, 0, 0x81, 0, 0xF1]
  {
    var a, z := Integer(U8, status), Integer(U8, 0);
    OneByte(status);
    OneByte(0);
    assert [a, z, z][1..] == [z, z] && [z, z][1..] == [z] && [z][1..] == [];
    assert AllByteForms([z]) == [0x81, 0] + [];
    assert AllByteForms([z, z]) == [0x81, 0] + AllByteForms([z]);
    assert AllByteForms([a, z, z]) == [0x81, status] + AllByteForms([z, z]);
  }

  lemma OneByte(n: byte)
    ensures ByteForm(Integer(U8, n)) == [0x81, n]
  {
    assert BigEndian(n, 1) == [] + [n % 256];
  }

  lemma UidForm(uid: UID)
    ensures Sendable(UidValue(uid)) && ByteForm(UidValue(uid)) == [0xA8] + BigEndian(uid, 8)
  {
    hide BigEndian;
  }

  /**
   * A method call: the call command, invoking and method identifier, the arguments in brackets, the end of the data and
   * the status list.
   */
  lemma CallBytes(call: MethodCall)
    requires AllSendable(call.args)
    ensures PayloadOf(CallToValue(call), true) ==
      Ok([0xF8, 0xA8] + BigEndian(call.invokingId, 8) + [0xA8] + BigEndian(call.methodId, 8)
         + [0xF0] + AllByteForms(call.args) + [0xF1, 0xF9, 0xF0, 0x81, call.status, 0x81, 0, 0x81, 0, 0xF1])
  {
    hide StatusList, UidValue, BigEndian, PayloadOf, WellTyped;
    CallIsSendable(call);
    PayloadBytes(CallToValue(call));
    UidForm(call.invokingId);
    UidForm(call.methodId);
    StatusBytes(call.status);
    var items := CallItems(call);
    assert items[5..][1..] == [] && items[4..][1..] == items[5..] && items[3..][1..] == items[4..];
    assert items[2..][1..] == items[3..] && items[1..][1..] == items[2..];
    assert AllByteForms(items[5..]) == ByteForm(items[5]) + [];
    assert AllByteForms(items[4..]) == [0xF9] + AllByteForms(items[5..]);
    assert AllByteForms(items[3..]) == [0xF0] + AllByteForms(call.args) + [0xF1] + AllByteForms(items[4..]);
    assert AllByteForms(items[2..]) == ByteForm(items[2]) + AllByteForms(items[3..]);
    assert AllByteForms(items[1..]) == ByteForm(items[1]) + AllByteForms(items[2..]);
    assert AllByteForms(items) == [0xF8] + AllByteForms(items[1..]);
    CallJoined(BigEndian(call.invokingId, 8), BigEndian(call.methodId, 8), AllByteForms(call.args),
               ByteForm(StatusList(call.status)));
    assert [0xF1, 0xF9] + ByteForm(StatusList(call.status))
        == [0xF1, 0xF9, 0xF0, 0x81, call.status, 0x81, 0, 0x81, 0, 0xF1];
  }

  lemma CallJoined(u: seq<byte>, m: seq<byte>, a: seq<byte>, s: seq<byte>)
    ensures [0xF8] + (([0xA8] + u) + (([0xA8] + m) + ([0xF0] + a + [0xF1] + ([0xF9] + (s + [])))))
            == [0xF8, 0xA8] + u + [0xA8] + m + [0xF0] + a + ([0xF1, 0xF9] + s)
  {
    var head: seq<byte> := [0xF8, 0xA8];
    ResultJoined(a, s);
    var tail := [0xF0] + a + ([0xF1, 0xF9] + s);
    assert [0xF8] + (([0xA8] + u) + (([0xA8] + m) + tail)) == head + u + ([0xA8] + m + tail);
    assert head + u + ([0xA8] + m + tail) == head + u + [0xA8] + m + tail;
    assert head + u + [0xA8] + m + tail == head + u + [0xA8] + m + [0xF0] + a + ([0xF1, 0xF9] + s);
  }

  lemma ResultJoined(a: seq<byte>, s: seq<byte>)
    ensures [0xF0] + a + [0xF1] + ([0xF9] + (s + [])) == [0xF0] + a + ([0xF1, 0xF9] + s)
  {
    assert s + [] == s;
    assert [0xF1] + ([0xF9] + s) == [0xF1, 0xF9] + s;
    AppendAssociates([0xF0] + a, [0xF1], [0xF9] + s);
  }

  /** A method result: the values in brackets, the end of the data and the status list. */
  lemma ResultBytes(result: MethodResult)
    requires AllSendable(result.values)
    ensures PayloadOf(ResultToValue(result), true) ==
      Ok([0xF0] + AllByteForms(result.values) + [0xF1, 0xF9, 0xF0, 0x81, result.status, 0x81, 0, 0x81, 0, 0xF1])
  {
    hide StatusList, PayloadOf, WellTyped;
    ResultIsSendable(result);
    PayloadBytes(ResultToValue(result));
    StatusBytes(result.status);
    var items := ResultItems(result);
    assert items[2..][1..] == [] && items[1..][1..] == items[2..];
    assert AllByteForms(items[2..]) == ByteForm(items[2]) + [];
    assert AllByteForms(items[1..]) == [0xF9] + AllByteForms(items[2..]);
    assert AllByteForms(items) == [0xF0] + AllByteForms(result.values) + [0xF1] + AllByteForms(items[1..]);
    ResultJoined(AllByteForms(result.values), ByteForm(StatusList(result.status)));
    assert [0xF1, 0xF9] + ByteForm(StatusList(result.status))
        == [0xF1, 0xF9, 0xF0, 0x81, result.status, 0x81, 0, 0x81, 0, 0xF1];
  }

  //
  // Integers that the program reads but never writes
  //

  lemma OneTokenRead(bytes: seq<byte>, t: Token, v: Value)
    requires ParseToken(bytes) == Ok((t, [])) && ParseSimple(t) == Ok(v)
    requires t.tag != START_LIST && t.tag != START_NAME
    ensures ValueOfPayload(bytes, false) == Ok(v)
  {
    hide ParseToken, ParseSimple;
    OneTokenStream(bytes, t);
    assert [t][1..] == [];
  }

  /** A tiny atom: six bits, in two's complement if bit 6 is set. */
  lemma TinyIntegerReads(h: byte)
    requires h < 0x80
    ensures ValueOfPayload([h], false)
            == Ok(if h < 0x40 then Integer(U8, h)
                  else if h < 0x60 then Integer(I8, h - 0x40) else Integer(I8, h - 0x80))
  {
    var data: byte := if h < 0x40 then h else if h < 0x60 then h - 0x40 else h + 0x80;
    var t := Token(TINY_ATOM, false, h >= 0x40, [data]);
    assert [h][1..] == [];
    OneByteNumber(data);
    assert ParseToken([h]) == Ok((t, []));
    var v := if h < 0x40 then Integer(U8, h)
             else if h < 0x60 then Integer(I8, h - 0x40) else Integer(I8, h - 0x80);
    OneTokenRead([h], t, v);
  }

  lemma OneByteNumber(b: byte)
    ensures FromBigEndian([b]) == b
  {
    assert [b][..0] == [];
  }

  /**
   * A short atom of one to eight bytes of integer data is read at the smallest kind that holds them, and not
   * sign-extended to it: only the top bit of the whole kind makes a number negative.
   */
  lemma NarrowIntegerReads(data: seq<byte>, signed: bool)
    requires 1 <= |data| <= 8
    ensures var kind :=
        if |data| == 1 then (if signed then I8 else U8)
        else if |data| == 2 then (if signed then I16 else U16)
        else if |data| <= 4 then (if signed then I32 else U32)
        else if signed then I64 else U64;
      var n := FromBigEndian(data);
      ValueOfPayload([0x80 + (if signed then 0x10 else 0) + |data|] + data, false)
      == Ok(Integer(kind, if signed && 2 * n >= Patterns(kind) then n - Patterns(kind) else n))
  {
    hide FromBigEndian, ParseStream, ParseToken, IntegerOf, ParseSimple, TakeData;
    var h := 0x80 + (if signed then 0x10 else 0) + |data|;
    var t := Token(SHORT_ATOM, false, signed, data);
    ShortHeaderBits(signed, |data|);
    BehindFirst(h, data, []);
    assert [h] + data + [] == [h] + data && data + [] == data;
    ShortParses([h] + data, h, data);
    AllTaken(signed, data);
    AtomRead(data, signed);
    OneTokenRead([h] + data, t, IntegerOf(t).value);
  }

  lemma ShortHeaderBits(signed: bool, n: nat)
    requires n < 16
    ensures var h := 0x80 + (if signed then 0x10 else 0) + n;
      h / 32 % 2 == 0 && (h / 16 % 2 == 1 <==> signed) && h % 16 == n
  {
  }

  lemma AllTaken(signed: bool, data: seq<byte>)
    ensures TakeData(SHORT_ATOM, false, signed, |data|, data) == Ok((Token(SHORT_ATOM, false, signed, data), []))
  {
    assert data[..|data|] == data && data[|data|..] == [];
  }

  lemma AtomRead(data: seq<byte>, signed: bool)
    requires 1 <= |data| <= 8
    ensures var kind :=
        if |data| == 1 then (if signed then I8 else U8)
        else if |data| == 2 then (if signed then I16 else U16)
        else if |data| <= 4 then (if signed then I32 else U32)
        else if signed then I64 else U64;
      var n, t := FromBigEndian(data), Token(SHORT_ATOM, false, signed, data);
      IntegerOf(t) == Ok(Integer(kind, if signed && 2 * n >= Patterns(kind) then n - Patterns(kind) else n))
      && ParseSimple(t) == IntegerOf(t)
  {
    hide FromBigEndian;
  }
}
