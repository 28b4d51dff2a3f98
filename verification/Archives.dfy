/** The archive streams (FlatBinaryArchive.hpp) and the loops that move frames through them (ComPacket.hpp). */
module Archives {
  import opened Common
  import opened FlatBinary
  import opened ComPackets

  class InputArchive {
    var stream: seq<byte>

    constructor (bytes: seq<byte>)
      ensures stream == bytes
    {
      stream := bytes;
    }

    /** Take n bytes off the stream, or fail when fewer are left. */
    method Extract(n: nat) returns (r: Result<seq<byte>>)
      modifies this
      ensures n <= |old(stream)| ==> r == Ok(old(stream)[..n]) && stream == old(stream)[n..]
      ensures n > |old(stream)| ==> r == Err(InvalidArgument) && stream == []
    {
      if n > |stream| {
        stream := [];
        return Err(InvalidArgument);
      }
      r := Ok(stream[..n]);
      stream := stream[n..];
    }

    method LoadInteger(width: nat) returns (r: Result<nat>)
      modifies this
      ensures width <= |old(stream)| ==>
        r == Ok(Field(old(stream), 0, width)) && stream == old(stream)[width..]
      ensures width > |old(stream)| ==> r == Err(InvalidArgument) && stream == []
    {
      var bytes :- Extract(width);
      var n := FromFlatBinary(bytes);
      r := Ok(n);
    }
  }

  class OutputArchive {
    var stream: seq<byte>

    constructor ()
      ensures stream == []
    {
      stream := [];
    }

    method Insert(bytes: seq<byte>)
      modifies this
      ensures stream == old(stream) + bytes
    {
      stream := stream + bytes;
    }

    method SaveInteger(n: nat, width: nat)
      modifies this
      ensures stream == old(stream) + BigEndian(n, width)
    {
      var bytes := ToFlatBinary(n, width);
      Insert(bytes[..]);
    }
  }

  //
  // Loading
  //

  /** Fields further on are the same before and after earlier fields have been taken off. */
  lemma FieldBehind(bytes: seq<byte>, taken: nat, at: nat, width: nat)
    requires taken + at + width <= |bytes|
    ensures Field(bytes[taken..], at, width) == Field(bytes, taken + at, width)
  {
    assert bytes[taken..][at..at + width] == bytes[taken + at..taken + at + width];
  }

  method LoadSubPacketFrom(ar: InputArchive) returns (r: Result<SubPacket>)
    modifies ar
    ensures r.Ok? <==> LoadSubPacket(old(ar.stream)).Ok?
    ensures r.Ok? ==> LoadSubPacket(old(ar.stream)) == Ok((r.value, ar.stream))
    ensures r.Err? ==> r.error == InvalidArgument
  {
    ghost var start := ar.stream;
    var reserved :- ar.Extract(6);
    var kind :- ar.LoadInteger(2);
    assert ar.stream == start[8..];
    var length :- ar.LoadInteger(4);
    assert ar.stream == start[12..];
    FieldBehind(start, 6, 0, 2);
    FieldBehind(start, 8, 0, 4);
    PowValues();
    var payload: seq<byte> := [];
    while |payload| < length
      invariant |payload| <= length
      invariant start[12..] == payload + ar.stream
    {
      ghost var left := ar.stream;
      var value :- ar.LoadInteger(1);
      OneByte(left);
      assert left == [value] + ar.stream;
      AppendAssociates(payload, [value], ar.stream);
      payload := payload + [value];
    }
    DropAppend(payload, ar.stream);
    assert start[12..12 + length] == start[12..][..length];
    assert start[12 + length..] == start[12..][length..];
    r := Ok(SubPacket(kind, payload));
  }

  lemma OneByte(bytes: seq<byte>)
    requires bytes != []
    ensures Field(bytes, 0, 1) == bytes[0]
  {
    assert bytes[0..1] == [bytes[0]];
    assert FromBigEndian([]) == 0;
    assert [bytes[0]][..0] == [];
  }

  function PrependSubs(front: seq<SubPacket>, r: Result<(seq<SubPacket>, seq<byte>)>)
    : Result<(seq<SubPacket>, seq<byte>)>
  {
    if r.Err? then r else Ok((front + r.value.0, r.value.1))
  }

  function PrependPackets(front: seq<Packet>, r: Result<(seq<Packet>, seq<byte>)>): Result<(seq<Packet>, seq<byte>)> {
    if r.Err? then r else Ok((front + r.value.0, r.value.1))
  }

  /** The loop of load(Packet). */
  method LoadPayload(ar: InputArchive, length: uint32) returns (r: Result<seq<SubPacket>>)
    modifies ar
    ensures r.Ok? <==> LoadSubPackets(old(ar.stream), 0, length).Ok?
    ensures r.Ok? ==> LoadSubPackets(old(ar.stream), 0, length) == Ok((r.value, ar.stream))
    ensures r.Err? ==> r.error == InvalidArgument
  {
    hide LoadSubPacket, SubPacketSize;
    ghost var whole := LoadSubPackets(ar.stream, 0, length);
    var offset: nat := 0;
    var payload: seq<SubPacket> := [];
    assert whole.Ok? ==> [] + whole.value.0 == whole.value.0;
    while offset < length
      invariant whole == PrependSubs(payload, LoadSubPackets(ar.stream, offset, length))
      decreases |ar.stream|
    {
      ghost var left := ar.stream;
      var s :- LoadSubPacketFrom(ar);
      ghost var rest := LoadSubPackets(ar.stream, offset + SubPacketSize(s), length);
      if rest.Ok? {
        AppendAssociates(payload, [s], rest.value.0);
      }
      offset := offset + SubPacketSize(s);
      payload := payload + [s];
    }
    assert payload + [] == payload;
    r := Ok(payload);
  }

  method LoadPacketFrom(ar: InputArchive) returns (r: Result<Packet>)
    modifies ar
    ensures r.Ok? <==> LoadPacket(old(ar.stream)).Ok?
    ensures r.Ok? ==> LoadPacket(old(ar.stream)) == Ok((r.value, ar.stream))
    ensures r.Err? ==> r.error == InvalidArgument
  {
    ghost var start := ar.stream;
    var tsn :- ar.LoadInteger(4);
    var hsn :- ar.LoadInteger(4);
    assert ar.stream == start[8..];
    var number :- ar.LoadInteger(4);
    assert ar.stream == start[12..];
    var reserved :- ar.Extract(2);
    assert ar.stream == start[14..];
    var ackType :- ar.LoadInteger(2);
    assert ar.stream == start[16..];
    var acknowledgement :- ar.LoadInteger(4);
    assert ar.stream == start[20..];
    var length :- ar.LoadInteger(4);
    assert ar.stream == start[24..];
    PacketFields(start);
    var payload :- LoadPayload(ar, length);
    r := Ok(Packet(tsn, hsn, number, ackType, acknowledgement, payload));
  }

  lemma PacketFields(start: seq<byte>)
    requires |start| >= 24
    ensures Field(start, 0, 4) < TWO_TO_32
    ensures Field(start[4..], 0, 4) == Field32(start, 4)
    ensures Field(start[8..], 0, 4) == Field32(start, 8)
    ensures Field(start[14..], 0, 2) == Field16(start, 14)
    ensures Field(start[16..], 0, 4) == Field32(start, 16)
    ensures Field(start[20..], 0, 4) == Field32(start, 20)
  {
    PowValues();
    FieldBehind(start, 4, 0, 4);
    FieldBehind(start, 8, 0, 4);
    FieldBehind(start, 14, 0, 2);
    FieldBehind(start, 16, 0, 4);
    FieldBehind(start, 20, 0, 4);
  }

  /** The loop of load(ComPacket). */
  method LoadPackedPackets(ar: InputArchive, length: uint32) returns (r: Result<seq<Packet>>)
    modifies ar
    ensures r.Ok? <==> LoadPackets(old(ar.stream), 0, length).Ok?
    ensures r.Ok? ==> LoadPackets(old(ar.stream), 0, length) == Ok((r.value, ar.stream))
    ensures r.Err? ==> r.error == InvalidArgument
  {
    hide LoadPacket, PacketSize;
    ghost var whole := LoadPackets(ar.stream, 0, length);
    var offset: nat := 0;
    var payload: seq<Packet> := [];
    assert whole.Ok? ==> [] + whole.value.0 == whole.value.0;
    while offset < length
      invariant whole == PrependPackets(payload, LoadPackets(ar.stream, offset, length))
      decreases |ar.stream|
    {
      var p :- LoadPacketFrom(ar);
      ghost var rest := LoadPackets(ar.stream, offset + PacketSize(p), length);
      if rest.Ok? {
        AppendAssociates(payload, [p], rest.value.0);
      }
      offset := offset + PacketSize(p);
      payload := payload + [p];
    }
    assert payload + [] == payload;
    r := Ok(payload);
  }

  /** DeSerialize(ComPacket). */
  method DeSerializeComPacket(bytes: seq<byte>) returns (r: Result<ComPacket>)
    ensures r == LoadComPacket(bytes)
  {
    var ar := new InputArchive(bytes);
    var reserved :- ar.Extract(4);
    var comId :- ar.LoadInteger(2);
    assert ar.stream == bytes[6..];
    var extension :- ar.LoadInteger(2);
    assert ar.stream == bytes[8..];
    var outstanding :- ar.LoadInteger(4);
    assert ar.stream == bytes[12..];
    var minTransfer :- ar.LoadInteger(4);
    assert ar.stream == bytes[16..];
    var length :- ar.LoadInteger(4);
    assert ar.stream == bytes[20..];
    ComPacketFields(bytes);
    var payload :- LoadPackedPackets(ar, length);
    r := Ok(ComPacket(comId, extension, outstanding, minTransfer, payload));
  }

  lemma ComPacketFields(bytes: seq<byte>)
    requires |bytes| >= 20
    ensures Field(bytes[4..], 0, 2) == Field16(bytes, 4)
    ensures Field(bytes[6..], 0, 2) == Field16(bytes, 6)
    ensures Field(bytes[8..], 0, 4) == Field32(bytes, 8)
    ensures Field(bytes[12..], 0, 4) == Field32(bytes, 12)
    ensures Field(bytes[16..], 0, 4) == Field32(bytes, 16)
  {
    FieldBehind(bytes, 4, 0, 2);
    FieldBehind(bytes, 6, 0, 2);
    FieldBehind(bytes, 8, 0, 4);
    FieldBehind(bytes, 12, 0, 4);
    FieldBehind(bytes, 16, 0, 4);
  }

  //
  // Saving
  //

  /** Packet::PayloadLength: the sum in unsigned 32-bit arithmetic. */
  method PacketPayloadLength(payload: seq<SubPacket>) returns (length: uint32)
    ensures length == SubPacketsLength(payload)
  {
    hide Add32, SubPacketSize;
    length := 0;
    assert payload[0..] == payload;
    Add32Exact(0, SubPacketsLength(payload));
    for i := 0 to |payload|
      invariant Add32(length, SubPacketsLength(payload[i..])) == SubPacketsLength(payload)
    {
      assert payload[i..][1..] == payload[i + 1..];
      Add32Associates(length, SubPacketSize(payload[i]), SubPacketsLength(payload[i + 1..]));
      length := Add32(length, SubPacketSize(payload[i]));
    }
    Add32Exact(length, 0);
  }

  /** ComPacket::PayloadLength. */
  method ComPacketPayloadLength(payload: seq<Packet>) returns (length: uint32)
    ensures length == PacketsLength(payload)
  {
    hide Add32;
    length := 0;
    assert payload[0..] == payload;
    Add32Exact(0, PacketsLength(payload));
    for i := 0 to |payload|
      invariant Add32(length, PacketsLength(payload[i..])) == PacketsLength(payload)
    {
      assert payload[i..][1..] == payload[i + 1..];
      var packetLength := PacketPayloadLength(payload[i].payload);
      Add32Associates(length, PacketSize(payload[i]), PacketsLength(payload[i + 1..]));
      length := Add32(length, Add32(24, packetLength));
    }
    Add32Exact(length, 0);
  }

  method SaveSubPacketHeader(ar: OutputArchive, s: SubPacket)
    modifies ar
    ensures ar.stream == old(ar.stream) + SubPacketHeader(s)
  {
    hide BigEndian;
    ghost var start := ar.stream;
    ar.Insert(Zeros(6));
    ar.SaveInteger(s.kind, 2);
    AppendAssociates(start, Zeros(6), BigEndian(s.kind, 2));
    ar.SaveInteger(PayloadLength(s), 4);
    AppendAssociates(start, Zeros(6) + BigEndian(s.kind, 2), BigEndian(PayloadLength(s), 4));
  }

  method SaveSubPacketTo(ar: OutputArchive, s: SubPacket)
    modifies ar
    ensures ar.stream == old(ar.stream) + SaveSubPacket(s)
  {
    hide SubPacketHeader;
    ghost var before := ar.stream;
    SaveSubPacketHeader(ar, s);
    ghost var start := ar.stream;
    for i := 0 to |s.payload|
      invariant ar.stream == start + s.payload[..i]
    {
      AppendAssociates(start, s.payload[..i], [s.payload[i]]);
      ar.Insert([s.payload[i]]);
    }
    assert s.payload[..|s.payload|] == s.payload;
    var i := PayloadLength(s);
    while i < PaddedPayloadLength(s)
      invariant PayloadLength(s) <= i
      invariant i <= PayloadLength(s) + Padding(s)
      invariant ar.stream == start + s.payload + Zeros(i - PayloadLength(s))
    {
      AppendAssociates(start + s.payload, Zeros(i - PayloadLength(s)), [0]);
      assert Zeros(i - PayloadLength(s)) + [0] == Zeros(i + 1 - PayloadLength(s));
      ar.Insert([0]);
      i := i + 1;
    }
    AppendAssociates(before, SubPacketHeader(s), s.payload);
    AppendAssociates(before, SubPacketHeader(s) + s.payload, Zeros(Padding(s)));
  }

  method SavePacketTo(ar: OutputArchive, p: Packet)
    modifies ar
    ensures ar.stream == old(ar.stream) + SavePacket(p)
  {
    hide BigEndian, Zeros, SaveSubPackets;
    ghost var start := ar.stream;
    ar.SaveInteger(p.tperSessionNumber, 4);
    ar.SaveInteger(p.hostSessionNumber, 4);
    AppendAssociates(start, BigEndian(p.tperSessionNumber, 4), BigEndian(p.hostSessionNumber, 4));
    ghost var h := BigEndian(p.tperSessionNumber, 4) + BigEndian(p.hostSessionNumber, 4);
    ar.SaveInteger(p.sequenceNumber, 4);
    AppendAssociates(start, h, BigEndian(p.sequenceNumber, 4));
    h := h + BigEndian(p.sequenceNumber, 4);
    ar.Insert(Zeros(2));
    AppendAssociates(start, h, Zeros(2));
    h := h + Zeros(2);
    ar.SaveInteger(p.ackType, 2);
    AppendAssociates(start, h, BigEndian(p.ackType, 2));
    h := h + BigEndian(p.ackType, 2);
    ar.SaveInteger(p.acknowledgement, 4);
    AppendAssociates(start, h, BigEndian(p.acknowledgement, 4));
    h := h + BigEndian(p.acknowledgement, 4);
    var length := PacketPayloadLength(p.payload);
    ar.SaveInteger(length, 4);
    AppendAssociates(start, h, BigEndian(length, 4));
    h := h + BigEndian(length, 4);
    assert h == PacketHeader(p);
    AppendAssociates(old(ar.stream), PacketHeader(p), SaveSubPackets(p.payload));
    SavePayload(ar, p.payload);
  }

  /** The loop of save(Packet). */
  method SavePayload(ar: OutputArchive, payload: seq<SubPacket>)
    modifies ar
    ensures ar.stream == old(ar.stream) + SaveSubPackets(payload)
  {
    hide SaveSubPacket;
    assert payload[0..] == payload;
    for i := 0 to |payload|
      invariant ar.stream + SaveSubPackets(payload[i..]) == old(ar.stream) + SaveSubPackets(payload)
    {
      assert payload[i..][1..] == payload[i + 1..];
      AppendAssociates(ar.stream, SaveSubPacket(payload[i]), SaveSubPackets(payload[i + 1..]));
      SaveSubPacketTo(ar, payload[i]);
    }
    assert ar.stream + [] == ar.stream;
  }

  /** Serialize(ComPacket). */
  method SerializeComPacket(c: ComPacket) returns (bytes: seq<byte>)
    ensures bytes == SaveComPacket(c)
  {
    var ar := new OutputArchive();
    hide BigEndian, Zeros, SavePackets;
    ar.Insert(Zeros(4));
    assert [] + Zeros(4) == Zeros(4);
    ar.SaveInteger(c.comId, 2);
    ar.SaveInteger(c.comIdExtension, 2);
    ar.SaveInteger(c.outstandingData, 4);
    ar.SaveInteger(c.minTransfer, 4);
    var length := ComPacketPayloadLength(c.payload);
    ar.SaveInteger(length, 4);
    assert ar.stream == ComPacketHeader(c);
    SavePackedPackets(ar, c.payload);
    bytes := ar.stream;
  }

  /** The loop of save(ComPacket). */
  method SavePackedPackets(ar: OutputArchive, payload: seq<Packet>)
    modifies ar
    ensures ar.stream == old(ar.stream) + SavePackets(payload)
  {
    hide SavePacket;
    assert payload[0..] == payload;
    for i := 0 to |payload|
      invariant ar.stream + SavePackets(payload[i..]) == old(ar.stream) + SavePackets(payload)
    {
      assert payload[i..][1..] == payload[i + 1..];
      AppendAssociates(ar.stream, SavePacket(payload[i]), SavePackets(payload[i + 1..]));
      SavePacketTo(ar, payload[i]);
    }
    assert ar.stream + [] == ar.stream;
  }
}
