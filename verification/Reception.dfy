/**
 * What a receiver makes of any bytes at all, whoever wrote them: the frames they hold, the tokens, and the values
 * (ComPacket.hpp, TokenStream.cpp, Value.cpp).
 */
module Reception {
  import opened Common
  import opened FlatBinary
  import opened Values
  import opened Tokens
  import opened TokenStreams
  import opened ComPackets
  import opened WireLayout

  //
  // Frames
  //

  /** A sub-packet stands here, whole. */
  predicate SubPacketAt(b: seq<byte>, at: nat, s: SubPacket) {
    && at + 12 + |s.payload| <= |b|
    && Word16(b, at + 6) == s.kind && Word32(b, at + 8) == |s.payload|
    && b[at + 12..at + 12 + |s.payload|] == s.payload
  }

  /** What a sub-packet counts for towards the length of its packet: with its padding. */
  function SubPacketCount(s: SubPacket): nat {
    (12 + (|s.payload| + 3) / 4 * 4) % 0x1_0000_0000
  }

  /** Sub-packets follow each other without their padding, until they count for the length. */
  predicate SubPacketsAt(b: seq<byte>, at: nat, counted: nat, length: nat, subs: seq<SubPacket>, end: nat)
    decreases |subs|
  {
    if counted >= length then subs == [] && end == at
    else
      && subs != [] && SubPacketAt(b, at, subs[0])
      && SubPacketsAt(b, at + 12 + |subs[0].payload|, counted + SubPacketCount(subs[0]), length, subs[1..], end)
  }

  predicate PacketAt(b: seq<byte>, at: nat, p: Packet, end: nat) {
    && at + 24 <= |b|
    && Word32(b, at) == p.tperSessionNumber && Word32(b, at + 4) == p.hostSessionNumber
    && Word32(b, at + 8) == p.sequenceNumber && Word16(b, at + 14) == p.ackType
    && Word32(b, at + 16) == p.acknowledgement
    && SubPacketsAt(b, at + 24, 0, Word32(b, at + 20), p.payload, end)
  }

  function SubPacketCounts(subs: seq<SubPacket>): nat {
    if subs == [] then 0 else SubPacketCount(subs[0]) + SubPacketCounts(subs[1..])
  }

  function PacketCount(p: Packet): nat {
    (24 + SubPacketCounts(p.payload)) % 0x1_0000_0000
  }

  ghost predicate PacketsAt(b: seq<byte>, at: nat, counted: nat, length: nat, ps: seq<Packet>, end: nat)
    decreases |ps|
  {
    if counted >= length then ps == [] && end == at
    else
      && ps != []
      && exists middle: nat ::
           && PacketAt(b, at, ps[0], middle)
           && PacketsAt(b, middle, counted + PacketCount(ps[0]), length, ps[1..], end)
  }

  /** The frame that bytes hold; what stands behind it does not matter. */
  ghost predicate FrameIn(b: seq<byte>, c: ComPacket) {
    && |b| >= 20
    && Word16(b, 4) == c.comId && Word16(b, 6) == c.comIdExtension
    && Word32(b, 8) == c.outstandingData && Word32(b, 12) == c.minTransfer
    && exists end: nat :: PacketsAt(b, 20, 0, Word32(b, 16), c.payload, end)
  }

  lemma FieldIsWord(b: seq<byte>, at: nat, from: nat)
    requires at <= |b|
    ensures from + 2 <= |b| - at ==> Field16(b[at..], from) == Word16(b, at + from)
    ensures from + 4 <= |b| - at ==> Field32(b[at..], from) == Word32(b, at + from)
  {
    var t := b[at..];
    assert forall i :: 0 <= i < |t| ==> t[i] == b[at + i];
    if from + 2 <= |t| {
      TwoRead(t[from..from + 2]);
    }
    if from + 4 <= |t| {
      FourRead(t[from..from + 4]);
    }
  }

  lemma TwoRead(s: seq<byte>)
    requires |s| == 2
    ensures FromBigEndian(s) == Word16(s, 0)
  {
    var a: nat := s[0];
    assert s[..1][..0] == [] && FromBigEndian(s[..1]) == a;
  }

  lemma FourRead(s: seq<byte>)
    requires |s| == 4
    ensures FromBigEndian(s) == Word32(s, 0)
  {
    var a: nat, b: nat, c: nat := s[0], s[1], s[2];
    assert s[..3][..2] == s[..2] && s[..2][..1] == s[..1] && s[..1][..0] == [];
    assert FromBigEndian(s[..1]) == a && FromBigEndian(s[..2]) == 0x100 * a + b;
    assert FromBigEndian(s[..3]) == 0x1_0000 * a + 0x100 * b + c;
  }

  lemma SubPacketReadIff(b: seq<byte>, at: nat, s: SubPacket, end: nat)
    requires at <= |b| && end <= |b|
    ensures LoadSubPacket(b[at..]) == Ok((s, b[end..])) <==> SubPacketAt(b, at, s) && end == at + 12 + |s.payload|
    ensures LoadSubPacket(b[at..]).Ok? ==>
      var (s, rest) := LoadSubPacket(b[at..]).value;
      at + 12 + |s.payload| <= |b| && rest == b[at + 12 + |s.payload|..]
  {
    hide Field16, Field32, Word16, Word32;
    var t := b[at..];
    FieldIsWord(b, at, 6);
    FieldIsWord(b, at, 8);
    if |t| >= 12 {
      var length: nat := Field32(t, 8);
      if |t| >= 12 + length {
        assert t[12..12 + length] == b[at + 12..at + 12 + length];
        assert t[12 + length..] == b[at + 12 + length..];
        assert |b[end..]| == |b| - end;
      }
    }
  }

  lemma CountIsSize(s: SubPacket)
    ensures SubPacketSize(s) == SubPacketCount(s)
  {
    var n := (|s.payload| + 3) / 4 * 4;
    var q, r := n / TWO_TO_32, n % TWO_TO_32;
    assert 12 + n == q * TWO_TO_32 + (12 + r);
    if 12 + r < TWO_TO_32 {
      ModUnique(12 + n, TWO_TO_32, q, 12 + r);
    } else {
      ModUnique(12 + n, TWO_TO_32, q + 1, 12 + r - TWO_TO_32);
    }
  }

  lemma {:induction false} SubPacketsReadIff(b: seq<byte>, at: nat, counted: nat, length: nat, subs: seq<SubPacket>,
                                             end: nat)
    requires at <= |b| && end <= |b|
    ensures LoadSubPackets(b[at..], counted, length) == Ok((subs, b[end..]))
            <==> SubPacketsAt(b, at, counted, length, subs, end)
    decreases |b| - at
  {
    hide LoadSubPacket, SubPacketAt, SubPacketCount;
    if counted >= length {
      assert |b[at..]| == |b| - at && |b[end..]| == |b| - end;
    } else {
      var first := LoadSubPacket(b[at..]);
      if first.Ok? {
        var (s, rest) := first.value;
        SubPacketReadIff(b, at, s, |b|);
        var next := at + 12 + |s.payload|;
        assert rest == b[next..];
        SubPacketReadIff(b, at, s, next);
        CountIsSize(s);
        if subs != [] {
          SubPacketsReadIff(b, next, counted + SubPacketCount(s), length, subs[1..], end);
          assert subs == [subs[0]] + subs[1..];
        }
      }
      if subs != [] && SubPacketAt(b, at, subs[0]) {
        SubPacketFits(b, at, subs[0]);
        SubPacketReadIff(b, at, subs[0], at + 12 + |subs[0].payload|);
      }
    }
  }

  lemma SubPacketFits(b: seq<byte>, at: nat, s: SubPacket)
    requires SubPacketAt(b, at, s)
    ensures at + 12 + |s.payload| <= |b|
  {
  }

  lemma {:induction false} CountsAreLength(subs: seq<SubPacket>)
    ensures SubPacketsLength(subs) == SubPacketCounts(subs) % 0x1_0000_0000
  {
    hide SubPacketCount, SubPacketSize;
    if subs != [] {
      CountsAreLength(subs[1..]);
      CountIsSize(subs[0]);
      SumWraps(SubPacketCount(subs[0]), SubPacketCounts(subs[1..]));
    }
  }

  lemma SumWraps(a: nat, b: nat)
    ensures (a + b % 0x1_0000_0000) % 0x1_0000_0000 == (a + b) % 0x1_0000_0000
  {
  }

  lemma PacketCountIsSize(p: Packet)
    ensures PacketSize(p) == PacketCount(p)
  {
    CountsAreLength(p.payload);
    SumWraps(24, SubPacketCounts(p.payload));
  }

  lemma PacketReadIff(b: seq<byte>, at: nat, p: Packet, end: nat)
    requires at <= |b| && end <= |b|
    ensures LoadPacket(b[at..]) == Ok((p, b[end..])) <==> PacketAt(b, at, p, end)
  {
    hide Field16, Field32, Word16, Word32, LoadSubPackets, SubPacketsAt;
    var t := b[at..];
    if |t| >= 24 {
      FieldIsWord(b, at, 0);
      FieldIsWord(b, at, 4);
      FieldIsWord(b, at, 8);
      FieldIsWord(b, at, 14);
      FieldIsWord(b, at, 16);
      FieldIsWord(b, at, 20);
      assert t[24..] == b[at + 24..];
      SubPacketsReadIff(b, at + 24, 0, Word32(b, at + 20), p.payload, end);
    }
  }

  lemma {:induction false} SubPacketsEnd(b: seq<byte>, at: nat, counted: nat, length: nat, subs: seq<SubPacket>,
                                         end: nat)
    requires at <= |b| && SubPacketsAt(b, at, counted, length, subs, end)
    ensures end <= |b|
    decreases |subs|
  {
    hide SubPacketCount;
    if counted < length {
      SubPacketsEnd(b, at + 12 + |subs[0].payload|, counted + SubPacketCount(subs[0]), length, subs[1..], end);
    }
  }

  lemma PacketEnd(b: seq<byte>, at: nat, p: Packet, end: nat)
    requires PacketAt(b, at, p, end)
    ensures at + 24 <= |b| && end <= |b|
  {
    hide SubPacketsAt, Word32, Word16;
    SubPacketsEnd(b, at + 24, 0, Word32(b, at + 20), p.payload, end);
  }

  lemma PacketLoaded(b: seq<byte>, at: nat) returns (end: nat)
    requires at <= |b| && LoadPacket(b[at..]).Ok?
    ensures at <= end <= |b| && LoadPacket(b[at..]).value.1 == b[end..]
    ensures PacketAt(b, at, LoadPacket(b[at..]).value.0, end)
  {
    hide LoadPacket, PacketAt;
    var (p, rest) := LoadPacket(b[at..]).value;
    end := |b| - |rest|;
    LoadedSuffix(b, at);
    PacketReadIff(b, at, p, end);
  }

  /** What a packet leaves is the end of the bytes. */
  lemma LoadedSuffix(b: seq<byte>, at: nat)
    requires at <= |b| && LoadPacket(b[at..]).Ok?
    ensures var rest := LoadPacket(b[at..]).value.1; rest == b[|b| - |rest|..]
  {
    hide Field16, Field32, LoadSubPackets;
    var t := b[at..];
    SubPacketsSuffix(b, at + 24, 0, Field32(t, 20));
    assert t[24..] == b[at + 24..];
  }

  lemma {:induction false} SubPacketsSuffix(b: seq<byte>, at: nat, counted: nat, length: nat)
    requires at <= |b|
    ensures LoadSubPackets(b[at..], counted, length).Ok? ==>
      var rest := LoadSubPackets(b[at..], counted, length).value.1;
      rest == b[|b| - |rest|..]
    decreases |b| - at
  {
    hide LoadSubPacket, SubPacketSize;
    if counted < length && LoadSubPacket(b[at..]).Ok? {
      var (s, rest) := LoadSubPacket(b[at..]).value;
      SubPacketReadIff(b, at, s, |b|);
      SubPacketsSuffix(b, at + 12 + |s.payload|, counted + SubPacketSize(s), length);
    }
  }

  lemma {:induction false} PacketsReadIff(b: seq<byte>, at: nat, counted: nat, length: nat, ps: seq<Packet>, end: nat)
    requires at <= |b| && end <= |b|
    ensures LoadPackets(b[at..], counted, length) == Ok((ps, b[end..])) <==> PacketsAt(b, at, counted, length, ps, end)
    decreases |b| - at
  {
    hide LoadPacket, PacketAt, PacketCount, PacketSize;
    if counted >= length {
      assert |b[at..]| == |b| - at && |b[end..]| == |b| - end;
    } else {
      if LoadPacket(b[at..]).Ok? {
        var next := PacketLoaded(b, at);
        var p := LoadPacket(b[at..]).value.0;
        PacketCountIsSize(p);
        if ps != [] {
          PacketsReadIff(b, next, counted + PacketCount(p), length, ps[1..], end);
          assert ps == [ps[0]] + ps[1..];
        }
      }
      if ps != [] {
        forall middle: nat | PacketAt(b, at, ps[0], middle)
          ensures middle <= |b| && LoadPacket(b[at..]) == Ok((ps[0], b[middle..]))
        {
          PacketEnd(b, at, ps[0], middle);
          PacketReadIff(b, at, ps[0], middle);
        }
      }
    }
  }

  lemma {:induction false} PacketsEnd(b: seq<byte>, at: nat, counted: nat, length: nat, ps: seq<Packet>, end: nat)
    requires at <= |b| && PacketsAt(b, at, counted, length, ps, end)
    ensures end <= |b|
    decreases |ps|
  {
    hide PacketAt, PacketCount;
    if counted < length {
      var middle: nat :|
        PacketAt(b, at, ps[0], middle) && PacketsAt(b, middle, counted + PacketCount(ps[0]), length, ps[1..], end);
      PacketEnd(b, at, ps[0], middle);
      PacketsEnd(b, middle, counted + PacketCount(ps[0]), length, ps[1..], end);
    }
  }

  lemma {:induction false} PacketsSuffix(b: seq<byte>, at: nat, counted: nat, length: nat)
    requires at <= |b|
    ensures LoadPackets(b[at..], counted, length).Ok? ==>
      var rest := LoadPackets(b[at..], counted, length).value.1;
      rest == b[|b| - |rest|..]
    decreases |b| - at
  {
    hide LoadPacket, PacketSize;
    if counted < length && LoadPacket(b[at..]).Ok? {
      var (p, rest) := LoadPacket(b[at..]).value;
      LoadedSuffix(b, at);
      PacketsSuffix(b, |b| - |rest|, counted + PacketSize(p), length);
    }
  }

  /**
   * Bytes are read as a frame exactly if they hold it: the numbers of the header where they belong, and packets and
   * sub-packets, each whole, until the declared lengths are counted off. Anything else is an invalid argument.
   */
  lemma FrameReadIff(b: seq<byte>, c: ComPacket)
    ensures LoadComPacket(b) == Ok(c) <==> FrameIn(b, c)
    ensures LoadComPacket(b).Err? ==> LoadComPacket(b).error == InvalidArgument
  {
    hide LoadPackets, Field16, Field32, PacketsAt, Word16, Word32;
    assert b[0..] == b;
    if |b| >= 20 {
      FieldIsWord(b, 0, 4);
      FieldIsWord(b, 0, 6);
      FieldIsWord(b, 0, 8);
      FieldIsWord(b, 0, 12);
      FieldIsWord(b, 0, 16);
      var length := Word32(b, 16);
      var packets := LoadPackets(b[20..], 0, length);
      PacketsSuffix(b, 20, 0, length);
      if packets.Ok? {
        PacketsReadIff(b, 20, 0, length, packets.value.0, |b| - |packets.value.1|);
      }
      forall end: nat | PacketsAt(b, 20, 0, length, c.payload, end)
        ensures end <= |b| && packets == Ok((c.payload, b[end..]))
      {
        PacketsEnd(b, 20, 0, length, c.payload, end);
        PacketsReadIff(b, 20, 0, length, c.payload, end);
      }
    }
  }

  //
  // Tokens
  //

  /** A byte below 0x80 is a whole atom: six bits, which 0x40 makes signed; one from 0xE8 on is a tag by itself. */
  lemma OneByteTokenRead(bytes: seq<byte>)
    requires bytes != [] && (bytes[0] < 0x80 || bytes[0] >= 0xE8)
    ensures var h: nat := bytes[0];
      ParseToken(bytes) == Ok((
        if h < 0x40 then Token(0x00, false, false, [h])
        else if h < 0x60 then Token(0x00, false, true, [h - 0x40])
        else if h < 0x80 then Token(0x00, false, true, [h + 0x80])
        else Token(h, false, false, []), bytes[1..]))
  {
  }

  /** Bytes from 0x80 on start a short atom: 0x20 for bytes, 0x10 for a sign, and a length below 16. */
  lemma ShortTokenRead(bytes: seq<byte>)
    requires bytes != [] && 0x80 <= bytes[0] < 0xC0
    ensures var h: nat, n: nat := bytes[0], bytes[0] % 0x10;
      var isSigned := 0x90 <= h < 0xA0 || 0xB0 <= h;
      ParseToken(bytes) == if |bytes| < 1 + n then Err(InvalidArgument)
                           else Ok((Token(0x80, h >= 0xA0, isSigned, bytes[1..1 + n]), bytes[1 + n..]))
  {
    hide ParseToken, TakeData;
    ShortBits(bytes[0]);
    ShortParses(bytes, bytes[0], bytes[1..]);
    DataTaken(0x80, bytes[0] >= 0xA0, bytes[0] / 16 % 2 == 1, bytes[0] % 0x10, bytes, 1);
  }

  lemma ShortBits(h: nat)
    requires 0x80 <= h < 0xC0
    ensures h / 32 % 2 == 1 <==> h >= 0xA0
    ensures h / 16 % 2 == 1 <==> 0x90 <= h < 0xA0 || 0xB0 <= h
  {
  }

  lemma MediumBits(h: nat)
    requires 0xC0 <= h < 0xE0
    ensures h / 16 % 2 == 1 <==> h >= 0xD0
    ensures h / 8 % 2 == 1 <==> 0xC8 <= h < 0xD0 || 0xD8 <= h
  {
  }

  lemma LongBits(h: nat)
    requires 0xE0 <= h < 0xE8
    ensures h / 2 % 2 == 1 <==> h in {0xE2, 0xE3, 0xE6, 0xE7}
    ensures h % 2 == 1 <==> h in {0xE1, 0xE3, 0xE5, 0xE7}
  {
  }

  lemma DataTaken(tag: byte, isByte: bool, isSigned: bool, n: nat, bytes: seq<byte>, from: nat)
    requires from <= |bytes|
    ensures TakeData(tag, isByte, isSigned, n, bytes[from..]) ==
      if |bytes| < from + n then Err(InvalidArgument)
      else Ok((Token(tag, isByte, isSigned, bytes[from..from + n]), bytes[from + n..]))
  {
    if |bytes| >= from + n {
      assert bytes[from..][..n] == bytes[from..from + n] && bytes[from..][n..] == bytes[from + n..];
    }
  }

  lemma LengthMissing(bytes: seq<byte>)
    requires bytes != []
    ensures 0xC0 <= bytes[0] < 0xE0 && |bytes| < 2 ==> ParseToken(bytes) == Err(InvalidArgument)
    ensures 0xE0 <= bytes[0] < 0xE8 && |bytes| < 4 ==> ParseToken(bytes) == Err(InvalidArgument)
  {
  }

  /** From 0xC0 on a medium atom: 0x10 for bytes, 0x08 for a sign, and a length of eleven bits. */
  lemma MediumTokenRead(bytes: seq<byte>)
    requires bytes != [] && 0xC0 <= bytes[0] < 0xE0
    ensures var h: nat := bytes[0];
      var isSigned := 0xC8 <= h < 0xD0 || 0xD8 <= h;
      ParseToken(bytes) ==
      if |bytes| < 2 then Err(InvalidArgument)
      else
        var low: nat := bytes[1];
        var n := 0x100 * (h % 8) + low;
        if |bytes| < 2 + n then Err(InvalidArgument)
        else Ok((Token(0xC0, h >= 0xD0, isSigned, bytes[2..2 + n]), bytes[2 + n..]))
  {
    hide ParseToken, TakeData;
    LengthMissing(bytes);
    if |bytes| >= 2 {
      var h: nat, low: nat := bytes[0], bytes[1];
      MediumBits(h);
      MediumParses(bytes, bytes[0], bytes[1], bytes[2..]);
      DataTaken(0xC0, h >= 0xD0, h / 8 % 2 == 1, 0x100 * (h % 8) + low, bytes, 2);
    }
  }

  /** From 0xE0 on a long atom: 0x02 for bytes, 0x01 for a sign, 0x04 without a meaning, and a length of 24 bits. */
  lemma LongTokenRead(bytes: seq<byte>)
    requires bytes != [] && 0xE0 <= bytes[0] < 0xE8
    ensures var h: nat := bytes[0];
      var isByte, isSigned := h in {0xE2, 0xE3, 0xE6, 0xE7}, h in {0xE1, 0xE3, 0xE5, 0xE7};
      ParseToken(bytes) ==
      if |bytes| < 4 then Err(InvalidArgument)
      else
        var high: nat, middle: nat, low: nat := bytes[1], bytes[2], bytes[3];
        var n := 0x1_0000 * high + 0x100 * middle + low;
        if |bytes| < 4 + n then Err(InvalidArgument)
        else Ok((Token(0xE0, isByte, isSigned, bytes[4..4 + n]), bytes[4 + n..]))
  {
    hide ParseToken, TakeData;
    LengthMissing(bytes);
    if |bytes| >= 4 {
      var high: nat, middle: nat, low: nat := bytes[1], bytes[2], bytes[3];
      var n := 0x1_0000 * high + 0x100 * middle + low;
      LongBits(bytes[0]);
      assert bytes[1..][0] == high && bytes[1..][1] == middle && bytes[1..][2] == low && bytes[1..][3..] == bytes[4..];
      LongParses(bytes, bytes[0], n, bytes[4..]);
      DataTaken(0xE0, bytes[0] / 2 % 2 == 1, bytes[0] % 2 == 1, n, bytes, 4);
    }
  }

  //
  // Values
  //

  /** The kind of an integer by the bytes of its atom: the smallest that holds them. */
  predicate HoldsAtom(kind: IntKind, isSigned: bool, size: nat) {
    match kind
    case U8 => !isSigned && size == 1
    case U16 => !isSigned && size == 2
    case U32 => !isSigned && 3 <= size <= 4
    case U64 => !isSigned && 5 <= size <= 8
    case I8 => isSigned && size == 1
    case I16 => isSigned && size == 2
    case I32 => isSigned && 3 <= size <= 4
    case I64 => isSigned && 5 <= size <= 8
    case _ => false
  }

  predicate IsCommandTag(tag: byte, c: Command) {
    match c
    case CALL => tag == 0xF8
    case END_OF_DATA => tag == 0xF9
    case END_OF_SESSION => tag == 0xFA
    case START_TRANSACTION => tag == 0xFB
    case END_TRANSACTION => tag == 0xFC
    case EMPTY => tag == 0xFF
  }

  predicate IsAtomTag(tag: byte) {
    tag in {0x00, 0x80, 0xC0, 0xE0}
  }

  /** The tokens, all of them, stand for the value. */
  ghost predicate StandFor(ts: seq<Token>, v: Value)
    decreases v, 1
  {
    match v
    case Empty => false
    case Integer(kind, n) =>
      && |ts| == 1 && IsAtomTag(ts[0].tag) && !ts[0].isByte
      && HoldsAtom(kind, ts[0].isSigned, |ts[0].data|)
      && n == if ts[0].isSigned && 2 * FromBigEndian(ts[0].data) >= Patterns(kind)
              then FromBigEndian(ts[0].data) - Patterns(kind) else FromBigEndian(ts[0].data)
    case Cmd(c) => |ts| == 1 && IsCommandTag(ts[0].tag, c)
    case Bytes(b) => |ts| == 1 && IsAtomTag(ts[0].tag) && ts[0].isByte && !ts[0].isSigned && ts[0].data == b
    case List(items) =>
      |ts| >= 2 && ts[0].tag == 0xF0 && ts[|ts| - 1].tag == 0xF1 && AllStandFor(ts[1..|ts| - 1], items)
    case Named(name, value) =>
      && |ts| >= 2 && ts[0].tag == 0xF2 && ts[|ts| - 1].tag == 0xF3
      && exists k: nat :: 1 <= k < |ts| && StandFor(ts[1..k], name) && StandFor(ts[k..|ts| - 1], value)
  }

  /** One stretch of tokens after another, for one value after another. */
  ghost predicate AllStandFor(ts: seq<Token>, vs: seq<Value>)
    decreases vs, 0
  {
    if vs == [] then ts == []
    else exists k: nat :: k <= |ts| && StandFor(ts[..k], vs[0]) && AllStandFor(ts[k..], vs[1..])
  }

  lemma SimpleReadIff(t: Token, v: Value)
    requires t.tag != START_LIST && t.tag != START_NAME
    ensures ParseSimple(t) == Ok(v) <==> StandFor([t], v)
    ensures ParseSimple(t).Err? ==> ParseSimple(t).error == InvalidArgument
  {
    hide FromBigEndian;
    if t.IsAtom() && !t.isByte && AtomKind(t.isSigned, |t.data|).Ok? {
      AtomFits(t.data, AtomKind(t.isSigned, |t.data|).value);
    }
  }

  lemma StartsSomething(ts: seq<Token>, v: Value)
    requires StandFor(ts, v)
    ensures ts != [] && ts[0].tag != END_LIST
  {
    hide FromBigEndian;
  }

  lemma NamedTaken(ts: seq<Token>, inner: seq<Token>, name: Value, behind: seq<Token>, value: Value, end: seq<Token>)
    requires ts != [] && ts[0].tag == START_NAME && ts[1..] == inner != []
    requires ParseValue(inner) == Ok((name, behind)) && behind != []
    requires ParseValue(behind) == Ok((value, end)) && end != [] && end[0].tag == END_NAME
    ensures ParseValue(ts) == Ok((Named(name, value), end[1..]))
  {
  }

  lemma NameSplits(ts: seq<Token>, k: nat, rest: seq<Token>)
    requires 1 <= k < |ts|
    ensures (ts + rest)[1..] == ts[1..k] + (ts[k..|ts| - 1] + ([ts[|ts| - 1]] + rest))
    ensures ([ts[|ts| - 1]] + rest)[1..] == rest
  {
  }

  lemma ListTaken(ts: seq<Token>, items: seq<Value>, rest: seq<Token>)
    requires ts != [] && ts[0].tag == START_LIST && ParseItems(ts[1..]) == Ok((items, rest))
    ensures ParseValue(ts) == Ok((List(items), rest))
  {
  }

  lemma NothingStandsForNothing(ts: seq<Token>)
    ensures !StandFor(ts, Empty)
  {
  }

  lemma ListParts(ts: seq<Token>, items: seq<Value>)
    requires StandFor(ts, List(items))
    ensures |ts| >= 2 && ts[0].tag == START_LIST && ts[|ts| - 1].tag == END_LIST
    ensures AllStandFor(ts[1..|ts| - 1], items)
  {
  }

  lemma NameEnds(ts: seq<Token>, name: Value, value: Value) returns (k: nat)
    requires StandFor(ts, Named(name, value))
    ensures |ts| >= 2 && ts[0].tag == START_NAME && ts[|ts| - 1].tag == END_NAME
    ensures 1 < k < |ts| - 1 && StandFor(ts[1..k], name) && StandFor(ts[k..|ts| - 1], value)
  {
    k :| 1 <= k < |ts| && StandFor(ts[1..k], name) && StandFor(ts[k..|ts| - 1], value);
    StartsSomething(ts[1..k], name);
    StartsSomething(ts[k..|ts| - 1], value);
  }

  /** Tokens that stand for a value are read as it, whatever follows them. */
  lemma {:induction false} StandingIsRead(ts: seq<Token>, v: Value, rest: seq<Token>)
    requires StandFor(ts, v)
    ensures ParseValue(ts + rest) == Ok((v, rest))
    decreases v, 1
  {
    hide ParseSimple, ParseValue, ParseItems, StandFor, AllStandFor;
    match v
    case List(items) =>
      ListParts(ts, items);
      var inner, end := ts[1..|ts| - 1], ts[|ts| - 1];
      StandingItemsAreRead(inner, items, end, rest);
      assert (ts + rest)[1..] == inner + ([end] + rest);
      ListTaken(ts + rest, items, rest);
    case Named(name, value) =>
      var k := NameEnds(ts, name, value);
      var first, second, end := ts[1..k], ts[k..|ts| - 1], [ts[|ts| - 1]] + rest;
      StandingIsRead(first, name, second + end);
      StandingIsRead(second, value, end);
      NameSplits(ts, k, rest);
      NamedTaken(ts + rest, first + (second + end), name, second + end, value, end);
    case Empty => NothingStandsForNothing(ts);
    case Integer(_, _) => OneTokenIsRead(ts, v, rest);
    case Cmd(_) => OneTokenIsRead(ts, v, rest);
    case Bytes(_) => OneTokenIsRead(ts, v, rest);
  }

  lemma OneTokenIsRead(ts: seq<Token>, v: Value, rest: seq<Token>)
    requires StandFor(ts, v) && !v.List? && !v.Named?
    ensures ParseValue(ts + rest) == Ok((v, rest))
  {
    hide ParseSimple, StandFor, ParseValue;
    OneTokenStands(ts, v);
    SimpleReadIff(ts[0], v);
    assert ts == [ts[0]];
    SimpleFront(ts[0], v, rest);
  }

  lemma OneTokenStands(ts: seq<Token>, v: Value)
    requires StandFor(ts, v) && !v.List? && !v.Named?
    ensures |ts| == 1 && ts[0].tag != START_LIST && ts[0].tag != START_NAME
  {
    hide FromBigEndian;
  }

  lemma ItemTaken(ts: seq<Token>, item: Value, behind: seq<Token>, items: seq<Value>, rest: seq<Token>)
    requires ts != [] && ts[0].tag != END_LIST && ParseValue(ts) == Ok((item, behind))
    requires ParseItems(behind) == Ok((items, rest))
    ensures ParseItems(ts) == Ok(([item] + items, rest))
  {
  }

  lemma NoItemTaken(end: Token, rest: seq<Token>)
    requires end.tag == END_LIST
    ensures ParseItems([end] + rest) == Ok(([], rest))
  {
    assert ([end] + rest)[1..] == rest;
  }

  lemma {:induction false} StandingItemsAreRead(ts: seq<Token>, vs: seq<Value>, end: Token, rest: seq<Token>)
    requires AllStandFor(ts, vs) && end.tag == END_LIST
    ensures ParseItems(ts + ([end] + rest)) == Ok((vs, rest))
    decreases vs, 0
  {
    hide ParseValue, ParseItems, StandFor;
    var tail := [end] + rest;
    if vs == [] {
      assert ts + tail == tail;
      NoItemTaken(end, rest);
    } else {
      var k: nat :| k <= |ts| && StandFor(ts[..k], vs[0]) && AllStandFor(ts[k..], vs[1..]);
      var first, more := ts[..k], ts[k..];
      StartsSomething(first, vs[0]);
      StandingIsRead(first, vs[0], more + tail);
      StandingItemsAreRead(more, vs[1..], end, rest);
      Regrouped(ts, k, tail, vs);
      ItemTaken(first + (more + tail), vs[0], more + tail, vs[1..], rest);
    }
  }

  lemma Regrouped(ts: seq<Token>, k: nat, tail: seq<Token>, vs: seq<Value>)
    requires k <= |ts| && vs != []
    ensures ts + tail == ts[..k] + (ts[k..] + tail)
    ensures [vs[0]] + vs[1..] == vs
  {
  }

  lemma ListOpens(ts: seq<Token>)
    requires ts != [] && ts[0].tag == START_LIST && ParseValue(ts).Ok?
    ensures ParseItems(ts[1..]).Ok?
    ensures ParseValue(ts).value == (List(ParseItems(ts[1..]).value.0), ParseItems(ts[1..]).value.1)
  {
  }

  lemma NameOpens(ts: seq<Token>) returns (name: Value, behind: seq<Token>, value: Value, end: seq<Token>)
    requires ts != [] && ts[0].tag == START_NAME && ParseValue(ts).Ok?
    ensures |ts| > 1 && ParseValue(ts[1..]) == Ok((name, behind)) && behind != []
    ensures ParseValue(behind) == Ok((value, end)) && end != [] && end[0].tag == END_NAME
    ensures ParseValue(ts).value == (Named(name, value), end[1..])
  {
    name, behind := ParseValue(ts[1..]).value.0, ParseValue(ts[1..]).value.1;
    value, end := ParseValue(behind).value.0, ParseValue(behind).value.1;
  }

  lemma OneTokenOpens(ts: seq<Token>)
    requires ts != [] && ts[0].tag != START_LIST && ts[0].tag != START_NAME && ParseValue(ts).Ok?
    ensures var (v, rest) := ParseValue(ts).value;
      rest == ts[1..] && StandFor([ts[0]], v)
  {
    hide ParseSimple, StandFor;
    SimpleReadIff(ts[0], ParseValue(ts).value.0);
  }

  lemma ListStands(ts: seq<Token>, items: seq<Value>)
    requires |ts| >= 2 && ts[0].tag == START_LIST && ts[|ts| - 1].tag == END_LIST
    requires AllStandFor(ts[1..|ts| - 1], items)
    ensures StandFor(ts, List(items))
  {
  }

  lemma NamedStands(ts: seq<Token>, k: nat, name: Value, value: Value)
    requires |ts| >= 2 && ts[0].tag == START_NAME && ts[|ts| - 1].tag == END_NAME
    requires 1 <= k < |ts| && StandFor(ts[1..k], name) && StandFor(ts[k..|ts| - 1], value)
    ensures StandFor(ts, Named(name, value))
  {
  }

  /** Tokens that stand for the value, and behind them the rest. */
  ghost predicate Stood(ts: seq<Token>, v: Value, rest: seq<Token>) {
    |rest| < |ts| && rest == ts[|ts| - |rest|..] && StandFor(ts[..|ts| - |rest|], v)
  }

  /** Tokens that stand for the values, a closing bracket, and behind it the rest. */
  ghost predicate AllStood(ts: seq<Token>, vs: seq<Value>, rest: seq<Token>) {
    && |rest| < |ts| && rest == ts[|ts| - |rest|..]
    && ts[|ts| - |rest| - 1].tag == END_LIST && AllStandFor(ts[..|ts| - |rest| - 1], vs)
  }

  lemma OneStood(ts: seq<Token>, v: Value)
    requires ts != [] && StandFor([ts[0]], v)
    ensures Stood(ts, v, ts[1..])
  {
    hide StandFor;
    assert ts[..|ts| - |ts[1..]|] == [ts[0]];
  }

  lemma ListStood(ts: seq<Token>, items: seq<Value>, rest: seq<Token>)
    requires ts != [] && ts[0].tag == START_LIST && AllStood(ts[1..], items, rest)
    ensures Stood(ts, List(items), rest)
  {
    hide StandFor, AllStandFor;
    var front := ts[..|ts| - |rest|];
    assert ts[1..][..|ts| - 2 - |rest|] == front[1..|front| - 1];
    ListStands(front, items);
  }

  lemma NameStood(ts: seq<Token>, name: Value, behind: seq<Token>, value: Value, end: seq<Token>)
    requires ts != [] && ts[0].tag == START_NAME && end != [] && end[0].tag == END_NAME
    requires Stood(ts[1..], name, behind) && Stood(behind, value, end)
    ensures Stood(ts, Named(name, value), end[1..])
  {
    hide StandFor;
    NameParts(ts, behind, end);
    NamedStands(ts[..|ts| - |end| + 1], |ts| - |behind|, name, value);
  }

  lemma NameParts(ts: seq<Token>, behind: seq<Token>, end: seq<Token>)
    requires 0 < |end| < |behind| < |ts|
    requires behind == ts[1..][|ts| - 1 - |behind|..] && end == behind[|behind| - |end|..]
    ensures var k, front := |ts| - |behind|, ts[..|ts| - |end| + 1];
      && ts[1..][..|ts| - 1 - |behind|] == front[1..k]
      && behind[..|behind| - |end|] == front[k..|front| - 1]
      && front[|front| - 1] == end[0] && end[1..] == ts[|front|..]
  {
    var k, front := |ts| - |behind|, ts[..|ts| - |end| + 1];
    assert behind == ts[k..];
    assert end == ts[|ts| - |end|..];
  }

  lemma NoItemStood(ts: seq<Token>)
    requires ts != [] && ts[0].tag == END_LIST
    ensures AllStood(ts, [], ts[1..])
  {
    assert ts[..|ts| - |ts[1..]| - 1] == [];
  }

  lemma MoreStand(ts: seq<Token>, k: nat, item: Value, items: seq<Value>)
    requires k <= |ts| && StandFor(ts[..k], item) && AllStandFor(ts[k..], items)
    ensures AllStandFor(ts, [item] + items)
  {
    hide StandFor;
    assert ([item] + items)[1..] == items;
  }

  lemma ItemStood(ts: seq<Token>, item: Value, behind: seq<Token>, items: seq<Value>, rest: seq<Token>)
    requires Stood(ts, item, behind) && AllStood(behind, items, rest)
    ensures AllStood(ts, [item] + items, rest)
  {
    hide StandFor, AllStandFor;
    var k, front := |ts| - |behind|, ts[..|ts| - |rest| - 1];
    assert front[..k] == ts[..k];
    assert front[k..] == behind[..|behind| - |rest| - 1];
    MoreStand(front, k, item, items);
  }

  lemma ItemsOpen(ts: seq<Token>)
    requires ParseItems(ts).Ok?
    ensures ts != []
    ensures ts[0].tag == END_LIST ==> ParseItems(ts).value == ([], ts[1..])
    ensures ts[0].tag != END_LIST ==>
      && ParseValue(ts).Ok?
      && var (item, behind) := ParseValue(ts).value;
      && ParseItems(behind).Ok?
      && ParseItems(ts).value == ([item] + ParseItems(behind).value.0, ParseItems(behind).value.1)
  {
    hide ParseValue;
  }

  /** What is read stood there. */
  lemma {:induction false} ReadStood(ts: seq<Token>)
    requires ts != [] && ParseValue(ts).Ok?
    ensures Stood(ts, ParseValue(ts).value.0, ParseValue(ts).value.1)
    decreases |ts|, 0
  {
    hide ParseValue, ParseItems, StandFor, Stood, AllStood;
    if ts[0].tag == START_LIST {
      ListOpens(ts);
      ReadItemsStood(ts[1..]);
      ListStood(ts, ParseItems(ts[1..]).value.0, ParseItems(ts[1..]).value.1);
    } else if ts[0].tag == START_NAME {
      var name, behind, value, end := NameOpens(ts);
      ReadStood(ts[1..]);
      ReadStood(behind);
      NameStood(ts, name, behind, value, end);
    } else {
      OneTokenOpens(ts);
      OneStood(ts, ParseValue(ts).value.0);
    }
  }

  /** What was read as items stood there, and a closing bracket behind it. */
  lemma {:induction false} ReadItemsStood(ts: seq<Token>)
    requires ParseItems(ts).Ok?
    ensures AllStood(ts, ParseItems(ts).value.0, ParseItems(ts).value.1)
    decreases |ts|, 1
  {
    hide ParseValue, ParseItems, StandFor, Stood, AllStood;
    ItemsOpen(ts);
    if ts[0].tag == END_LIST {
      NoItemStood(ts);
    } else {
      ReadStood(ts);
      var (item, behind) := ParseValue(ts).value;
      ReadItemsStood(behind);
      ItemStood(ts, item, behind, ParseItems(behind).value.0, ParseItems(behind).value.1);
    }
  }

  /** The first tokens stand for the value, and the others are left. */
  ghost predicate StandsInFront(ts: seq<Token>, k: nat, v: Value, rest: seq<Token>) {
    k <= |ts| && StandFor(ts[..k], v) && rest == ts[k..]
  }

  /**
   * The grammar, for any tokens: a value is read from the front of them exactly if tokens that stand for it are there,
   * and then those are taken. Everything else is an invalid argument.
   */
  lemma ValueReadIff(ts: seq<Token>, v: Value, rest: seq<Token>)
    requires ts != []
    ensures ParseValue(ts) == Ok((v, rest)) <==> exists k: nat :: StandsInFront(ts, k, v, rest)
    ensures ParseValue(ts).Err? ==> ParseValue(ts).error == InvalidArgument
  {
    hide ParseValue, StandFor;
    ValueErrors(ts);
    if ParseValue(ts) == Ok((v, rest)) {
      ReadStood(ts);
      assert StandsInFront(ts, |ts| - |rest|, v, rest);
    }
    if k: nat :| StandsInFront(ts, k, v, rest) {
      StandingIsRead(ts[..k], v, rest);
      assert ts == ts[..k] + ts[k..];
    }
  }

  lemma {:induction false} ValueErrors(ts: seq<Token>)
    ensures ParseValue(ts).Err? ==> ParseValue(ts).error == InvalidArgument
    decreases |ts|, 0
  {
    hide ParseSimple, ParseItems;
    if ts != [] {
      if ts[0].tag == START_LIST {
        ItemErrors(ts[1..]);
      } else if ts[0].tag != START_NAME {
        SimpleReadIff(ts[0], Empty);
      } else if |ts| > 1 {
        ValueErrors(ts[1..]);
        if ParseValue(ts[1..]).Ok? {
          ValueErrors(ParseValue(ts[1..]).value.1);
        }
      }
    }
  }

  lemma {:induction false} ItemErrors(ts: seq<Token>)
    ensures ParseItems(ts).Err? ==> ParseItems(ts).error == InvalidArgument
    decreases |ts|, 1
  {
    hide ParseValue;
    if ts != [] && ts[0].tag != END_LIST {
      ValueErrors(ts);
      if ParseValue(ts).Ok? {
        ItemErrors(ParseValue(ts).value.1);
      }
    }
  }
}
