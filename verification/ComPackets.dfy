/** Nested framing of payloads (ComPacket.hpp; section 3.2.3 of the TCG Storage Architecture Core Specification). */
module ComPackets {
  import opened Common
  import opened FlatBinary

  datatype SubPacket = SubPacket(kind: uint16, payload: seq<byte>)

  datatype Packet = Packet(
    tperSessionNumber: uint32,
    hostSessionNumber: uint32,
    sequenceNumber: uint32,
    ackType: uint16,
    acknowledgement: uint32,
    payload: seq<SubPacket>)

  datatype ComPacket = ComPacket(
    comId: uint16,
    comIdExtension: uint16,
    outstandingData: uint32,
    minTransfer: uint32,
    payload: seq<Packet>)

  //
  // Lengths, in the unsigned 32-bit arithmetic of the original
  //

  function PayloadLength(s: SubPacket): uint32 {
    |s.payload| % TWO_TO_32
  }

  function PaddedPayloadLength(s: SubPacket): uint32 {
    (|s.payload| + 3) / 4 * 4 % TWO_TO_32
  }

  function SubPacketSize(s: SubPacket): uint32 {
    Add32(12, PaddedPayloadLength(s))
  }

  function SubPacketsLength(subs: seq<SubPacket>): uint32 {
    if subs == [] then 0 else Add32(SubPacketSize(subs[0]), SubPacketsLength(subs[1..]))
  }

  function PacketSize(p: Packet): uint32 {
    Add32(24, SubPacketsLength(p.payload))
  }

  function PacketsLength(ps: seq<Packet>): uint32 {
    if ps == [] then 0 else Add32(PacketSize(ps[0]), PacketsLength(ps[1..]))
  }

  //
  // Saving
  //

  function Padding(s: SubPacket): nat {
    if PaddedPayloadLength(s) > PayloadLength(s) then PaddedPayloadLength(s) - PayloadLength(s) else 0
  }

  function SubPacketHeader(s: SubPacket): (h: seq<byte>)
    ensures |h| == 12
  {
    Zeros(6) + BigEndian(s.kind, 2) + BigEndian(PayloadLength(s), 4)
  }

  function SaveSubPacket(s: SubPacket): seq<byte> {
    SubPacketHeader(s) + s.payload + Zeros(Padding(s))
  }

  function SaveSubPackets(subs: seq<SubPacket>): seq<byte> {
    if subs == [] then [] else SaveSubPacket(subs[0]) + SaveSubPackets(subs[1..])
  }

  function PacketHeader(p: Packet): (h: seq<byte>)
    ensures |h| == 24
  {
    BigEndian(p.tperSessionNumber, 4) + BigEndian(p.hostSessionNumber, 4) + BigEndian(p.sequenceNumber, 4)
    + Zeros(2) + BigEndian(p.ackType, 2) + BigEndian(p.acknowledgement, 4)
    + BigEndian(SubPacketsLength(p.payload), 4)
  }

  function SavePacket(p: Packet): seq<byte> {
    PacketHeader(p) + SaveSubPackets(p.payload)
  }

  function SavePackets(ps: seq<Packet>): seq<byte> {
    if ps == [] then [] else SavePacket(ps[0]) + SavePackets(ps[1..])
  }

  function ComPacketHeader(c: ComPacket): (h: seq<byte>)
    ensures |h| == 20
  {
    Zeros(4) + BigEndian(c.comId, 2) + BigEndian(c.comIdExtension, 2) + BigEndian(c.outstandingData, 4)
    + BigEndian(c.minTransfer, 4) + BigEndian(PacketsLength(c.payload), 4)
  }

  function SaveComPacket(c: ComPacket): seq<byte> {
    ComPacketHeader(c) + SavePackets(c.payload)
  }

  //
  // Loading: the object at the front of the bytes and what the archive has left
  //

  function Field(bytes: seq<byte>, from: nat, width: nat): (n: nat)
    requires from + width <= |bytes|
    ensures n < Pow256(width)
  {
    WriteAfterRead(bytes[from..from + width]);
    FromBigEndian(bytes[from..from + width])
  }

  function Field16(bytes: seq<byte>, from: nat): uint16
    requires from + 2 <= |bytes|
  {
    PowValues();
    Field(bytes, from, 2)
  }

  function Field32(bytes: seq<byte>, from: nat): uint32
    requires from + 4 <= |bytes|
  {
    PowValues();
    Field(bytes, from, 4)
  }

  /** The padding that SaveSubPacket writes is not consumed. */
  function LoadSubPacket(bytes: seq<byte>): (r: Result<(SubPacket, seq<byte>)>)
    ensures r.Ok? ==> |r.value.1| + 12 <= |bytes|
    ensures r.Err? ==> r.error == InvalidArgument
  {
    if |bytes| < 12 then Err(InvalidArgument) else
    var length := Field32(bytes, 8);
    if |bytes| < 12 + length then Err(InvalidArgument)
    else Ok((SubPacket(Field16(bytes, 6), bytes[12..12 + length]), bytes[12 + length..]))
  }

  function LoadSubPackets(bytes: seq<byte>, offset: nat, length: nat): (r: Result<(seq<SubPacket>, seq<byte>)>)
    ensures r.Ok? ==> |r.value.1| <= |bytes|
    ensures r.Err? ==> r.error == InvalidArgument
    decreases |bytes|
  {
    if offset >= length then Ok(([], bytes))
    else
      var (s, rest) :- LoadSubPacket(bytes);
      var (more, last) :- LoadSubPackets(rest, offset + SubPacketSize(s), length);
      Ok(([s] + more, last))
  }

  function LoadPacket(bytes: seq<byte>): (r: Result<(Packet, seq<byte>)>)
    ensures r.Ok? ==> |r.value.1| + 24 <= |bytes|
    ensures r.Err? ==> r.error == InvalidArgument
  {
    if |bytes| < 24 then Err(InvalidArgument) else
    var (subs, rest) :- LoadSubPackets(bytes[24..], 0, Field32(bytes, 20));
    Ok((Packet(Field32(bytes, 0), Field32(bytes, 4), Field32(bytes, 8), Field16(bytes, 14), Field32(bytes, 16), subs),
        rest))
  }

  function LoadPackets(bytes: seq<byte>, offset: nat, length: nat): (r: Result<(seq<Packet>, seq<byte>)>)
    ensures r.Ok? ==> |r.value.1| <= |bytes|
    ensures r.Err? ==> r.error == InvalidArgument
    decreases |bytes|
  {
    if offset >= length then Ok(([], bytes))
    else
      var (p, rest) :- LoadPacket(bytes);
      var (more, last) :- LoadPackets(rest, offset + PacketSize(p), length);
      Ok(([p] + more, last))
  }

  /** DeSerialize: bytes after the ComPacket are ignored. */
  function LoadComPacket(bytes: seq<byte>): Result<ComPacket> {
    if |bytes| < 20 then Err(InvalidArgument) else
    var (packets, _) :- LoadPackets(bytes[20..], 0, Field32(bytes, 16));
    Ok(ComPacket(Field16(bytes, 4), Field16(bytes, 6), Field32(bytes, 8), Field32(bytes, 12), packets))
  }

  //
  // Sizes
  //

  /** Bytes missing to the next multiple of four. */
  function Pad(s: SubPacket): (k: nat)
    ensures k < 4
    ensures k == 0 <==> |s.payload| % 4 == 0
  {
    (-|s.payload|) % 4
  }

  function SubPacketBytes(s: SubPacket): (n: nat)
    ensures n >= 12
  {
    12 + (|s.payload| + 3) / 4 * 4
  }

  function SubPacketsBytes(subs: seq<SubPacket>): nat {
    if subs == [] then 0 else SubPacketBytes(subs[0]) + SubPacketsBytes(subs[1..])
  }

  function PacketsBytes(ps: seq<Packet>): nat {
    if ps == [] then 0 else 24 + SubPacketsBytes(ps[0].payload) + PacketsBytes(ps[1..])
  }

  lemma SubPacketExact(s: SubPacket)
    requires SubPacketBytes(s) < TWO_TO_32
    ensures PayloadLength(s) == |s.payload|
    ensures SubPacketSize(s) == SubPacketBytes(s) == |SaveSubPacket(s)|
    ensures Padding(s) == Pad(s)
  {
    var n := |s.payload|;
    var q := (n + 3) / 4;
    assert n <= q * 4 < n + 4;
    assert (-n) % 4 == q * 4 - n;
  }

  lemma SubPacketSizeExact(s: SubPacket)
    requires SubPacketBytes(s) < TWO_TO_32
    ensures SubPacketSize(s) == SubPacketBytes(s)
  {
    SubPacketExact(s);
  }

  /** The declared length of a Packet is the number of bytes that follow its header. */
  lemma {:induction false} SubPacketsExact(subs: seq<SubPacket>)
    requires SubPacketsBytes(subs) < TWO_TO_32
    ensures SubPacketsLength(subs) == SubPacketsBytes(subs) == |SaveSubPackets(subs)|
  {
    if subs != [] {
      SubPacketExact(subs[0]);
      SubPacketsExact(subs[1..]);
      Add32Exact(SubPacketBytes(subs[0]), SubPacketsBytes(subs[1..]));
    }
  }

  lemma PacketExact(p: Packet)
    requires SubPacketsBytes(p.payload) + 24 < TWO_TO_32
    ensures PacketSize(p) == 24 + SubPacketsBytes(p.payload) == |SavePacket(p)|
  {
    SubPacketsExact(p.payload);
    Add32Exact(24, SubPacketsBytes(p.payload));
  }

  /** The declared length of a ComPacket is the number of bytes that follow its header. */
  lemma {:induction false} PacketsExact(ps: seq<Packet>)
    requires PacketsBytes(ps) < TWO_TO_32
    ensures PacketsLength(ps) == PacketsBytes(ps) == |SavePackets(ps)|
  {
    if ps != [] {
      PacketExact(ps[0]);
      PacketsExact(ps[1..]);
      Add32Exact(24 + SubPacketsBytes(ps[0].payload), PacketsBytes(ps[1..]));
    }
  }

  lemma ComPacketSize(c: ComPacket)
    requires PacketsBytes(c.payload) < TWO_TO_32
    ensures |SaveComPacket(c)| == 20 + PacketsLength(c.payload)
  {
    PacketsExact(c.payload);
  }

  //
  // Which frames survive: the padding left behind shifts everything after it
  //

  predicate Blank(s: SubPacket) {
    s.kind == 0 && s.payload == []
  }

  predicate AllBlank(subs: seq<SubPacket>) {
    forall i :: 0 <= i < |subs| ==> Blank(subs[i])
  }

  predicate BlankPacket(p: Packet) {
    p == Packet(0, 0, 0, 0, 0, [])
  }

  predicate AllBlankPackets(ps: seq<Packet>) {
    forall i :: 0 <= i < |ps| ==> BlankPacket(ps[i])
  }

  /** Bytes of padding left unread by the first sub-packet whose payload is not a multiple of four. */
  function Skew(subs: seq<SubPacket>): (k: nat)
    ensures k < 4
  {
    if subs == [] then 0
    else if |subs[0].payload| % 4 != 0 then Pad(subs[0])
    else Skew(subs[1..])
  }

  /** Behind a sub-packet that needs padding come only all-zero sub-packets. */
  predicate SubPacketsLoadable(subs: seq<SubPacket>) {
    subs == [] ||
    if |subs[0].payload| % 4 != 0 then AllBlank(subs[1..]) else SubPacketsLoadable(subs[1..])
  }

  /** The same across packets: once padding is left behind, only all-zero bytes may follow. */
  predicate PacketsLoadable(ps: seq<Packet>) {
    ps == [] ||
    (SubPacketsLoadable(ps[0].payload) &&
     if Skew(ps[0].payload) != 0 then AllBlankPackets(ps[1..]) else PacketsLoadable(ps[1..]))
  }

  lemma FieldReads(a: seq<byte>, n: nat, width: nat, b: seq<byte>)
    requires n < Pow256(width)
    ensures Field(a + BigEndian(n, width) + b, |a|, width) == n
  {
    ReadBack(n, width);
    assert (a + BigEndian(n, width) + b)[|a|..|a| + width] == BigEndian(n, width);
  }

  /** Reading a sub-packet at its own start leaves exactly its padding unread. */
  lemma LoadsSubPacket(s: SubPacket, more: seq<byte>)
    requires SubPacketBytes(s) < TWO_TO_32
    ensures LoadSubPacket(SaveSubPacket(s) + more) == Ok((s, Zeros(Pad(s)) + more))
  {
    SubPacketExact(s);
    PowValues();
    var n := |s.payload|;
    var bytes := SaveSubPacket(s) + more;
    var tail := s.payload + Zeros(Padding(s)) + more;
    assert bytes == Zeros(6) + BigEndian(s.kind, 2) + (BigEndian(n, 4) + tail);
    FieldReads(Zeros(6), s.kind, 2, BigEndian(n, 4) + tail);
    assert bytes == (Zeros(6) + BigEndian(s.kind, 2)) + BigEndian(n, 4) + tail;
    FieldReads(Zeros(6) + BigEndian(s.kind, 2), n, 4, tail);
    assert bytes[12..12 + n] == s.payload;
    assert bytes[12 + n..] == Zeros(Padding(s)) + more;
  }

  /** Read one to three bytes too early, a sub-packet comes back as itself only if it is blank. */
  lemma ShiftedSubPacket(junk: seq<byte>, s: SubPacket, more: seq<byte>)
    requires 1 <= |junk| <= 3 && SubPacketBytes(s) < TWO_TO_32
    ensures var r := LoadSubPacket(junk + SaveSubPacket(s) + more);
      && (r.Ok? && r.value.0 == s <==> Blank(s))
      && (Blank(s) ==> r == Ok((s, Zeros(|junk|) + more)))
  {
    var r := LoadSubPacket(junk + SaveSubPacket(s) + more);
    if r.Ok? && r.value.0 == s {
      ShiftedOnlyIfBlank(junk, s, more);
    }
    if Blank(s) {
      ShiftedIfBlank(junk, s, more);
    }
  }

  lemma ShiftedIfBlank(junk: seq<byte>, s: SubPacket, more: seq<byte>)
    requires 1 <= |junk| <= 3 && Blank(s)
    ensures LoadSubPacket(junk + SaveSubPacket(s) + more) == Ok((s, Zeros(|junk|) + more))
  {
    var bytes := junk + SaveSubPacket(s) + more;
    BlankHeader(SubPacketHeader(s), s);
    assert SaveSubPacket(s) == Zeros(12);
    assert forall i :: |junk| <= i < 12 ==> bytes[i] == 0;
    ZerosRead(bytes[6..8]);
    ZerosRead(bytes[8..12]);
    assert bytes[12..] == Zeros(|junk|) + more;
    assert bytes[12..12] == [];
  }

  lemma ShiftedOnlyIfBlank(junk: seq<byte>, s: SubPacket, more: seq<byte>)
    requires 1 <= |junk| <= 3 && SubPacketBytes(s) < TWO_TO_32
    requires var r := LoadSubPacket(junk + SaveSubPacket(s) + more); r.Ok? && r.value.0 == s
    ensures Blank(s)
  {
    hide SubPacketHeader;
    SubPacketExact(s);
    SubPacketHeaderSlices(s);
    var h, body := SubPacketHeader(s), s.payload + Zeros(Padding(s));
    AppendAssociates(h, s.payload, Zeros(Padding(s)));
    Rebracket(junk, h, body, more);
    Middle(junk, h, body + more);
    ShiftedFieldsAreZero(|junk|, junk + h + (body + more), h, s);
  }

  lemma SubPacketHeaderSlices(s: SubPacket)
    ensures var h := SubPacketHeader(s);
      h[..6] == Zeros(6) && h[6..8] == BigEndian(s.kind, 2) && h[8..12] == BigEndian(PayloadLength(s), 4)
  {
  }

  lemma Middle(a: seq<byte>, b: seq<byte>, c: seq<byte>)
    ensures (a + b + c)[|a|..|a| + |b|] == b
  {
  }

  lemma ShiftedFieldsAreZero(k: nat, bytes: seq<byte>, h: seq<byte>, s: SubPacket)
    requires 1 <= k <= 3 && |h| == 12 && k + 12 <= |bytes| && |s.payload| < TWO_TO_32
    requires bytes[k..k + 12] == h && h[..6] == Zeros(6)
    requires h[6..8] == BigEndian(s.kind, 2) && h[8..12] == BigEndian(|s.payload|, 4)
    requires Field16(bytes, 6) == s.kind && Field32(bytes, 8) == |s.payload|
    ensures Blank(s)
  {
    PowValues();
    SameFieldSameBytes(bytes, 6, 2, s.kind);
    SameFieldSameBytes(bytes, 8, 4, |s.payload|);
    ShiftedHeader(bytes, h, k);
    ZeroField(h[6..8], s.kind);
    ZeroField(h[8..12], |s.payload|);
  }

  lemma SameFieldSameBytes(bytes: seq<byte>, at: nat, width: nat, n: nat)
    requires at + width <= |bytes| && Field(bytes, at, width) == n
    ensures bytes[at..at + width] == BigEndian(n, width)
  {
    WriteAfterRead(bytes[at..at + width]);
  }

  /** A header equal to itself k bytes earlier is all zero: it starts with zeros. */
  lemma ShiftedHeader(bytes: seq<byte>, h: seq<byte>, k: nat)
    requires 1 <= k <= 3 && |h| == 12 && k + 12 <= |bytes|
    requires bytes[k..k + 12] == h
    requires h[..6] == Zeros(6)
    requires bytes[6..8] == h[6..8] && bytes[8..12] == h[8..12]
    ensures forall i :: 0 <= i < 12 ==> h[i] == 0
  {
    forall i | 0 <= i < 6 ensures h[i] == 0 {
      assert h[i] == h[..6][i];
    }
    forall i | 6 <= i < 12 ensures h[i] == h[i - k] {
      assert h[i - k] == bytes[k..k + 12][i - k] == bytes[i];
      if i < 8 {
        assert h[i] == h[6..8][i - 6];
      } else {
        assert h[i] == h[8..12][i - 8];
      }
    }
    ZerosSpread(h, k, 6);
  }

  lemma BlankHeader(h: seq<byte>, s: SubPacket)
    requires Blank(s) && h == SubPacketHeader(s)
    ensures h == Zeros(12) && Padding(s) == 0
  {
    ZerosWritten(2);
    ZerosWritten(4);
  }

  lemma {:induction false} ZerosWritten(width: nat)
    ensures BigEndian(0, width) == Zeros(width)
  {
    if width > 0 {
      ZerosWritten(width - 1);
    }
  }

  lemma {:induction false} ZerosRead(s: seq<byte>)
    requires forall i :: 0 <= i < |s| ==> s[i] == 0
    ensures FromBigEndian(s) == 0
  {
    if s != [] {
      ZerosRead(s[..|s| - 1]);
    }
  }

  /** A zero prefix spreads over bytes that repeat at a distance of k. */
  lemma {:induction false} ZerosSpread(h: seq<byte>, k: nat, start: nat)
    requires 1 <= k <= start <= |h|
    requires forall i :: 0 <= i < start ==> h[i] == 0
    requires forall i :: start <= i < |h| ==> h[i] == h[i - k]
    ensures forall i :: 0 <= i < |h| ==> h[i] == 0
    decreases |h| - start
  {
    if start < |h| {
      assert h[start] == h[start - k];
      ZerosSpread(h, k, start + 1);
    }
  }

  //
  // Sub-packet sequences
  //

  lemma SubPacketsSplit(bytes: seq<byte>, offset: nat, length: nat)
    requires LoadSubPackets(bytes, offset, length).Ok? && LoadSubPackets(bytes, offset, length).value.0 != []
    ensures offset < length && LoadSubPacket(bytes).Ok?
    ensures var (subs, last) := LoadSubPackets(bytes, offset, length).value;
      var (s, rest) := LoadSubPacket(bytes).value;
      && subs[0] == s
      && LoadSubPackets(rest, offset + SubPacketSize(s), length) == Ok((subs[1..], last))
  {
    hide LoadSubPacket, SubPacketSize;
    var (s, rest) := LoadSubPacket(bytes).value;
    var (more, last) := LoadSubPackets(rest, offset + SubPacketSize(s), length).value;
    assert ([s] + more)[1..] == more;
  }

  lemma BlankSize(s: SubPacket)
    requires Blank(s)
    ensures SubPacketSize(s) == SubPacketBytes(s) == 12
  {
  }

  /** Behind unread padding, whatever length the loop is given, only blank sub-packets are read back. */
  lemma {:induction false} ShiftedOnlyBlank(junk: seq<byte>, subs: seq<SubPacket>, more: seq<byte>, offset: nat,
                                            length: nat)
    requires 1 <= |junk| <= 3 && SubPacketsBytes(subs) < TWO_TO_32
    requires var r := LoadSubPackets(junk + SaveSubPackets(subs) + more, offset, length); r.Ok? && r.value.0 == subs
    ensures AllBlank(subs)
    ensures subs != [] ==> offset + 12 * (|subs| - 1) < length
    decreases |subs|
  {
    hide SaveSubPacket, LoadSubPacket, SubPacketSize;
    if subs != [] {
      var tail := SaveSubPackets(subs[1..]) + more;
      var bytes := junk + SaveSubPacket(subs[0]) + tail;
      Rebracket(junk, SaveSubPacket(subs[0]), SaveSubPackets(subs[1..]), more);
      SubPacketsSplit(bytes, offset, length);
      ShiftedSubPacket(junk, subs[0], tail);
      BlankSize(subs[0]);
      AppendAssociates(Zeros(|junk|), SaveSubPackets(subs[1..]), more);
      ShiftedOnlyBlank(Zeros(|junk|), subs[1..], more, offset + 12, length);
    }
  }

  lemma FirstShiftedBlank(k: nat, subs: seq<SubPacket>, more: seq<byte>, offset: nat, length: nat)
    requires 1 <= k <= 3 && subs != [] && Blank(subs[0]) && offset < length
    requires LoadSubPackets(Zeros(k) + SaveSubPackets(subs[1..]) + more, offset + 12, length)
             == Ok((subs[1..], Zeros(k) + more))
    ensures LoadSubPackets(Zeros(k) + SaveSubPackets(subs) + more, offset, length) == Ok((subs, Zeros(k) + more))
  {
    hide SaveSubPacket, LoadSubPacket, SubPacketSize;
    var tail := SaveSubPackets(subs[1..]) + more;
    Rebracket(Zeros(k), SaveSubPacket(subs[0]), SaveSubPackets(subs[1..]), more);
    AppendAssociates(Zeros(k), SaveSubPackets(subs[1..]), more);
    ShiftedIfBlank(Zeros(k), subs[0], tail);
    BlankSize(subs[0]);
    assert [subs[0]] + subs[1..] == subs;
  }

  lemma {:induction false} ShiftedBlankLoads(k: nat, subs: seq<SubPacket>, more: seq<byte>, offset: nat, length: nat)
    requires 1 <= k <= 3 && AllBlank(subs)
    requires offset + SubPacketsBytes(subs) == length
    ensures LoadSubPackets(Zeros(k) + SaveSubPackets(subs) + more, offset, length) == Ok((subs, Zeros(k) + more))
    decreases |subs|
  {
    hide SaveSubPacket, LoadSubPacket, SubPacketSize;
    if subs == [] {
      assert Zeros(k) + [] + more == Zeros(k) + more;
    } else {
      BlankSize(subs[0]);
      ShiftedBlankLoads(k, subs[1..], more, offset + 12, length);
      FirstShiftedBlank(k, subs, more, offset, length);
    }
  }

  /** Behind unread padding, sub-packets are read back exactly when all of them are blank. */
  lemma ShiftedSubPacketsIff(k: nat, subs: seq<SubPacket>, more: seq<byte>, offset: nat, length: nat)
    requires 1 <= k <= 3 && SubPacketsBytes(subs) < TWO_TO_32
    requires offset + SubPacketsBytes(subs) == length
    ensures var r := LoadSubPackets(Zeros(k) + SaveSubPackets(subs) + more, offset, length);
      && (r.Ok? && r.value.0 == subs <==> AllBlank(subs))
      && (AllBlank(subs) ==> r == Ok((subs, Zeros(k) + more)))
  {
    var r := LoadSubPackets(Zeros(k) + SaveSubPackets(subs) + more, offset, length);
    if AllBlank(subs) {
      ShiftedBlankLoads(k, subs, more, offset, length);
    } else if r.Ok? && r.value.0 == subs {
      ShiftedOnlyBlank(Zeros(k), subs, more, offset, length);
    }
  }

  /** Reading on after the first sub-packet decides the whole sequence. */
  lemma FirstSubPacket(subs: seq<SubPacket>, more: seq<byte>, offset: nat, length: nat, loads: bool, last: seq<byte>)
    requires subs != [] && SubPacketsBytes(subs) < TWO_TO_32 && offset + SubPacketsBytes(subs) == length
    requires var k := Pad(subs[0]);
      var r := LoadSubPackets(Zeros(k) + (SaveSubPackets(subs[1..]) + more), offset + SubPacketBytes(subs[0]), length);
      (r.Ok? && r.value.0 == subs[1..] <==> loads) && (loads ==> r == Ok((subs[1..], last)))
    ensures var r := LoadSubPackets(SaveSubPackets(subs) + more, offset, length);
      (r.Ok? && r.value.0 == subs <==> loads) && (loads ==> r == Ok((subs, last)))
  {
    hide SaveSubPacket, LoadSubPacket, SubPacketSize, SubPacketBytes;
    var s, rest := subs[0], subs[1..];
    var tail := SaveSubPackets(rest) + more;
    AppendAssociates(SaveSubPacket(s), SaveSubPackets(rest), more);
    SubPacketSizeExact(s);
    LoadsSubPacket(s, tail);
    assert subs == [s] + rest;
    PrependedEquals(SaveSubPacket(s) + tail, s, Zeros(Pad(s)) + tail, rest, offset, length);
  }

  /** A packet's sub-packets are read back exactly when only blank ones follow unread padding. */
  lemma {:induction false} SubPacketsRoundTripIff(subs: seq<SubPacket>, more: seq<byte>, offset: nat, length: nat)
    requires SubPacketsBytes(subs) < TWO_TO_32
    requires offset + SubPacketsBytes(subs) == length
    ensures var r := LoadSubPackets(SaveSubPackets(subs) + more, offset, length);
      && (r.Ok? && r.value.0 == subs <==> SubPacketsLoadable(subs))
      && (SubPacketsLoadable(subs) ==> r == Ok((subs, Zeros(Skew(subs)) + more)))
    decreases |subs|
  {
    hide SaveSubPacket, LoadSubPacket, SubPacketSize, SubPacketBytes;
    if subs == [] {
      assert [] + more == more && Zeros(0) + more == more;
    } else {
      var k, rest := Pad(subs[0]), subs[1..];
      var tail, offset' := SaveSubPackets(rest) + more, offset + SubPacketBytes(subs[0]);
      if k == 0 {
        assert Zeros(0) + tail == tail;
        SubPacketsRoundTripIff(rest, more, offset', length);
        FirstSubPacket(subs, more, offset, length, SubPacketsLoadable(rest), Zeros(Skew(rest)) + more);
      } else {
        AppendAssociates(Zeros(k), SaveSubPackets(rest), more);
        ShiftedSubPacketsIff(k, rest, more, offset', length);
        FirstSubPacket(subs, more, offset, length, AllBlank(rest), Zeros(k) + more);
      }
    }
  }

  lemma PrependedEquals(bytes: seq<byte>, s: SubPacket, rest: seq<byte>, subs: seq<SubPacket>, offset: nat, length: nat)
    requires LoadSubPacket(bytes) == Ok((s, rest)) && offset < length
    ensures var r, r' := LoadSubPackets(bytes, offset, length), LoadSubPackets(rest, offset + SubPacketSize(s), length);
      && (r.Ok? && r.value.0 == [s] + subs <==> r'.Ok? && r'.value.0 == subs)
      && (r.Ok? && r.value.0 == [s] + subs ==> r.value.1 == r'.value.1)
  {
    hide LoadSubPacket, SubPacketSize;
    var r' := LoadSubPackets(rest, offset + SubPacketSize(s), length);
    if r'.Ok? {
      assert ([s] + r'.value.0)[1..] == r'.value.0 && ([s] + subs)[1..] == subs;
    }
  }

  //
  // Packets
  //

  lemma FieldIs(bytes: seq<byte>, at: nat, width: nat, n: nat)
    requires at + width <= |bytes| && n < Pow256(width)
    requires bytes[at..at + width] == BigEndian(n, width)
    ensures Field(bytes, at, width) == n
  {
    ReadBack(n, width);
  }

  lemma PacketHeaderSlices(p: Packet)
    ensures var h := PacketHeader(p);
      && h[0..4] == BigEndian(p.tperSessionNumber, 4)
      && h[4..8] == BigEndian(p.hostSessionNumber, 4)
      && h[8..12] == BigEndian(p.sequenceNumber, 4)
      && h[12..14] == Zeros(2)
      && h[14..16] == BigEndian(p.ackType, 2)
      && h[16..20] == BigEndian(p.acknowledgement, 4)
      && h[20..24] == BigEndian(SubPacketsLength(p.payload), 4)
  {
  }

  lemma PacketHeaderReads(p: Packet, tail: seq<byte>)
    ensures var bytes := PacketHeader(p) + tail;
      && Field32(bytes, 0) == p.tperSessionNumber
      && Field32(bytes, 4) == p.hostSessionNumber
      && Field32(bytes, 8) == p.sequenceNumber
      && Field16(bytes, 14) == p.ackType
      && Field32(bytes, 16) == p.acknowledgement
      && Field32(bytes, 20) == SubPacketsLength(p.payload)
      && bytes[24..] == tail
  {
    var h := PacketHeader(p);
    var bytes := h + tail;
    PowValues();
    PacketHeaderSlices(p);
    assert forall i, j :: 0 <= i <= j <= 24 ==> bytes[i..j] == h[i..j];
    FieldIs(bytes, 0, 4, p.tperSessionNumber);
    FieldIs(bytes, 4, 4, p.hostSessionNumber);
    FieldIs(bytes, 8, 4, p.sequenceNumber);
    FieldIs(bytes, 14, 2, p.ackType);
    FieldIs(bytes, 16, 4, p.acknowledgement);
    FieldIs(bytes, 20, 4, SubPacketsLength(p.payload));
  }

  /** A packet read at its own start comes back exactly when its sub-packets do. */
  lemma PacketRoundTripIff(p: Packet, more: seq<byte>)
    requires SubPacketsBytes(p.payload) + 24 < TWO_TO_32
    ensures var r := LoadPacket(SavePacket(p) + more);
      && (r.Ok? && r.value.0 == p <==> SubPacketsLoadable(p.payload))
      && (SubPacketsLoadable(p.payload) ==> r == Ok((p, Zeros(Skew(p.payload)) + more)))
  {
    var subs := p.payload;
    var tail := SaveSubPackets(subs) + more;
    assert SavePacket(p) + more == PacketHeader(p) + tail;
    PacketHeaderReads(p, tail);
    SubPacketsExact(subs);
    SubPacketsRoundTripIff(subs, more, 0, SubPacketsLength(subs));
  }

  /** Cutting low-order bytes off a number leaves at most a 256th of it. */
  lemma {:induction false} CutLength(n: nat, width: nat, k: nat)
    requires 1 <= k <= width
    ensures FromBigEndian(BigEndian(n, width)[..width - k]) <= n / 256
    decreases k
  {
    BigEndianStep(n, width);
    if k == 1 {
      ReadAfterWrite(n / 256, width - 1);
      ModAtMost(n / 256, Pow256(width - 1));
    } else {
      CutLength(n / 256, width - 1, k - 1);
      assert BigEndian(n, width)[..width - k] == BigEndian(n / 256, width - 1)[..width - 1 - (k - 1)];
    }
  }

  lemma ModAtMost(n: nat, m: nat)
    requires m > 0
    ensures n % m <= n
  {
    if n < m {
      ModUnique(n, m, 0, n);
    }
  }

  lemma {:induction false} LeadingZeros(k: nat, s: seq<byte>)
    ensures FromBigEndian(Zeros(k) + s) == FromBigEndian(s)
    decreases |s|
  {
    var z := Zeros(k) + s;
    if s == [] {
      ZerosRead(z);
    } else {
      LeadingZeros(k, s[..|s| - 1]);
      assert z[..|z| - 1] == Zeros(k) + s[..|s| - 1];
    }
  }

  /** The zero header fields and the cut length of a packet that was read k bytes too early and still looks right. */
  lemma ShiftedPacketHeader(k: nat, p: Packet, bytes: seq<byte>)
    requires 1 <= k <= 3 && k + 24 <= |bytes|
    requires bytes[..k] == Zeros(k) && bytes[k..k + 24] == PacketHeader(p)
    requires Field32(bytes, 0) == p.tperSessionNumber && Field32(bytes, 4) == p.hostSessionNumber
    requires Field32(bytes, 8) == p.sequenceNumber && Field16(bytes, 14) == p.ackType
    requires Field32(bytes, 16) == p.acknowledgement
    ensures p == Packet(0, 0, 0, 0, 0, p.payload)
    ensures Field32(bytes, 20) <= SubPacketsLength(p.payload) / 256
  {
    var h := PacketHeader(p);
    PacketHeaderSlices(p);
    ShiftedFields(k, p, bytes, h);
    ZeroFields(p, h);
    ShiftedLength(k, bytes, h, SubPacketsLength(p.payload));
  }

  lemma ShiftedFields(k: nat, p: Packet, bytes: seq<byte>, h: seq<byte>)
    requires 1 <= k <= 3 && |h| == 24 && k + 24 <= |bytes|
    requires bytes[..k] == Zeros(k) && bytes[k..k + 24] == h
    requires h[0..4] == BigEndian(p.tperSessionNumber, 4) && h[4..8] == BigEndian(p.hostSessionNumber, 4)
    requires h[8..12] == BigEndian(p.sequenceNumber, 4) && h[12..14] == Zeros(2)
    requires h[14..16] == BigEndian(p.ackType, 2) && h[16..20] == BigEndian(p.acknowledgement, 4)
    requires Field32(bytes, 0) == p.tperSessionNumber && Field32(bytes, 4) == p.hostSessionNumber
    requires Field32(bytes, 8) == p.sequenceNumber && Field16(bytes, 14) == p.ackType
    requires Field32(bytes, 16) == p.acknowledgement
    ensures forall i :: 0 <= i < 20 ==> h[i] == 0
  {
    SameFieldSameBytes(bytes, 0, 4, p.tperSessionNumber);
    SameFieldSameBytes(bytes, 4, 4, p.hostSessionNumber);
    SameFieldSameBytes(bytes, 8, 4, p.sequenceNumber);
    SameFieldSameBytes(bytes, 14, 2, p.ackType);
    SameFieldSameBytes(bytes, 16, 4, p.acknowledgement);
    ShiftedPacketZeros(k, bytes, h);
  }

  lemma ZeroFields(p: Packet, h: seq<byte>)
    requires |h| == 24 && forall i :: 0 <= i < 20 ==> h[i] == 0
    requires h[0..4] == BigEndian(p.tperSessionNumber, 4) && h[4..8] == BigEndian(p.hostSessionNumber, 4)
    requires h[8..12] == BigEndian(p.sequenceNumber, 4)
    requires h[14..16] == BigEndian(p.ackType, 2) && h[16..20] == BigEndian(p.acknowledgement, 4)
    ensures p == Packet(0, 0, 0, 0, 0, p.payload)
  {
    PowValues();
    ZeroField(h[0..4], p.tperSessionNumber);
    ZeroField(h[4..8], p.hostSessionNumber);
    ZeroField(h[8..12], p.sequenceNumber);
    ZeroField(h[14..16], p.ackType);
    ZeroField(h[16..20], p.acknowledgement);
  }

  lemma ZeroField(s: seq<byte>, n: nat)
    requires forall i :: 0 <= i < |s| ==> s[i] == 0
    requires s == BigEndian(n, |s|) && n < Pow256(|s|)
    ensures n == 0
  {
    ZerosRead(s);
    ReadBack(n, |s|);
  }

  lemma ShiftedLength(k: nat, bytes: seq<byte>, h: seq<byte>, length: uint32)
    requires 1 <= k <= 3 && |h| == 24 && k + 24 <= |bytes|
    requires bytes[k..k + 24] == h && h[20..24] == BigEndian(length, 4)
    requires forall i :: 0 <= i < 20 ==> h[i] == 0
    ensures Field32(bytes, 20) <= length / 256
  {
    CutLength(length, 4, k);
    var cut := BigEndian(length, 4)[..4 - k];
    LeadingZeros(k, cut);
    assert forall i {:trigger bytes[i]} :: k <= i < k + 24 ==> bytes[i] == bytes[k..k + 24][i - k];
    assert bytes[20..24] == bytes[k..k + 24][20 - k..24 - k];
    assert h[20 - k..24 - k] == h[20 - k..20] + h[20..24][..4 - k];
    assert h[20 - k..20] == Zeros(k);
  }

  lemma ShiftedPacketZeros(k: nat, bytes: seq<byte>, h: seq<byte>)
    requires 1 <= k <= 3 && |h| == 24 && k + 24 <= |bytes|
    requires bytes[..k] == Zeros(k) && bytes[k..k + 24] == h
    requires bytes[0..4] == h[0..4] && bytes[4..8] == h[4..8] && bytes[8..12] == h[8..12]
    requires h[12..14] == Zeros(2) && bytes[14..16] == h[14..16] && bytes[16..20] == h[16..20]
    ensures forall i :: 0 <= i < 20 ==> h[i] == 0
  {
    var g := h[..12];
    forall i | 0 <= i < k ensures g[i] == 0 {
      assert bytes[i] == bytes[..k][i] == 0;
      assert bytes[i] == bytes[0..4][i] == h[0..4][i];
    }
    forall i | k <= i < 12 ensures g[i] == g[i - k] {
      assert g[i - k] == bytes[k..k + 24][i - k] == bytes[i];
      SameByte(bytes, h, i);
    }
    ZerosSpread(g, k, k);
    assert forall i :: 0 <= i < 12 ==> h[i] == g[i];
    assert h[12] == h[12..14][0] && h[13] == h[12..14][1];
    var f := h[..20];
    forall i | 14 <= i < 20 ensures f[i] == f[i - k] {
      assert f[i - k] == bytes[k..k + 24][i - k] == bytes[i];
      if i < 16 {
        assert bytes[i] == bytes[14..16][i - 14] && h[i] == h[14..16][i - 14];
      } else {
        assert bytes[i] == bytes[16..20][i - 16] && h[i] == h[16..20][i - 16];
      }
    }
    ZerosSpread(f, k, 14);
    assert forall i :: 0 <= i < 20 ==> h[i] == f[i];
  }

  lemma SameByte(bytes: seq<byte>, h: seq<byte>, i: nat)
    requires i < 12 <= |h| && 12 <= |bytes|
    requires bytes[0..4] == h[0..4] && bytes[4..8] == h[4..8] && bytes[8..12] == h[8..12]
    ensures bytes[i] == h[i]
  {
    if i < 4 {
      assert bytes[i] == bytes[0..4][i] && h[i] == h[0..4][i];
    } else if i < 8 {
      assert bytes[i] == bytes[4..8][i - 4] && h[i] == h[4..8][i - 4];
    } else {
      assert bytes[i] == bytes[8..12][i - 8] && h[i] == h[8..12][i - 8];
    }
  }

  lemma {:induction false} BlankBytes(subs: seq<SubPacket>)
    requires AllBlank(subs)
    ensures SubPacketsBytes(subs) == 12 * |subs|
  {
    if subs != [] {
      BlankBytes(subs[1..]);
    }
  }

  lemma ShiftedPayload(k: nat, h: seq<byte>, body: seq<byte>)
    requires 1 <= k <= 3 && |h| == 24
    ensures (Zeros(k) + h + body)[24..] == h[24 - k..] + body
    ensures (Zeros(k) + h + body)[..k] == Zeros(k) && (Zeros(k) + h + body)[k..k + 24] == h
  {
  }

  /** Sub-packets read under a cut length cannot be the ones that were saved. */
  lemma CutLengthReadsNone(junk: seq<byte>, subs: seq<SubPacket>, more: seq<byte>, length: nat)
    requires 1 <= |junk| <= 3 && SubPacketsBytes(subs) < TWO_TO_32
    requires length <= SubPacketsBytes(subs) / 256
    requires var r := LoadSubPackets(junk + SaveSubPackets(subs) + more, 0, length); r.Ok? && r.value.0 == subs
    ensures subs == []
  {
    ShiftedOnlyBlank(junk, subs, more, 0, length);
    BlankBytes(subs);
  }

  /** Read one to three zero bytes too early, a packet comes back as itself exactly if it is blank. */
  lemma ShiftedPacketOnlyIfBlank(k: nat, p: Packet, more: seq<byte>)
    requires 1 <= k <= 3 && SubPacketsBytes(p.payload) + 24 < TWO_TO_32
    requires var r := LoadPacket(Zeros(k) + SavePacket(p) + more); r.Ok? && r.value.0 == p
    ensures BlankPacket(p)
  {
    var h, subs := PacketHeader(p), p.payload;
    var body := SaveSubPackets(subs) + more;
    Rebracket(Zeros(k), h, SaveSubPackets(subs), more);
    var bytes := Zeros(k) + h + body;
    ShiftedPayload(k, h, body);
    ShiftedPacketHeader(k, p, bytes);
    SubPacketsExact(subs);
    AppendAssociates(h[24 - k..], SaveSubPackets(subs), more);
    CutLengthReadsNone(h[24 - k..], subs, more, Field32(bytes, 20));
  }

  lemma ZeroPacketLoads(bytes: seq<byte>)
    requires |bytes| >= 24 && forall i :: 0 <= i < 24 ==> bytes[i] == 0
    ensures LoadPacket(bytes) == Ok((Packet(0, 0, 0, 0, 0, []), bytes[24..]))
  {
    ZerosRead(bytes[0..4]);
    ZerosRead(bytes[4..8]);
    ZerosRead(bytes[8..12]);
    ZerosRead(bytes[14..16]);
    ZerosRead(bytes[16..20]);
    ZerosRead(bytes[20..24]);
  }

  lemma ShiftedBlankPacketLoads(k: nat, p: Packet, more: seq<byte>)
    requires 1 <= k <= 3 && BlankPacket(p)
    ensures SavePacket(p) == Zeros(24)
    ensures LoadPacket(Zeros(k) + SavePacket(p) + more) == Ok((p, Zeros(k) + more))
  {
    ZerosWritten(2);
    ZerosWritten(4);
    var bytes := Zeros(k) + SavePacket(p) + more;
    assert SavePacket(p) == Zeros(24);
    assert forall i :: 0 <= i < 24 ==> bytes[i] == 0;
    assert bytes[24..] == Zeros(k) + more;
    ZeroPacketLoads(bytes);
  }

  lemma PacketsSplit(bytes: seq<byte>, offset: nat, length: nat)
    requires LoadPackets(bytes, offset, length).Ok? && LoadPackets(bytes, offset, length).value.0 != []
    ensures offset < length && LoadPacket(bytes).Ok?
    ensures var ps := LoadPackets(bytes, offset, length).value.0;
      var (p, rest) := LoadPacket(bytes).value;
      && ps[0] == p
      && LoadPackets(rest, offset + PacketSize(p), length).Ok?
      && LoadPackets(rest, offset + PacketSize(p), length).value.0 == ps[1..]
  {
    hide LoadPacket, PacketSize;
    var (p, rest) := LoadPacket(bytes).value;
    var (more, _) := LoadPackets(rest, offset + PacketSize(p), length).value;
    assert ([p] + more)[1..] == more;
  }

  lemma BlankPacketSize(p: Packet)
    requires BlankPacket(p)
    ensures PacketSize(p) == 24
  {
  }

  lemma FirstShiftedPacket(k: nat, ps: seq<Packet>, more: seq<byte>, offset: nat, length: nat, loads: bool)
    requires 1 <= k <= 3 && ps != [] && PacketsBytes(ps) < TWO_TO_32 && offset + PacketsBytes(ps) == length
    requires var r := LoadPackets(Zeros(k) + (SavePackets(ps[1..]) + more), offset + 24, length);
      r.Ok? && r.value.0 == ps[1..] <==> loads
    ensures var r := LoadPackets(Zeros(k) + SavePackets(ps) + more, offset, length);
      r.Ok? && r.value.0 == ps <==> BlankPacket(ps[0]) && loads
  {
    hide SavePacket, LoadPacket, PacketSize;
    var p, tail := ps[0], SavePackets(ps[1..]) + more;
    Rebracket(Zeros(k), SavePacket(p), SavePackets(ps[1..]), more);
    var bytes := Zeros(k) + SavePacket(p) + tail;
    if BlankPacket(p) {
      ShiftedBlankPacketLoads(k, p, tail);
      BlankPacketSize(p);
    } else if LoadPacket(bytes).Ok? && LoadPacket(bytes).value.0 == p {
      ShiftedPacketOnlyIfBlank(k, p, tail);
    }
    PacketPrependedEquals(bytes, ps, BlankPacket(p), Zeros(k) + tail, offset, length);
  }

  /** Behind unread padding, packets are read back exactly when all of them are blank. */
  lemma {:induction false} ShiftedPacketsIff(k: nat, ps: seq<Packet>, more: seq<byte>, offset: nat, length: nat)
    requires 1 <= k <= 3 && PacketsBytes(ps) < TWO_TO_32
    requires offset + PacketsBytes(ps) == length
    ensures var r := LoadPackets(Zeros(k) + SavePackets(ps) + more, offset, length);
      r.Ok? && r.value.0 == ps <==> AllBlankPackets(ps)
    decreases |ps|
  {
    hide SavePacket, LoadPacket, PacketSize;
    if ps != [] {
      var rest := ps[1..];
      var r := LoadPackets(Zeros(k) + (SavePackets(rest) + more), offset + 24, length);
      FirstShiftedPacket(k, ps, more, offset, length, r.Ok? && r.value.0 == rest);
      if BlankPacket(ps[0]) {
        AppendAssociates(Zeros(k), SavePackets(rest), more);
        ShiftedPacketsIff(k, rest, more, offset + 24, length);
      }
    }
  }

  lemma FirstPacket(ps: seq<Packet>, more: seq<byte>, offset: nat, length: nat, loads: bool)
    requires ps != [] && PacketsBytes(ps) < TWO_TO_32 && offset + PacketsBytes(ps) == length
    requires var k, offset' := Skew(ps[0].payload), offset + 24 + SubPacketsBytes(ps[0].payload);
      var r := LoadPackets(Zeros(k) + (SavePackets(ps[1..]) + more), offset', length);
      r.Ok? && r.value.0 == ps[1..] <==> loads
    ensures var r := LoadPackets(SavePackets(ps) + more, offset, length);
      r.Ok? && r.value.0 == ps <==> SubPacketsLoadable(ps[0].payload) && loads
  {
    hide SavePacket, LoadPacket;
    var p, tail := ps[0], SavePackets(ps[1..]) + more;
    assert SavePackets(ps) + more == SavePacket(p) + tail by {
      AppendAssociates(SavePacket(p), SavePackets(ps[1..]), more);
    }
    assert PacketSize(p) == 24 + SubPacketsBytes(p.payload) by {
      PacketExact(p);
    }
    PacketRoundTripIff(p, tail);
    PacketPrependedEquals(SavePacket(p) + tail, ps, SubPacketsLoadable(p.payload), Zeros(Skew(p.payload)) + tail,
                          offset, length);
  }

  lemma {:induction false} PacketsRoundTripIff(ps: seq<Packet>, more: seq<byte>, offset: nat, length: nat)
    requires PacketsBytes(ps) < TWO_TO_32
    requires offset + PacketsBytes(ps) == length
    ensures var r := LoadPackets(SavePackets(ps) + more, offset, length);
      r.Ok? && r.value.0 == ps <==> PacketsLoadable(ps)
    decreases |ps|
  {
    hide SavePacket, LoadPacket, PacketSize;
    if ps != [] {
      var k, rest := Skew(ps[0].payload), ps[1..];
      var tail, offset' := SavePackets(rest) + more, offset + 24 + SubPacketsBytes(ps[0].payload);
      if k == 0 {
        assert Zeros(0) + tail == tail;
        PacketsRoundTripIff(rest, more, offset', length);
        FirstPacket(ps, more, offset, length, PacketsLoadable(rest));
      } else {
        AppendAssociates(Zeros(k), SavePackets(rest), more);
        ShiftedPacketsIff(k, rest, more, offset', length);
        FirstPacket(ps, more, offset, length, AllBlankPackets(rest));
      }
    }
  }

  lemma PacketPrependedEquals(bytes: seq<byte>, ps: seq<Packet>, good: bool, rest: seq<byte>, offset: nat, length: nat)
    requires ps != [] && offset < length
    requires LoadPacket(bytes).Ok? && LoadPacket(bytes).value.0 == ps[0] <==> good
    requires good ==> LoadPacket(bytes) == Ok((ps[0], rest))
    ensures var r, r' := LoadPackets(bytes, offset, length), LoadPackets(rest, offset + PacketSize(ps[0]), length);
      r.Ok? && r.value.0 == ps <==> good && r'.Ok? && r'.value.0 == ps[1..]
  {
    hide LoadPacket, PacketSize;
    var r := LoadPackets(bytes, offset, length);
    if r.Ok? && r.value.0 == ps {
      PacketsSplit(bytes, offset, length);
    } else if good {
      assert [ps[0]] + ps[1..] == ps;
    }
  }

  /**
   * Framing: whatever bytes follow, a ComPacket is read back from its saved form exactly when only zero bytes
   * follow the first sub-packet whose payload length is no multiple of four.
   */
  lemma ComPacketRoundTripIff(c: ComPacket, trailing: seq<byte>)
    requires PacketsBytes(c.payload) < TWO_TO_32
    ensures LoadComPacket(SaveComPacket(c) + trailing) == Ok(c) <==> PacketsLoadable(c.payload)
  {
    var tail := SavePackets(c.payload) + trailing;
    AppendAssociates(ComPacketHeader(c), SavePackets(c.payload), trailing);
    ComPacketHeaderReads(c, tail);
    PacketsExact(c.payload);
    PacketsRoundTripIff(c.payload, trailing, 0, PacketsLength(c.payload));
  }

  lemma ComPacketHeaderReads(c: ComPacket, tail: seq<byte>)
    ensures var bytes := ComPacketHeader(c) + tail;
      && Field16(bytes, 4) == c.comId
      && Field16(bytes, 6) == c.comIdExtension
      && Field32(bytes, 8) == c.outstandingData
      && Field32(bytes, 12) == c.minTransfer
      && Field32(bytes, 16) == PacketsLength(c.payload)
      && bytes[20..] == tail
  {
    hide BigEndian, Field, PacketsLength, Zeros;
    var h := ComPacketHeader(c);
    var bytes := h + tail;
    PowValues();
    ComPacketHeaderSlices(Zeros(4), BigEndian(c.comId, 2), BigEndian(c.comIdExtension, 2),
                          BigEndian(c.outstandingData, 4), BigEndian(c.minTransfer, 4),
                          BigEndian(PacketsLength(c.payload), 4));
    assert forall i, j :: 0 <= i <= j <= 20 ==> bytes[i..j] == h[i..j];
    FieldIs(bytes, 4, 2, c.comId);
    FieldIs(bytes, 6, 2, c.comIdExtension);
    FieldIs(bytes, 8, 4, c.outstandingData);
    FieldIs(bytes, 12, 4, c.minTransfer);
    FieldIs(bytes, 16, 4, PacketsLength(c.payload));
  }

  lemma ComPacketHeaderSlices(a: seq<byte>, b: seq<byte>, c: seq<byte>, d: seq<byte>, e: seq<byte>, f: seq<byte>)
    requires |a| == 4 && |b| == 2 && |c| == 2 && |d| == 4 && |e| == 4 && |f| == 4
    ensures var h := a + b + c + d + e + f;
      h[4..6] == b && h[6..8] == c && h[8..12] == d && h[12..16] == e && h[16..20] == f
  {
  }

  /** One packet with one sub-packet, which is all the program sends, always survives. */
  lemma SingleSubPacketLoads(c: ComPacket, p: Packet, s: SubPacket, trailing: seq<byte>)
    requires c.payload == [p] && p.payload == [s]
    requires 36 + |s.payload| + 3 < TWO_TO_32
    ensures LoadComPacket(SaveComPacket(c) + trailing) == Ok(c)
    ensures |SaveComPacket(c)| == 56 + (|s.payload| + 3) / 4 * 4
  {
    assert [s][1..] == [] && [p][1..] == [];
    assert SubPacketsBytes([s]) == SubPacketBytes(s);
    assert PacketsBytes([p]) == 24 + SubPacketsBytes(p.payload);
    assert SubPacketsLoadable([s]) && PacketsLoadable([p]);
    ComPacketRoundTripIff(c, trailing);
    ComPacketSize(c);
    PacketsExact(c.payload);
  }

  /** A frame that does not come back: two sub-packets of one byte each, whatever follows. */
  lemma TwoBytesApart(trailing: seq<byte>)
    ensures var s := SubPacket(0, [1]);
      var c := ComPacket(0, 0, 0, 0, [Packet(0, 0, 0, 0, 0, [s, s])]);
      LoadComPacket(SaveComPacket(c) + trailing) != Ok(c)
  {
    var s := SubPacket(0, [1]);
    var p := Packet(0, 0, 0, 0, 0, [s, s]);
    var c := ComPacket(0, 0, 0, 0, [p]);
    assert [s, s][1..] == [s] && [s][1..] == [] && [p][1..] == [];
    assert SubPacketsBytes([s]) == 16 && SubPacketsBytes([s, s]) == 32;
    assert PacketsBytes([p]) == 56;
    assert [s][0] == s && !Blank(s);
    assert !SubPacketsLoadable([s, s]);
    ComPacketRoundTripIff(c, trailing);
  }
}
