/** Tokens to bytes and back (TokenStream.cpp; section 3.2.2.3 of the TCG Storage Architecture Core Specification). */
module TokenStreams {
  import opened Common
  import opened FlatBinary
  import opened Values
  import opened Tokens

  function Bit(b: bool): (r: nat)
    ensures r <= 1
  {
    if b then 1 else 0
  }

  /** GetTagFromHeader: the atom class the leading bits select, or the header itself. */
  function HeaderTag(header: byte): byte {
    if header < 0x80 then TINY_ATOM
    else if header < 0xC0 then SHORT_ATOM
    else if header < 0xE0 then MEDIUM_ATOM
    else if header < 0xE8 then LONG_ATOM
    else header
  }

  /** The same class by the masks of the original, tried in the same order. */
  function HeaderTagByMask(h: bv8): byte {
    if h & 0x80 == 0x00 then TINY_ATOM
    else if h & 0xC0 == 0x80 then SHORT_ATOM
    else if h & 0xE0 == 0xC0 then MEDIUM_ATOM
    else if h & 0xF8 == 0xE0 then LONG_ATOM
    else h as int
  }

  lemma TinyMask(h: bv8)
    ensures h & 0x80 == 0x00 <==> h as int < 0x80
  {
    assert h & 0x80 == 0x00 <==> h < 0x80;
  }

  lemma ShortMask(h: bv8)
    requires h as int >= 0x80
    ensures h & 0xC0 == 0x80 <==> h as int < 0xC0
  {
    assert h >= 0x80 && (h & 0xC0 == 0x80 <==> h < 0xC0);
  }

  lemma MediumMask(h: bv8)
    requires h as int >= 0xC0
    ensures h & 0xE0 == 0xC0 <==> h as int < 0xE0
  {
    assert h >= 0xC0 && (h & 0xE0 == 0xC0 <==> h < 0xE0);
  }

  lemma LongMask(h: bv8)
    requires h as int >= 0xE0
    ensures h & 0xF8 == 0xE0 <==> h as int < 0xE8
  {
    assert h >= 0xE0 && (h & 0xF8 == 0xE0 <==> h < 0xE8);
  }

  /** Header classes are disjoint ranges: reading a header by range or by mask is the same. */
  lemma HeaderClassesAreRanges(h: bv8)
    ensures HeaderTagByMask(h) == HeaderTag(h as int)
  {
    TinyMask(h);
    if h as int >= 0x80 {
      ShortMask(h);
      if h as int >= 0xC0 {
        MediumMask(h);
        if h as int >= 0xE0 {
          LongMask(h);
        }
      }
    }
  }

  /** Serialize(Token): a length that the header cannot hold is truncated, the data is written whole. */
  function PrintToken(t: Token): Result<seq<byte>> {
    if t.tag == TINY_ATOM then
      if |t.data| != 1 then Err(InvalidArgument)
      else Ok([64 * Bit(t.isSigned) + t.data[0] % 32 + 32 * (t.data[0] / 128)])
    else if t.tag == SHORT_ATOM then
      Ok([SHORT_ATOM + 32 * Bit(t.isByte) + 16 * Bit(t.isSigned) + |t.data| % 0x10] + t.data)
    else if t.tag == MEDIUM_ATOM then
      var length := |t.data| % 0x800;
      Ok([MEDIUM_ATOM + 16 * Bit(t.isByte) + 8 * Bit(t.isSigned) + length / 256, length % 256] + t.data)
    else if t.tag == LONG_ATOM then
      var length := |t.data| % 0x100_0000;
      Ok([LONG_ATOM + 2 * Bit(t.isByte) + Bit(t.isSigned), length / 0x1_0000, length / 256 % 256, length % 256]
         + t.data)
    else Ok([t.tag] + t.data)
  }

  /** Lengths of medium and long atoms, most significant part first. */
  function MediumLength(high: nat, low: nat): nat {
    high * 256 + low
  }

  function LongLength(high: nat, middle: nat, low: nat): nat {
    high * 0x1_0000 + middle * 256 + low
  }

  /** Extract the data of an atom whose header has been read. */
  function TakeData(tag: byte, isByte: bool, isSigned: bool, length: nat, rest: seq<byte>): Result<(Token, seq<byte>)> {
    if |rest| < length then Err(InvalidArgument)
    else Ok((Token(tag, isByte, isSigned, rest[..length]), rest[length..]))
  }

  /** DeSerialize(Token): the token at the front and the bytes after it. */
  function ParseToken(bytes: seq<byte>): (r: Result<(Token, seq<byte>)>)
    ensures r.Ok? ==> |r.value.1| < |bytes| && |r.value.0.data| <= MAX_ATOM
  {
    if bytes == [] then Err(InvalidArgument) else
    var h, rest := bytes[0], bytes[1..];
    var tag := HeaderTag(h);
    if tag == TINY_ATOM then
      var bits := h % 64;
      var isSigned := h / 64 != 0;
      Ok((Token(tag, false, isSigned, [if isSigned && bits >= 32 then bits + 0xC0 else bits]), rest))
    else if tag == SHORT_ATOM then
      TakeData(tag, h / 32 % 2 == 1, h / 16 % 2 == 1, h % 16, rest)
    else if tag == MEDIUM_ATOM then
      if |rest| < 1 then Err(InvalidArgument)
      else TakeData(tag, h / 16 % 2 == 1, h / 8 % 2 == 1, MediumLength(h % 8, rest[0]), rest[1..])
    else if tag == LONG_ATOM then
      if |rest| < 3 then Err(InvalidArgument)
      else TakeData(tag, h / 2 % 2 == 1, h % 2 == 1, LongLength(rest[0], rest[1], rest[2]), rest[3..])
    else Ok((Control(tag), rest))
  }

  /** How many bytes the front token takes, as far as its length can be read. */
  function TokenSize(bytes: seq<byte>): nat
    requires bytes != []
  {
    var h := bytes[0];
    if h < 0x80 || h >= 0xE8 then 1
    else if h < 0xC0 then Plus(1, h % 16)
    else if h < 0xE0 then (if |bytes| < 2 then 2 else Plus(2, MediumLength(h % 8, bytes[1])))
    else (if |bytes| < 4 then 4 else Plus(4, LongLength(bytes[1], bytes[2], bytes[3])))
  }

  function Plus(header: nat, length: nat): nat {
    header + length
  }

  /** A token is accepted exactly if all of its bytes are there, and exactly those bytes are taken. */
  lemma TokenParsesIff(bytes: seq<byte>)
    ensures ParseToken(bytes).Ok? <==> bytes != [] && TokenSize(bytes) <= |bytes|
    ensures ParseToken(bytes).Ok? ==> ParseToken(bytes).value.1 == bytes[TokenSize(bytes)..]
  {
    if bytes != [] {
      var rest := bytes[1..];
      if |rest| >= 1 {
        assert rest[1..] == bytes[2..];
      }
      if |rest| >= 3 {
        assert rest[3..] == bytes[4..];
      }
    }
  }

  function PrintStream(ts: seq<Token>): Result<seq<byte>> {
    if ts == [] then Ok([])
    else
      var head :- PrintToken(ts[0]);
      var tail :- PrintStream(ts[1..]);
      Ok(head + tail)
  }

  function ParseStream(bytes: seq<byte>): Result<seq<Token>>
    decreases |bytes|
  {
    if bytes == [] then Ok([])
    else
      var (t, rest) :- ParseToken(bytes);
      var ts :- ParseStream(rest);
      Ok([t] + ts)
  }

  function SurroundWithList(ts: seq<Token>): seq<Token> {
    [Control(START_LIST)] + ts + [Control(END_LIST)]
  }

  function UnSurroundWithList(ts: seq<Token>): Result<seq<Token>> {
    if ts != [] && ts[0].tag == START_LIST && ts[|ts| - 1].tag == END_LIST
    then (assert |ts| > 1; Ok(ts[1..|ts| - 1]))
    else Err(InvalidArgument)
  }

  //
  // Single tokens
  //

  /** A token the byte form can carry: the size fits the tag and no field is set that the header has no room for. */
  predicate WellFormed(t: Token) {
    if t.tag == TINY_ATOM then
      && |t.data| == 1
      && !t.isByte
      && if t.isSigned then t.data[0] < 32 || t.data[0] >= 224 else t.data[0] < 32
    else if t.tag == SHORT_ATOM then |t.data| <= 15
    else if t.tag == MEDIUM_ATOM then |t.data| <= 2047
    else if t.tag == LONG_ATOM then |t.data| <= MAX_ATOM
    else t == Control(t.tag) && t.tag >= 0xE8
  }

  lemma TakeDataBack(t: Token, rest: seq<byte>)
    ensures TakeData(t.tag, t.isByte, t.isSigned, |t.data|, t.data + rest) == Ok((t, rest))
  {
    DropAppend(t.data, rest);
  }

  lemma WellFormedReads(t: Token, rest: seq<byte>)
    requires WellFormed(t)
    ensures PrintToken(t).Ok? && PrintToken(t).value != []
    ensures ParseToken(PrintToken(t).value + rest) == Ok((t, rest))
  {
    if t.tag == TINY_ATOM {
      TinyReads(t, rest);
    } else if t.tag == SHORT_ATOM {
      ShortReads(t, rest);
    } else if t.tag == MEDIUM_ATOM {
      MediumReads(t, rest);
    } else if t.tag == LONG_ATOM {
      LongReads(t, rest);
    } else {
      assert (PrintToken(t).value + rest)[1..] == rest;
    }
  }

  lemma TinyReads(t: Token, rest: seq<byte>)
    requires WellFormed(t) && t.tag == TINY_ATOM
    ensures ParseToken(PrintToken(t).value + rest) == Ok((t, rest))
  {
    var bytes := PrintToken(t).value + rest;
    assert bytes[1..] == rest;
    assert t.data == [t.data[0]];
  }

  lemma ShortHeader(isByte: bool, isSigned: bool, n: nat)
    requires n < 16
    ensures var h := 0x80 + 32 * Bit(isByte) + 16 * Bit(isSigned) + n;
      && 0x80 <= h < 0xC0 && h / 32 % 2 == Bit(isByte) && h / 16 % 2 == Bit(isSigned) && h % 16 == n
  {
  }

  lemma MediumHeader(isByte: bool, isSigned: bool, n: nat)
    requires n < 8
    ensures var h := 0xC0 + 16 * Bit(isByte) + 8 * Bit(isSigned) + n;
      && 0xC0 <= h < 0xE0 && h / 16 % 2 == Bit(isByte) && h / 8 % 2 == Bit(isSigned) && h % 8 == n
  {
  }

  lemma ShortParses(bytes: seq<byte>, h: byte, body: seq<byte>)
    requires bytes != [] && bytes[0] == h && 0x80 <= h < 0xC0 && bytes[1..] == body
    ensures ParseToken(bytes) == TakeData(SHORT_ATOM, h / 32 % 2 == 1, h / 16 % 2 == 1, h % 16, body)
  {
  }

  lemma MediumParses(bytes: seq<byte>, h: byte, low: byte, body: seq<byte>)
    requires |bytes| >= 2 && bytes[0] == h && 0xC0 <= h < 0xE0 && bytes[1] == low && bytes[2..] == body
    ensures ParseToken(bytes)
            == TakeData(MEDIUM_ATOM, h / 16 % 2 == 1, h / 8 % 2 == 1, MediumLength(h % 8, low), body)
  {
    hide MediumLength, TakeData;
    assert bytes[1..][0] == low && bytes[1..][1..] == body;
  }

  lemma ShortReads(t: Token, rest: seq<byte>)
    requires WellFormed(t) && t.tag == SHORT_ATOM
    ensures ParseToken(PrintToken(t).value + rest) == Ok((t, rest))
  {
    hide ParseToken, TakeData;
    var n: nat := |t.data|;
    ShortHeader(t.isByte, t.isSigned, n);
    var h: byte := 0x80 + 32 * Bit(t.isByte) + 16 * Bit(t.isSigned) + n;
    assert PrintToken(t) == Ok([h] + t.data);
    BehindFirst(h, t.data, rest);
    TakeDataBack(t, rest);
    ShortParses([h] + t.data + rest, h, t.data + rest);
  }

  lemma MediumLengthSplit(n: nat)
    requires n < 0x800
    ensures n % 0x800 == n && n / 256 < 8 && n % 256 < 256 && MediumLength(n / 256, n % 256) == n
  {
  }

  lemma BehindTwo(h: byte, low: byte, data: seq<byte>, rest: seq<byte>)
    ensures var bytes := [h, low] + data + rest; bytes[0] == h && bytes[1] == low && bytes[2..] == data + rest
  {
  }

  lemma MediumReads(t: Token, rest: seq<byte>)
    requires WellFormed(t) && t.tag == MEDIUM_ATOM
    ensures ParseToken(PrintToken(t).value + rest) == Ok((t, rest))
  {
    hide ParseToken, TakeData, MediumLength;
    var n: nat := |t.data|;
    MediumLengthSplit(n);
    var high: nat, low: byte := n / 256, n % 256;
    MediumHeader(t.isByte, t.isSigned, high);
    var h: byte := 0xC0 + 16 * Bit(t.isByte) + 8 * Bit(t.isSigned) + high;
    assert PrintToken(t) == Ok([h, low] + t.data);
    BehindTwo(h, low, t.data, rest);
    TakeDataBack(t, rest);
    MediumParses([h, low] + t.data + rest, h, low, t.data + rest);
  }

  lemma LongHeader(isByte: bool, isSigned: bool)
    ensures var h := 0xE0 + 2 * Bit(isByte) + Bit(isSigned);
      && 0xE0 <= h < 0xE4 && h / 2 % 2 == Bit(isByte) && h % 2 == Bit(isSigned)
  {
  }

  lemma Behind4(a: byte, b: byte, c: byte, d: byte, data: seq<byte>, rest: seq<byte>)
    ensures var bytes := [a, b, c, d] + data + rest;
      bytes[0] == a && bytes[1..][0] == b && bytes[1..][1] == c && bytes[1..][2] == d && bytes[1..][3..] == data + rest
  {
  }

  lemma LongReads(t: Token, rest: seq<byte>)
    requires WellFormed(t) && t.tag == LONG_ATOM
    ensures ParseToken(PrintToken(t).value + rest) == Ok((t, rest))
  {
    var n, h := |t.data|, 0xE0 + 2 * Bit(t.isByte) + Bit(t.isSigned);
    LongHeader(t.isByte, t.isSigned);
    LongLengthSplit(n);
    var bytes := [h, n / 0x1_0000, n / 256 % 256, n % 256] + t.data + rest;
    Behind4(h, n / 0x1_0000, n / 256 % 256, n % 256, t.data, rest);
    TakeDataBack(t, rest);
    LongParses(bytes, h, n, t.data + rest);
  }

  lemma LongParses(bytes: seq<byte>, h: byte, n: nat, body: seq<byte>)
    requires |bytes| >= 4 && bytes[0] == h && 0xE0 <= h < 0xE8
    requires LongLength(bytes[1..][0], bytes[1..][1], bytes[1..][2]) == n && bytes[1..][3..] == body
    ensures ParseToken(bytes) == TakeData(LONG_ATOM, h / 2 % 2 == 1, h % 2 == 1, n, body)
  {
  }

  lemma LongLengthSplit(n: nat)
    requires n < 0x100_0000
    ensures LongLength(n / 0x1_0000, n / 256 % 256, n % 256) == n == n % 0x100_0000
    ensures n / 0x1_0000 < 256
  {
    var m := n / 256;
    var a, b, c := m / 256, m % 256, n % 256;
    assert n == a * 0x1_0000 + (b * 256 + c);
    ModUnique(n, 0x1_0000, a, b * 256 + c);
    ModUnique(n, 0x100_0000, 0, n);
  }

  lemma ReadsWellFormed(t: Token, rest: seq<byte>)
    requires PrintToken(t).Ok?
    requires ParseToken(PrintToken(t).value + rest) == Ok((t, rest))
    ensures WellFormed(t)
  {
    var bytes := PrintToken(t).value + rest;
    assert bytes[0] == PrintToken(t).value[0];
    assert HeaderTag(bytes[0]) == t.tag;
  }

  /** Printing and parsing give a token back exactly when it is well formed, whatever bytes follow. */
  lemma TokenRoundTripIff(t: Token, rest: seq<byte>)
    ensures WellFormed(t) <==>
      PrintToken(t).Ok? && ParseToken(PrintToken(t).value + rest) == Ok((t, rest))
  {
    if WellFormed(t) {
      WellFormedReads(t, rest);
    } else if PrintToken(t).Ok? && ParseToken(PrintToken(t).value + rest) == Ok((t, rest)) {
      ReadsWellFormed(t, rest);
    }
  }

  //
  // Streams
  //

  predicate AllWellFormed(ts: seq<Token>) {
    forall i :: 0 <= i < |ts| ==> WellFormed(ts[i])
  }

  /** Unique decoding: a stream is read back from its bytes exactly when each of its tokens is well formed. */
  lemma StreamRoundTripIff(ts: seq<Token>)
    ensures AllWellFormed(ts) <==> PrintStream(ts).Ok? && ParseStream(PrintStream(ts).value) == Ok(ts)
  {
    if AllWellFormed(ts) {
      WellFormedStreamReads(ts);
    } else if PrintStream(ts).Ok? && ParseStream(PrintStream(ts).value) == Ok(ts) {
      StreamReadsWellFormed(ts);
    }
  }

  lemma {:induction false} WellFormedStreamReads(ts: seq<Token>)
    requires AllWellFormed(ts)
    ensures PrintStream(ts).Ok?
    ensures ParseStream(PrintStream(ts).value) == Ok(ts)
  {
    hide PrintToken, ParseToken, WellFormed;
    if ts != [] {
      WellFormedStreamReads(ts[1..]);
      var tail := PrintStream(ts[1..]).value;
      WellFormedReads(ts[0], tail);
      StreamFront(ts[0], PrintToken(ts[0]).value, tail);
      assert ts == [ts[0]] + ts[1..];
    }
  }

  lemma {:induction false} StreamReadsWellFormed(ts: seq<Token>)
    requires PrintStream(ts).Ok? && ParseStream(PrintStream(ts).value) == Ok(ts)
    ensures AllWellFormed(ts)
  {
    if ts != [] {
      var head, tail := PrintToken(ts[0]).value, PrintStream(ts[1..]).value;
      StreamSplit(head + tail, ts);
      SameRest(ts[0], head, tail);
      ReadsWellFormed(ts[0], tail);
      StreamReadsWellFormed(ts[1..]);
      assert ts == [ts[0]] + ts[1..];
    }
  }

  lemma StreamSplit(bytes: seq<byte>, ts: seq<Token>)
    requires ts != [] && ParseStream(bytes) == Ok(ts)
    ensures ParseToken(bytes).Ok? && ParseToken(bytes).value.0 == ts[0]
    ensures ParseStream(ParseToken(bytes).value.1) == Ok(ts[1..])
  {
    var (t, rest) := ParseToken(bytes).value;
    assert ([t] + ParseStream(rest).value)[1..] == ParseStream(rest).value;
  }

  lemma StreamFront(t: Token, head: seq<byte>, tail: seq<byte>)
    requires head != []
    ensures ParseToken(head + tail) == Ok((t, tail)) ==>
      (ParseStream(head + tail).Ok? <==> ParseStream(tail).Ok?)
      && (ParseStream(tail).Ok? ==> ParseStream(head + tail).value == [t] + ParseStream(tail).value)
  {
  }

  /** Once the right token has been read, the cursor stands right behind it. */
  lemma SameRest(t: Token, head: seq<byte>, tail: seq<byte>)
    requires PrintToken(t) == Ok(head)
    requires ParseToken(head + tail).Ok? && ParseToken(head + tail).value.0 == t
    ensures ParseToken(head + tail).value.1 == tail
  {
    var bytes := head + tail;
    assert bytes[0] == head[0] && HeaderTag(bytes[0]) == t.tag;
    DropAppend(t.data, tail);
    if t.tag == TINY_ATOM {
      assert bytes[1..] == tail;
    } else if t.tag == SHORT_ATOM {
      assert bytes[1..] == t.data + tail;
    } else if t.tag == MEDIUM_ATOM {
      assert bytes[1..][1..] == t.data + tail;
    } else if t.tag == LONG_ATOM {
      assert bytes[1..][3..] == t.data + tail;
    } else {
      assert bytes[1..] == tail;
    }
  }

  /** Printing a concatenation fails where either print fails, and otherwise concatenates the prints. */
  lemma {:induction false} PrintStreamConcat(a: seq<Token>, b: seq<Token>)
    ensures PrintStream(a + b).Ok? <==> PrintStream(a).Ok? && PrintStream(b).Ok?
    ensures PrintStream(a + b).Ok? ==> PrintStream(a + b).value == PrintStream(a).value + PrintStream(b).value
  {
    hide PrintToken;
    if a == [] {
      assert a + b == b;
      if PrintStream(b).Ok? {
        assert [] + PrintStream(b).value == PrintStream(b).value;
      }
    } else {
      PrintStreamConcat(a[1..], b);
      assert (a + b)[0] == a[0] && (a + b)[1..] == a[1..] + b;
      if PrintStream(a).Ok? && PrintStream(b).Ok? {
        AppendAssociates(PrintToken(a[0]).value, PrintStream(a[1..]).value, PrintStream(b).value);
      }
    }
  }

  //
  // Byte-exactness
  //

  /** The header bytes that the parser reads on its way through the bytes it accepts. */
  function Headers(bytes: seq<byte>): seq<byte>
    decreases |bytes|
  {
    if ParseToken(bytes).Err? then [] else [bytes[0]] + Headers(ParseToken(bytes).value.1)
  }

  /** Headers with a bit that the token does not keep: an unsigned tiny atom's bit 5, a long atom's bit 2. */
  predicate Lossy(header: byte) {
    LossyTiny(header) || (0xE0 <= header < 0xE8 && header / 4 % 2 == 1)
  }

  predicate LossyTiny(header: byte) {
    header < 0x40 && header / 32 % 2 == 1
  }

  /** One token: re-printing keeps the length, and the bytes unless the header is lossy. */
  lemma ReprintToken(bytes: seq<byte>)
    requires ParseToken(bytes).Ok?
    ensures var (t, rest) := ParseToken(bytes).value;
      && PrintToken(t).Ok?
      && |PrintToken(t).value| + |rest| == |bytes|
      && rest == bytes[|PrintToken(t).value|..]
      && (PrintToken(t).value == bytes[..|PrintToken(t).value|] <==> !Lossy(bytes[0]))
  {
    hide PrintToken, ParseToken;
    var (t, rest) := ParseToken(bytes).value;
    var h := bytes[0];
    if h < 0x80 {
      ReprintTiny(bytes);
    } else if h < 0xC0 {
      ReprintShort(bytes);
      Reprinted(PrintToken(t).value, rest, bytes);
    } else if h < 0xE0 {
      ReprintMedium(bytes);
      Reprinted(PrintToken(t).value, rest, bytes);
    } else if h < 0xE8 {
      ReprintLong(bytes);
    } else {
      ReprintControl(bytes);
      Reprinted(PrintToken(t).value, rest, bytes);
    }
  }

  lemma ReprintControl(bytes: seq<byte>)
    requires ParseToken(bytes).Ok? && 0xE8 <= bytes[0]
    ensures var (t, rest) := ParseToken(bytes).value;
      && PrintToken(t).Ok? && PrintToken(t).value + rest == bytes
  {
    assert bytes == [bytes[0]] + bytes[1..];
  }

  lemma ReprintTiny(bytes: seq<byte>)
    requires bytes != [] && bytes[0] < 0x80
    ensures ParseToken(bytes).Ok? && ParseToken(bytes).value.1 == bytes[1..]
    ensures var t := ParseToken(bytes).value.0;
      && PrintToken(t).Ok? && |PrintToken(t).value| == 1
      && (PrintToken(t).value == bytes[..1] <==> !Lossy(bytes[0]))
  {
    var t := ParseToken(bytes).value.0;
    assert bytes[..1] == [bytes[0]];
    assert PrintToken(t).value == [PrintToken(t).value[0]];
  }

  lemma MediumHeaderParts(h: byte, low: byte)
    requires 0xC0 <= h < 0xE0
    ensures var n := MediumLength(h % 8, low); n % 0x800 == n && n / 256 == h % 8 && n % 256 == low
  {
    var n: nat := MediumLength(h % 8, low);
    ModUnique(n, 256, h % 8, low);
    ModUnique(n, 0x800, 0, n);
  }

  lemma MediumHeaderBits(h: byte)
    requires 0xC0 <= h < 0xE0
    ensures 0xC0 + 16 * (h / 16 % 2) + 8 * (h / 8 % 2) + h % 8 == h
  {
  }

  lemma ShortHeaderBits(h: byte)
    requires 0x80 <= h < 0xC0
    ensures 0x80 + 32 * (h / 32 % 2) + 16 * (h / 16 % 2) + h % 16 == h
  {
  }

  lemma ReprintShort(bytes: seq<byte>)
    requires ParseToken(bytes).Ok? && 0x80 <= bytes[0] < 0xC0
    ensures var (t, rest) := ParseToken(bytes).value;
      && PrintToken(t).Ok? && PrintToken(t).value + rest == bytes
  {
    hide ParseToken;
    var h, n: nat := bytes[0], bytes[0] % 16;
    ShortParses(bytes, h, bytes[1..]);
    ShortHeaderBits(h);
    var data, rest := bytes[1..][..n], bytes[1..][n..];
    assert PrintToken(ParseToken(bytes).value.0) == Ok([h] + data);
    assert [h] + data + rest == bytes;
  }

  lemma ReprintMedium(bytes: seq<byte>)
    requires ParseToken(bytes).Ok? && 0xC0 <= bytes[0] < 0xE0
    ensures var (t, rest) := ParseToken(bytes).value;
      && PrintToken(t).Ok? && PrintToken(t).value + rest == bytes
  {
    hide ParseToken, MediumLength;
    NotCutShort(bytes);
    var h, low := bytes[0], bytes[1];
    MediumParses(bytes, h, low, bytes[2..]);
    MediumHeaderParts(h, low);
    MediumHeaderBits(h);
    var n := MediumLength(h % 8, low);
    var data, rest := bytes[2..][..n], bytes[2..][n..];
    assert PrintToken(ParseToken(bytes).value.0) == Ok([h, low] + data);
    assert [h, low] + data + rest == bytes;
  }

  lemma NotCutShort(bytes: seq<byte>)
    requires ParseToken(bytes).Ok? && 0xC0 <= bytes[0] < 0xE0
    ensures |bytes| >= 2
  {
  }

  lemma Reprinted(printed: seq<byte>, rest: seq<byte>, bytes: seq<byte>)
    requires printed + rest == bytes
    ensures |printed| + |rest| == |bytes| && rest == bytes[|printed|..] && printed == bytes[..|printed|]
  {
  }

  lemma ReprintLong(bytes: seq<byte>)
    requires ParseToken(bytes).Ok? && 0xE0 <= bytes[0] < 0xE8
    ensures var (t, rest) := ParseToken(bytes).value;
      && PrintToken(t).Ok?
      && |PrintToken(t).value| + |rest| == |bytes|
      && rest == bytes[|PrintToken(t).value|..]
      && (PrintToken(t).value == bytes[..|PrintToken(t).value|] <==> !Lossy(bytes[0]))
  {
    var (t, rest) := ParseToken(bytes).value;
    var h, a, b, c := bytes[0], bytes[1], bytes[2], bytes[3];
    var n := LongLength(a, b, c);
    assert bytes[1..][3..] == bytes[4..];
    assert t.data == bytes[4..][..n] && rest == bytes[4..][n..];
    LongLengthParts(a, b, c);
    assert 2 * Bit(t.isByte) + Bit(t.isSigned) == h % 4;
    var printed := PrintToken(t).value;
    assert printed == [0xE0 + h % 4, a, b, c] + t.data;
    ReprintedPrefix(bytes, 0xE0 + h % 4, n);
  }

  lemma LongLengthParts(a: byte, b: byte, c: byte)
    ensures var n := LongLength(a, b, c); n % 0x100_0000 == n && n / 0x1_0000 == a && n / 256 % 256 == b && n % 256 == c
  {
    var n: nat, m: nat := LongLength(a, b, c), MediumLength(a, b);
    ModUnique(n, 256, m, c);
    ModUnique(m, 256, a, b);
    ModUnique(n, 0x1_0000, a, MediumLength(b, c));
    ModUnique(n, 0x100_0000, 0, n);
  }

  lemma ReprintedPrefix(bytes: seq<byte>, header: byte, n: nat)
    requires 4 + n <= |bytes|
    ensures var printed := [header, bytes[1], bytes[2], bytes[3]] + bytes[4..][..n];
      && (printed == bytes[..4 + n] <==> header == bytes[0])
      && bytes[4..][n..] == bytes[4 + n..]
  {
    var printed := [header, bytes[1], bytes[2], bytes[3]] + bytes[4..][..n];
    assert bytes[..4 + n] == [bytes[0], bytes[1], bytes[2], bytes[3]] + bytes[4..][..n];
    assert printed[0] == header && bytes[..4 + n][0] == bytes[0];
  }

  /**
   * Re-printing what the parser accepts always gives as many bytes as were read, and gives the very same
   * bytes exactly when none of the headers on the way is lossy.
   */
  lemma {:induction false} ReprintStream(bytes: seq<byte>)
    requires ParseStream(bytes).Ok?
    ensures var ts := ParseStream(bytes).value;
      && PrintStream(ts).Ok?
      && |PrintStream(ts).value| == |bytes|
      && (PrintStream(ts).value == bytes <==> forall h :: h in Headers(bytes) ==> !Lossy(h))
    decreases |bytes|
  {
    if bytes != [] {
      var (t, rest) := ParseToken(bytes).value;
      ReprintToken(bytes);
      ReprintStream(rest);
      var head, more := PrintToken(t).value, ParseStream(rest).value;
      assert ([t] + more)[0] == t && ([t] + more)[1..] == more;
      SplitEquals(head, PrintStream(more).value, bytes);
    }
  }

  lemma SplitEquals(head: seq<byte>, tail: seq<byte>, bytes: seq<byte>)
    requires |head| <= |bytes|
    ensures head + tail == bytes <==> head == bytes[..|head|] && tail == bytes[|head|..]
  {
    DropAppend(head, tail);
    assert bytes == bytes[..|head|] + bytes[|head|..];
  }

  /** Two byte strings that come out different: a tiny atom with bit 5 set, and an empty long atom with bit 2 set. */
  lemma LossyHeaders()
    ensures ParseStream([0x25]) == Ok([Token(TINY_ATOM, false, false, [0x25])])
    ensures PrintStream([Token(TINY_ATOM, false, false, [0x25])]) == Ok([0x05])
    ensures ParseStream([0xE4, 0, 0, 0]) == Ok([Token(LONG_ATOM, false, false, [])])
    ensures PrintStream([Token(LONG_ATOM, false, false, [])]) == Ok([0xE0, 0, 0, 0])
  {
    hide ParseToken, PrintToken, ParseStream, PrintStream;
    LossyTinyToken();
    LossyLongToken();
    OneTokenStream([0x25], Token(TINY_ATOM, false, false, [0x25]));
    OneTokenStream([0xE4, 0, 0, 0], Token(LONG_ATOM, false, false, []));
  }

  lemma LossyTinyToken()
    ensures ParseToken([0x25]) == Ok((Token(TINY_ATOM, false, false, [0x25]), []))
    ensures PrintToken(Token(TINY_ATOM, false, false, [0x25])) == Ok([0x05])
  {
  }

  lemma LossyLongToken()
    ensures ParseToken([0xE4, 0, 0, 0]) == Ok((Token(LONG_ATOM, false, false, []), []))
    ensures PrintToken(Token(LONG_ATOM, false, false, [])) == Ok([0xE0, 0, 0, 0])
  {
    hide ParseToken, PrintToken;
    ReadsAsEmptyAtom([0xE4, 0, 0, 0], 0xE4);
    EmptyAtomPrints();
  }

  lemma ReadsAsEmptyAtom(bytes: seq<byte>, h: byte)
    requires |bytes| == 4 && bytes[0] == h && bytes[1] == bytes[2] == bytes[3] == 0
    requires 0xE0 <= h < 0xE8 && h % 4 == 0
    ensures ParseToken(bytes) == Ok((Token(LONG_ATOM, false, false, []), []))
  {
    hide ParseToken, PrintToken, TakeData, LongLength;
    var rest := bytes[1..];
    assert rest[0] == rest[1] == rest[2] == 0 && rest[3..] == [];
    NoLength();
    LongParses(bytes, h, 0, []);
    NothingTaken([]);
  }

  lemma NoLength()
    ensures LongLength(0, 0, 0) == 0
  {
  }

  lemma NothingTaken(rest: seq<byte>)
    requires rest == []
    ensures TakeData(LONG_ATOM, false, false, 0, rest) == Ok((Token(LONG_ATOM, false, false, []), []))
  {
    assert rest[..0] == [] && rest[0..] == [];
  }

  lemma EmptyAtomPrints()
    ensures PrintToken(Token(LONG_ATOM, false, false, [])) == Ok([0xE0, 0, 0, 0])
  {
    hide ParseToken;
    var none: seq<byte> := [];
    var header: seq<byte> := [0xE0, 0, 0, 0];
    assert header + none == header;
    assert PrintToken(Token(LONG_ATOM, false, false, none)) == Ok(header + none);
  }

  lemma OneTokenStream(bytes: seq<byte>, t: Token)
    requires ParseToken(bytes) == Ok((t, []))
    ensures ParseStream(bytes) == Ok([t])
    ensures PrintStream([t]) == PrintToken(t)
  {
    assert ParseStream([]) == Ok([]) && [t] + [] == [t];
    assert [t][1..] == [] && PrintStream([]) == Ok([]);
    if PrintToken(t).Ok? {
      assert PrintToken(t).value + [] == PrintToken(t).value;
    }
  }

  /** Every token of a parsed stream is one the grammar parser is specified for. */
  lemma {:induction false} ParsedIsBounded(bytes: seq<byte>)
    requires ParseStream(bytes).Ok?
    ensures Bounded(ParseStream(bytes).value)
    ensures bytes != [] ==> ParseStream(bytes).value != []
    decreases |bytes|
  {
    if bytes != [] {
      ParsedIsBounded(ParseToken(bytes).value.1);
    }
  }

  /**
   * The grammar parser on whatever bytes the token parser accepts: it fails or takes a non-empty prefix of the tokens,
   * and the tokens of its value, whatever follows them, parse to that value again.
   */
  lemma ParsedBytesProgress(bytes: seq<byte>, more: seq<Token>)
    requires bytes != [] && ParseStream(bytes).Ok? && ParseValue(ParseStream(bytes).value).Ok?
    ensures var ts := ParseStream(bytes).value;
      var (v, rest) := ParseValue(ts).value;
      && (exists k :: 0 < k <= |ts| && rest == ts[k..])
      && TokensOf(v).Ok?
      && ParseValue(TokensOf(v).value + more) == Ok((v, more))
  {
    hide ParseStream, ParseValue, TokensOf, Bounded;
    ParsedIsBounded(bytes);
    ParserProgressAndIdempotence(ParseStream(bytes).value, more);
  }

  /**
   * Re-printed bytes parse to the very same tokens exactly when no header on the way is an unsigned tiny
   * atom with bit 5 set; a lossy long atom changes the bytes but not the tokens.
   */
  lemma {:induction false} ReprintedStreamParsesAlike(bytes: seq<byte>)
    requires ParseStream(bytes).Ok?
    ensures var ts := ParseStream(bytes).value;
      && PrintStream(ts).Ok?
      && (ParseStream(PrintStream(ts).value) == Ok(ts) <==> forall h :: h in Headers(bytes) ==> !LossyTiny(h))
    decreases |bytes|
  {
    ReprintStream(bytes);
    StreamRoundTripIff(ParseStream(bytes).value);
    ParsedIsWellFormedIff(bytes);
  }

  lemma AllWellFormedCons(t: Token, more: seq<Token>)
    ensures AllWellFormed([t] + more) <==> WellFormed(t) && AllWellFormed(more)
  {
    var ts := [t] + more;
    assert forall i :: 0 <= i < |more| ==> more[i] == ts[i + 1];
    if AllWellFormed(ts) {
      assert WellFormed(ts[0]);
    }
  }

  /** An accepted token is well formed unless its header is an unsigned tiny one with bit 5 set. */
  lemma HeaderDecides(bytes: seq<byte>)
    requires bytes != [] && ParseToken(bytes).Ok?
    ensures WellFormed(ParseToken(bytes).value.0) <==> !LossyTiny(bytes[0])
  {
    hide ParseToken, WellFormed, LossyTiny;
    if bytes[0] < 0x80 {
      TinyDecides(bytes, bytes[0]);
    } else {
      AtomsAreWellFormed(bytes);
    }
  }

  lemma TinyDecides(bytes: seq<byte>, h: byte)
    requires bytes != [] && bytes[0] == h < 0x80
    ensures ParseToken(bytes).Ok?
    ensures WellFormed(ParseToken(bytes).value.0) <==> !LossyTiny(h)
  {
    hide TakeData, MediumLength, LongLength;
    var bits := h % 64;
    assert HeaderTag(h) == TINY_ATOM;
    assert h / 32 % 2 == bits / 32;
  }

  lemma AtomsAreWellFormed(bytes: seq<byte>)
    requires bytes != [] && bytes[0] >= 0x80 && ParseToken(bytes).Ok?
    ensures WellFormed(ParseToken(bytes).value.0) && !LossyTiny(bytes[0])
  {
    hide MediumLength;
    var h, rest := bytes[0], bytes[1..];
    if 0xC0 <= h < 0xE0 {
      MediumLengthBound(h % 8, rest[0]);
    }
  }

  lemma MediumLengthBound(high: nat, low: byte)
    requires high < 8
    ensures MediumLength(high, low) <= 2047
  {
  }

  lemma {:induction false} ParsedIsWellFormedIff(bytes: seq<byte>)
    requires ParseStream(bytes).Ok?
    ensures AllWellFormed(ParseStream(bytes).value) <==> forall h :: h in Headers(bytes) ==> !LossyTiny(h)
    decreases |bytes|
  {
    hide ParseToken, WellFormed, LossyTiny;
    if bytes != [] {
      var (t, rest) := ParseToken(bytes).value;
      ParsedIsWellFormedIff(rest);
      var more := ParseStream(rest).value;
      HeaderDecides(bytes);
      AllWellFormedCons(t, more);
      assert Headers(bytes) == [bytes[0]] + Headers(rest);
    }
  }

  //
  // Surrounding lists
  //

  lemma UnSurroundSurround(ts: seq<Token>)
    ensures UnSurroundWithList(SurroundWithList(ts)) == Ok(ts)
  {
    var s := SurroundWithList(ts);
    assert s[1..|s| - 1] == ts;
  }

  //
  // The loops of the program
  //

  method Serialize(tokens: seq<Token>) returns (r: Result<seq<byte>>)
    ensures r == PrintStream(tokens)
  {
    var bytes: seq<byte> := [];
    assert tokens[0..] == tokens;
    assert PrintStream(tokens).Ok? ==> [] + PrintStream(tokens).value == PrintStream(tokens).value;
    for i := 0 to |tokens|
      invariant PrintStream(tokens) == Join(bytes, PrintStream(tokens[i..]))
    {
      var tokenBytes :- PrintToken(tokens[i]);
      assert tokens[i..][1..] == tokens[i + 1..];
      if PrintStream(tokens[i + 1..]).Ok? {
        AppendAssociates(bytes, tokenBytes, PrintStream(tokens[i + 1..]).value);
      }
      bytes := bytes + tokenBytes;
    }
    assert bytes + [] == bytes;
    r := Ok(bytes);
  }

  method DeSerialize(bytes: seq<byte>) returns (r: Result<seq<Token>>)
    ensures r == ParseStream(bytes)
  {
    var stream := bytes;
    var tokens: seq<Token> := [];
    assert ParseStream(bytes).Ok? ==> [] + ParseStream(bytes).value == ParseStream(bytes).value;
    while stream != []
      invariant ParseStream(bytes) == Join(tokens, ParseStream(stream))
      decreases |stream|
    {
      var next :- ParseToken(stream);
      if ParseStream(next.1).Ok? {
        AppendAssociates(tokens, [next.0], ParseStream(next.1).value);
      }
      tokens := tokens + [next.0];
      stream := next.1;
    }
    assert tokens + [] == tokens;
    r := Ok(tokens);
  }
}
