/** Hexadecimal text: UIDs (UID.cpp) and byte strings (BytesToJSON and JSONToBytes in ValueToJSON.cpp). */
module UidText {
  import opened Common
  import opened Methods

  /** Text is bytes: one char of a std::string. */
  type Octet = c: char | c as int < 256

  type Text = seq<Octet>

  const QUOTE: Octet := '\''

  function Digit(d: nat): (c: Octet)
    requires d < 16
    ensures DigitValue(c) == Some(d) && !IsSpace(c) && c !in {'+', '-', 'x', 'X', QUOTE}
  {
    if d < 10 then (48 + d) as char else (55 + d) as char
  }

  function DigitValue(c: Octet): (d: Option<nat>)
    ensures d.Some? ==> d.value < 16
  {
    if '0' <= c <= '9' then Some(c as int - 48)
    else if 'A' <= c <= 'F' then Some(c as int - 55)
    else if 'a' <= c <= 'f' then Some(c as int - 87)
    else None
  }

  predicate IsSpace(c: Octet) {
    c == ' ' || 9 <= c as int <= 13
  }

  /** The last count hexadecimal digits of a number. */
  function Hex(n: nat, count: nat): (t: Text)
    ensures |t| == count
    ensures forall i :: 0 <= i < count ==>
      DigitValue(t[i]).Some? && !IsSpace(t[i]) && t[i] !in {'+', '-', 'x', 'X', QUOTE}
  {
    if count == 0 then [] else Hex(n / 16, count - 1) + [Digit(n % 16)]
  }

  predicate AllDigits(t: Text) {
    forall i :: 0 <= i < |t| ==> DigitValue(t[i]).Some?
  }

  function HexValue(t: Text): nat
    requires AllDigits(t)
  {
    if t == [] then 0 else 16 * HexValue(t[..|t| - 1]) + DigitValue(t[|t| - 1]).value
  }

  function Pow16(n: nat): (p: nat)
    ensures p > 0
  {
    if n == 0 then 1 else 16 * Pow16(n - 1)
  }

  lemma {:induction false} HexRoundTrip(n: nat, count: nat)
    requires n < Pow16(count)
    ensures HexValue(Hex(n, count)) == n
  {
    if count > 0 {
      HexRoundTrip(n / 16, count - 1);
      assert Hex(n, count)[..count - 1] == Hex(n / 16, count - 1);
    }
  }

  //
  // UIDs
  //

  function Group(uid: UID, shift: nat): Text {
    Hex(uid / (if shift == 3 then 0x1_0000_0000_0000 else if shift == 2 then 0x1_0000_0000
               else if shift == 1 then 0x1_0000 else 1) % 0x1_0000, 4)
  }

  /** UID::ToString: four groups of four digits. */
  function UidToText(uid: UID): Text {
    Group(uid, 3) + [QUOTE] + Group(uid, 2) + [QUOTE] + Group(uid, 1) + [QUOTE] + Group(uid, 0)
  }

  function WithoutQuotes(t: Text): Text {
    if t == [] then []
    else WithoutQuotes(t[..|t| - 1]) + if t[|t| - 1] != QUOTE then [t[|t| - 1]] else []
  }

  function SkipSpaces(t: Text): (r: Text)
    ensures |r| <= |t|
  {
    if t != [] && IsSpace(t[0]) then SkipSpaces(t[1..]) else t
  }

  function LeadingDigits(t: Text): (r: Text)
    ensures AllDigits(r) && |r| <= |t| && r == t[..|r|]
  {
    if t == [] || DigitValue(t[0]).None? then [] else [t[0]] + LeadingDigits(t[1..])
  }

  /** A "0x" counts as a prefix only if a digit follows. */
  predicate HasPrefix(t: Text) {
    |t| >= 3 && t[0] == '0' && t[1] in {'x', 'X'} && DigitValue(t[2]).Some?
  }

  /** std::stoull in base 16, together with the check that nothing is left over. */
  function ParseHex(t: Text): Result<uint64> {
    var s := SkipSpaces(t);
    var negative := s != [] && s[0] == '-';
    var unsigned := if s != [] && s[0] in {'+', '-'} then s[1..] else s;
    var body := if HasPrefix(unsigned) then unsigned[2..] else unsigned;
    var digits := LeadingDigits(body);
    if digits == [] then Err(InvalidArgument)
    else if HexValue(digits) >= TWO_TO_64 then Err(OutOfRange)
    else if digits != body then Err(InvalidArgument)
    else Ok(if negative then (TWO_TO_64 - HexValue(digits)) % TWO_TO_64 else HexValue(digits))
  }

  function ParseUid(t: Text): Result<UID> {
    ParseHex(WithoutQuotes(t))
  }

  /** The loop of UID::Parse drops the separators wherever they stand. */
  method StripSeparators(t: Text) returns (withoutSeparators: Text)
    ensures withoutSeparators == WithoutQuotes(t)
  {
    withoutSeparators := [];
    for i := 0 to |t|
      invariant withoutSeparators == WithoutQuotes(t[..i])
    {
      assert t[..i + 1][..i] == t[..i];
      if t[i] != QUOTE {
        withoutSeparators := withoutSeparators + [t[i]];
      }
    }
    assert t[..|t|] == t;
  }

  method ToString(uid: UID) returns (result: Text)
    ensures result == UidToText(uid)
  {
    result := Group(uid, 3);
    result := result + [QUOTE];
    result := result + Group(uid, 2);
    result := result + [QUOTE];
    result := result + Group(uid, 1);
    result := result + [QUOTE];
    result := result + Group(uid, 0);
  }

  method Parse(str: Text) returns (r: Result<UID>)
    ensures r == ParseUid(str)
  {
    var withoutSeparators := StripSeparators(str);
    r := ParseHex(withoutSeparators);
  }

  lemma {:induction false} WithoutQuotesJoin(a: Text, b: Text)
    ensures WithoutQuotes(a + b) == WithoutQuotes(a) + WithoutQuotes(b)
  {
    if b == [] {
      assert a + b == a;
    } else {
      var n := |b| - 1;
      assert (a + b)[..|a| + n] == a + b[..n];
      WithoutQuotesJoin(a, b[..n]);
    }
  }

  lemma {:induction false} NoQuotes(t: Text)
    requires QUOTE !in t
    ensures WithoutQuotes(t) == t
  {
    if t != [] {
      NoQuotes(t[..|t| - 1]);
    }
  }

  lemma GroupKeeps(uid: UID, shift: nat)
    ensures WithoutQuotes(Group(uid, shift)) == Group(uid, shift)
  {
    NoQuotes(Group(uid, shift));
  }

  lemma HexByFour(n: nat, count: nat)
    ensures Hex(n, count + 4) == Hex(n / 0x1_0000, count) + Hex(n % 0x1_0000, 4)
  {
    var a, b, c, d := n % 16, n / 16 % 16, n / 256 % 16, n / 4096 % 16;
    assert Hex(n, count + 4) == Hex(n / 16, count + 3) + [Digit(a)];
    assert n / 16 / 16 == n / 256 && n / 256 / 16 == n / 4096 && n / 4096 / 16 == n / 65536;
    assert Hex(n / 16, count + 3) == Hex(n / 256, count + 2) + [Digit(b)];
    assert Hex(n / 256, count + 2) == Hex(n / 4096, count + 1) + [Digit(c)];
    assert Hex(n / 4096, count + 1) == Hex(n / 65536, count) + [Digit(d)];
    LastFour(n % 0x1_0000, a, b, c, d);
  }

  lemma LastFour(m: nat, a: nat, b: nat, c: nat, d: nat)
    requires m < 0x1_0000 && a < 16 && b < 16 && c < 16 && d < 16
    requires m == 4096 * d + 256 * c + 16 * b + a
    ensures Hex(m, 4) == [Digit(d), Digit(c), Digit(b), Digit(a)]
  {
    assert m % 16 == a && m / 16 == 256 * d + 16 * c + b;
    assert m / 16 % 16 == b && m / 16 / 16 == 16 * d + c;
    assert m / 16 / 16 % 16 == c && m / 16 / 16 / 16 == d;
    assert Hex(d, 1) == Hex(d / 16, 0) + [Digit(d)];
    assert Hex(16 * d + c, 2) == Hex(d, 1) + [Digit(c)];
    assert Hex(256 * d + 16 * c + b, 3) == Hex(16 * d + c, 2) + [Digit(b)];
  }

  /** Without its separators, a printed UID is its sixteen digits. */
  lemma PrintedDigits(uid: UID)
    ensures WithoutQuotes(UidToText(uid)) == Hex(uid, 16)
  {
    hide Hex, WithoutQuotes;
    var g3, g2, g1, g0 := Group(uid, 3), Group(uid, 2), Group(uid, 1), Group(uid, 0);
    GroupKeeps(uid, 3);
    GroupKeeps(uid, 2);
    GroupKeeps(uid, 1);
    GroupKeeps(uid, 0);
    SeparatorDropped();
    WithoutQuotesJoin(g3, [QUOTE]);
    WithoutQuotesJoin(g3 + [QUOTE], g2);
    WithoutQuotesJoin(g3 + [QUOTE] + g2, [QUOTE]);
    WithoutQuotesJoin(g3 + [QUOTE] + g2 + [QUOTE], g1);
    WithoutQuotesJoin(g3 + [QUOTE] + g2 + [QUOTE] + g1, [QUOTE]);
    WithoutQuotesJoin(g3 + [QUOTE] + g2 + [QUOTE] + g1 + [QUOTE], g0);
    DigitGroups(uid);
  }

  lemma SeparatorDropped()
    ensures WithoutQuotes([QUOTE]) == []
  {
    assert [QUOTE][..0] == [];
  }

  lemma DigitGroups(uid: UID)
    ensures Hex(uid, 16) == Group(uid, 3) + Group(uid, 2) + Group(uid, 1) + Group(uid, 0)
  {
    hide Hex;
    var a, b := uid / 0x1_0000, uid / 0x1_0000_0000;
    assert a / 0x1_0000 == b && b / 0x1_0000 == uid / 0x1_0000_0000_0000;
    assert uid / 0x1_0000_0000_0000 % 0x1_0000 == uid / 0x1_0000_0000_0000;
    HexByFour(uid, 12);
    HexByFour(a, 8);
    HexByFour(b, 4);
  }

  lemma {:induction false} AllLeading(t: Text)
    requires AllDigits(t)
    ensures LeadingDigits(t) == t
  {
    if t != [] {
      AllLeading(t[1..]);
    }
  }

  lemma Pow16Of16()
    ensures Pow16(16) == TWO_TO_64
  {
    assert Pow16(4) == 65536;
    assert Pow16(8) == 65536 * 65536;
    assert Pow16(12) == 65536 * 65536 * 65536;
  }

  /** Digits parse to their value wherever separators stand between them, unless the value exceeds 64 bits. */
  lemma DigitsParse(t: Text)
    requires AllDigits(WithoutQuotes(t)) && WithoutQuotes(t) != []
    ensures ParseUid(t) ==
      if HexValue(WithoutQuotes(t)) < TWO_TO_64 then Ok(HexValue(WithoutQuotes(t))) else Err(OutOfRange)
  {
    hide HexValue, LeadingDigits, WithoutQuotes;
    var s := WithoutQuotes(t);
    AllLeading(s);
    assert DigitValue(s[0]).Some?;
    assert SkipSpaces(s) == s;
  }

  /** Parsing undoes printing for every UID. */
  lemma UidTextRoundTrip(uid: UID)
    ensures ParseUid(UidToText(uid)) == Ok(uid)
  {
    hide Hex, HexValue, WithoutQuotes, Pow16, ParseUid;
    PrintedDigits(uid);
    Pow16Of16();
    HexRoundTrip(uid, 16);
    DigitsParse(UidToText(uid));
  }

  //
  // Byte strings
  //

  /** BytesToJSON: digits with separators, or the bytes as characters. */
  function BytesToText(bytes: seq<byte>, asString: bool): Text {
    if bytes == [] then []
    else if asString then [bytes[0] as char] + BytesToText(bytes[1..], true)
    else Hex(bytes[0], 2) + (if |bytes| > 1 then [QUOTE] else []) + BytesToText(bytes[1..], false)
  }

  /** std::stoul of a chunk of two characters in base 16, which must be used up. */
  function ParseChunk(c: Octet, d: Octet): Option<byte> {
    if DigitValue(d).None? then None
    else if DigitValue(c).Some? then Some(16 * DigitValue(c).value + DigitValue(d).value)
    else if c == '+' || IsSpace(c) then Some(DigitValue(d).value)
    else if c == '-' then Some((256 - DigitValue(d).value) % 256)
    else None
  }

  function Prefixed(b: byte, r: Result<seq<byte>>): Result<seq<byte>> {
    if r.Err? then r else Ok([b] + r.value)
  }

  /** JSONToBytes, from the text on. */
  function TextToBytes(t: Text, asString: bool): Result<seq<byte>> {
    if t == [] then Ok([])
    else if asString then Prefixed(t[0] as int, TextToBytes(t[1..], true))
    else if t[0] == QUOTE then TextToBytes(t[1..], false)
    else if |t| < 2 then Err(InvalidFormat)
    else if ParseChunk(t[0], t[1]).None? then Err(InvalidFormat)
    else Prefixed(ParseChunk(t[0], t[1]).value, TextToBytes(t[2..], false))
  }

  lemma HexStep(high: nat, low: nat, count: nat)
    requires low < 16
    ensures Hex(16 * high + low, count + 1) == Hex(high, count) + [Digit(low)]
  {
    assert (16 * high + low) % 16 == low && (16 * high + low) / 16 == high;
  }

  lemma TwoDigits(high: nat, low: nat)
    requires high < 16 && low < 16
    ensures Hex(16 * high + low, 2) == [Digit(high), Digit(low)]
  {
    hide Hex, Digit;
    HexStep(high, low, 1);
    HexStep(0, high, 0);
    assert Hex(0, 0) == [];
  }

  lemma DigitsChunk(high: nat, low: nat)
    requires high < 16 && low < 16
    ensures ParseChunk(Digit(high), Digit(low)) == Some(16 * high + low)
  {
    hide Digit, DigitValue, IsSpace;
  }

  lemma ByteDigits(b: byte)
    ensures Hex(b, 2) == [Digit(b / 16), Digit(b % 16)]
    ensures ParseChunk(Digit(b / 16), Digit(b % 16)) == Some(b)
  {
    hide Digit, DigitValue, Hex, ParseChunk;
    TwoDigits(b / 16, b % 16);
    DigitsChunk(b / 16, b % 16);
  }

  lemma ReadChunk(c: Octet, d: Octet, b: byte, rest: Text)
    requires c != QUOTE && ParseChunk(c, d) == Some(b)
    ensures TextToBytes([c, d] + rest, false) == Prefixed(b, TextToBytes(rest, false))
  {
    hide ParseChunk;
    var t := [c, d] + rest;
    assert t[0] == c && t[1] == d && t[2..] == rest;
  }

  lemma ReadSeparator(rest: Text)
    ensures TextToBytes([QUOTE] + rest, false) == TextToBytes(rest, false)
  {
    assert ([QUOTE] + rest)[1..] == rest;
  }

  lemma ReadCharacter(c: Octet, rest: Text)
    ensures TextToBytes([c] + rest, true) == Prefixed(c as int, TextToBytes(rest, true))
  {
    assert ([c] + rest)[1..] == rest;
  }

  /** Reading undoes printing for every byte string, as text or as digits. */
  lemma {:induction false} BytesTextRoundTrip(bytes: seq<byte>, asString: bool)
    ensures TextToBytes(BytesToText(bytes, asString), asString) == Ok(bytes)
    decreases |bytes|
  {
    hide Hex, Digit, DigitValue, ParseChunk, TextToBytes;
    if bytes == [] {
      NothingToRead(asString);
    } else {
      BytesTextRoundTrip(bytes[1..], asString);
      assert [bytes[0]] + bytes[1..] == bytes;
      var rest := BytesToText(bytes[1..], asString);
      if asString {
        ReadCharacter(bytes[0] as char, rest);
      } else {
        ByteDigits(bytes[0]);
        var c, d := Digit(bytes[0] / 16), Digit(bytes[0] % 16);
        ReadSeparator(rest);
        AppendAssociates([c, d], if |bytes| > 1 then [QUOTE] else [], rest);
        assert [] + rest == rest;
        ReadChunk(c, d, bytes[0], (if |bytes| > 1 then [QUOTE] else []) + rest);
      }
    }
  }

  lemma NothingToRead(asString: bool)
    ensures TextToBytes([], asString) == Ok([])
  {
  }

  lemma {:induction false} BytesToTextSnoc(bytes: seq<byte>, b: byte)
    ensures BytesToText(bytes + [b], true) == BytesToText(bytes, true) + [b as char]
    ensures BytesToText(bytes + [b], false)
            == BytesToText(bytes, false) + (if bytes != [] then [QUOTE] else []) + Hex(b, 2)
    decreases |bytes|
  {
    if bytes == [] {
      assert ([] + [b])[1..] == [];
    } else {
      assert (bytes + [b])[1..] == bytes[1..] + [b];
      BytesToTextSnoc(bytes[1..], b);
    }
  }

  /** The loop of BytesToJSON writes the separator behind every byte but the last. */
  method FormatBytes(bytes: seq<byte>, asString: bool) returns (rep: Text)
    ensures rep == BytesToText(bytes, asString)
  {
    hide Hex;
    rep := [];
    for i := 0 to |bytes|
      invariant rep == BytesToText(bytes[..i], asString) + if !asString && 0 < i < |bytes| then [QUOTE] else []
    {
      BytesToTextSnoc(bytes[..i], bytes[i]);
      assert bytes[..i + 1] == bytes[..i] + [bytes[i]];
      if !asString {
        rep := rep + Hex(bytes[i], 2);
        if i != |bytes| - 1 {
          rep := rep + [QUOTE];
        }
      } else {
        rep := rep + [bytes[i] as char];
      }
    }
    assert bytes[..|bytes|] == bytes;
  }

  /** The loop of JSONToBytes. */
  method ReadBytes(str: Text, asString: bool) returns (r: Result<seq<byte>>)
    ensures r == TextToBytes(str, asString)
  {
    if asString {
      r := AsBytes(str);
      return;
    }
    var bytes: seq<byte> := [];
    var pos := 0;
    JoinNone(TextToBytes(str, false));
    assert str[0..] == str;
    while pos != |str|
      invariant pos <= |str|
      invariant TextToBytes(str, false) == Join(bytes, TextToBytes(str[pos..], false))
      decreases |str| - pos
    {
      if str[pos] == QUOTE {
        assert str[pos..][1..] == str[pos + 1..];
        pos := pos + 1;
        continue;
      }
      if pos + 1 == |str| {
        return Err(InvalidFormat);
      }
      var value := ParseChunk(str[pos], str[pos + 1]);
      assert str[pos..][1] == str[pos + 1];
      if value.None? {
        return Err(InvalidFormat);
      }
      assert str[pos..][2..] == str[pos + 2..];
      JoinedPrefixed(bytes, value.value, TextToBytes(str[pos + 2..], false));
      bytes := bytes + [value.value];
      pos := pos + 2;
    }
    assert bytes + [] == bytes;
    r := Ok(bytes);
  }

  lemma JoinedPrefixed(a: seq<byte>, b: byte, r: Result<seq<byte>>)
    ensures Join(a, Prefixed(b, r)) == Join(a + [b], r)
  {
    if r.Ok? {
      assert a + ([b] + r.value) == a + [b] + r.value;
    }
  }

  function Codes(str: Text): (bytes: seq<byte>)
    ensures |bytes| == |str| && forall i :: 0 <= i < |str| ==> bytes[i] == str[i] as int
  {
    seq(|str|, i requires 0 <= i < |str| => str[i] as int)
  }

  method AsBytes(str: Text) returns (r: Result<seq<byte>>)
    ensures r == TextToBytes(str, true)
  {
    CharactersAreBytes(str);
    r := Ok(Codes(str));
  }

  lemma {:induction false} CharactersAreBytes(str: Text)
    ensures TextToBytes(str, true) == Ok(Codes(str))
  {
    if str != [] {
      CharactersAreBytes(str[1..]);
      assert [str[0] as int] + Codes(str[1..]) == Codes(str);
    }
  }
}
