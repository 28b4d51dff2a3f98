/**
 * How byte strings and UIDs are spelled, place by place: what the printers and readers of hexadecimal text come to
 * (UID.cpp, BytesToJSON and JSONToBytes in ValueToJSON.cpp).
 */
module Spelling {
  import opened Common
  import opened Methods
  import opened UidText

  //
  // Digits
  //

  const UPPER: Text := "0123456789ABCDEF"
  const LOWER: Text := "0123456789abcdef"

  predicate UpperDigit(c: Octet, d: nat) {
    d < 16 && c == UPPER[d]
  }

  /** A digit of either case. */
  predicate AnyDigit(c: Octet, d: nat) {
    d < 16 && (c == UPPER[d] || c == LOWER[d])
  }

  lemma PrintedDigit(d: nat)
    requires d < 16
    ensures UpperDigit(Digit(d), d)
  {
  }

  lemma ReadDigit(c: Octet, d: nat)
    ensures DigitValue(c) == Some(d) <==> AnyDigit(c, d)
  {
  }

  //
  // Byte strings
  //

  /** One character for each byte, with that code. */
  predicate SpellsCharacters(t: Text, bytes: seq<byte>) {
    |t| == |bytes| && forall i :: 0 <= i < |bytes| ==> t[i] as int == bytes[i]
  }

  /** Two upper-case digits for each byte, the higher first, and a quote between each two bytes. */
  predicate SpellsDigits(t: Text, bytes: seq<byte>) {
    && |t| == (if |bytes| == 0 then 0 else 3 * |bytes| - 1)
    && forall i :: 0 <= i < |bytes| ==>
         && UpperDigit(t[3 * i], bytes[i] / 16) && UpperDigit(t[3 * i + 1], bytes[i] % 16)
         && (i + 1 < |bytes| ==> t[3 * i + 2] == '\'')
  }

  lemma {:induction false} CharactersPrinted(bytes: seq<byte>)
    ensures SpellsCharacters(BytesToText(bytes, true), bytes)
  {
    if bytes != [] {
      CharactersPrinted(bytes[1..]);
      var rest := BytesToText(bytes[1..], true);
      assert BytesToText(bytes, true) == [bytes[0] as char] + rest;
      assert forall i :: 0 < i < |bytes| ==> bytes[i] == bytes[1..][i - 1];
    }
  }

  lemma {:induction false} DigitsPrinted(bytes: seq<byte>)
    ensures SpellsDigits(BytesToText(bytes, false), bytes)
  {
    hide Hex, Digit, UpperDigit;
    if bytes != [] {
      var t, rest, tail := BytesToText(bytes, false), BytesToText(bytes[1..], false), bytes[1..];
      DigitsPrinted(tail);
      ByteDigits(bytes[0]);
      PrintedDigit(bytes[0] / 16);
      PrintedDigit(bytes[0] % 16);
      var front := [Digit(bytes[0] / 16), Digit(bytes[0] % 16)] + if |bytes| > 1 then [QUOTE] else [];
      assert t == front + rest;
      if |bytes| > 1 {
        DigitsFollow(bytes, front, rest);
      }
    }
  }

  lemma DigitsFollow(bytes: seq<byte>, front: Text, rest: Text)
    requires |bytes| > 1 && |front| == 3 && front[2] == '\'' && SpellsDigits(rest, bytes[1..])
    requires UpperDigit(front[0], bytes[0] / 16) && UpperDigit(front[1], bytes[0] % 16)
    ensures SpellsDigits(front + rest, bytes)
  {
    hide UpperDigit;
    forall i | 0 < i < |bytes|
      ensures UpperDigit((front + rest)[3 * i], bytes[i] / 16) && UpperDigit((front + rest)[3 * i + 1], bytes[i] % 16)
      ensures i + 1 < |bytes| ==> (front + rest)[3 * i + 2] == '\''
    {
      DigitFollows(bytes[1..], front, rest, i - 1);
    }
  }

  lemma DigitFollows(tail: seq<byte>, front: Text, rest: Text, k: nat)
    requires |front| == 3 && SpellsDigits(rest, tail) && k < |tail|
    ensures var t := front + rest;
      && 3 * k + 4 < |t| && UpperDigit(t[3 * k + 3], tail[k] / 16) && UpperDigit(t[3 * k + 4], tail[k] % 16)
      && (k + 1 < |tail| ==> t[3 * k + 5] == '\'')
  {
    hide UpperDigit;
    var t := front + rest;
    assert UpperDigit(rest[3 * k], tail[k] / 16) && UpperDigit(rest[3 * k + 1], tail[k] % 16);
    assert t[3 * k + 3] == rest[3 * k] && t[3 * k + 4] == rest[3 * k + 1];
    assert k + 1 < |tail| ==> t[3 * k + 5] == rest[3 * k + 2];
  }

  /** Each byte string has one spelling of each form. */
  lemma SpelledOnce(t: Text, u: Text, bytes: seq<byte>)
    ensures SpellsCharacters(t, bytes) && SpellsCharacters(u, bytes) ==> t == u
    ensures SpellsDigits(t, bytes) && SpellsDigits(u, bytes) ==> t == u
  {
    if SpellsDigits(t, bytes) && SpellsDigits(u, bytes) {
      forall p | 0 <= p < |t| ensures t[p] == u[p] {
        var i := p / 3;
        assert bytes[i] / 16 < 16;
        assert p == 3 * i || p == 3 * i + 1 || (p == 3 * i + 2 && i + 1 < |bytes|);
      }
    }
  }

  /** The printed text is the one with these characters, or these digits, and no other. */
  lemma PrintedIff(bytes: seq<byte>, t: Text)
    ensures BytesToText(bytes, true) == t <==> SpellsCharacters(t, bytes)
    ensures BytesToText(bytes, false) == t <==> SpellsDigits(t, bytes)
  {
    hide BytesToText, SpellsCharacters, SpellsDigits;
    CharactersPrinted(bytes);
    DigitsPrinted(bytes);
    SpelledOnce(t, BytesToText(bytes, true), bytes);
    SpelledOnce(t, BytesToText(bytes, false), bytes);
  }

  /**
   * Two characters as std::stoul reads them in base 16 when it has to use both: a plus sign or white space in place of
   * the first digit counts for nothing, and a minus sign negates, of which the cast to a byte keeps the low eight bits.
   */
  ghost predicate IsChunk(c: Octet, d: Octet, b: byte) {
    exists low: nat :: AnyDigit(d, low) &&
      (|| (exists high: nat :: AnyDigit(c, high) && b == 16 * high + low)
       || ((c == '+' || c == ' ' || 9 <= c as int <= 13) && b == low)
       || (c == '-' && b == if low == 0 then 0 else 256 - low))
  }

  lemma ChunkIff(c: Octet, d: Octet, b: byte)
    ensures ParseChunk(c, d) == Some(b) <==> IsChunk(c, d, b)
  {
    hide DigitValue, AnyDigit;
    forall k: nat ensures DigitValue(c) == Some(k) <==> AnyDigit(c, k)
      ensures DigitValue(d) == Some(k) <==> AnyDigit(d, k)
    {
      ReadDigit(c, k);
      ReadDigit(d, k);
    }
    SignsAreNoDigits(c);
    if ParseChunk(c, d) == Some(b) {
      assert AnyDigit(d, DigitValue(d).value);
      if DigitValue(c).Some? {
        assert AnyDigit(c, DigitValue(c).value);
      }
    }
  }

  lemma SignsAreNoDigits(c: Octet)
    ensures c == '+' || c == '-' || IsSpace(c) ==> DigitValue(c).None? && c != QUOTE
    ensures !(c == '+' && IsSpace(c)) && !(c == '-' && (c == '+' || IsSpace(c)))
  {
  }

  /** Here chunks start, with these bytes. */
  ghost predicate AtChunks(t: Text, starts: seq<nat>, bytes: seq<byte>) {
    && |starts| == |bytes|
    && forall i :: 0 <= i < |starts| ==>
         starts[i] + 2 <= |t| && t[starts[i]] != '\'' && IsChunk(t[starts[i]], t[starts[i] + 1], bytes[i])
  }

  /** They do not overlap. */
  predicate Apart(starts: seq<nat>) {
    forall i, j :: 0 <= i < j < |starts| ==> starts[i] + 2 <= starts[j]
  }

  predicate Uncovered(starts: seq<nat>, p: nat) {
    forall i :: 0 <= i < |starts| ==> p < starts[i] || starts[i] + 2 <= p
  }

  /** And there is nothing but quotes elsewhere. */
  predicate QuotesElsewhere(t: Text, starts: seq<nat>) {
    forall p: nat :: p < |t| && Uncovered(starts, p) ==> t[p] == '\''
  }

  /** The text consists of chunks with these bytes, and quotes between them, around them, or nowhere. */
  ghost predicate ReadsAs(t: Text, bytes: seq<byte>) {
    exists starts :: AtChunks(t, starts, bytes) && Apart(starts) && QuotesElsewhere(t, starts)
  }

  function Shifted(starts: seq<nat>, width: nat): (r: seq<nat>)
    ensures |r| == |starts| && forall i :: 0 <= i < |starts| ==> r[i] == starts[i] + width
  {
    seq(|starts|, i requires 0 <= i < |starts| => starts[i] + width)
  }

  lemma Unshifted(starts: seq<nat>, width: nat) returns (back: seq<nat>)
    requires forall i :: 0 <= i < |starts| ==> starts[i] >= width
    ensures starts == Shifted(back, width)
  {
    back := seq(|starts|, i requires 0 <= i < |starts| => starts[i] - width);
  }

  lemma ShiftedChunks(t: Text, starts: seq<nat>, width: nat, bytes: seq<byte>)
    requires width <= |t|
    ensures AtChunks(t, Shifted(starts, width), bytes) <==> AtChunks(t[width..], starts, bytes)
    ensures Apart(Shifted(starts, width)) <==> Apart(starts)
  {
    hide IsChunk;
    var u, moved := t[width..], Shifted(starts, width);
    assert forall i :: 0 <= i < |starts| && starts[i] + 2 <= |u| ==>
        u[starts[i]] == t[moved[i]] && u[starts[i] + 1] == t[moved[i] + 1];
    assert forall i :: 0 <= i < |starts| ==> starts[i] == moved[i] - width;
  }

  lemma ShiftedCover(starts: seq<nat>, width: nat, p: nat)
    requires p >= width
    ensures Uncovered(Shifted(starts, width), p) <==> Uncovered(starts, p - width)
  {
    var moved := Shifted(starts, width);
    assert forall i :: 0 <= i < |starts| ==> starts[i] == moved[i] - width;
  }

  lemma QuotesBehind(t: Text, starts: seq<nat>, width: nat)
    requires width <= |t|
    ensures QuotesElsewhere(t[width..], starts) <==>
      forall p: nat :: width <= p < |t| && Uncovered(Shifted(starts, width), p) ==> t[p] == '\''
  {
    hide Uncovered, Shifted;
    var u := t[width..];
    forall p: nat | width <= p ensures Uncovered(Shifted(starts, width), p) <==> Uncovered(starts, p - width) {
      ShiftedCover(starts, width, p);
    }
    assert forall p: nat :: width <= p < |t| ==> t[p] == u[p - width];
    assert forall q: nat :: q < |u| ==> u[q] == t[q + width] && q == q + width - width;
    if QuotesElsewhere(u, starts) {
      forall p: nat | width <= p < |t| && Uncovered(Shifted(starts, width), p) ensures t[p] == '\'' {
        assert Uncovered(starts, p - width);
      }
    } else {
      var q: nat :| q < |u| && Uncovered(starts, q) && u[q] != '\'';
      assert Uncovered(Shifted(starts, width), q + width);
    }
  }

  /** A quote in front. */
  lemma QuoteInFront(t: Text, bytes: seq<byte>)
    requires t != [] && t[0] == QUOTE
    ensures ReadsAs(t, bytes) <==> ReadsAs(t[1..], bytes)
  {
    hide IsChunk, Apart, Uncovered;
    if starts :| AtChunks(t, starts, bytes) && Apart(starts) && QuotesElsewhere(t, starts) {
      assert forall i :: 0 <= i < |starts| ==> starts[i] != 0;
      var back := Unshifted(starts, 1);
      ShiftedChunks(t, back, 1, bytes);
      QuotesBehind(t, back, 1);
    }
    if starts :| AtChunks(t[1..], starts, bytes) && Apart(starts) && QuotesElsewhere(t[1..], starts) {
      ShiftedChunks(t, starts, 1, bytes);
      QuotesBehind(t, starts, 1);
      assert QuotesElsewhere(t, Shifted(starts, 1));
    }
  }

  /** The chunks of a text that starts with one. */
  lemma ChunkFirst(t: Text, behind: seq<nat>, bytes: seq<byte>)
    requires |t| >= 2 && t[0] != QUOTE && bytes != [] && IsChunk(t[0], t[1], bytes[0])
    ensures var starts := [0] + Shifted(behind, 2);
      (AtChunks(t, starts, bytes) && Apart(starts) && QuotesElsewhere(t, starts))
      <==> (AtChunks(t[2..], behind, bytes[1..]) && Apart(behind) && QuotesElsewhere(t[2..], behind))
  {
    hide IsChunk, AtChunks, Apart, Uncovered, QuotesElsewhere, Shifted;
    ShiftedChunks(t, behind, 2, bytes[1..]);
    QuotesBehind(t, behind, 2);
    FirstOfChunks(t, Shifted(behind, 2), bytes);
    FirstApart(Shifted(behind, 2));
    FirstCovers(t, behind);
  }

  lemma FirstOfChunks(t: Text, starts: seq<nat>, bytes: seq<byte>)
    requires |t| >= 2 && t[0] != QUOTE && bytes != [] && IsChunk(t[0], t[1], bytes[0])
    ensures AtChunks(t, [0] + starts, bytes) <==> AtChunks(t, starts, bytes[1..])
  {
    hide IsChunk;
    var all := [0] + starts;
    assert forall i :: 0 <= i < |starts| ==> starts[i] == all[i + 1];
    assert forall i :: 0 < i < |all| ==> all[i] == starts[i - 1];
    assert forall i :: 0 < i < |bytes| ==> bytes[i] == bytes[1..][i - 1];
  }

  lemma FirstApart(rest: seq<nat>)
    requires forall i :: 0 <= i < |rest| ==> rest[i] >= 2
    ensures Apart([0] + rest) <==> Apart(rest)
  {
    var starts := [0] + rest;
    if Apart(starts) {
      forall i, j | 0 <= i < j < |rest| ensures rest[i] + 2 <= rest[j] {
        assert starts[i + 1] + 2 <= starts[j + 1];
      }
    }
  }

  lemma FirstCovers(t: Text, behind: seq<nat>)
    ensures QuotesElsewhere(t, [0] + Shifted(behind, 2)) <==>
      forall p: nat :: 2 <= p < |t| && Uncovered(Shifted(behind, 2), p) ==> t[p] == '\''
  {
    var rest := Shifted(behind, 2);
    var starts := [0] + rest;
    forall p: nat ensures Uncovered(starts, p) <==> p >= 2 && Uncovered(rest, p) {
      assert starts[0] == 0;
      assert forall i :: 0 < i < |starts| ==> starts[i] == rest[i - 1];
      assert forall i :: 0 <= i < |rest| ==> rest[i] == starts[i + 1];
    }
  }

  /** A text that does not start with a quote starts with a chunk. */
  lemma StartsWithChunk(t: Text, starts: seq<nat>, bytes: seq<byte>) returns (behind: seq<nat>)
    requires t != [] && t[0] != QUOTE
    requires AtChunks(t, starts, bytes) && Apart(starts) && QuotesElsewhere(t, starts)
    ensures |t| >= 2 && bytes != [] && IsChunk(t[0], t[1], bytes[0]) && starts == [0] + Shifted(behind, 2)
  {
    hide IsChunk;
    assert !Uncovered(starts, 0);
    var i :| 0 <= i < |starts| && starts[i] == 0;
    assert i == 0;
    behind := Unshifted(starts[1..], 2);
    assert starts == [0] + starts[1..];
  }

  /** A chunk in front. */
  lemma ChunkInFront(t: Text, bytes: seq<byte>)
    requires t != [] && t[0] != QUOTE
    ensures ReadsAs(t, bytes) <==>
      |t| >= 2 && bytes != [] && IsChunk(t[0], t[1], bytes[0]) && ReadsAs(t[2..], bytes[1..])
  {
    hide IsChunk, AtChunks, Apart, Uncovered, QuotesElsewhere, Shifted;
    if starts :| AtChunks(t, starts, bytes) && Apart(starts) && QuotesElsewhere(t, starts) {
      var behind := StartsWithChunk(t, starts, bytes);
      ChunkFirst(t, behind, bytes);
    }
    if |t| >= 2 && bytes != [] && IsChunk(t[0], t[1], bytes[0]) && ReadsAs(t[2..], bytes[1..]) {
      var behind :| AtChunks(t[2..], behind, bytes[1..]) && Apart(behind) && QuotesElsewhere(t[2..], behind);
      ChunkFirst(t, behind, bytes);
    }
  }

  lemma NothingReads(bytes: seq<byte>)
    ensures ReadsAs([], bytes) <==> bytes == []
  {
    hide IsChunk;
    if bytes == [] {
      assert AtChunks([], [], bytes) && Apart([]) && QuotesElsewhere([], []);
    } else {
      forall starts: seq<nat> ensures !AtChunks([], starts, bytes) {
        NoChunks(starts, bytes);
      }
    }
  }

  lemma NoChunks(starts: seq<nat>, bytes: seq<byte>)
    requires bytes != []
    ensures !AtChunks([], starts, bytes)
  {
    if starts != [] {
      var first := starts[0];
      assert first + 2 > 0;
    }
  }

  /** Text of digits is read as these bytes exactly if it consists of chunks with these bytes and of quotes. */
  lemma {:induction false} DigitsReadIff(t: Text, bytes: seq<byte>)
    ensures TextToBytes(t, false) == Ok(bytes) <==> ReadsAs(t, bytes)
    decreases |t|
  {
    hide IsChunk, ParseChunk, ReadsAs;
    if t == [] {
      NothingReads(bytes);
    } else if t[0] == QUOTE {
      QuoteInFront(t, bytes);
      DigitsReadIff(t[1..], bytes);
    } else {
      ChunkInFront(t, bytes);
      if |t| >= 2 {
        if bytes != [] {
          ChunkIff(t[0], t[1], bytes[0]);
          DigitsReadIff(t[2..], bytes[1..]);
          assert bytes == [bytes[0]] + bytes[1..];
        }
      }
    }
  }

  lemma CharactersReadIff(t: Text, bytes: seq<byte>)
    ensures TextToBytes(t, true) == Ok(bytes) <==> SpellsCharacters(t, bytes)
  {
    CharactersAreBytes(t);
    assert SpellsCharacters(t, bytes) ==> bytes == Codes(t);
  }

  //
  // UIDs
  //

  /** Four upper-case digits of a number below 65,536, the highest first. */
  predicate SpellsWord(t: Text, at: nat, n: nat)
    requires at + 4 <= |t|
  {
    && UpperDigit(t[at], n / 0x1000) && UpperDigit(t[at + 1], n / 0x100 % 16)
    && UpperDigit(t[at + 2], n / 0x10 % 16) && UpperDigit(t[at + 3], n % 16)
  }

  /** Four words with quotes between them, the highest first. */
  predicate SpellsUid(t: Text, uid: UID) {
    && |t| == 19 && t[4] == '\'' && t[9] == '\'' && t[14] == '\''
    && SpellsWord(t, 0, uid / 0x1_0000_0000_0000) && SpellsWord(t, 5, uid / 0x1_0000_0000 % 0x1_0000)
    && SpellsWord(t, 10, uid / 0x1_0000 % 0x1_0000) && SpellsWord(t, 15, uid % 0x1_0000)
  }

  lemma FourDigits(n: nat)
    requires n < 0x1_0000
    ensures n == 0x1000 * (n / 0x1000) + 0x100 * (n / 0x100 % 16) + 0x10 * (n / 0x10 % 16) + n % 16
    ensures n / 0x1000 < 16
  {
    assert n / 16 / 16 == n / 256 && n / 256 / 16 == n / 4096;
  }

  lemma WordSpelled(n: nat)
    requires n < 0x1_0000
    ensures SpellsWord(Hex(n, 4), 0, n)
  {
    hide Hex, Digit, UpperDigit;
    FourDigits(n);
    var d, c, b, a := n / 0x1000, n / 0x100 % 16, n / 0x10 % 16, n % 16;
    LastFour(n, a, b, c, d);
    PrintedDigit(a);
    PrintedDigit(b);
    PrintedDigit(c);
    PrintedDigit(d);
  }

  /** A UID is printed as its sixteen digits, each at its place. */
  lemma UidSpelled(uid: UID)
    ensures SpellsUid(UidToText(uid), uid)
  {
    hide UpperDigit, Hex;
    assert uid / 0x1_0000_0000_0000 % 0x1_0000 == uid / 0x1_0000_0000_0000 && uid / 1 % 0x1_0000 == uid % 0x1_0000;
    WordSpelled(uid / 0x1_0000_0000_0000);
    WordSpelled(uid / 0x1_0000_0000 % 0x1_0000);
    WordSpelled(uid / 0x1_0000 % 0x1_0000);
    WordSpelled(uid % 0x1_0000);
    GroupsInPlace(Group(uid, 3), Group(uid, 2), Group(uid, 1), Group(uid, 0));
  }

  lemma GroupsInPlace(a: Text, b: Text, c: Text, d: Text)
    requires |a| == |b| == |c| == |d| == 4
    ensures var t := a + [QUOTE] + b + [QUOTE] + c + [QUOTE] + d;
      && |t| == 19 && t[4] == t[9] == t[14] == QUOTE
      && (forall i :: 0 <= i < 4 ==> t[i] == a[i] && t[5 + i] == b[i] && t[10 + i] == c[i] && t[15 + i] == d[i])
  {
  }

  lemma WordSpelledOnce(t: Text, u: Text, at: nat, n: nat)
    requires at + 4 <= |t| && at + 4 <= |u| && SpellsWord(t, at, n) && SpellsWord(u, at, n)
    ensures t[at..at + 4] == u[at..at + 4]
  {
  }

  /** There is one such text for each UID. */
  lemma UidSpelledOnce(t: Text, uid: UID)
    ensures UidToText(uid) == t <==> SpellsUid(t, uid)
  {
    hide UidToText, SpellsWord;
    UidSpelled(uid);
    var u := UidToText(uid);
    if SpellsUid(t, uid) {
      WordSpelledOnce(t, u, 0, uid / 0x1_0000_0000_0000);
      WordSpelledOnce(t, u, 5, uid / 0x1_0000_0000 % 0x1_0000);
      WordSpelledOnce(t, u, 10, uid / 0x1_0000 % 0x1_0000);
      WordSpelledOnce(t, u, 15, uid % 0x1_0000);
      FourParts(t);
      FourParts(u);
    }
  }

  lemma FourParts(t: Text)
    requires |t| == 19
    ensures t == t[0..4] + [t[4]] + t[5..9] + [t[9]] + t[10..14] + [t[14]] + t[15..19]
  {
  }

  /** A numeral of base 16 as std::stoull takes it. */
  predicate IsNumeral(t: Text, spaces: Text, sign: Text, prefix: Text, digits: Text) {
    && t == spaces + sign + prefix + digits
    && (forall i :: 0 <= i < |spaces| ==> spaces[i] == ' ' || 9 <= spaces[i] as int <= 13)
    && sign in {"", "+", "-"} && prefix in {"", "0x", "0X"}
    && digits != [] && AllDigits(digits)
  }

  /** The number, without the sign, has 64 bits; the sign negates it in them. */
  ghost predicate ReadsNumber(t: Text, n: uint64) {
    exists spaces, sign, prefix, digits ::
      && IsNumeral(t, spaces, sign, prefix, digits)
      && HexValue(digits) < TWO_TO_64
      && n == if sign == "-" && HexValue(digits) > 0 then TWO_TO_64 - HexValue(digits) else HexValue(digits)
  }

  lemma {:induction false} SpacesSkipped(t: Text)
    ensures var r := SkipSpaces(t);
      && t == t[..|t| - |r|] + r && (forall i :: 0 <= i < |t| - |r| ==> IsSpace(t[i])) && (r != [] ==> !IsSpace(r[0]))
  {
    if t != [] && IsSpace(t[0]) {
      SpacesSkipped(t[1..]);
      var r := SkipSpaces(t);
      assert t[1..] == t[1..][..|t| - 1 - |r|] + r;
      assert forall i :: 0 < i < |t| - |r| ==> t[i] == t[1..][i - 1];
    }
  }

  lemma {:induction false} SpacesInFront(spaces: Text, t: Text)
    requires forall i :: 0 <= i < |spaces| ==> IsSpace(spaces[i])
    requires t != [] && !IsSpace(t[0])
    ensures SkipSpaces(spaces + t) == t
  {
    if spaces == [] {
      assert spaces + t == t;
    } else {
      SpacesInFront(spaces[1..], t);
      assert (spaces + t)[1..] == spaces[1..] + t;
    }
  }

  lemma NumeralParses(t: Text, spaces: Text, sign: Text, prefix: Text, digits: Text)
    requires IsNumeral(t, spaces, sign, prefix, digits)
    ensures ParseHex(t) ==
      if HexValue(digits) >= TWO_TO_64 then Err(OutOfRange)
      else Ok(if sign == "-" then (TWO_TO_64 - HexValue(digits)) % TWO_TO_64 else HexValue(digits))
  {
    hide HexValue, LeadingDigits, SkipSpaces, HasPrefix, DigitValue;
    var unsigned := prefix + digits;
    Regroup(spaces, sign, prefix, digits);
    FirstDigit(digits);
    SignTaken(sign, unsigned, digits[0], prefix);
    SpacesInFront(spaces, sign + unsigned);
    PrefixTaken(prefix, digits);
    AllLeading(digits);
  }

  lemma FirstDigit(digits: Text)
    requires digits != [] && AllDigits(digits)
    ensures DigitValue(digits[0]).Some? && !IsSpace(digits[0]) && digits[0] !in {'+', '-', 'x', 'X'}
  {
  }

  /** In front of a number stands its sign, or none. */
  lemma SignTaken(sign: Text, unsigned: Text, digit: Octet, prefix: Text)
    requires sign in {"", "+", "-"} && prefix in {"", "0x", "0X"} && unsigned != []
    requires unsigned[0] == if prefix == "" then digit else '0'
    requires !IsSpace(digit) && digit !in {'+', '-'}
    ensures var s := sign + unsigned;
      && s != [] && !IsSpace(s[0])
      && (s[0] == '-' <==> sign == "-") && (s[0] in {'+', '-'} <==> sign != "")
      && (if s[0] in {'+', '-'} then s[1..] else s) == unsigned
  {
    var s := sign + unsigned;
    if sign == "" {
      assert s == unsigned;
    } else {
      assert |sign| == 1 && s[0] == sign[0] && s[1..] == unsigned;
    }
  }

  lemma PrefixTaken(prefix: Text, digits: Text)
    requires prefix in {"", "0x", "0X"} && digits != [] && AllDigits(digits)
    ensures var unsigned := prefix + digits;
      (if HasPrefix(unsigned) then unsigned[2..] else unsigned) == digits
  {
    var unsigned := prefix + digits;
    if prefix == "" {
      assert unsigned == digits;
      assert |digits| > 1 ==> DigitValue(digits[1]).Some?;
    } else {
      assert |prefix| == 2 && unsigned[0] == prefix[0] && unsigned[1] == prefix[1] && unsigned[2] == digits[0];
      assert unsigned[2..] == digits;
    }
  }

  lemma NumeralIsRead(t: Text, n: uint64)
    requires ReadsNumber(t, n)
    ensures ParseHex(t) == Ok(n)
  {
    hide HexValue, ParseHex;
    var spaces, sign, prefix, digits :|
      && IsNumeral(t, spaces, sign, prefix, digits)
      && HexValue(digits) < TWO_TO_64
      && n == if sign == "-" && HexValue(digits) > 0 then TWO_TO_64 - HexValue(digits) else HexValue(digits);
    NumeralParses(t, spaces, sign, prefix, digits);
  }

  lemma SignPart(s: Text) returns (sign: Text, unsigned: Text)
    ensures s == sign + unsigned && sign in {"", "+", "-"}
    ensures unsigned == if s != [] && s[0] in {'+', '-'} then s[1..] else s
    ensures sign == "-" <==> s != [] && s[0] == '-'
  {
    if s != [] && s[0] in {'+', '-'} {
      sign, unsigned := [s[0]], s[1..];
    } else {
      sign, unsigned := [], s;
    }
  }

  lemma PrefixPart(unsigned: Text) returns (prefix: Text, digits: Text)
    ensures unsigned == prefix + digits && prefix in {"", "0x", "0X"}
    ensures digits == if HasPrefix(unsigned) then unsigned[2..] else unsigned
  {
    hide DigitValue;
    if HasPrefix(unsigned) {
      prefix, digits := unsigned[..2], unsigned[2..];
      assert prefix == [unsigned[0], unsigned[1]];
      assert prefix == "0x" || prefix == "0X";
    } else {
      prefix, digits := [], unsigned;
    }
  }

  /** What the parser takes apart. */
  lemma Parts(t: Text) returns (spaces: Text, sign: Text, prefix: Text, digits: Text)
    requires ParseHex(t).Ok?
    ensures IsNumeral(t, spaces, sign, prefix, digits) && HexValue(digits) < TWO_TO_64
  {
    hide HexValue, LeadingDigits, SkipSpaces, HasPrefix, DigitValue;
    var s := SkipSpaces(t);
    SpacesSkipped(t);
    spaces := t[..|t| - |s|];
    var unsigned;
    sign, unsigned := SignPart(s);
    prefix, digits := PrefixPart(unsigned);
    Regroup(spaces, sign, prefix, digits);
  }

  lemma ParsedIsNumeral(t: Text)
    requires ParseHex(t).Ok?
    ensures ReadsNumber(t, ParseHex(t).value)
  {
    hide HexValue, ParseHex;
    var spaces, sign, prefix, digits := Parts(t);
    NumeralParses(t, spaces, sign, prefix, digits);
  }

  lemma Regroup(a: Text, b: Text, c: Text, d: Text)
    ensures a + (b + (c + d)) == a + b + c + d
  {
  }

  /** Text is a UID exactly if, without its quotes, it is a numeral of base 16 that fits 64 bits. */
  lemma UidReadIff(t: Text, uid: UID)
    ensures ParseUid(t) == Ok(uid) <==> ReadsNumber(WithoutQuotes(t), uid)
  {
    hide ParseHex, WithoutQuotes, ReadsNumber;
    var s := WithoutQuotes(t);
    if ParseHex(s).Ok? {
      ParsedIsNumeral(s);
    }
    if ReadsNumber(s, uid) {
      NumeralIsRead(s, uid);
    }
  }
}
