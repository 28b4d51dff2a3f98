/** Tokens and the grammar that turns a Value into tokens and back (Value.cpp, Value.hpp, Token.cpp). */
module Tokens {
  import opened Common
  import opened FlatBinary
  import opened Values

  /** The four atom tags name a class of headers; every other tag is the header byte itself. */
  const TINY_ATOM: byte := 0x00
  const SHORT_ATOM: byte := 0x80
  const MEDIUM_ATOM: byte := 0xC0
  const LONG_ATOM: byte := 0xE0
  const START_LIST: byte := 0xF0
  const END_LIST: byte := 0xF1
  const START_NAME: byte := 0xF2
  const END_NAME: byte := 0xF3

  datatype Token = Token(tag: byte, isByte: bool, isSigned: bool, data: seq<byte>) {
    predicate IsAtom() {
      tag == TINY_ATOM || tag == SHORT_ATOM || tag == MEDIUM_ATOM || tag == LONG_ATOM
    }
  }

  /** A token that carries nothing but its tag. */
  function Control(tag: byte): Token {
    Token(tag, false, false, [])
  }

  function CommandTag(c: Command): byte {
    match c
    case CALL => 0xF8
    case END_OF_DATA => 0xF9
    case END_OF_SESSION => 0xFA
    case START_TRANSACTION => 0xFB
    case END_TRANSACTION => 0xFC
    case EMPTY => 0xFF
  }

  function CommandFromTag(tag: byte): Result<Command> {
    match tag
    case 0xF8 => Ok(CALL)
    case 0xF9 => Ok(END_OF_DATA)
    case 0xFA => Ok(END_OF_SESSION)
    case 0xFB => Ok(START_TRANSACTION)
    case 0xFC => Ok(END_TRANSACTION)
    case 0xFF => Ok(EMPTY)
    case _ => Err(InvalidArgument)
  }

  /** Token::GetTag: the smallest atom that holds the data. */
  function AtomTag(length: nat): Result<byte> {
    if length <= 15 then Ok(SHORT_ATOM)
    else if length <= 2047 then Ok(MEDIUM_ATOM)
    else if length <= MAX_ATOM then Ok(LONG_ATOM)
    else Err(InvalidArgument)
  }

  //
  // Printing
  //

  /** The token of an integer: a short atom with its two's complement bytes, all of them. */
  function IntegerToken(kind: IntKind, n: int): Token {
    Token(SHORT_ATOM, false, Signed(kind), BigEndian(ToPattern(kind, n), Width(kind)))
  }

  function BytesToken(b: seq<byte>): Result<Token> {
    var tag :- AtomTag(|b|);
    Ok(Token(tag, true, false, b))
  }

  function TokensOf(v: Value): Result<seq<Token>>
    decreases v, 1
  {
    match v
    case Empty => Err(InvalidArgument)
    case Integer(kind, n) => Ok([IntegerToken(kind, n)])
    case Cmd(c) => Ok([Control(CommandTag(c))])
    case Bytes(b) => var t :- BytesToken(b); Ok([t])
    case List(items) => var ts :- TokensOfAll(items); Ok([Control(START_LIST)] + ts + [Control(END_LIST)])
    case Named(name, value) =>
      var ns :- TokensOf(name);
      var vs :- TokensOf(value);
      Ok([Control(START_NAME)] + ns + vs + [Control(END_NAME)])
  }

  function TokensOfAll(vs: seq<Value>): Result<seq<Token>>
    decreases vs, 0
  {
    if vs == [] then Ok([])
    else
      var head :- TokensOf(vs[0]);
      var tail :- TokensOfAll(vs[1..]);
      Ok(head + tail)
  }

  //
  // Parsing
  //

  /** The kind that an integer atom of the given size and sign is read at. */
  function AtomKind(isSigned: bool, size: nat): Result<IntKind> {
    if size == 1 then Ok(if isSigned then I8 else U8)
    else if size == 2 then Ok(if isSigned then I16 else U16)
    else if 3 <= size <= 4 then Ok(if isSigned then I32 else U32)
    else if 5 <= size <= 8 then Ok(if isSigned then I64 else U64)
    else Err(InvalidArgument)
  }

  lemma AtomFits(data: seq<byte>, kind: IntKind)
    requires |data| <= Width(kind)
    ensures FromBigEndian(data) < Modulus(kind)
  {
    WriteAfterRead(data);
    PowMonotone(|data|, Width(kind));
    ModulusIsPower(kind);
  }

  /** The zero-extended bytes, bit-cast to the kind: an odd-width signed atom is not sign-extended. */
  function IntegerOf(t: Token): Result<Value> {
    var kind :- AtomKind(t.isSigned, |t.data|);
    AtomFits(t.data, kind);
    Ok(Integer(kind, FromPattern(kind, FromBigEndian(t.data))))
  }

  /** One atom or command; START_LIST and START_NAME are handled by ParseValue. */
  function ParseSimple(t: Token): Result<Value> {
    if t.IsAtom() then
      if t.isByte then
        if t.isSigned then Err(InvalidArgument) else Ok(Bytes(t.data))
      else IntegerOf(t)
    else
      var c :- CommandFromTag(t.tag);
      Ok(Cmd(c))
  }

  /** DeTokenize(Value): the value at the front and the tokens after it. */
  function ParseValue(ts: seq<Token>): (r: Result<(Value, seq<Token>)>)
    ensures r.Ok? && ts != [] ==> |r.value.1| < |ts| && r.value.1 == ts[|ts| - |r.value.1|..]
    decreases |ts|, 0
  {
    if ts == [] then Ok((Empty, ts))
    else if ts[0].tag == START_LIST then
      var (items, rest) :- ParseItems(ts[1..]);
      Ok((List(items), rest))
    else if ts[0].tag == START_NAME then
      if |ts| == 1 then Err(InvalidArgument) else
      var (name, rest1) :- ParseValue(ts[1..]);
      if rest1 == [] then Err(InvalidArgument) else
      var (value, rest2) :- ParseValue(rest1);
      if rest2 == [] || rest2[0].tag != END_NAME then Err(InvalidArgument)
      else Ok((Named(name, value), rest2[1..]))
    else
      var v :- ParseSimple(ts[0]);
      Ok((v, ts[1..]))
  }

  /** The loop of DeTokenize(List), from after START_LIST to after END_LIST. */
  function ParseItems(ts: seq<Token>): (r: Result<(seq<Value>, seq<Token>)>)
    ensures r.Ok? ==> |r.value.1| < |ts| && r.value.1 == ts[|ts| - |r.value.1|..]
    decreases |ts|, 1
  {
    if ts == [] then Err(InvalidArgument)
    else if ts[0].tag == END_LIST then Ok(([], ts[1..]))
    else
      var (item, rest1) :- ParseValue(ts);
      var (items, rest2) :- ParseItems(rest1);
      Ok(([item] + items, rest2))
  }

  //
  // Round trip from values
  //

  /** Printing fails exactly on an empty part or an over-long byte string. */
  lemma {:induction false} PrintsExactlySendable(v: Value)
    ensures TokensOf(v).Ok? <==> Sendable(v)
    ensures TokensOf(v).Ok? ==> TokensOf(v).value != [] && TokensOf(v).value[0].tag != END_LIST
    decreases v, 1
  {
    match v
    case List(items) =>
      PrintsExactlyAllSendable(items);
    case Named(name, value) =>
      PrintsExactlySendable(name);
      PrintsExactlySendable(value);
    case _ =>
  }

  lemma {:induction false} PrintsExactlyAllSendable(vs: seq<Value>)
    ensures TokensOfAll(vs).Ok? <==> AllSendable(vs)
    decreases vs, 0
  {
    if vs != [] {
      PrintsExactlySendable(vs[0]);
      PrintsExactlyAllSendable(vs[1..]);
      assert AllSendable(vs) <==> Sendable(vs[0]) && AllSendable(vs[1..]) by {
        assert forall i :: 0 < i < |vs| ==> vs[i] == vs[1..][i - 1];
      }
    }
  }

  lemma WireKindOfAtom(kind: IntKind)
    ensures AtomKind(Signed(kind), Width(kind)) == Ok(WireKind(kind))
    ensures Modulus(WireKind(kind)) == Modulus(kind)
    ensures Signed(WireKind(kind)) == Signed(kind)
    ensures Width(WireKind(kind)) == Width(kind)
    ensures forall n :: InRange(kind, n) ==> InRange(WireKind(kind), n)
  {
  }

  lemma IntegerTokenReads(kind: IntKind, n: int)
    requires InRange(kind, n)
    ensures ParseSimple(IntegerToken(kind, n)) == Ok(Normal(Integer(kind, n)))
  {
    var t, pattern, wire := IntegerToken(kind, n), ToPattern(kind, n), WireKind(kind);
    WireKindOfAtom(kind);
    assert FromBigEndian(t.data) == pattern by {
      ModulusIsPower(kind);
      ReadBack(pattern, Width(kind));
    }
    PatternRoundTrip(wire, n);
    assert IntegerOf(t) == Ok(Integer(wire, FromPattern(wire, pattern)));
  }

  lemma SimpleFront(t: Token, v: Value, rest: seq<Token>)
    requires t.tag != START_LIST && t.tag != START_NAME
    requires ParseSimple(t) == Ok(v)
    ensures ParseValue([t] + rest) == Ok((v, rest))
  {
    assert ([t] + rest)[1..] == rest;
  }

  lemma ListFront(inner: seq<Token>, items: seq<Value>, rest: seq<Token>)
    requires ParseItems(inner + ([Control(END_LIST)] + rest)) == Ok((items, rest))
    ensures ParseValue([Control(START_LIST)] + inner + [Control(END_LIST)] + rest) == Ok((List(items), rest))
  {
    var end := [Control(END_LIST)];
    AppendAssociates([Control(START_LIST)] + inner, end, rest);
    BehindFirst(Control(START_LIST), inner, end + rest);
  }

  lemma NamedFront(ns: seq<Token>, vs: seq<Token>, name: Value, value: Value, rest: seq<Token>)
    requires ns != [] && vs != []
    requires ParseValue(ns + (vs + ([Control(END_NAME)] + rest))) == Ok((name, vs + ([Control(END_NAME)] + rest)))
    requires ParseValue(vs + ([Control(END_NAME)] + rest)) == Ok((value, [Control(END_NAME)] + rest))
    ensures ParseValue([Control(START_NAME)] + ns + vs + [Control(END_NAME)] + rest)
            == Ok((Named(name, value), rest))
  {
    var rest2 := [Control(END_NAME)] + rest;
    var ts := [Control(START_NAME)] + ns + (vs + rest2);
    assert [Control(START_NAME)] + ns + vs + [Control(END_NAME)] + rest == ts by {
      AppendAssociates([Control(START_NAME)] + ns + vs, [Control(END_NAME)], rest);
      AppendAssociates([Control(START_NAME)] + ns, vs, rest2);
    }
    BehindFirst(Control(START_NAME), ns, vs + rest2);
    NamedParses(ts, ns + (vs + rest2), vs + rest2, rest2, name, value, rest);
  }

  lemma NamedParses(ts: seq<Token>, rest0: seq<Token>, rest1: seq<Token>, rest2: seq<Token>,
                    name: Value, value: Value, rest: seq<Token>)
    requires ts != [] && ts[0] == Control(START_NAME) && ts[1..] == rest0 != []
    requires ParseValue(rest0) == Ok((name, rest1)) && rest1 != []
    requires ParseValue(rest1) == Ok((value, rest2)) && rest2 == [Control(END_NAME)] + rest
    ensures ParseValue(ts) == Ok((Named(name, value), rest))
  {
    assert rest2[1..] == rest;
  }

  /** The value grammar: whatever tokens follow, parsing returns the normal form and exactly those tokens. */
  lemma {:induction false} ValueRoundTrip(v: Value, rest: seq<Token>)
    requires WellTyped(v) && Sendable(v)
    ensures TokensOf(v).Ok?
    ensures ParseValue(TokensOf(v).value + rest) == Ok((Normal(v), rest))
    decreases v, 1
  {
    match v
    case Integer(kind, n) =>
      IntegerTokenReads(kind, n);
      SimpleFront(IntegerToken(kind, n), Normal(v), rest);
    case Cmd(c) =>
      SimpleFront(Control(CommandTag(c)), v, rest);
    case Bytes(b) =>
      SimpleFront(BytesToken(b).value, v, rest);
    case List(items) =>
      ItemsRoundTrip(items, rest);
      ListFront(TokensOfAll(items).value, NormalAll(items), rest);
    case Named(name, value) =>
      PrintsExactlySendable(name);
      PrintsExactlySendable(value);
      var ns, vs := TokensOf(name).value, TokensOf(value).value;
      var rest2 := [Control(END_NAME)] + rest;
      ValueRoundTrip(name, vs + rest2);
      ValueRoundTrip(value, rest2);
      NamedFront(ns, vs, Normal(name), Normal(value), rest);
  }

  lemma ItemsCons(ts: seq<Token>, rest1: seq<Token>, vs: seq<Value>, rest: seq<Token>)
    requires vs != [] && ts != [] && ts[0].tag != END_LIST
    requires ParseValue(ts) == Ok((Normal(vs[0]), rest1))
    requires ParseItems(rest1) == Ok((NormalAll(vs[1..]), rest))
    ensures ParseItems(ts) == Ok((NormalAll(vs), rest))
  {
  }

  lemma {:induction false} ItemsRoundTrip(vs: seq<Value>, rest: seq<Token>)
    requires AllWellTyped(vs) && AllSendable(vs)
    ensures TokensOfAll(vs).Ok?
    ensures ParseItems(TokensOfAll(vs).value + ([Control(END_LIST)] + rest)) == Ok((NormalAll(vs), rest))
    decreases vs, 0
  {
    PrintsExactlyAllSendable(vs);
    var tail := [Control(END_LIST)] + rest;
    if vs == [] {
      assert [] + tail == tail;
      assert tail[1..] == rest;
    } else {
      PrintsExactlySendable(vs[0]);
      PrintsExactlyAllSendable(vs[1..]);
      var head, more := TokensOf(vs[0]).value, TokensOfAll(vs[1..]).value;
      ValueRoundTrip(vs[0], more + tail);
      ItemsRoundTrip(vs[1..], rest);
      AppendAssociates(head, more, tail);
      ItemsCons(head + (more + tail), more + tail, vs, rest);
    }
  }

  /** A value and its normal form print alike. */
  lemma {:induction false} NormalPrintsAlike(v: Value)
    requires WellTyped(v)
    ensures TokensOf(Normal(v)) == TokensOf(v)
    decreases v, 1
  {
    match v
    case List(items) =>
      NormalPrintsAlikeAll(items);
    case Named(name, value) =>
      NormalPrintsAlike(name);
      NormalPrintsAlike(value);
    case _ =>
  }

  lemma {:induction false} NormalPrintsAlikeAll(vs: seq<Value>)
    requires AllWellTyped(vs)
    ensures TokensOfAll(NormalAll(vs)) == TokensOfAll(vs)
    decreases vs, 0
  {
    if vs != [] {
      NormalPrintsAlike(vs[0]);
      NormalPrintsAlikeAll(vs[1..]);
    }
  }

  /** The encoding is prefix-free, and injective exactly up to the normal form. */
  lemma PrefixFree(v: Value, w: Value, restV: seq<Token>, restW: seq<Token>)
    requires WellTyped(v) && Sendable(v) && WellTyped(w) && Sendable(w)
    ensures TokensOf(v).Ok? && TokensOf(w).Ok?
    ensures TokensOf(v).value + restV == TokensOf(w).value + restW <==> Normal(v) == Normal(w) && restV == restW
  {
    ValueRoundTrip(v, restV);
    ValueRoundTrip(w, restW);
    NormalPrintsAlike(v);
    NormalPrintsAlike(w);
  }

  //
  // Progress and idempotence of the parser
  //

  /** Tokens as the byte parser makes them: data never longer than a long atom allows. */
  predicate Bounded(ts: seq<Token>) {
    forall i :: 0 <= i < |ts| ==> |ts[i].data| <= MAX_ATOM
  }

  lemma SimpleIsCanonical(t: Token)
    requires |t.data| <= MAX_ATOM
    requires ParseSimple(t).Ok?
    ensures var v := ParseSimple(t).value; WellTyped(v) && Sendable(v) && Normal(v) == v
  {
    if t.IsAtom() && !t.isByte {
      AtomFits(t.data, AtomKind(t.isSigned, |t.data|).value);
    }
  }

  /** Every accepted value can be sent, is well typed and already in normal form. */
  lemma {:induction false} ParsedIsCanonical(ts: seq<Token>)
    requires ts != [] && Bounded(ts)
    requires ParseValue(ts).Ok?
    ensures var (v, rest) := ParseValue(ts).value;
      WellTyped(v) && Sendable(v) && Normal(v) == v && Bounded(rest) && |rest| < |ts|
    decreases |ts|, 0
  {
    if ts[0].tag == START_LIST {
      ParsedItemsAreCanonical(ts[1..]);
    } else if ts[0].tag == START_NAME {
      ParsedIsCanonical(ts[1..]);
      var (name, rest1) := ParseValue(ts[1..]).value;
      ParsedIsCanonical(rest1);
    } else {
      SimpleIsCanonical(ts[0]);
    }
  }

  lemma {:induction false} ParsedItemsAreCanonical(ts: seq<Token>)
    requires Bounded(ts)
    requires ParseItems(ts).Ok?
    ensures var (vs, rest) := ParseItems(ts).value;
      AllWellTyped(vs) && AllSendable(vs) && NormalAll(vs) == vs && Bounded(rest) && |rest| < |ts|
    decreases |ts|, 1
  {
    if ts[0].tag != END_LIST {
      ParsedIsCanonical(ts);
      var (item, rest1) := ParseValue(ts).value;
      ParsedItemsAreCanonical(rest1);
      var (items, rest2) := ParseItems(rest1).value;
      assert ParseItems(ts).value.0 == [item] + items;
      assert ([item] + items)[1..] == items;
    }
  }

  /** DeTokenize consumes a non-empty prefix, and printing its value and parsing again gives the same value. */
  lemma ParserProgressAndIdempotence(ts: seq<Token>, more: seq<Token>)
    requires ts != [] && Bounded(ts)
    requires ParseValue(ts).Ok?
    ensures var (v, rest) := ParseValue(ts).value;
      && (exists k :: 0 < k <= |ts| && rest == ts[k..])
      && TokensOf(v).Ok?
      && ParseValue(TokensOf(v).value + more) == Ok((v, more))
  {
    ParsedIsCanonical(ts);
    var (v, rest) := ParseValue(ts).value;
    ValueRoundTrip(v, more);
    assert rest == ts[|ts| - |rest|..];
  }

  //
  // The loops of the program
  //

  /** Tokenize(integral): low-order bytes are pushed first and the vector is then reversed. */
  method TokenizeInteger(kind: IntKind, n: int) returns (t: Token)
    ensures t == IntegerToken(kind, n)
  {
    var chunk, i := ToPattern(kind, n), 0;
    var data: seq<byte> := [];
    ghost var whole := BigEndian(chunk, Width(kind));
    while i < Width(kind)
      invariant 0 <= i <= Width(kind)
      invariant BigEndian(chunk, Width(kind) - i) + Reversed(data) == whole
    {
      PushLowByte(chunk, Width(kind) - i, data);
      data := data + [chunk % 256];
      chunk := chunk / 256;
      i := i + 1;
    }
    t := Token(SHORT_ATOM, false, Signed(kind), Reversed(data));
  }

  /** Pushing the low-order byte to the back moves it from the number to the front of the reversal. */
  lemma PushLowByte(chunk: nat, width: nat, data: seq<byte>)
    requires width > 0
    ensures BigEndian(chunk, width) + Reversed(data)
            == BigEndian(chunk / 256, width - 1) + Reversed(data + [chunk % 256])
  {
    var low: byte := chunk % 256;
    assert Reversed(data + [low]) == [low] + Reversed(data);
    AppendAssociates(BigEndian(chunk / 256, width - 1), [low], Reversed(data));
  }

  function Reversed(s: seq<byte>): (r: seq<byte>)
    ensures |r| == |s|
    ensures forall i :: 0 <= i < |s| ==> r[i] == s[|s| - 1 - i]
  {
    seq(|s|, i requires 0 <= i < |s| => s[|s| - 1 - i])
  }

  /** DeTokenize(integral): the checks of the original, then the bytes are shifted in one by one. */
  method DeTokenizeInteger(ts: seq<Token>, kind: IntKind) returns (r: Result<(Value, seq<Token>)>)
    requires !kind.BoolKind?
    ensures r.Ok? <==> ts != [] && ts[0].IsAtom() && !ts[0].isByte && ts[0].isSigned == Signed(kind)
                       && |ts[0].data| <= Width(kind)
    ensures r.Ok? ==> FromBigEndian(ts[0].data) < Modulus(kind)
                      && r.value == (Integer(kind, FromPattern(kind, FromBigEndian(ts[0].data))), ts[1..])
    ensures r.Err? ==> r.error == InvalidArgument
  {
    if ts == [] || !ts[0].IsAtom() || ts[0].isByte || ts[0].isSigned != Signed(kind)
       || |ts[0].data| > Width(kind) {
      return Err(InvalidArgument);
    }
    var data := ts[0].data;
    var value := 0;
    for i := 0 to |data|
      invariant value == FromBigEndian(data[..i])
    {
      ShiftIn(data, i, kind);
      value := value * 256 % Modulus(kind) + data[i];
    }
    assert data[..|data|] == data;
    AtomFits(data, kind);
    r := Ok((Integer(kind, FromPattern(kind, value)), ts[1..]));
  }

  /** Within the width of the kind, shifting left loses nothing. */
  lemma ShiftIn(data: seq<byte>, i: nat, kind: IntKind)
    requires i < |data| <= Width(kind)
    ensures FromBigEndian(data[..i]) * 256 % Modulus(kind) + data[i] == FromBigEndian(data[..i + 1])
  {
    assert data[..i + 1][..i] == data[..i];
    AtomFits(data[..i + 1], kind);
    ModUnique(FromBigEndian(data[..i]) * 256, Modulus(kind), 0, FromBigEndian(data[..i]) * 256);
  }

  /** Tokenize(Value) with the loop of Tokenize(List). */
  method Tokenize(v: Value) returns (r: Result<seq<Token>>)
    ensures r == TokensOf(v)
    decreases v
  {
    match v
    case Empty => r := Err(InvalidArgument);
    case Integer(kind, n) =>
      var t := TokenizeInteger(kind, n);
      r := Ok([t]);
    case Cmd(c) => r := Ok([Control(CommandTag(c))]);
    case Bytes(b) =>
      var t :- BytesToken(b);
      r := Ok([t]);
    case List(items) =>
      var tokens := [Control(START_LIST)];
      assert items[..0] == [] && tokens[1..] == [];
      for i := 0 to |items|
        invariant tokens != [] && tokens[0] == Control(START_LIST)
        invariant TokensOfAll(items[..i]) == Ok(tokens[1..])
      {
        TokensOfAllSnoc(items, i);
        var itemTokens :- Tokenize(items[i]);
        assert (tokens + itemTokens)[1..] == tokens[1..] + itemTokens;
        tokens := tokens + itemTokens;
      }
      assert items[..|items|] == items;
      assert tokens == [Control(START_LIST)] + tokens[1..];
      r := Ok(tokens + [Control(END_LIST)]);
    case Named(name, value) =>
      var nameTokens :- Tokenize(name);
      var valueTokens :- Tokenize(value);
      r := Ok([Control(START_NAME)] + nameTokens + valueTokens + [Control(END_NAME)]);
  }

  /** Printing one more item: errors stop the whole list. */
  lemma {:induction false} TokensOfAllSnoc(vs: seq<Value>, i: nat)
    requires i < |vs|
    requires TokensOfAll(vs[..i]).Ok?
    ensures TokensOf(vs[i]).Err? ==> TokensOfAll(vs) == Err(TokensOf(vs[i]).error)
    ensures TokensOf(vs[i]).Ok? ==>
      TokensOfAll(vs[..i + 1]) == Ok(TokensOfAll(vs[..i]).value + TokensOf(vs[i]).value)
    decreases i
  {
    assert vs[..i + 1] != [] && vs[..i + 1][0] == vs[0];
    if i == 0 {
      assert vs[..1][1..] == [] && vs[..0] == [];
      if TokensOf(vs[0]).Ok? {
        assert TokensOf(vs[0]).value + [] == [] + TokensOf(vs[0]).value;
      }
    } else {
      assert vs[..i][0] == vs[0] && vs[..i][1..] == vs[1..][..i - 1];
      assert vs[..i + 1][1..] == vs[1..][..i];
      TokensOfAllSnoc(vs[1..], i - 1);
      if TokensOf(vs[i]).Ok? {
        AppendAssociates(TokensOf(vs[0]).value, TokensOfAll(vs[1..][..i - 1]).value, TokensOf(vs[i]).value);
      }
    }
  }

  /** DeTokenize(Value), dispatching on the leading token. */
  method DeTokenize(ts: seq<Token>) returns (r: Result<(Value, seq<Token>)>)
    ensures r == ParseValue(ts)
    decreases |ts|, 0
  {
    if ts == [] {
      return Ok((Empty, ts));
    }
    var leading := ts[0];
    if leading.IsAtom() && !leading.isByte {
      var kind :- AtomKind(leading.isSigned, |leading.data|);
      r := DeTokenizeInteger(ts, kind);
    } else if leading.tag == START_LIST {
      r := DeTokenizeList(ts);
    } else if leading.tag == START_NAME {
      r := DeTokenizeNamed(ts);
    } else {
      var v :- ParseSimple(leading);
      r := Ok((v, ts[1..]));
    }
  }

  method DeTokenizeList(ts: seq<Token>) returns (r: Result<(Value, seq<Token>)>)
    requires ts != [] && ts[0].tag == START_LIST
    ensures r == ParseValue(ts)
    decreases |ts| - 1, 1
  {
    var rest := ts[1..];
    var list: seq<Value> := [];
    assert ParseItems(rest).Ok? ==> [] + ParseItems(rest).value.0 == ParseItems(rest).value.0;
    while true
      invariant |rest| < |ts|
      invariant ParseItems(ts[1..]) == Prepend(list, ParseItems(rest))
      decreases |rest|
    {
      if rest == [] {
        return Err(InvalidArgument);
      }
      if rest[0].tag == END_LIST {
        break;
      }
      var item :- DeTokenize(rest);
      assert ParseItems(rest) == Prepend([item.0], ParseItems(item.1));
      PrependTwice(list, [item.0], ParseItems(item.1));
      rest := item.1;
      list := list + [item.0];
    }
    assert list + [] == list;
    r := Ok((List(list), rest[1..]));
  }

  method DeTokenizeNamed(ts: seq<Token>) returns (r: Result<(Value, seq<Token>)>)
    requires ts != [] && ts[0].tag == START_NAME
    ensures r == ParseValue(ts)
    decreases |ts| - 1, 1
  {
    var rest := ts[1..];
    if rest == [] {
      return Err(InvalidArgument);
    }
    var name :- DeTokenize(rest);
    rest := name.1;
    if rest == [] {
      return Err(InvalidArgument);
    }
    var value :- DeTokenize(rest);
    rest := value.1;
    if rest == [] || rest[0].tag != END_NAME {
      return Err(InvalidArgument);
    }
    r := Ok((Named(name.0, value.0), rest[1..]));
  }

  function Prepend(front: seq<Value>, r: Result<(seq<Value>, seq<Token>)>): Result<(seq<Value>, seq<Token>)> {
    if r.Err? then r else Ok((front + r.value.0, r.value.1))
  }

  lemma PrependTwice(a: seq<Value>, b: seq<Value>, r: Result<(seq<Value>, seq<Token>)>)
    ensures Prepend(a, Prepend(b, r)) == Prepend(a + b, r)
  {
    if r.Ok? {
      AppendAssociates(a, b, r.value.0);
    }
  }
}
