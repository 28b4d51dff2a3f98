/** Values exchanged with the device (Value.hpp), their conversions and their wire normal form. */
module Values {
  import opened Common
  import opened FlatBinary

  /** The integer alternatives of the Value variant. */
  datatype IntKind = BoolKind | CharKind | U8 | U16 | U32 | U64 | I8 | I16 | I32 | I64

  datatype Command = CALL | END_OF_DATA | END_OF_SESSION | START_TRANSACTION | END_TRANSACTION | EMPTY

  datatype Value =
    | Empty
    | Integer(kind: IntKind, n: int)
    | Cmd(command: Command)
    | Named(name: Value, value: Value)
    | List(items: seq<Value>)
    | Bytes(bytes: seq<byte>)
  {
    predicate HasValue() {
      !Empty?
    }
  }

  /** Bytes taken by a kind; bool and char are one byte wide. */
  function Width(kind: IntKind): (w: nat)
    ensures w in {1, 2, 4, 8}
  {
    match kind
    case BoolKind | CharKind | U8 | I8 => 1
    case U16 | I16 => 2
    case U32 | I32 => 4
    case U64 | I64 => 8
  }

  /** std::is_signed; char is taken as signed. */
  predicate Signed(kind: IntKind) {
    kind in {CharKind, I8, I16, I32, I64}
  }

  function Modulus(kind: IntKind): (m: nat)
    ensures m > 0
  {
    match Width(kind)
    case 1 => 0x100
    case 2 => 0x1_0000
    case 4 => 0x1_0000_0000
    case _ => 0x1_0000_0000_0000_0000
  }

  lemma ModulusIsPower(kind: IntKind)
    ensures Modulus(kind) == Pow256(Width(kind))
  {
    PowValues();
  }

  predicate InRange(kind: IntKind, n: int) {
    if kind.BoolKind? then n == 0 || n == 1
    else if Signed(kind) then -(Modulus(kind) / 2) <= n < Modulus(kind) / 2
    else 0 <= n < Modulus(kind)
  }

  /** std::bit_cast between an unsigned pattern and an integer of the kind. */
  function FromPattern(kind: IntKind, pattern: nat): int
    requires pattern < Modulus(kind)
  {
    if Signed(kind) && pattern >= Modulus(kind) / 2 then pattern - Modulus(kind) else pattern
  }

  function ToPattern(kind: IntKind, n: int): (pattern: nat)
    ensures pattern < Modulus(kind)
  {
    n % Modulus(kind)
  }

  lemma PatternRoundTrip(kind: IntKind, n: int)
    requires InRange(kind, n)
    requires !kind.BoolKind?
    ensures FromPattern(kind, ToPattern(kind, n)) == n
  {
  }

  /** static_cast to the kind: truth value for bool, two's complement wrap-around otherwise. */
  function Cast(kind: IntKind, n: int): (r: int)
    ensures InRange(kind, r)
    ensures InRange(kind, n) ==> r == n
  {
    if kind.BoolKind? then (if n != 0 then 1 else 0) else FromPattern(kind, ToPattern(kind, n))
  }

  /** Value::Get<integer>: any integer alternative converts, nothing else does. */
  function GetInteger(v: Value, kind: IntKind): Result<int> {
    match v
    case Empty => Err(EmptyValue)
    case Integer(_, n) => Ok(Cast(kind, n))
    case _ => Err(TypeConversion)
  }

  function GetCommand(v: Value): Result<Command> {
    match v
    case Empty => Err(EmptyValue)
    case Cmd(c) => Ok(c)
    case _ => Err(TypeConversion)
  }

  function GetBytes(v: Value): Result<seq<byte>> {
    match v
    case Empty => Err(EmptyValue)
    case Bytes(b) => Ok(b)
    case _ => Err(TypeConversion)
  }

  function GetList(v: Value): Result<seq<Value>> {
    match v
    case Empty => Err(EmptyValue)
    case List(items) => Ok(items)
    case _ => Err(TypeConversion)
  }

  /** Every integer in the tree lies in the range of its kind. */
  predicate WellTyped(v: Value) {
    match v
    case Integer(kind, n) => InRange(kind, n)
    case Named(name, value) => WellTyped(name) && WellTyped(value)
    case List(items) => forall i :: 0 <= i < |items| ==> WellTyped(items[i])
    case _ => true
  }

  predicate AllWellTyped(vs: seq<Value>) {
    forall i :: 0 <= i < |vs| ==> WellTyped(vs[i])
  }

  const MAX_ATOM: nat := 16_777_215

  /** No part is empty and no byte string is longer than a long atom can hold. */
  predicate Sendable(v: Value) {
    match v
    case Empty => false
    case Bytes(b) => |b| <= MAX_ATOM
    case Named(name, value) => Sendable(name) && Sendable(value)
    case List(items) => forall i :: 0 <= i < |items| ==> Sendable(items[i])
    case _ => true
  }

  predicate AllSendable(vs: seq<Value>) {
    forall i :: 0 <= i < |vs| ==> Sendable(vs[i])
  }

  function WireKind(kind: IntKind): IntKind {
    match kind
    case BoolKind => U8
    case CharKind => I8
    case _ => kind
  }

  /** What a value becomes on the wire: bool turns into uint8 and char into int8, nothing else changes. */
  function Normal(v: Value): Value
    decreases v, 1
  {
    match v
    case Integer(kind, n) => Integer(WireKind(kind), n)
    case Named(name, value) => Named(Normal(name), Normal(value))
    case List(items) => List(NormalAll(items))
    case _ => v
  }

  function NormalAll(vs: seq<Value>): (r: seq<Value>)
    ensures |r| == |vs|
    ensures forall i :: 0 <= i < |vs| ==> r[i] == Normal(vs[i])
    decreases vs, 0
  {
    if vs == [] then [] else [Normal(vs[0])] + NormalAll(vs[1..])
  }

  lemma NormalAllConcat(a: seq<Value>, b: seq<Value>)
    ensures NormalAll(a + b) == NormalAll(a) + NormalAll(b)
  {
  }

  lemma {:induction false} NormalIsStable(v: Value)
    ensures Normal(Normal(v)) == Normal(v)
    ensures WellTyped(v) ==> WellTyped(Normal(v))
    ensures Sendable(v) <==> Sendable(Normal(v))
    decreases v
  {
    match v
    case Named(name, value) =>
      NormalIsStable(name);
      NormalIsStable(value);
    case List(items) =>
      forall i | 0 <= i < |items|
        ensures Normal(Normal(items[i])) == Normal(items[i])
        ensures WellTyped(items[i]) ==> WellTyped(Normal(items[i]))
        ensures Sendable(items[i]) <==> Sendable(Normal(items[i]))
      {
        NormalIsStable(items[i]);
      }
      assert NormalAll(NormalAll(items)) == NormalAll(items);
    case _ =>
  }
}
