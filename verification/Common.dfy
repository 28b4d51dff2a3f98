/** Vocabulary shared by every layer: bytes, results, and the exceptions of the program as tags. */
module Common {

  type byte = b: int | 0 <= b < 256

  datatype Option<+T> = None | Some(value: T)

  /** One tag for each exception class the modelled code can let escape. */
  datatype Error =
    | InvalidArgument   // std::invalid_argument
    | EmptyValue        // std::logic_error raised when an empty Value is read
    | TypeConversion
    | UnexpectedType
    | InvalidType
    | InvalidFormat
    | OutOfRange        // std::out_of_range
    | NotImplemented
    | BadOptional       // std::bad_optional_access
    | AssertionFailed   // a failed assert of the mock device
    | DeviceFailure
    | ProtocolFailure
    | NoResponse
    | InvalidResponse
    | PasswordRejected
    | BadParameterList  // InvocationError raised while unpacking parameters
    | InvocationFailure(status: nat)

  datatype Result<+T> = Ok(value: T) | Err(error: Error) {
    predicate IsFailure() {
      Err?
    }

    function PropagateFailure<U>(): Result<U>
      requires Err?
    {
      Err(error)
    }

    function Extract(): T
      requires Ok?
    {
      value
    }
  }

  const TWO_TO_16: nat := 0x1_0000
  const TWO_TO_32: nat := 0x1_0000_0000
  const TWO_TO_64: nat := 0x1_0000_0000_0000_0000

  type uint16 = n: int | 0 <= n < 0x1_0000
  type uint32 = n: int | 0 <= n < 0x1_0000_0000
  type uint64 = n: int | 0 <= n < 0x1_0000_0000_0000_0000

  /** An unsigned 32-bit sum, which wraps around. */
  function Add32(a: int, b: int): uint32 {
    (a + b) % TWO_TO_32
  }

  function Zeros(n: nat): (s: seq<byte>)
    ensures |s| == n && forall i :: 0 <= i < n ==> s[i] == 0
  {
    seq(n, _ => 0)
  }

  /** A result behind something already there. */
  function Join<T>(front: seq<T>, r: Result<seq<T>>): Result<seq<T>> {
    if r.Err? then r else Ok(front + r.value)
  }

  lemma DropAppend<T>(a: seq<T>, b: seq<T>)
    ensures (a + b)[|a|..] == b
    ensures (a + b)[..|a|] == a
  {
  }

  lemma AppendAssociates<T>(a: seq<T>, b: seq<T>, c: seq<T>)
    ensures (a + b) + c == a + (b + c)
  {
  }

  lemma JoinMore<T>(s: seq<T>, x: T, r: Result<seq<T>>)
    requires r.Ok?
    ensures Join(s, Ok([x] + r.value)) == Join(s + [x], r)
  {
    AppendAssociates(s, [x], r.value);
  }

  lemma JoinDone<T>(s: seq<T>)
    ensures Join(s, Ok([])) == Ok(s)
  {
    assert s + [] == s;
  }

  lemma JoinNone<T>(r: Result<seq<T>>)
    ensures Join([], r) == r
  {
    if r.Ok? {
      assert [] + r.value == r.value;
    }
  }

  lemma Rebracket<T>(a: seq<T>, b: seq<T>, c: seq<T>, d: seq<T>)
    ensures a + (b + c) + d == a + b + (c + d)
  {
  }

  lemma Add32Exact(a: int, b: int)
    requires 0 <= a + b < TWO_TO_32
    ensures Add32(a, b) == a + b
  {
  }

  lemma BehindFirst<T>(x: T, a: seq<T>, b: seq<T>)
    ensures ([x] + a + b)[1..] == a + b
    ensures ([x] + a + b)[0] == x
  {
  }

  lemma Add32Associates(a: int, b: int, c: int)
    ensures Add32(Add32(a, b), c) == Add32(a, Add32(b, c))
  {
    var m := TWO_TO_32;
    assert Add32(a, b) == a + b - (a + b) / m * m;
    assert Add32(b, c) == b + c - (b + c) / m * m;
  }
}
