/** The pieces of the C# runtime the program leans on: the ranges of `int` and
    `long`, integer division and remainder as C# defines them (truncating toward
    zero), and the exceptions the core can raise, as values. */
module Runtime {

  const INT32_MIN: int := -0x8000_0000
  const INT32_MAX: int := 0x7FFF_FFFF
  const INT64_MIN: int := -0x8000_0000_0000_0000
  const INT64_MAX: int := 0x7FFF_FFFF_FFFF_FFFF

  /** C#'s `int` and `long`. */
  type int32 = x: int | INT32_MIN <= x <= INT32_MAX
  type int64 = x: int | INT64_MIN <= x <= INT64_MAX

  predicate InInt32(x: int) { INT32_MIN <= x <= INT32_MAX }

  /** C#'s `byte`, and a SHA-256 digest as the byte array `SHA256Managed.Hash`. */
  newtype byte = x: int | 0 <= x < 256
  type Digest = seq<byte>

  /** A reference that may still be null. */
  datatype Option<T> = None | Some(value: T)

  /** The exceptions that end the program. `ShortRead` is the exception thrown
      when `FileStream.Read` returns fewer bytes than requested. */
  datatype Error =
    | DivideByZero
    | Overflow
    | ShortRead(expected: int, got: int)

  datatype Result<T> = Success(value: T) | Failure(error: Error)

  /** Puts `prefix` in front of a successful sequence; a failure passes through. */
  function Prefixed<T>(prefix: seq<T>, r: Result<seq<T>>): (p: Result<seq<T>>)
    ensures p.Failure? <==> r.Failure?
    ensures r.Failure? ==> p == r
    ensures r.Success? ==> |p.value| == |prefix| + |r.value|
    ensures r.Success? ==> p.value[..|prefix|] == prefix && p.value[|prefix|..] == r.value
  {
    match r
    case Success(s) => Success(prefix + s)
    case Failure(e) => Failure(e)
  }

  lemma PrefixedTwice<T>(a: seq<T>, b: seq<T>, r: Result<seq<T>>)
    ensures Prefixed(a, Prefixed(b, r)) == Prefixed(a + b, r)
  {
    if r.Success? {
      assert a + (b + r.value) == (a + b) + r.value;
    }
  }

  function Abs(x: int): (a: nat)
    ensures a == x || a == -x
  {
    if x < 0 then -x else x
  }

  function Min(a: int, b: int): (m: int)
    ensures m <= a && m <= b
    ensures m == a || m == b
  {
    if a <= b then a else b
  }

  /** C#'s `/` on integers: the quotient truncated toward zero. Only a
      non-negative dividend (a length) is ever divided here. */
  function Div(a: int, b: int): (q: int)
    requires a >= 0 && b != 0
    ensures 0 <= b * q <= a < b * q + Abs(b)
  {
    var d := Abs(b);
    var q := a / d;
    assert d * q <= a < d * q + d;
    if b > 0 then q else assert b * -q == d * q; -q
  }

  /** C#'s `%` on integers: what `/` leaves over. */
  function Rem(a: int, b: int): (r: int)
    requires a >= 0 && b != 0
    ensures a == b * Div(a, b) + r
    ensures 0 <= r < Abs(b)
  {
    a - b * Div(a, b)
  }

  /** For the non-negative lengths the program divides, C#'s `/` and `%` with a
      positive divisor are Dafny's, and with a negative divisor they are those of
      its absolute value, the quotient negated. */
  lemma DivRemNonNegative(a: int, b: int)
    requires a >= 0 && b != 0
    ensures b > 0 ==> Div(a, b) == a / b && Rem(a, b) == a % b
    ensures b < 0 ==> Div(a, b) == -(a / -b) && Rem(a, b) == a % -b
  {
  }
}
