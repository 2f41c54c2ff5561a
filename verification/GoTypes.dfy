/**
 The Go machine types that the SNMP package computes with, and the ways a Go call can end.

 Go's `int` is taken to be 64 bits wide, as on every 64-bit platform.
 */
module GoTypes {

  type byte = x: int | 0 <= x < 0x100
  type bytes = seq<byte>
  type uint32 = x: int | 0 <= x < 0x1_0000_0000
  type int32 = x: int | -0x8000_0000 <= x < 0x8000_0000
  type int64 = x: int | -0x8000_0000_0000_0000 <= x < 0x8000_0000_0000_0000

  const MAX_UINT32: int := 0xFFFF_FFFF
  const MAX_INT64: int := 0x7FFF_FFFF_FFFF_FFFF

  datatype Option<+T> = None | Some(value: T)

  /** How a Go function that returns `(T, error)` ends; `Panic` is a failed type assertion,
      an index out of range or a nil dereference. */
  datatype Outcome<+T> = Ok(value: T) | Err | Panic

  /** The same for a function that consumes bytes: what is left unread, after an error too,
      because some callers carry on after one. */
  datatype Step<+T> = Done(value: T, rest: bytes) | Fail(rest: bytes) | Crash {

    /** How the call ends, whatever is left unread. */
    function Outcome(): Outcome<T> {
      match this
      case Done(v, _) => Ok(v)
      case Fail(_) => Err
      case Crash => Panic
    }
  }

  /** A reader that ended with `o` and left `left` unread did what `st` says. */
  predicate Matches<T(==)>(o: Outcome<T>, left: bytes, st: Step<T>) {
    match st
    case Done(v, r) => o == Ok(v) && left == r
    case Fail(r) => o == Err && left == r
    case Crash => o == Panic
  }

  /** Two's-complement wrap-around of a 64-bit signed integer. */
  function WrapInt64(x: int): int64 {
    (x + 0x8000_0000_0000_0000) % 0x1_0000_0000_0000_0000 - 0x8000_0000_0000_0000
  }

  /** The values that wrap to the same 64 bits are those a multiple of 2^64 apart. */
  lemma WrapShifted(x: int, k: int)
    ensures WrapInt64(x + k * 0x1_0000_0000_0000_0000) == WrapInt64(x)
  {
    var m := 0x1_0000_0000_0000_0000;
    var y := x + 0x8000_0000_0000_0000;
    assert (y + k * m) % m == y % m;
  }

  /** Wrapping early and wrapping late agree for one more octet shifted in. */
  lemma WrapStep(x: int, b: byte)
    ensures WrapInt64(WrapInt64(x) * 256 + b) == WrapInt64(x * 256 + b)
  {
    var k := (x + 0x8000_0000_0000_0000) / 0x1_0000_0000_0000_0000;
    assert WrapInt64(x) == x - k * 0x1_0000_0000_0000_0000;
    WrapShifted(WrapInt64(x) * 256 + b, k * 256);
  }
}
