/** Failure-carrying result types shared by every module of the model. */
module Wrappers {

  datatype Option<+T> = None | Some(value: T) {

    /** The value carried by `Some`, or `default` for `None`. */
    function GetOr(default: T): T {
      match this
      case Some(v) => v
      case None => default
    }

    /** The first `Some` of `this` and `other` (Rust's `Option::or`). */
    function Or(other: Option<T>): Option<T> {
      if Some? then this else other
    }

    /** `None` is the failure that `:-` passes on (Rust's `?` on an `Option`). */
    predicate IsFailure() {
      None?
    }

    function PropagateFailure<U>(): Option<U>
      requires None?
    {
      None
    }

    function Extract(): T
      requires Some?
    {
      value
    }
  }

  /** A computation that either finishes or panics (an `unwrap`/`expect` on a failure). */
  datatype Outcome<+T> = Done(value: T) | Panic

  datatype Result<+R, +E> = Ok(value: R) | Err(error: E) {

    function ToOption(): Option<R> {
      match this
      case Ok(v) => Some(v)
      case Err(_) => None
    }
  }
}

/** Fixed-width integer conversions the source performs with `as`. */
module Ints {

  const TWO_TO_63: int := 0x8000_0000_0000_0000
  const TWO_TO_64: int := 0x1_0000_0000_0000_0000

  newtype u64 = x: int | 0 <= x < 0x1_0000_0000_0000_0000

  predicate IsI64(x: int) {
    -TWO_TO_63 <= x < TWO_TO_63
  }

  /** `u as i64`: reinterprets the 64 bits of `u` in two's complement. */
  function AsI64(u: u64): (r: int)
    ensures IsI64(r)
    ensures (r as int) % TWO_TO_64 == u as int
    ensures (u as int) < TWO_TO_63 ==> r == u as int
    ensures (u as int) >= TWO_TO_63 ==> r < 0
  {
    if (u as int) < TWO_TO_63 then u as int else u as int - TWO_TO_64
  }

  /** `x.toInt()` on a Kotlin `Long`: keeps the low 32 bits as a signed value. */
  function LongToInt(x: int): (r: int)
    ensures -0x8000_0000 <= r < 0x8000_0000
    ensures (r - x) % 0x1_0000_0000 == 0
    ensures -0x8000_0000 <= x < 0x8000_0000 ==> r == x
  {
    var low := x % 0x1_0000_0000;
    if low < 0x8000_0000 then low else low - 0x1_0000_0000
  }
}
