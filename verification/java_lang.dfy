/**
 * The few pieces of the Java runtime the message layer relies on: nullable
 * references, the exceptions its operations throw, and the ranges of the
 * primitive integer types.
 */
module JavaLang {

  /** A Java reference: `None` stands for `null`. */
  datatype Option<+T> = None | Some(value: T)

  /** The exceptions the modelled code can raise. */
  datatype Exception =
    | IllegalArgument        // IllegalArgumentException
    | IndexOutOfBounds       // ArrayIndexOutOfBoundsException / IndexOutOfBoundsException
    | NullPointer            // NullPointerException
    | UnsupportedOperation   // UnsupportedOperationException
    | EndOfStream            // EOFException from a DataInput that runs dry
    | NegativeArraySize      // NegativeArraySizeException
    | Marshalling            // RuntimeException wrapping a failed Java (de)serialization

  /** The outcome of a Java call: a normal return or a thrown exception. */
  datatype Result<+T> = Ok(value: T) | Throws(ex: Exception) {
    predicate IsFailure() { Throws? }

    function PropagateFailure<U>(): Result<U>
      requires Throws?
    {
      Throws(ex)
    }

    function Extract(): T
      requires Ok?
    {
      value
    }
  }

  const BYTE_MIN: int := -0x80
  const BYTE_MAX: int := 0x7f
  const SHORT_MIN: int := -0x8000
  const SHORT_MAX: int := 0x7fff
  const INT_MIN: int := -0x8000_0000
  const INT_MAX: int := 0x7fff_ffff
  const LONG_MIN: int := -0x8000_0000_0000_0000
  const LONG_MAX: int := 0x7fff_ffff_ffff_ffff

  predicate IsByte(v: int) { BYTE_MIN <= v <= BYTE_MAX }
  predicate IsShort(v: int) { SHORT_MIN <= v <= SHORT_MAX }
  predicate IsInt(v: int) { INT_MIN <= v <= INT_MAX }
  predicate IsLong(v: int) { LONG_MIN <= v <= LONG_MAX }

  /** Java's `+` on two ints: the exact sum, wrapped into the int range. */
  function AddInt(a: int, b: int): (r: int)
    requires IsInt(a) && IsInt(b)
    ensures IsInt(r)
    ensures IsInt(a + b) ==> r == a + b
    ensures a + b > INT_MAX ==> r == a + b - 0x1_0000_0000 && r < 0
    ensures a + b < INT_MIN ==> r == a + b + 0x1_0000_0000 && r >= 0
  {
    var s := a + b;
    if s > INT_MAX then s - 0x1_0000_0000 else if s < INT_MIN then s + 0x1_0000_0000 else s
  }

  /** An integer wrapped into the int range, as a Java int expression
      evaluates it. */
  function Wrap(v: int): (r: int)
    ensures IsInt(r) && (r - v) % 0x1_0000_0000 == 0
    ensures IsInt(v) ==> r == v
  {
    (v - INT_MIN) % 0x1_0000_0000 + INT_MIN
  }

  function Min(a: int, b: int): int { if a <= b then a else b }
  function Max(a: int, b: int): int { if a <= b then b else a }
}
