/** Types shared by every part of the model: bytes, the .NET integer widths the
    source relies on, and the exceptions it throws, carried as a Result. */
module Common {

  /** A .NET `byte`. */
  type byte = x: int | 0 <= x < 256

  const INT32_MIN: int := -0x8000_0000
  const INT32_MAX: int := 0x7FFF_FFFF
  const INT64_MIN: int := -0x8000_0000_0000_0000
  const INT64_MAX: int := 0x7FFF_FFFF_FFFF_FFFF
  const TWO_TO_64: int := 0x1_0000_0000_0000_0000
  const TWO_TO_32: int := 0x1_0000_0000

  predicate IsInt32(x: int) { INT32_MIN <= x <= INT32_MAX }
  predicate IsInt64(x: int) { INT64_MIN <= x <= INT64_MAX }

  /** Two's-complement reinterpretation of the low 64 bits of `v`, which is what
      unchecked `long` arithmetic in C# keeps. */
  function ToInt64(v: int): (r: int)
    ensures IsInt64(r)
    ensures (r - v) % TWO_TO_64 == 0
    ensures IsInt64(v) ==> r == v
  {
    var m := v % TWO_TO_64;
    if m <= INT64_MAX then m else m - TWO_TO_64
  }

  /** Two's-complement reinterpretation of the low 32 bits of `v` (unchecked `int`). */
  function ToInt32(v: int): (r: int)
    ensures IsInt32(r)
    ensures (r - v) % TWO_TO_32 == 0
    ensures IsInt32(v) ==> r == v
  {
    var m := v % TWO_TO_32;
    if m <= INT32_MAX then m else m - TWO_TO_32
  }

  /** The exceptions the modelled code can raise, plus the failures of the
      collaborators it calls (the network and the file system). */
  datatype Error =
    | ArgumentError          // System.ArgumentException ("Invalid value", Array.Copy bounds) and its subclass
                             // ArgumentOutOfRangeException, thrown by HttpWebRequest.AddRange for a bad range
    | IndexOutOfRange        // System.IndexOutOfRangeException
    | Overflow               // System.OverflowException (negative array size)
    | FormatError            // System.FormatException (invalid base64)
    | FileNotFound           // System.IO.FileNotFoundException
    | TransportError(code: int)  // a failed HTTP request; the code is the transport's

  datatype Result<T> = Success(value: T) | Failure(error: Error) {
    predicate IsFailure() { Failure? }
    function PropagateFailure<U>(): Result<U>
      requires Failure?
    {
      Failure(error)
    }
    function Extract(): T
      requires Success?
    {
      value
    }
  }

  /** The concatenation of a sequence of sequences, first to last. */
  function Concat<T>(ss: seq<seq<T>>): (r: seq<T>)
  {
    if ss == [] then [] else ss[0] + Concat(ss[1..])
  }

  lemma {:induction false} ConcatAppend<T>(ss: seq<seq<T>>, last: seq<T>)
    ensures Concat(ss + [last]) == Concat(ss) + last
  {
    if ss == [] {
      assert [last][1..] == [];
    } else {
      assert (ss + [last])[1..] == ss[1..] + [last];
      ConcatAppend(ss[1..], last);
    }
  }
}
