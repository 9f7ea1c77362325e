/** Shared vocabulary of the R runtime: the 32-bit integer domain with its NA
    sentinel, R's three-valued logical, strings that may be NA, and the
    Option/Result wrappers used for error paths. */
module RRuntime {

  datatype Option<+T> = None | Some(value: T)

  datatype Result<+T, +E> = Ok(value: T) | Err(error: E)

  /** Java's int range. R's integer NA is the smallest Java int. */
  const INT_NA: int := -0x8000_0000
  /** Smallest and largest non-NA R integers (the start values of pmax and pmin). */
  const INT_MIN_VALUE: int := -0x7FFF_FFFF
  const INT_MAX_VALUE: int := 0x7FFF_FFFF

  /** A value stored in an R integer vector: a Java int, possibly the NA sentinel. */
  type RInt = x: int | INT_NA <= x <= INT_MAX_VALUE

  predicate IsNA(x: int) { x == INT_NA }

  /** R's logical value as stored in a byte: TRUE, FALSE or NA. */
  datatype Logical = LTrue | LFalse | LNA

  /** An element of an R character vector: either the NA string or a real string. */
  datatype RString = NAString | Str(s: string)

  function Max(a: int, b: int): int { if a < b then b else a }
  function Min(a: int, b: int): int { if a < b then a else b }
}
