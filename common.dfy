/** Small shared vocabulary: optional values (the model's stand-in for a
    nullable reference) and the integer resolution every candidate carries. */
module Common {

  /** `None` plays the part of C#'s `null` for reference-typed values. */
  datatype Option<+T> = None | Some(value: T)

  /** The `(Width, Height)` pair of `IResolution`; 32-bit ints in the source. */
  datatype Resolution = Resolution(width: int, height: int)

  const MinInt32: int := -0x8000_0000
  const MaxInt32: int := 0x7FFF_FFFF

  predicate IsInt32(n: int) { MinInt32 <= n <= MaxInt32 }
}
