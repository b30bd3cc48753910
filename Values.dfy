/**
 * Foundation value types the records are built from. The store only ever
 * compares identifiers and dates for equality.
 */
module Values {

  /** Swift's `T?`: a value that may be absent. Absence is a value of its own. */
  datatype Option<+T> = None | Some(value: T)

  /** A 128-bit universally unique identifier (`UUID`). */
  newtype Uuid = x: int | 0 <= x < 0x1_0000_0000_0000_0000_0000_0000_0000_0000

  /**
   * A point in time (`Date`), as its seconds since Foundation's reference
   * date; only equality is used.
   */
  datatype Date = Date(secondsSinceReferenceDate: real)
}
