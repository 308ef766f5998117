/** The .NET value types that the mapped entities carry. The mapper only
    copies them, so they are kept as plain values: equality is all that
    matters. */
module SystemTypes {

  /** A C# `int`. The mapper never does arithmetic on one, so no wrap-around
      arises; the range is kept so that every identifier stays a 32-bit value. */
  newtype Int32 = x: int | -0x8000_0000 <= x < 0x8000_0000

  /** A `System.DateTimeOffset`, opaque to the mapper: a point in time
      (ticks) and the offset from UTC at which it was recorded. */
  datatype DateTimeOffset = DateTimeOffset(ticks: int, offsetMinutes: int)
}
