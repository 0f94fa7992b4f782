/** .NET `DateTime` and `TimeSpan` values as the tick counts (units of 100 ns)
    that the revoke queue stores and compares. */
module Clock {
  import opened Wrappers

  /** `DateTime.MaxValue.Ticks`; `DateTime.MinValue.Ticks` is 0. */
  const MaxDateTicks: int := 3155378975999999999
  /** A `TimeSpan` holds a signed 64-bit tick count. */
  const MinSpanTicks: int := -0x8000_0000_0000_0000
  const MaxSpanTicks: int := 0x7FFF_FFFF_FFFF_FFFF
  const TicksPerMillisecond: int := 10000
  const MinInt32: int := -0x8000_0000
  const MaxInt32: int := 0x7FFF_FFFF

  /** A point in time, as the tick count of a `DateTime`. */
  type DateTime = t: int | 0 <= t <= MaxDateTicks
  /** A signed duration, as the tick count of a `TimeSpan`. */
  type TimeSpan = t: int | MinSpanTicks <= t <= MaxSpanTicks
  type Int32 = n: int | MinInt32 <= n <= MaxInt32

  const MinValue: DateTime := 0

  /** `d - t`: the subtraction throws ArgumentOutOfRangeException (None here)
      when the difference is not a representable `DateTime`. */
  function Subtract(d: DateTime, t: TimeSpan): (r: Option<DateTime>)
    ensures r.Some? <==> 0 <= d - t <= MaxDateTicks
    ensures r.Some? ==> r.value + t == d
    ensures t >= 0 && r.Some? ==> r.value <= d
  {
    if 0 <= d - t <= MaxDateTicks then Some(d - t) else None
  }

  /** `TimeSpan.FromMilliseconds` of a 32-bit millisecond count; exact, since
      every such count fits a `TimeSpan`. */
  function FromMilliseconds(ms: Int32): (t: TimeSpan)
    ensures t / TicksPerMillisecond == ms && t % TicksPerMillisecond == 0
  {
    ms * TicksPerMillisecond
  }
}
