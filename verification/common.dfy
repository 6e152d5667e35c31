/** Shared wrappers and the DateTime arithmetic the rental service relies on. */
module Common {

  /** A nullable reference or value: `None` stands for C# `null`. */
  datatype Option<+T> = None | Some(value: T)

  /** The outcome of a service call: a success value or the exception it throws. */
  datatype Result<+R, +E> = Success(value: R) | Failure(error: E)

  /** DateTime counts 100-nanosecond ticks from 0001-01-01T00:00:00. */
  const TicksPerDay: int := 864_000_000_000

  /** The tick count of DateTime.MaxValue (9999-12-31T23:59:59.9999999). */
  const MaxTicks: int := 3_155_378_975_999_999_999

  /** The number of days from 0001-01-01 to 10000-01-01; MaxTicks is one tick
      short of this many days. */
  const DaysTo10000: int := 3_652_059

  /** A representable DateTime, as its tick count. */
  type Instant = t: int | 0 <= t <= MaxTicks

  /** A C# `int`. */
  type Int32 = x: int | -0x8000_0000 <= x < 0x8000_0000

  /** `DateTime.AddDays` for a whole number of days: `None` when the result
      leaves the DateTime range (the call throws ArgumentOutOfRangeException). */
  function AddDays(t: Instant, days: int): (r: Option<Instant>)
    ensures r.Some? <==> 0 <= t + days * TicksPerDay <= MaxTicks
    ensures r.Some? ==> r.value - t == days * TicksPerDay
  {
    var u := t + days * TicksPerDay;
    if 0 <= u <= MaxTicks then Some(u) else None
  }

  /** `string.IsNullOrEmpty`. */
  predicate IsNullOrEmpty(s: Option<string>) {
    s.None? || s.value == ""
  }
}
