/** The .NET value types the ticket code works with, as bounded integers. */
module NetTypes {

  import opened Wrappers

  /** System.Byte. */
  type byte = x: int | 0 <= x < 0x100

  /** A UTF-16 code unit (System.Char). Any value is allowed, lone surrogates included. */
  type UInt16 = x: int | 0 <= x < 0x1_0000

  /** System.Int32. */
  type Int32 = x: int | -0x8000_0000 <= x < 0x8000_0000

  /** System.Int64. */
  type Int64 = x: int | -0x8000_0000_0000_0000 <= x < 0x8000_0000_0000_0000

  /** A non-null System.String: a sequence of code units whose length fits an Int32. */
  type NetString = s: seq<UInt16> | |s| < 0x8000_0000

  /** Unchecked 32-bit arithmetic: the Int32 that has the same low 32 bits as x. */
  function Wrap32(x: int): (r: Int32)
    ensures (r - x) % 0x1_0000_0000 == 0
    ensures -0x8000_0000 <= x < 0x8000_0000 ==> r == x
  {
    (x + 0x8000_0000) % 0x1_0000_0000 - 0x8000_0000
  }

  /** The largest tick count of a System.DateTime (9999-12-31T23:59:59.9999999). */
  const MaxTicks: int := 3155378975999999999

  /** 100-nanosecond ticks in one minute. */
  const TicksPerMinute: int := 600_000_000

  /** True when new DateTime(ticks) accepts the value instead of throwing. */
  predicate IsDateTime(ticks: int) {
    0 <= ticks <= MaxTicks
  }

  /** A System.DateTime, given by its 100-nanosecond tick count (the Kind is not modelled). */
  type DateTime = t: int | IsDateTime(t)

  /** DateTime.AddMinutes for a whole number of minutes; None where the source throws
      ArgumentOutOfRangeException because the result leaves the DateTime range. The ensures
      only spell out the body, as an aid to callers; AddMinutesInverse is the law. */
  function AddMinutes(d: DateTime, minutes: Int32): (r: Option<DateTime>)
    ensures r.Some? <==> IsDateTime(d + minutes * TicksPerMinute)
    ensures r.Some? ==> r.value - d == minutes * TicksPerMinute
  {
    var ticks := d + minutes * TicksPerMinute;
    if IsDateTime(ticks) then Some(ticks) else None
  }

  /** Adding m minutes and then -m minutes gives back the instant, and the way back stays in
      range whenever the way there did. */
  lemma AddMinutesInverse(d: DateTime, m: Int32)
    requires m != -0x8000_0000
    ensures AddMinutes(d, m).Some? ==> AddMinutes(AddMinutes(d, m).value, -m) == Some(d)
  {
    if AddMinutes(d, m).Some? {
      var e := AddMinutes(d, m).value;
      assert e + (-m) * TicksPerMinute == d;
    }
  }
}
