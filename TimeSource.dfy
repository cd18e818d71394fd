/**
 * Conversion of a system clock reading to NTP time. The server subtracts the
 * operator's offset (minutes, converted to seconds) and adds the distance
 * between the system epoch (1970-01-01) and the NTP epoch (1900-01-01).
 * The clock reading and the offset are parameters: the clock and the
 * interactive prompt that sets the offset are outside the model.
 */
module TimeSource {

  const SECONDS_PER_DAY: int := 24 * 3600

  /** Gregorian leap-year rule, which the calendar arithmetic of dates follows. */
  predicate IsLeapYear(y: int)
  {
    y % 4 == 0 && (y % 100 != 0 || y % 400 == 0)
  }

  function YearLength(y: int): nat
  {
    if IsLeapYear(y) then 366 else 365
  }

  /** Days from January 1st of startYear to January 1st of endYear. */
  function DaysBetween(startYear: int, endYear: int): nat
    requires startYear <= endYear
    decreases endYear - startYear
  {
    if startYear == endYear then 0 else YearLength(startYear) + DaysBetween(startYear + 1, endYear)
  }

  /** First day of the system clock's epoch, that of `time.gmtime(0)`. */
  const SYSTEM_EPOCH_YEAR: int := 1970
  /** First day of NTP era 0. */
  const NTP_EPOCH_YEAR: int := 1900

  /** `NTP.NTP_DELTA`: whole days between the two epochs, in seconds. */
  const NTP_DELTA: int := DaysBetween(NTP_EPOCH_YEAR, SYSTEM_EPOCH_YEAR) * SECONDS_PER_DAY

  /** `system_to_ntp_time`, with the operator's offset in minutes as a parameter. */
  function SystemToNtpTime(timestamp: real, offsetMinutes: real): (r: real)
    ensures r == timestamp - offsetMinutes * 60.0 + 2208988800.0
  {
    NtpDeltaValue();
    (timestamp - offsetMinutes * 60.0) + NTP_DELTA as real
  }

  /** The epoch distance is 70 years with 17 leap days, 2208988800 seconds. */
  lemma NtpDeltaValue()
    ensures DaysBetween(NTP_EPOCH_YEAR, SYSTEM_EPOCH_YEAR) == 70 * 365 + 17
    ensures NTP_DELTA == 2208988800
    ensures NTP_DELTA % SECONDS_PER_DAY == 0
  {
    DaysBetweenSplit(1900, 1904, 1970);
    DaysBetweenSplit(1904, 1968, 1970);
    LeapCycles(16);
    assert DaysBetween(1900, 1904) == 4 * 365 by {
      assert !IsLeapYear(1900);
      assert DaysBetween(1902, 1904) == 730;
    }
    assert DaysBetween(1968, 1970) == 366 + 365;
  }

  /** Counting days is additive over consecutive ranges of years. */
  lemma {:induction false} DaysBetweenSplit(a: int, b: int, c: int)
    requires a <= b <= c
    ensures DaysBetween(a, c) == DaysBetween(a, b) + DaysBetween(b, c)
    decreases b - a
  {
    if a < b {
      DaysBetweenSplit(a + 1, b, c);
    }
  }

  /** From 1904 up to 1968 every fourth year is a leap year: 1461 days per four years. */
  lemma {:induction false} LeapCycles(k: nat)
    requires k <= 16
    ensures DaysBetween(1904, 1904 + 4 * k) == 1461 * k
  {
    if k > 0 {
      var y := 1904 + 4 * (k - 1);
      LeapCycles(k - 1);
      DaysBetweenSplit(1904, y, y + 4);
      assert IsLeapYear(y) && !IsLeapYear(y + 1) && !IsLeapYear(y + 2) && !IsLeapYear(y + 3);
      assert DaysBetween(y + 3, y + 4) == 365;
      assert DaysBetween(y + 2, y + 4) == 730;
    }
  }

  /** Each minute of offset moves the result back by 60 seconds. */
  lemma OffsetShift(timestamp: real, offsetMinutes: real, extraMinutes: real)
    ensures SystemToNtpTime(timestamp, offsetMinutes + extraMinutes)
            == SystemToNtpTime(timestamp, offsetMinutes) - extraMinutes * 60.0
  {
  }

  /** Raising the offset by an hour lowers the NTP time by exactly 3600 seconds. */
  lemma HourOffset(timestamp: real, offsetMinutes: real)
    ensures SystemToNtpTime(timestamp, offsetMinutes + 60.0)
            == SystemToNtpTime(timestamp, offsetMinutes) - 3600.0
  {
    OffsetShift(timestamp, offsetMinutes, 60.0);
  }

  /** NTP era 0 ends 2085978496 seconds after the system epoch (2036-02-07 06:28:16 UTC):
      with no offset, that clock reading is 2^32 NTP seconds. */
  lemma EraZeroEnd()
    ensures SystemToNtpTime(2085978496.0, 0.0) == 4294967296.0
  {
    NtpDeltaValue();
  }
}
