/** format_time of src/timer.c: a non-negative count of centiseconds split into hours,
    minutes, seconds and hundredths ("tics") for the HH:MM:SS.CC display. */
module Timer {
  import opened Arithmetic

  /** The TimeComponents record filled by format_time. */
  datatype TimeComponents = TimeComponents(tic: int, sec: int, min: int, hour: int)
  {
    /** Every field in the range a clock display shows; hours are unbounded. */
    predicate Valid()
    {
      0 <= tic < 100 && 0 <= sec < 60 && 0 <= min < 60 && 0 <= hour
    }

    /** The number of centiseconds the components stand for. */
    function ToCents(): int
    {
      hour * 360000 + min * 6000 + sec * 100 + tic
    }
  }

  /** format_time from the truncated centisecond count: hours first, then the minutes, seconds
      and tics of what is left. The components are in range and add back up to the count. */
  function FormatTime(totalCents: int): (tc: TimeComponents)
    requires totalCents >= 0
    ensures tc.Valid()
    ensures tc.ToCents() == totalCents
    ensures tc.hour == totalCents / 360000
  {
    var hour := totalCents / 360000;
    var afterHours := totalCents % 360000;
    var min := afterHours / 6000;
    var afterMinutes := afterHours % 6000;
    TimeComponents(afterMinutes % 100, afterMinutes / 100, min, hour)
  }

  /** The split is unique: components in range are exactly what format_time gives back for
      the count they stand for, so FormatTime and ToCents are inverse bijections between
      counts >= 0 and valid components. */
  lemma FormatTimeOfCents(tc: TimeComponents)
    requires tc.Valid()
    ensures tc.ToCents() >= 0
    ensures FormatTime(tc.ToCents()) == tc
  {
    var total := tc.ToCents();
    var afterMinutes := tc.sec * 100 + tc.tic;
    var afterHours := tc.min * 6000 + afterMinutes;
    DivModUnique(total, 360000, tc.hour, afterHours);
    DivModUnique(afterHours, 6000, tc.min, afterMinutes);
    DivModUnique(afterMinutes, 100, tc.sec, tc.tic);
  }
}
