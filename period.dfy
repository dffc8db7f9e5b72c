/** The period parser: a compact text such as "3d", "2w" or "1m" read as a number of days. */
module Period {
  import opened Errors
  import opened Digits

  /** The largest number of days, either way, that a Python timedelta can hold. */
  const MaxDeltaDays := 999999999

  /** The days one unit of a period stands for; None for a unit the parser does not know. */
  function UnitDays(unit: char): (r: Option<int>)
    ensures r.Some? <==> unit == 'd' || unit == 'w' || unit == 'm'
    ensures r.Some? ==> r.value >= 1
  {
    if unit == 'd' then Some(1)
    else if unit == 'w' then Some(7)
    else if unit == 'm' then Some(30)
    else None
  }

  /**
   * _parse_period: the count before the last character, times the days of the unit named by
   * the last character; any other unit gives one day. The count is read first, so an
   * unreadable count fails whatever the unit is.
   */
  function ParsePeriod(period: string): (r: Result<int>)
    ensures period == [] ==> r == Err(IndexError)
    ensures period != [] && ParseInt(period[..|period| - 1]).Err? ==> r == Err(ValueError)
    ensures r.Ok? ==> -MaxDeltaDays <= r.value <= MaxDeltaDays
    ensures r.Ok? ==> UnitDays(period[|period| - 1]).None? ==> r.value == 1
    ensures r.Err? ==> r.error in {IndexError, ValueError, OverflowError}
  {
    if period == [] then Err(IndexError)
    else
      var unit := period[|period| - 1];
      match ParseInt(period[..|period| - 1])
      case Err(e) => Err(e)
      case Ok(value) =>
        match UnitDays(unit)
        case None => Ok(1)
        case Some(factor) =>
          var days := value * factor;
          if -MaxDeltaDays <= days <= MaxDeltaDays then Ok(days) else Err(OverflowError)
  }

  /**
   * "<n>d" is n days, "<n>w" is 7n days, "<n>m" is 30n days and "<n>" followed by any other
   * character is one day, for every count n that str() can write; a count of more digits than
   * int() converts raises ValueError, and one beyond what a timedelta holds overflows.
   */
  lemma ParsePeriodOfCount(n: int, unit: char)
    ensures var r := ParsePeriod(Show(n) + [unit]);
      if DigitCount(n) > MaxStrDigits then r == Err(ValueError)
      else match UnitDays(unit)
      case None => r == Ok(1)
      case Some(f) =>
        if -MaxDeltaDays <= n * f <= MaxDeltaDays then r == Ok(n * f) else r == Err(OverflowError)
  {
    var s := Show(n) + [unit];
    assert s[..|s| - 1] == Show(n);
    ParseIntOfShow(n);
  }
}
