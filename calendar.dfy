/**
 * Proleptic Gregorian dates with the range and the day arithmetic of Python's
 * `datetime.date`: years 1 to 9999, a one-day step that rolls over month and year
 * ends, and an overflow error below `date.min` (0001-01-01) or above `date.max`
 * (9999-12-31). `isoformat()` and a parser that reads its output back are here too.
 */
module Calendar {
  import opened Optional
  import opened Decimal

  datatype Date = Date(year: int, month: int, day: int)

  const MinYear := 1
  const MaxYear := 9999

  predicate IsLeapYear(y: int) {
    y % 4 == 0 && (y % 100 != 0 || y % 400 == 0)
  }

  function DaysInMonth(y: int, m: int): (n: int)
    requires 1 <= m <= 12
    ensures 28 <= n <= 31
  {
    if m == 2 then (if IsLeapYear(y) then 29 else 28)
    else if m == 4 || m == 6 || m == 9 || m == 11 then 30
    else 31
  }

  /** A date `datetime.date` can represent. */
  predicate Valid(d: Date) {
    MinYear <= d.year <= MaxYear && 1 <= d.month <= 12 && 1 <= d.day <= DaysInMonth(d.year, d.month)
  }

  /** Chronological order: by year, then month, then day. */
  predicate Before(a: Date, b: Date) {
    a.year < b.year
    || (a.year == b.year && a.month < b.month)
    || (a.year == b.year && a.month == b.month && a.day < b.day)
  }

  /** `d.replace(day=1)`: always a valid date when `d` is. */
  function FirstOfMonth(d: Date): (r: Date)
    requires Valid(d)
    ensures Valid(r) && r.year == d.year && r.month == d.month && r.day == 1
    ensures r == d || Before(r, d)
  {
    Date(d.year, d.month, 1)
  }

  function LastOfMonth(y: int, m: int): (r: Date)
    requires 1 <= m <= 12
  {
    Date(y, m, DaysInMonth(y, m))
  }

  /** `d - timedelta(days=1)`; `None` stands for the OverflowError below `date.min`. */
  function PreviousDay(d: Date): (r: Option<Date>)
    requires Valid(d)
    ensures r.None? <==> d == Date(MinYear, 1, 1)
    ensures r.Some? ==> Valid(r.value) && Before(r.value, d)
    ensures r.Some? && d.day == 1 ==> r.value.day == DaysInMonth(r.value.year, r.value.month)
    ensures r.Some? && d.day > 1 ==> r.value == Date(d.year, d.month, d.day - 1)
    ensures r.Some? ==> NextDay(r.value) == Some(d)
  {
    if d.day > 1 then Some(Date(d.year, d.month, d.day - 1))
    else if d.month > 1 then Some(LastOfMonth(d.year, d.month - 1))
    else if d.year > MinYear then Some(LastOfMonth(d.year - 1, 12))
    else None
  }

  /** `d + timedelta(days=1)`; `None` stands for the OverflowError above `date.max`. */
  function NextDay(d: Date): (r: Option<Date>)
    requires Valid(d)
    ensures r.None? <==> d == Date(MaxYear, 12, 31)
    ensures r.Some? ==> Valid(r.value) && Before(d, r.value)
  {
    if d.day < DaysInMonth(d.year, d.month) then Some(Date(d.year, d.month, d.day + 1))
    else if d.month < 12 then Some(Date(d.year, d.month + 1, 1))
    else if d.year < MaxYear then Some(Date(d.year + 1, 1, 1))
    else None
  }

  /** Stepping one day back and then one day forward returns to the same date. */
  lemma NextOfPrevious(d: Date)
    requires Valid(d) && PreviousDay(d).Some?
    ensures NextDay(PreviousDay(d).value) == Some(d)
  {
  }

  /** Stepping one day forward and then one day back returns to the same date. */
  lemma PreviousOfNext(d: Date)
    requires Valid(d) && NextDay(d).Some?
    ensures PreviousDay(NextDay(d).value) == Some(d)
  {
  }

  /** `d.isoformat()`: `YYYY-MM-DD`, every field zero-padded. */
  function IsoFormat(d: Date): (s: string)
    requires Valid(d)
    ensures |s| == 10 && s[4] == '-' && s[7] == '-'
    ensures AllDigits(s[..4]) && AllDigits(s[5..7]) && AllDigits(s[8..])
  {
    var s := Padded(d.year, 4) + "-" + Padded(d.month, 2) + "-" + Padded(d.day, 2);
    assert s[..4] == Padded(d.year, 4);
    assert s[5..7] == Padded(d.month, 2);
    assert s[8..] == Padded(d.day, 2);
    s
  }

  /** Reads a `YYYY-MM-DD` string back into a date, the inverse of `IsoFormat`. */
  function ParseIso(s: string): (r: Option<Date>)
    ensures r.Some? ==> Valid(r.value)
  {
    if |s| == 10 && s[4] == '-' && s[7] == '-'
       && AllDigits(s[..4]) && AllDigits(s[5..7]) && AllDigits(s[8..])
    then
      var d := Date(Value(s[..4]), Value(s[5..7]), Value(s[8..]));
      if Valid(d) then Some(d) else None
    else None
  }

  /** Every valid date survives rendering and parsing unchanged. */
  lemma IsoRoundTrip(d: Date)
    requires Valid(d)
    ensures ParseIso(IsoFormat(d)) == Some(d)
  {
    var s := IsoFormat(d);
    assert s[..4] == Padded(d.year, 4);
    assert s[5..7] == Padded(d.month, 2);
    assert s[8..] == Padded(d.day, 2);
    ValuePadded(d.year, 4);
    ValuePadded(d.month, 2);
    ValuePadded(d.day, 2);
  }

}
