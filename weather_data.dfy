/**
 * The weather job's reporting window and its regions download. From the run
 * date it takes the first day of the run month, steps one day back to the last
 * day of the previous month, takes that month's first day, and renders both
 * bounds with `isoformat()`. Before that it fetches the regions table from the
 * staging bucket.
 */
module WeatherData {
  import opened Optional
  import opened Calendar
  import opened HelperFunctions
  import opened Decimal

  /** The first and the last day of the window, both inclusive. */
  datatype Window = Window(start: Date, end: Date)

  /**
   * The window at the top of `download_weather_data`. `None` stands for the
   * OverflowError that stepping back from 0001-01-01 raises.
   */
  function PreviousMonthWindow(run: Date): (w: Option<Window>)
    requires Valid(run)
    ensures w.None? <==> run.year == MinYear && run.month == 1
    ensures w.Some? ==> Valid(w.value.start) && Valid(w.value.end)
  {
    var firstDayCurrentMonth := FirstOfMonth(run);
    match PreviousDay(firstDayCurrentMonth)
    case None => None
    case Some(lastDayPreviousMonth) => Some(Window(FirstOfMonth(lastDayPreviousMonth), lastDayPreviousMonth))
  }

  /** The calendar month just before the month of `run`, as (year, month). */
  function PreviousMonth(year: int, month: int): (int, int) {
    if month == 1 then (year - 1, 12) else (year, month - 1)
  }

  /**
   * The window is the whole previous calendar month: it starts on day 1 and
   * ends on that month's last day (29 for a leap February), both bounds in the
   * same month, start no later than end; January rolls back to December of the
   * year before.
   */
  lemma WindowIsPreviousMonth(run: Date)
    requires Valid(run) && !(run.year == MinYear && run.month == 1)
    ensures var w := PreviousMonthWindow(run).value;
            var (y, m) := PreviousMonth(run.year, run.month);
      && w.start == Date(y, m, 1)
      && w.end == Date(y, m, DaysInMonth(y, m))
      && (w.start == w.end || Before(w.start, w.end))
  {
  }

  /** The day after the window's end is the first day of the run month. */
  lemma WindowEndsBeforeRunMonth(run: Date)
    requires Valid(run) && !(run.year == MinYear && run.month == 1)
    ensures NextDay(PreviousMonthWindow(run).value.end) == Some(Date(run.year, run.month, 1))
  {
    NextOfPrevious(FirstOfMonth(run));
  }

  /** A run in January reports December of the previous year. */
  lemma JanuaryRollsBackYear(run: Date)
    requires Valid(run) && run.month == 1 && run.year > MinYear
    ensures PreviousMonthWindow(run) == Some(Window(Date(run.year - 1, 12, 1), Date(run.year - 1, 12, 31)))
  {
    WindowIsPreviousMonth(run);
  }

  /** A run in March ends the window on 29 February in a leap year and on the 28th otherwise. */
  lemma MarchRunEndsOnLastOfFebruary(run: Date)
    requires Valid(run) && run.month == 3
    ensures PreviousMonthWindow(run).value.end.day == if IsLeapYear(run.year) then 29 else 28
  {
    WindowIsPreviousMonth(run);
  }

  /** Only the run date's year and month matter: any two days of one month give one window. */
  lemma WindowIgnoresRunDay(a: Date, b: Date)
    requires Valid(a) && Valid(b) && a.year == b.year && a.month == b.month
    ensures PreviousMonthWindow(a) == PreviousMonthWindow(b)
  {
    assert FirstOfMonth(a) == FirstOfMonth(b);
  }

  /** `start_date` and `end_date`: both bounds as `YYYY-MM-DD`. */
  function WindowBounds(run: Date): (r: Option<(string, string)>)
    requires Valid(run)
    ensures r.None? <==> PreviousMonthWindow(run).None?
    ensures r.Some? ==> ParseIso(r.value.0) == Some(PreviousMonthWindow(run).value.start)
    ensures r.Some? ==> ParseIso(r.value.1) == Some(PreviousMonthWindow(run).value.end)
  {
    match PreviousMonthWindow(run)
    case None => None
    case Some(w) =>
      IsoRoundTrip(w.start);
      IsoRoundTrip(w.end);
      Some((IsoFormat(w.start), IsoFormat(w.end)))
  }

  /** A run on 2024-03-15 reports 2024-02-01 to 2024-02-29. */
  lemma LeapFebruaryExample()
    ensures WindowBounds(Date(2024, 3, 15)) == Some(("2024-02-01", "2024-02-29"))
  {
    var w := PreviousMonthWindow(Date(2024, 3, 15)).value;
    WindowIsPreviousMonth(Date(2024, 3, 15));
    assert w == Window(Date(2024, 2, 1), Date(2024, 2, 29));
    assert Padded(0, 0) == "";
    assert Padded(0, 1) == "0";
    assert Padded(2, 1) == "2";
    assert Padded(20, 2) == "20";
    assert Padded(202, 3) == "202";
    assert Padded(2024, 4) == "2024";
    assert Padded(2, 2) == "02";
    assert Padded(1, 1) == "1";
    assert Padded(1, 2) == "01";
    assert Padded(29, 2) == "29";
    assert IsoFormat(w.start) == "2024" + "-" + "02" + "-" + "01" == "2024-02-01";
    assert IsoFormat(w.end) == "2024" + "-" + "02" + "-" + "29" == "2024-02-29";
  }

  const DownloadDir := "./tmp"
  const StagingBucket := "staging-data-td1313"
  const RegionsPrefix := "regions"
  const RegionsFile := "dim_regions.csv"

  /** The regions table fetched before the weather requests. */
  function RegionsDownload(outcome: FetchOutcome): (d: DownloadTrace)
    ensures d.source == BlobRef("staging-data-td1313", "regions/dim_regions.csv")
    ensures d.destination == "./tmp/dim_regions.csv"
    ensures d.result == Returned(true) <==> outcome == Fetched
  {
    BlobKeyOfCleanPrefix(RegionsPrefix, RegionsFile);
    assert RegionsPrefix + "/" + RegionsFile == "regions/dim_regions.csv";
    assert DownloadDir + "/" + RegionsFile == "./tmp/dim_regions.csv";
    DownloadFromGcs(StagingBucket, RegionsPrefix, RegionsFile, DownloadDir + "/" + RegionsFile, outcome)
  }

}
