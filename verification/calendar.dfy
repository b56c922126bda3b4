/**
  * `generateCalendarDates(year, month)`: the days of a month, padded at the
  * front with days of the previous month back to a Sunday and at the back with
  * days of the next month up to a Saturday, so that the grid splits into
  * whole weeks.
  */
module Calendar {
  import opened Civil
  import Utils

  /** `eachDayOfInterval({ start: first, end: last })`: every day from `first` to `last`. */
  function EachDay(first: Day, last: Day): (r: seq<Day>)
    ensures |r| == if first <= last then last - first + 1 else 0
    ensures forall i :: 0 <= i < |r| ==> r[i] == first + i
  {
    if first <= last then seq(last - first + 1, i => first + i) else []
  }

  /** `7 * q + r` leaves remainder `r` modulo 7. */
  lemma ModSeven(q: int, r: int)
    requires 0 <= r < 7
    ensures (7 * q + r) % 7 == r
  {
  }

  /**
    * The grid around a month that begins on day `start` and has `len` days:
    * back to the Sunday on or before `start`, forward to the Saturday on or
    * after the month's last day.
    */
  function Grid(start: Day, len: int): seq<Day>
  {
    var end := start + len - 1;
    EachDay(start - Weekday(start), end + (6 - Weekday(end)))
  }

  /** Leading padding: the weekday index of the month's first day. */
  function LeadingDays(year: int, month: int): (n: int)
    ensures 0 <= n < 7
  {
    Weekday(StartOfMonth(year, month))
  }

  /** Trailing padding: six minus the weekday index of the month's last day. */
  function TrailingDays(year: int, month: int): (n: int)
    ensures 0 <= n < 7
  {
    6 - Weekday(EndOfMonth(year, month))
  }

  /** The grid `generateCalendarDates(year, month)` produces, as one interval of days. */
  function CalendarGrid(year: int, month: int): seq<Day>
  {
    Grid(StartOfMonth(year, month), MonthLength(year, month))
  }

  /**
    * `generateCalendarDates(year, month)` builds the grid in three steps: the
    * month's days, then `unshift` of `start - i - 1` for each leading slot,
    * then `push` of `end + i + 1` for each trailing slot. The result is the
    * interval grid.
    */
  method GenerateCalendarDates(year: int, month: int) returns (days: seq<Day>)
    ensures days == CalendarGrid(year, month)
    ensures |days| == LeadingDays(year, month) + MonthLength(year, month) + TrailingDays(year, month)
    ensures forall i :: LeadingDays(year, month) <= i < LeadingDays(year, month) + MonthLength(year, month) ==>
              days[i] == StartOfMonth(year, month) + (i - LeadingDays(year, month))
  {
    var start := StartOfMonth(year, month);
    var len := MonthLength(year, month);
    var end := EndOfMonth(year, month);
    GridThrough(start, len, end);
    days := PadToWeeks(start, end);
  }

  /** The grid of the `len` days from `start`, written in terms of their last day `end`. */
  lemma GridThrough(start: Day, len: int, end: Day)
    requires end == start + len - 1
    ensures Grid(start, len) == EachDay(start - Weekday(start), end + (6 - Weekday(end)))
  {
  }

  /**
    * The padding loops of `generateCalendarDates` for a month running from day
    * `start` to day `end`: `getDay(start)` earlier days put in front one at a
    * time, then `6 - getDay(end)` later days appended one at a time. The
    * result runs from the Sunday on or before `start` to the Saturday on or
    * after `end`, with the month itself at indices `getDay(start)` onwards.
    */
  method PadToWeeks(start: Day, end: Day) returns (days: seq<Day>)
    requires start <= end
    ensures days == EachDay(start - Weekday(start), end + (6 - Weekday(end)))
    ensures |days| == Weekday(start) + (end - start + 1) + (6 - Weekday(end))
    ensures forall i :: Weekday(start) <= i <= Weekday(start) + (end - start) ==>
              days[i] == start + (i - Weekday(start))
  {
    days := EachDay(start, end);

    var startDayIndex := Weekday(start);
    var i := 0;
    while i < startDayIndex
      invariant 0 <= i <= startDayIndex
      invariant |days| == end - start + 1 + i
      invariant forall k :: 0 <= k < |days| ==> days[k] == start - i + k
    {
      days := [start - i - 1] + days;
      i := i + 1;
    }

    var endDayIndex := Weekday(end);
    i := 0;
    while i < 6 - endDayIndex
      invariant 0 <= i <= 6 - endDayIndex
      invariant |days| == end - start + 1 + startDayIndex + i
      invariant forall k :: 0 <= k < |days| ==> days[k] == start - startDayIndex + k
    {
      days := days + [end + i + 1];
      i := i + 1;
    }
  }

  /** The grid is a run of consecutive days, hence strictly increasing and free of repeats. */
  lemma GridContiguous(year: int, month: int)
    ensures var g := CalendarGrid(year, month);
      && (forall i :: 0 < i < |g| ==> g[i] == g[i - 1] + 1)
      && (forall i, j :: 0 <= i < j < |g| ==> g[i] < g[j])
  {
  }

  lemma GridFirst(start: Day, len: int)
    requires len >= 1
    ensures var g := Grid(start, len);
      |g| > 0 && g[0] == start - Weekday(start) && Weekday(g[0]) == 0
  {
    ModSeven((start + 4) / 7, 0);
  }

  lemma GridLast(start: Day, len: int)
    requires len >= 1
    ensures var g := Grid(start, len);
      var end := start + len - 1;
      |g| > 0 && g[|g| - 1] == end + (6 - Weekday(end)) && Weekday(g[|g| - 1]) == 6
  {
    var end := start + len - 1;
    ModSeven((end + 4) / 7, 6);
  }

  /** The grid opens on a Sunday, `getDay(start)` days before the first of the month. */
  lemma GridStartsOnSunday(year: int, month: int)
    ensures var g := CalendarGrid(year, month);
      && |g| > 0
      && g[0] == StartOfMonth(year, month) - LeadingDays(year, month)
      && Weekday(g[0]) == 0
  {
    GridFirst(StartOfMonth(year, month), MonthLength(year, month));
  }

  /** The grid closes on a Saturday, `6 - getDay(end)` days after the last of the month. */
  lemma GridEndsOnSaturday(year: int, month: int)
    ensures var g := CalendarGrid(year, month);
      && |g| > 0
      && g[|g| - 1] == EndOfMonth(year, month) + TrailingDays(year, month)
      && Weekday(g[|g| - 1]) == 6
  {
    GridLast(StartOfMonth(year, month), MonthLength(year, month));
  }

  /**
    * Every day of the month appears in the grid, in order, starting at index
    * `getDay(start)`; the cells before it are earlier days and those after it
    * later days, so each day of the month appears exactly once.
    */
  lemma GridEmbedsMonth(year: int, month: int)
    ensures var g := CalendarGrid(year, month);
      var lead := LeadingDays(year, month);
      var len := MonthLength(year, month);
      && |g| == lead + len + TrailingDays(year, month)
      && (forall i :: lead <= i < lead + len ==> g[i] == StartOfMonth(year, month) + (i - lead))
      && (forall i :: 0 <= i < lead ==> g[i] < StartOfMonth(year, month))
      && (forall i :: lead + len <= i < |g| ==> g[i] > EndOfMonth(year, month))
      && g[lead..lead + len] == EachDay(StartOfMonth(year, month), EndOfMonth(year, month))
      && (forall d :: StartOfMonth(year, month) <= d <= EndOfMonth(year, month) ==> d in g)
  {
    GridEmbeds(StartOfMonth(year, month), MonthLength(year, month));
  }

  /**
    * The grid around the `len` days from `start` holds them, in order, from
    * index `getDay(start)`, with only earlier days before them and only later
    * days after them.
    */
  lemma GridEmbeds(start: Day, len: int)
    requires len >= 1
    ensures var g := Grid(start, len);
      var lead := Weekday(start);
      var end := start + len - 1;
      && |g| == lead + len + (6 - Weekday(end))
      && (forall i :: lead <= i < lead + len ==> g[i] == start + (i - lead))
      && (forall i :: 0 <= i < lead ==> g[i] < start)
      && (forall i :: lead + len <= i < |g| ==> g[i] > end)
      && g[lead..lead + len] == EachDay(start, end)
      && (forall d :: start <= d <= end ==> d in g)
  {
    var g := Grid(start, len);
    var lead := Weekday(start);
    forall d | start <= d <= start + len - 1
      ensures d in g
    {
      assert g[lead + (d - start)] == d;
    }
  }

  /**
    * The padding comes from the neighbouring months: the leading cells lie in
    * the previous month and the trailing cells in the next one.
    */
  lemma GridPaddingFromAdjacentMonths(year: int, month: int)
    ensures var g := CalendarGrid(year, month);
      var lead := LeadingDays(year, month);
      var len := MonthLength(year, month);
      && lead + len <= |g|
      && (forall i :: 0 <= i < lead ==> StartOfMonth(year, month - 1) <= g[i] <= EndOfMonth(year, month - 1))
      && (forall i :: lead + len <= i < |g| ==> StartOfMonth(year, month + 1) <= g[i] <= EndOfMonth(year, month + 1))
  {
    MonthsTile(year, month - 1);
    MonthsTile(year, month);
  }

  lemma GridSize(start: Day, len: int)
    requires 28 <= len <= 31
    ensures |Grid(start, len)| % 7 == 0
    ensures 28 <= |Grid(start, len)| <= 42
  {
    GridFirst(start, len);
    GridLast(start, len);
    var g := Grid(start, len);
    WeekdayResidue(g[0]);
    WeekdayResidue(g[|g| - 1]);
    assert |g| == g[|g| - 1] - g[0] + 1;
  }

  /** The grid is whole weeks: a multiple of seven days, four to six weeks. */
  lemma GridLength(year: int, month: int)
    ensures var g := CalendarGrid(year, month);
      && |g| % 7 == 0
      && 28 <= |g| <= 42
  {
    GridSize(StartOfMonth(year, month), MonthLength(year, month));
  }

  /**
    * Chunked by seven, as the date picker lays out its rows, the grid gives
    * four to six week rows of exactly seven days, row `r` holding the grid's
    * cells `7 * r` to `7 * r + 6`, each row from a Sunday to a Saturday, and
    * the rows concatenate back to the grid.
    */
  lemma GridWeekRows(year: int, month: int)
    ensures var g := CalendarGrid(year, month);
      var rows := Utils.Chunks(g, 7);
      && 4 <= |rows| <= 6
      && |g| == 7 * |rows|
      && Utils.Flatten(rows) == g
      && (forall r :: 0 <= r < |rows| ==> |rows[r]| == 7)
      && (forall r, j :: 0 <= r < |rows| && 0 <= j < 7 ==> rows[r][j] == g[7 * r + j])
      && (forall r :: 0 <= r < |rows| ==> Weekday(rows[r][0]) == 0 && Weekday(rows[r][6]) == 6)
  {
    GridRows(StartOfMonth(year, month), MonthLength(year, month));
  }

  lemma GridRows(start: Day, len: int)
    requires 28 <= len <= 31
    ensures var g := Grid(start, len);
      var rows := Utils.Chunks(g, 7);
      && 4 <= |rows| <= 6
      && |g| == 7 * |rows|
      && Utils.Flatten(rows) == g
      && (forall r :: 0 <= r < |rows| ==> |rows[r]| == 7)
      && (forall r, j :: 0 <= r < |rows| && 0 <= j < 7 ==> rows[r][j] == g[7 * r + j])
      && (forall r :: 0 <= r < |rows| ==> Weekday(rows[r][0]) == 0 && Weekday(rows[r][6]) == 6)
  {
    var g := Grid(start, len);
    GridSize(start, len);
    GridFirst(start, len);
    WeekRows(g, |g| / 7);
  }

  /**
    * A run of `7 * k` consecutive days from a Sunday chunks into `k` rows of
    * seven, each from a Sunday to a Saturday.
    */
  lemma WeekRows(g: seq<Day>, k: nat)
    requires |g| == 7 * k && k > 0
    requires Weekday(g[0]) == 0
    requires forall i :: 0 <= i < |g| ==> g[i] == g[0] + i
    ensures var rows := Utils.Chunks(g, 7);
      && |rows| == k
      && Utils.Flatten(rows) == g
      && (forall r :: 0 <= r < |rows| ==> |rows[r]| == 7)
      && (forall r, j :: 0 <= r < |rows| && 0 <= j < 7 ==> rows[r][j] == g[7 * r + j])
      && (forall r :: 0 <= r < |rows| ==> Weekday(rows[r][0]) == 0 && Weekday(rows[r][6]) == 6)
  {
    Utils.ChunksOfMultiple(g, 7, k);
    Utils.ChunksIsChunking(g, 7);
    WeekStarts(g, k);
    RowWeekdays(g, Utils.Chunks(g, 7), k);
  }

  /** Rows that copy every seventh stretch of `g` start and end where those stretches do. */
  lemma RowWeekdays(g: seq<Day>, rows: seq<seq<Day>>, k: nat)
    requires |g| == 7 * k && |rows| == k
    requires forall r :: 0 <= r < k ==> |rows[r]| == 7
    requires forall r, j :: 0 <= r < k && 0 <= j < 7 ==> rows[r][j] == g[7 * r + j]
    requires forall r :: 0 <= r < k ==> Weekday(g[7 * r + 0]) == 0 && Weekday(g[7 * r + 6]) == 6
    ensures forall r :: 0 <= r < k ==> Weekday(rows[r][0]) == 0 && Weekday(rows[r][6]) == 6
  {
    forall r | 0 <= r < k
      ensures Weekday(rows[r][0]) == 0 && Weekday(rows[r][6]) == 6
    {
      assert rows[r][0] == g[7 * r + 0];
      assert rows[r][6] == g[7 * r + 6];
    }
  }

  /**
    * In a run of `7 * k` consecutive days from a Sunday, every seventh day is
    * a Sunday and the day six after it a Saturday.
    */
  lemma WeekStarts(g: seq<Day>, k: nat)
    requires |g| == 7 * k
    requires k > 0 && Weekday(g[0]) == 0
    requires forall i :: 0 <= i < |g| ==> g[i] == g[0] + i
    ensures forall r :: 0 <= r < k ==> Weekday(g[7 * r + 0]) == 0 && Weekday(g[7 * r + 6]) == 6
  {
    forall r | 0 <= r < k
      ensures Weekday(g[7 * r + 0]) == 0 && Weekday(g[7 * r + 6]) == 6
    {
      var i := 7 * r;
      assert g[i + 0] == g[0] + i;
      assert g[i + 6] == g[0] + i + 6;
      WeekShift(g[0], r);
    }
  }

  /** Whole weeks after a Sunday are Sundays, and six days after them Saturdays. */
  lemma {:induction false} WeekShift(d: Day, r: nat)
    requires Weekday(d) == 0
    ensures Weekday(d + 7 * r) == 0
    ensures Weekday(d + 7 * r + 6) == 6
    decreases r
  {
    if r > 0 {
      WeekShift(d, r - 1);
      WeekdayResidue(d + 7 * (r - 1));
    }
  }
}
