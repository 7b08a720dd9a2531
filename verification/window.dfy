/** Choosing the run mode and the filing-date window a run searches
    (`parse_args` and `get_dates`). Days are day ordinals in the court's time
    zone; "today" is the date part of the run's start time. */
module SearchWindow {
  import opened Outcomes
  import opened Calendar

  /** The run cadence; the program passes it around as 0 (daily) or 1 (weekly). */
  datatype Mode = Daily | Weekly

  /** The inclusive window `[fromDay, toDay]` sent as `dateFiledFrom` and
      `dateFiledTo`. */
  datatype Window = Window(fromDay: int, toDay: int)

  /** `parse_args`: the first command-line argument after the program name
      selects the mode; a missing or unknown one is a usage error (`None`).
      Arguments after it are ignored. */
  function ParseArgs(args: seq<string>): (m: Option<Mode>)
    ensures m == Some(Daily) <==> |args| >= 2 && args[1] == "daily"
    ensures m == Some(Weekly) <==> |args| >= 2 && args[1] == "weekly"
    ensures m.None? <==> |args| < 2 || (args[1] != "daily" && args[1] != "weekly")
  {
    if |args| < 2 then None
    else if args[1] == "daily" then Some(Daily)
    else if args[1] == "weekly" then Some(Weekly)
    else None
  }

  /** `get_dates`: a daily run looks back two days, or four when today is a
      Monday; a weekly run looks back seven. The window always ends today. */
  function GetDates(mode: Mode, today: int): (w: Window)
    ensures w.toDay == today
    ensures w.fromDay < w.toDay
    ensures mode == Weekly ==> w.fromDay == today - 7
    ensures mode == Daily && Weekday(today) == Monday ==> w.fromDay == today - 4
    ensures mode == Daily && Weekday(today) != Monday ==> w.fromDay == today - 2
  {
    match mode
    case Daily => if Weekday(today) == Monday then Window(today - 4, today) else Window(today - 2, today)
    case Weekly => Window(today - 7, today)
  }

  predicate InWindow(w: Window, day: int)
  {
    w.fromDay <= day <= w.toDay
  }

  predicate IsWeekday(day: int)
  {
    Weekday(day) != Saturday && Weekday(day) != Sunday
  }

  /** The weekday run before a daily run on `today` (a weekday). */
  function PreviousWeekday(today: int): (p: int)
    requires IsWeekday(today)
    ensures p < today && IsWeekday(p)
    ensures forall d :: p < d < today ==> !IsWeekday(d)
  {
    if Weekday(today) == Monday then
      DaysBeforeMonday(today);
      today - 3
    else today - 1
  }

  /** A Monday's daily window reaches back over the weekend: the Saturday,
      the Sunday and the Friday before are all searched. */
  lemma MondayWindowCoversWeekend(today: int)
    requires Weekday(today) == Monday
    ensures var w := GetDates(Daily, today);
      forall d :: today - 3 <= d <= today ==> InWindow(w, d)
    ensures Weekday(today - 1) == Sunday && Weekday(today - 2) == Saturday && Weekday(today - 3) == Friday
  {
    DaysBeforeMonday(today);
  }

  /** Daily runs on consecutive weekdays leave no filing day unsearched: each
      window starts the day before the previous run's day, so it covers every
      day since then, weekends included. */
  lemma DailyWindowsChain(today: int)
    requires IsWeekday(today)
    ensures var w := GetDates(Daily, today);
      forall d :: PreviousWeekday(today) - 1 <= d <= today ==> InWindow(w, d)
  {
  }

  /** Weekly runs a week apart chain exactly: the window starts on the
      previous run's day, which falls on the same weekday. */
  lemma WeeklyWindowsChain(today: int)
    ensures GetDates(Weekly, today).fromDay == GetDates(Weekly, today - 7).toDay
    ensures Weekday(GetDates(Weekly, today).fromDay) == Weekday(today)
  {
    WeekdayPeriodic(today, 1);
  }

  /** The ordinals agree with the real calendar: 2024-03-11 was a Monday and
      2024-03-13 a Wednesday, so a daily run on 2024-03-13 searches from
      2024-03-11, and one on 2024-03-11 from 2024-03-07. */
  lemma CalendarExample()
    ensures Weekday(Ordinal(Date(2024, 3, 11))) == Monday
    ensures Weekday(Ordinal(Date(2024, 3, 13))) == Wednesday
    ensures GetDates(Daily, Ordinal(Date(2024, 3, 13))).fromDay == Ordinal(Date(2024, 3, 11))
    ensures GetDates(Daily, Ordinal(Date(2024, 3, 11))).fromDay == Ordinal(Date(2024, 3, 7))
  {
    assert DaysBeforeMonth(2024, 3) == 60;
  }
}
