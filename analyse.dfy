/** The streak analyzer: the expected gap of each periodicity, the longest
    streak of one habit, the habit with the longest streak, and the habits of
    one periodicity. Each operation reads the habit store; when the store
    cannot be read (its connection is closed) it returns its neutral result
    (`0`, `(None, 0)` or `[]`) instead of failing. */
module Analyse {
  import opened Options
  import opened Sequences
  import opened Runs
  import Dates
  import opened Db

  // ---- Expected gap ----

  function LowerChar(c: char): char {
    if 'A' <= c <= 'Z' then (c as int - 'A' as int + 'a' as int) as char else c
  }

  /** `str.lower` on ASCII letters. */
  function Lower(s: string): (r: string)
    ensures |r| == |s|
  {
    if s == [] then [] else [LowerChar(s[0])] + Lower(s[1..])
  }

  /** Lowering leaves no capital letter, maps each capital to its small
      letter and keeps every other character. */
  lemma {:induction false} LowerMeaning(s: string)
    ensures forall i :: 0 <= i < |s| ==> !('A' <= Lower(s)[i] <= 'Z')
    ensures forall i :: 0 <= i < |s| && !('A' <= s[i] <= 'Z') ==> Lower(s)[i] == s[i]
    ensures forall i :: 0 <= i < |s| && 'A' <= s[i] <= 'Z' ==> Lower(s)[i] as int == s[i] as int + 32
  {
    if s != [] {
      LowerMeaning(s[1..]);
      assert forall i :: 0 < i < |s| ==> Lower(s)[i] == Lower(s[1..])[i - 1] && s[i] == s[1..][i - 1];
    }
  }

  /** A text without capital letters is its own lower-case form. */
  lemma LowerKeepsSmall(s: string)
    requires forall i :: 0 <= i < |s| ==> !('A' <= s[i] <= 'Z')
    ensures Lower(s) == s
  {
    LowerMeaning(s);
  }

  /** The gap in days between two on-schedule check-offs, looked up on the
      lower-cased periodicity; any other periodicity gets the daily gap. */
  function ExpectedGap(periodicity: string): (gap: int)
  {
    var key := Lower(periodicity);
    if key == "daily" then 1
    else if key == "weekly" then 7
    else if key == "monthly" then 4 * 7
    else if key == "bi-annually" then 26 * 7
    else if key == "annually" then 52 * 7
    else 1
  }

  /** Each named periodicity, in any letter case, gets its gap; every other
      periodicity, "daily" included, gets one day. */
  lemma ExpectedGapByName(periodicity: string)
    ensures ExpectedGap(periodicity) == 7 <==> Lower(periodicity) == "weekly"
    ensures ExpectedGap(periodicity) == 28 <==> Lower(periodicity) == "monthly"
    ensures ExpectedGap(periodicity) == 182 <==> Lower(periodicity) == "bi-annually"
    ensures ExpectedGap(periodicity) == 364 <==> Lower(periodicity) == "annually"
    ensures ExpectedGap(periodicity) == 1 <==> Lower(periodicity) !in {"weekly", "monthly", "bi-annually", "annually"}
  {
  }

  // ---- Parsing the check-off dates ----

  /** The day number of a row's date, or `None` when `strptime` raises
      `ValueError` on it. */
  function DayNumber(row: Checkoff): Option<int>
  {
    match Dates.ParseDate(row.date)
    case None => None
    case Some(d) => Some(Dates.Ordinal(d))
  }

  /** Day numbers stand for the parsed dates faithfully: of two rows whose
      dates parse, one has the smaller day number exactly when its date comes
      first in the calendar, and the same day number exactly when the dates
      are equal. So sorting day numbers sorts the dates, and subtracting them
      gives the distance in days. */
  lemma DayNumberOrder(r1: Checkoff, r2: Checkoff)
    requires DayNumber(r1).Some? && DayNumber(r2).Some?
    ensures DayNumber(r1).value < DayNumber(r2).value
      <==> Dates.Before(Dates.ParseDate(r1.date).value, Dates.ParseDate(r2.date).value)
    ensures DayNumber(r1).value == DayNumber(r2).value
      <==> Dates.ParseDate(r1.date).value == Dates.ParseDate(r2.date).value
  {
    Dates.OrdinalOrder(Dates.ParseDate(r1.date).value, Dates.ParseDate(r2.date).value);
  }

  /** The day numbers of the rows' dates, in row order; `None` as soon as one
      date does not parse. */
  function ParseDays(rows: seq<Checkoff>): Option<seq<int>> {
    MapAll(rows, DayNumber)
  }

  // ---- One habit's streak ----

  /** The streak of a list of check-off rows: 0 without rows or when a date
      does not parse, otherwise the longest run of the ascending day numbers
      whose steps all equal the expected gap. */
  function StreakOfRows(rows: seq<Checkoff>, periodicity: string): nat {
    if rows == [] then 0
    else
      match ParseDays(rows)
      case None => 0
      case Some(days) => LongestRun(Sort(days), ExpectedGap(periodicity))
  }

  /** A streak never exceeds the number of check-offs, and it is zero
      exactly when there are none or one of their dates does not parse. */
  lemma StreakBounds(rows: seq<Checkoff>, periodicity: string)
    ensures StreakOfRows(rows, periodicity) <= |rows|
    ensures StreakOfRows(rows, periodicity) == 0 <==> rows == [] || ParseDays(rows).None?
  {
  }

  /** The streak of habit `habit` over the tracker table. */
  function Streak(tracker: seq<Checkoff>, habit: string, periodicity: string): nat {
    StreakOfRows(CheckoffsFor(tracker, habit), periodicity)
  }

  /** The streak is the longest run in the ascending arrangement of the
      check-off dates: some run has exactly that length and none is longer. */
  lemma StreakIsLongestRun(rows: seq<Checkoff>, periodicity: string)
    requires ParseDays(rows).Some?
    ensures var ds := Sort(ParseDays(rows).value);
      var gap := ExpectedGap(periodicity);
      Sorted(ds) && multiset(ds) == multiset(ParseDays(rows).value)
      && (rows != [] ==> exists lo, hi :: IsRun(ds, gap, lo, hi) && hi - lo == StreakOfRows(rows, periodicity))
      && (forall lo, hi :: IsRun(ds, gap, lo, hi) ==> hi - lo <= StreakOfRows(rows, periodicity))
  {
    LongestRunIsLongest(Sort(ParseDays(rows).value), ExpectedGap(periodicity));
  }

  /** The streak does not depend on the order in which the rows come back. */
  lemma StreakIgnoresOrder(r1: seq<Checkoff>, r2: seq<Checkoff>, periodicity: string)
    requires multiset(r1) == multiset(r2)
    ensures StreakOfRows(r1, periodicity) == StreakOfRows(r2, periodicity)
  {
    assert |r1| == |multiset(r1)| == |multiset(r2)| == |r2|;
    if ParseDays(r1).Some? {
      MapAllPermutation(r1, r2, DayNumber);
      SortIgnoresOrder(ParseDays(r1).value, ParseDays(r2).value);
    } else if ParseDays(r2).Some? {
      MapAllPermutation(r2, r1, DayNumber);
    }
  }

  /** `calculate_streak`. */
  method CalculateStreak(db: HabitStore, habit: string, periodicity: string) returns (streak: nat)
    ensures streak == if db.isOpen then Streak(db.tracker, habit, periodicity) else 0
  {
    if !db.isOpen {
      return 0;  // reading the check-offs fails
    }
    var data := db.GetHabitCheckoffs(habit);
    if data == [] {
      return 0;
    }
    var parsed := ParseDays(data);
    if parsed.None? {
      return 0;  // a date that does not parse
    }
    var dates := Sort(parsed.value);
    var gap := ExpectedGap(periodicity);
    assert Streak(db.tracker, habit, periodicity) == LongestRun(dates, gap);
    var run, longest := 1, 1;
    for i := 1 to |dates|
      invariant run == RunEndingAt(dates, gap, i)
      invariant 1 <= longest && Max(longest, run) == LongestRunWithin(dates, gap, i)
    {
      if dates[i] - dates[i - 1] == gap {
        run := run + 1;
      } else {
        longest := Max(longest, run);
        run := 1;
      }
    }
    streak := Max(longest, run);
  }

  // ---- The longest streak over all habits ----

  function HabitStreak(tracker: seq<Checkoff>, h: Habit): nat {
    Streak(tracker, h.name, h.periodicity)
  }

  /** The streak of every habit, in table order. */
  function Streaks(tracker: seq<Checkoff>, habits: seq<Habit>): (r: seq<nat>)
    ensures |r| == |habits|
  {
    if habits == [] then [] else [HabitStreak(tracker, habits[0])] + Streaks(tracker, habits[1..])
  }

  lemma {:induction false} StreaksAt(tracker: seq<Checkoff>, habits: seq<Habit>, j: nat)
    requires j < |habits|
    ensures Streaks(tracker, habits)[j] == HabitStreak(tracker, habits[j])
  {
    if j > 0 {
      StreaksAt(tracker, habits[1..], j - 1);
    }
  }

  /** The streaks of one more row of the table. */
  lemma StreaksSnoc(tracker: seq<Checkoff>, habits: seq<Habit>, i: nat)
    requires i < |habits|
    ensures Streaks(tracker, habits[..i + 1]) == Streaks(tracker, habits[..i]) + [HabitStreak(tracker, habits[i])]
  {
    StreaksAt(tracker, habits[..i + 1], i);
    forall j | 0 <= j < i
      ensures Streaks(tracker, habits[..i + 1])[j] == Streaks(tracker, habits[..i])[j]
    {
      StreaksAt(tracker, habits[..i + 1], j);
      StreaksAt(tracker, habits[..i], j);
    }
  }

  lemma StreaksBound(tracker: seq<Checkoff>, habits: seq<Habit>, m: nat)
    requires forall j :: 0 <= j < |habits| ==> Streaks(tracker, habits)[j] <= m
    ensures forall h :: h in habits ==> HabitStreak(tracker, h) <= m
  {
    forall h | h in habits ensures HabitStreak(tracker, h) <= m {
      var j :| 0 <= j < |habits| && habits[j] == h;
      StreaksAt(tracker, habits, j);
    }
  }

  lemma StreaksFirst(tracker: seq<Checkoff>, habits: seq<Habit>, at: nat, m: nat)
    requires at < |habits| && Streaks(tracker, habits)[at] == m
    requires forall j :: 0 <= j < at ==> Streaks(tracker, habits)[j] < m
    ensures FirstWithStreak(tracker, habits, habits[at].name, m)
  {
    StreaksAt(tracker, habits, at);
    forall j | 0 <= j < at ensures HabitStreak(tracker, habits[j]) < m {
      StreaksAt(tracker, habits, j);
    }
  }

  /** `name` is the first habit, in table order, whose streak is `m`, and every
      habit before it has a shorter streak. */
  predicate FirstWithStreak(tracker: seq<Checkoff>, habits: seq<Habit>, name: string, m: nat) {
    exists i :: 0 <= i < |habits| && habits[i].name == name && HabitStreak(tracker, habits[i]) == m
      && forall j :: 0 <= j < i ==> HabitStreak(tracker, habits[j]) < m
  }

  /** One turn of the loop in `get_longest_streak`: `calculate_streak` on the
      name and periodicity of row `i` of the habit table, after the streaks
      `seen` of the rows before it. */
  method StreakOfRow(db: HabitStore, habits: seq<Habit>, i: nat, ghost seen: seq<nat>) returns (streak: nat)
    requires db.isOpen && i < |habits| && seen == Streaks(db.tracker, habits[..i])
    ensures seen + [streak] == Streaks(db.tracker, habits[..i + 1])
  {
    streak := CalculateStreak(db, habits[i].name, habits[i].periodicity);
    StreaksSnoc(db.tracker, habits, i);
  }

  /** `get_longest_streak`: the largest streak of any habit and the first
      habit, in table order, attaining it; `(None, 0)` when no habit has a
      positive streak or the store cannot be read. */
  method GetLongestStreak(db: HabitStore) returns (best: Option<string>, maxStreak: nat)
    ensures !db.isOpen ==> best == None && maxStreak == 0
    ensures db.isOpen ==> forall h :: h in db.habits ==> HabitStreak(db.tracker, h) <= maxStreak
    ensures best.None? <==> maxStreak == 0
    ensures best.Some? ==> FirstWithStreak(db.tracker, db.habits, best.value, maxStreak)
  {
    if !db.isOpen {
      return None, 0;
    }
    var habits := db.habits;
    maxStreak, best := 0, None;
    ghost var at := 0;  // the position of `best` in the table
    ghost var seen: seq<nat> := [];
    for i := 0 to |habits|
      invariant seen == Streaks(db.tracker, habits[..i])
      invariant forall j :: 0 <= j < i ==> seen[j] <= maxStreak
      invariant best.None? <==> maxStreak == 0
      invariant best.Some? ==> 0 <= at < i && habits[at].name == best.value && seen[at] == maxStreak
      invariant best.Some? ==> forall j :: 0 <= j < at ==> seen[j] < maxStreak
    {
      var streak := StreakOfRow(db, habits, i, seen);
      if streak > maxStreak {
        maxStreak, best := streak, Some(habits[i].name);
        at := i;
      }
      seen := seen + [streak];
    }
    assert habits[..|habits|] == habits;
    StreaksBound(db.tracker, habits, maxStreak);
    if best.Some? {
      StreaksFirst(db.tracker, habits, at, maxStreak);
    }
  }

  // ---- Habits by periodicity ----

  function HasPeriodicity(periodicity: string): Habit -> bool {
    (h: Habit) => h.periodicity == periodicity
  }

  /** The names of the habits stored with exactly this periodicity (no case
      folding), in table order. */
  function NamesWithPeriodicity(habits: seq<Habit>, periodicity: string): (names: seq<string>)
    ensures forall n :: n in names <==> exists h :: h in habits && h.name == n && h.periodicity == periodicity
  {
    var matching := Filter(habits, HasPeriodicity(periodicity));
    assert forall n :: n in HabitNames(matching) ==> exists h :: h in matching && h.name == n;
    HabitNames(matching)
  }

  /** A habit appended to the table is listed after the earlier ones, if at all. */
  lemma NamesInTableOrder(habits: seq<Habit>, h: Habit, periodicity: string)
    ensures NamesWithPeriodicity(habits + [h], periodicity)
      == NamesWithPeriodicity(habits, periodicity) + (if h.periodicity == periodicity then [h.name] else [])
  {
    FilterAppend(habits, [h], HasPeriodicity(periodicity));
    var a := Filter(habits, HasPeriodicity(periodicity));
    var b := Filter([h], HasPeriodicity(periodicity));
    HabitNamesAppend(a, b);
    assert b == if h.periodicity == periodicity then [h] else [];
  }

  /** `get_habits_by_periodicity`. */
  function GetHabitsByPeriodicity(db: HabitStore, periodicity: string): (names: seq<string>)
    reads db
    ensures !db.isOpen ==> names == []
    ensures db.isOpen ==> forall n :: n in names <==> exists h :: h in db.habits && h.name == n && h.periodicity == periodicity
    ensures |names| <= |db.habits|
  {
    if db.isOpen then NamesWithPeriodicity(db.habits, periodicity) else []
  }

  // ---- Check-offs stored with real dates; examples ----

  /** A row stored with the ISO form of a real date yields that date's day number. */
  lemma RowDay(d: Dates.Date, habit: string)
    requires Dates.ValidDate(d)
    ensures DayNumber(Checkoff(Dates.IsoFormat(d), habit)) == Some(Dates.Ordinal(d))
  {
    Dates.ParseIsoFormat(d);
  }

  predicate AllValid(dates: seq<Dates.Date>) {
    forall i :: 0 <= i < |dates| ==> Dates.ValidDate(dates[i])
  }

  /** The check-off rows `checkoff_habit` stores for `habit` on `dates`. */
  function IsoRows(dates: seq<Dates.Date>, habit: string): seq<Checkoff>
    requires AllValid(dates)
  {
    if dates == [] then [] else [Checkoff(Dates.IsoFormat(dates[0]), habit)] + IsoRows(dates[1..], habit)
  }

  /** The day numbers of `dates`, in order. */
  function Ordinals(dates: seq<Dates.Date>): seq<int>
    requires AllValid(dates)
  {
    if dates == [] then [] else [Dates.Ordinal(dates[0])] + Ordinals(dates[1..])
  }

  /** Rows stored with the ISO text of real dates always parse, to the day
      numbers of those dates. */
  lemma {:induction false} IsoRowsParse(dates: seq<Dates.Date>, habit: string)
    requires AllValid(dates)
    ensures ParseDays(IsoRows(dates, habit)) == Some(Ordinals(dates))
  {
    if dates != [] {
      RowDay(dates[0], habit);
      IsoRowsParse(dates[1..], habit);
      var rows := IsoRows(dates, habit);
      assert rows[0] == Checkoff(Dates.IsoFormat(dates[0]), habit);
      assert rows[1..] == IsoRows(dates[1..], habit);
    }
  }

  /** The streak of check-offs stored with real dates is the longest run of
      the ascending day numbers of those dates; no date can fail to parse. */
  lemma IsoRowsStreak(dates: seq<Dates.Date>, habit: string, periodicity: string)
    requires AllValid(dates) && dates != []
    ensures StreakOfRows(IsoRows(dates, habit), periodicity)
      == LongestRun(Sort(Ordinals(dates)), ExpectedGap(periodicity))
  {
    IsoRowsParse(dates, habit);
  }

  /** Steps of one day, one day and then two days hold a run of three. */
  lemma RunExample(a: int)
    ensures LongestRun([a, a + 1, a + 2, a + 4], 1) == 3
  {
    var ds := [a, a + 1, a + 2, a + 4];
    assert RunEndingAt(ds, 1, 2) == 2;
    assert RunEndingAt(ds, 1, 3) == 3;
    assert RunEndingAt(ds, 1, 4) == 1;
    assert LongestRunWithin(ds, 1, 2) == 2;
    assert LongestRunWithin(ds, 1, 3) == 3;
  }

  /** Day numbers that step by one, one and two days hold a daily run of three. */
  lemma GapAfterThree(a: int)
    ensures LongestRun(Sort([a, a + 1, a + 2, a + 4]), ExpectedGap("daily")) == 3
  {
    var ds := [a, a + 1, a + 2, a + 4];
    LowerKeepsSmall("daily");
    assert ExpectedGap("daily") == 1;
    assert Sorted(ds);
    SortedUnique(Sort(ds), ds);
    RunExample(a);
  }

  /** Two day numbers a week apart hold a weekly run of two. */
  lemma WeekApart(a: int)
    ensures LongestRun(Sort([a, a + 7]), ExpectedGap("weekly")) == 2
  {
    var ds := [a, a + 7];
    LowerKeepsSmall("weekly");
    assert ExpectedGap("weekly") == 7;
    assert Sorted(ds);
    SortedUnique(Sort(ds), ds);
    assert RunEndingAt(ds, 7, 2) == 2;
  }

  /** Prepending a date prepends its row and its day number. */
  lemma IsoRowsCons(d: Dates.Date, rest: seq<Dates.Date>, habit: string)
    requires Dates.ValidDate(d) && AllValid(rest)
    ensures AllValid([d] + rest)
    ensures IsoRows([d] + rest, habit) == [Checkoff(Dates.IsoFormat(d), habit)] + IsoRows(rest, habit)
    ensures Ordinals([d] + rest) == [Dates.Ordinal(d)] + Ordinals(rest)
  {
    assert ([d] + rest)[1..] == rest;
  }

  /** The day numbers of four real dates. */
  lemma FourOrdinals(d1: Dates.Date, d2: Dates.Date, d3: Dates.Date, d4: Dates.Date)
    requires Dates.ValidDate(d1) && Dates.ValidDate(d2) && Dates.ValidDate(d3) && Dates.ValidDate(d4)
    ensures AllValid([d1, d2, d3, d4])
    ensures Ordinals([d1, d2, d3, d4]) == [Dates.Ordinal(d1), Dates.Ordinal(d2), Dates.Ordinal(d3), Dates.Ordinal(d4)]
  {
    IsoRowsCons(d4, [], "");
    IsoRowsCons(d3, [d4], "");
    IsoRowsCons(d2, [d3, d4], "");
    IsoRowsCons(d1, [d2, d3, d4], "");
    assert [d1] + [d2, d3, d4] == [d1, d2, d3, d4];
  }

  /** The day numbers of two real dates. */
  lemma TwoOrdinals(d1: Dates.Date, d2: Dates.Date)
    requires Dates.ValidDate(d1) && Dates.ValidDate(d2)
    ensures AllValid([d1, d2])
    ensures Ordinals([d1, d2]) == [Dates.Ordinal(d1), Dates.Ordinal(d2)]
  {
    IsoRowsCons(d2, [], "");
    IsoRowsCons(d1, [d2], "");
  }

  /** Check-offs on three consecutive days and on the day after next make a
      daily streak of three: the missed day ends the run. */
  lemma MissedDayEndsStreak(d1: Dates.Date, d2: Dates.Date, d3: Dates.Date, d4: Dates.Date, habit: string)
    requires Dates.ValidDate(d1) && Dates.ValidDate(d2) && Dates.ValidDate(d3) && Dates.ValidDate(d4)
    requires Dates.Ordinal(d2) == Dates.Ordinal(d1) + 1 && Dates.Ordinal(d3) == Dates.Ordinal(d2) + 1
    requires Dates.Ordinal(d4) == Dates.Ordinal(d3) + 2
    ensures AllValid([d1, d2, d3, d4])
    ensures StreakOfRows(IsoRows([d1, d2, d3, d4], habit), "daily") == 3
  {
    var a := Dates.Ordinal(d1);
    var dates := [d1, d2, d3, d4];
    FourOrdinals(d1, d2, d3, d4);
    IsoRowsStreak(dates, habit, "daily");
    GapAfterThree(a);
  }

  /** Two check-offs exactly one week apart make a weekly streak of two. */
  lemma OneWeekStreak(d1: Dates.Date, d2: Dates.Date, habit: string)
    requires Dates.ValidDate(d1) && Dates.ValidDate(d2)
    requires Dates.Ordinal(d2) == Dates.Ordinal(d1) + 7
    ensures AllValid([d1, d2])
    ensures StreakOfRows(IsoRows([d1, d2], habit), "weekly") == 2
  {
    var a := Dates.Ordinal(d1);
    TwoOrdinals(d1, d2);
    IsoRowsStreak([d1, d2], habit, "weekly");
    WeekApart(a);
  }

  /** The ISO text of a day of January 2025. */
  lemma January2025Text(day: int)
    requires 1 <= day <= 31
    ensures Dates.IsoFormat(Dates.Date(2025, 1, day))
      == "2025-01-" + [Dates.DigitChar(day / 10), Dates.DigitChar(day % 10)]
  {
    assert Dates.Padded(2025, 4) == "2025";
    assert Dates.Padded(1, 2) == "01";
    assert Dates.Padded(day / 10, 1) == [Dates.DigitChar(day / 10)] by {
      assert (day / 10) % 10 == day / 10;
    }
    assert Dates.Padded(day, 2) == [Dates.DigitChar(day / 10), Dates.DigitChar(day % 10)];
  }

  /** The ISO text of the dates the daily and weekly examples use is the
      text the check-offs are stored with. */
  lemma ExampleDateTexts()
    ensures Dates.IsoFormat(Dates.Date(2025, 1, 20)) == "2025-01-20"
    ensures Dates.IsoFormat(Dates.Date(2025, 1, 25)) == "2025-01-25"
    ensures Dates.IsoFormat(Dates.Date(2025, 1, 26)) == "2025-01-26"
    ensures Dates.IsoFormat(Dates.Date(2025, 1, 27)) == "2025-01-27"
    ensures Dates.IsoFormat(Dates.Date(2025, 1, 29)) == "2025-01-29"
  {
    January2025Text(20);
    January2025Text(25);
    January2025Text(26);
    January2025Text(27);
    January2025Text(29);
  }

  /** The rows stored for the dates of the daily example. */
  lemma DailyRows(habit: string)
    ensures AllValid([Dates.Date(2025, 1, 25), Dates.Date(2025, 1, 26), Dates.Date(2025, 1, 27), Dates.Date(2025, 1, 29)])
    ensures IsoRows([Dates.Date(2025, 1, 25), Dates.Date(2025, 1, 26), Dates.Date(2025, 1, 27), Dates.Date(2025, 1, 29)], habit)
      == [Checkoff("2025-01-25", habit), Checkoff("2025-01-26", habit), Checkoff("2025-01-27", habit), Checkoff("2025-01-29", habit)]
  {
    var d25, d26, d27, d29 := Dates.Date(2025, 1, 25), Dates.Date(2025, 1, 26), Dates.Date(2025, 1, 27), Dates.Date(2025, 1, 29);
    ExampleDateTexts();
    IsoRowsCons(d29, [], habit);
    IsoRowsCons(d27, [d29], habit);
    IsoRowsCons(d26, [d27, d29], habit);
    IsoRowsCons(d25, [d26, d27, d29], habit);
    assert [d25] + [d26, d27, d29] == [d25, d26, d27, d29];
  }

  /** The rows stored for the dates of the weekly example. */
  lemma WeeklyRows(habit: string)
    ensures AllValid([Dates.Date(2025, 1, 20), Dates.Date(2025, 1, 27)])
    ensures IsoRows([Dates.Date(2025, 1, 20), Dates.Date(2025, 1, 27)], habit)
      == [Checkoff("2025-01-20", habit), Checkoff("2025-01-27", habit)]
  {
    var d20, d27 := Dates.Date(2025, 1, 20), Dates.Date(2025, 1, 27);
    ExampleDateTexts();
    IsoRowsCons(d27, [], habit);
    IsoRowsCons(d20, [d27], habit);
    assert [d20] + [d27] == [d20, d27];
  }

  /** A daily habit checked off on 25, 26, 27 and 29 January 2025 has a
      streak of three. */
  lemma DailyExample(habit: string)
    ensures StreakOfRows([Checkoff("2025-01-25", habit), Checkoff("2025-01-26", habit),
      Checkoff("2025-01-27", habit), Checkoff("2025-01-29", habit)], "daily") == 3
  {
    var d1, d2, d3, d4 := Dates.Date(2025, 1, 25), Dates.Date(2025, 1, 26), Dates.Date(2025, 1, 27), Dates.Date(2025, 1, 29);
    assert Dates.Ordinal(d2) == Dates.Ordinal(d1) + 1;
    assert Dates.Ordinal(d3) == Dates.Ordinal(d2) + 1;
    assert Dates.Ordinal(d4) == Dates.Ordinal(d3) + 2;
    MissedDayEndsStreak(d1, d2, d3, d4, habit);
    DailyRows(habit);
  }

  /** A weekly habit checked off on 20 and 27 January 2025 has a streak of two. */
  lemma WeeklyExample(habit: string)
    ensures StreakOfRows([Checkoff("2025-01-20", habit), Checkoff("2025-01-27", habit)], "weekly") == 2
  {
    var d1, d2 := Dates.Date(2025, 1, 20), Dates.Date(2025, 1, 27);
    assert Dates.Ordinal(d2) == Dates.Ordinal(d1) + 7;
    OneWeekStreak(d1, d2, habit);
    WeeklyRows(habit);
  }
}
