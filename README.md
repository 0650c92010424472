# Habit tracker: the streak analyzer and the habit store

This project models the core of a small command-line habit tracker. The
tracker keeps habits with a periodicity (`daily`, `weekly`, `monthly`,
`bi-annually`, `annually`) in a `habit` table. It logs each completion
("check-off") as a dated row of a `tracker` table. From those rows it computes
streaks.

The model has six modules:

- `Db` (db.dfy) holds the two tables as sequences of rows inside the class
  `HabitStore`, together with the connection state `isOpen`. It models:
  - the write operations `add_habit`, `delete_habit`, `edit_habit`,
    `checkoff_habit` and `insert_default_data` as methods that update the
    tables in place;
  - the reads `get_all_habits` and `get_habit_checkoffs` as functions;
  - opening the database (`get_db`).
- `Analyse` (analyse.dfy) models the analyzer:
  - the gap table keyed on the lower-cased periodicity;
  - `calculate_streak`, a loop over the sorted day numbers that keeps the
    current run and the longest one;
  - `get_longest_streak`, a loop that keeps the first habit with the largest
    streak;
  - `get_habits_by_periodicity`, an exact-match filter.
- `Runs` (runs.dfy) is the specification the streak loop is proved against.
  A *run* is a stretch of consecutive sorted day numbers in which every step
  equals the expected gap. The streak is the length of the longest run.
- `Dates` (dates.dfy) covers:
  - the proleptic Gregorian calendar, with a day number per date (`toordinal`);
  - the ISO text form `str(date)`;
  - the parse `strptime(text, "%Y-%m-%d")`, with the field patterns of
    CPython's `_strptime`.

  It proves that day numbers order dates as the calendar does, that the next
  calendar day is exactly one day number later, and that parsing the ISO form
  of a date gives the date back.
- `Sequences` (sequences.dfy) holds shared helpers:
  - an order-keeping filter (a `SELECT … WHERE`, a list comprehension with a
    condition);
  - a map that fails as soon as one element fails (the list comprehension
    over `strptime`);
  - an insertion sort (`sorted`), with their algebra.
- `Options` (options.dfy) holds the `Option` type.

Each analyzer operation catches every exception and returns a neutral value:
`0`, `(None, 0)` or `[]`. The model has two such failures:

- A closed connection (`isOpen == false`) is the sqlite failure. The
  analyzer's operations accept a closed store and return the neutral value.
  The `db.py` operations do not catch exceptions, so they require an open
  store.
- A check-off date that `strptime` rejects is a parse failure (`None`).
  `calculate_streak` then returns 0.

The tracker table does not deduplicate rows. `insert_default_data` checks the
default habits for presence but appends the eleven default check-offs on
every call. `Db.OpenTwice` states the consequence of opening the database
twice: the habit table is unchanged the second time, and the tracker table
receives the eleven default rows twice. Duplicated dates then break streaks, because a step of
0 days is never a positive expected gap (`Runs.DuplicateBreaksRun`).

## Model

| member | source | states |
|---|---|---|
| Analyse.CalculateStreak | analyse.py:45-80 | On an open store the loop returns `Streak(tracker, habit, periodicity)`. That value is 0 when the habit has no rows or a date does not parse. Otherwise it is the longest run of the sorted day numbers under the expected gap. A closed store gives 0. |
| Analyse.StreakBounds | analyse.py:54-77 | A streak never exceeds the number of check-off rows. It is 0 exactly when there are no rows or some date fails to parse. So every parsed, non-empty list has a streak of at least 1. |
| Analyse.StreakIsLongestRun | analyse.py:58-77 | The streak is the length of some run of the ascending arrangement of the day numbers, and no run is longer. |
| Analyse.StreakIgnoresOrder | analyse.py:54-58 | Two row lists that are rearrangements of each other have the same streak, because the dates are sorted first. |
| Analyse.ExpectedGapByName | analyse.py:60-67 | After lower-casing, weekly gives 7 days, monthly 28, bi-annually 182 and annually 364, and each of these only for its own name. Every other periodicity, including daily, gives 1 day. |
| Analyse.LowerMeaning | analyse.py:67 | `lower()` leaves no capital letter. It maps each ASCII capital to its small letter and keeps every other character. |
| Analyse.DayNumberOrder | analyse.py:58-71 | For two rows whose dates parse, one has the smaller day number exactly when its date comes first in the calendar, and the same day number exactly when the dates are equal. Sorting day numbers therefore sorts the dates. |
| Analyse.RowDay | db.py:114-115 | A row stored with the ISO form of a valid date always parses, to that date's day number. |
| Analyse.IsoRowsParse | db.py:114-117 | Rows stored with the ISO text of real dates, as `str(date.today())` produces, always parse: the parsed list holds exactly the day numbers of those dates, in row order. |
| Analyse.IsoRowsStreak | analyse.py:54-77 | For a non-empty list of such rows, the streak is the longest run of their sorted day numbers, and the error path that returns 0 is never taken. |
| Analyse.MissedDayEndsStreak | analyse.py:58-77 | Check-offs on three consecutive days and then one more two days after the third give a daily streak of 3. The missed day ends the run. |
| Analyse.DailyExample | test_project.py:23-26 | A daily habit checked off on "2025-01-25", "2025-01-26", "2025-01-27" and "2025-01-29" has a streak of 3. |
| Analyse.WeeklyExample | test_project.py:27-28 | A weekly habit checked off on "2025-01-20" and "2025-01-27" has a streak of 2. |
| Analyse.OneWeekStreak | analyse.py:58-77 | Check-offs on two dates exactly seven days apart give a weekly streak of 2, for any such dates. |
| Analyse.WeekApart | analyse.py:62-77 | Day numbers seven apart hold a run of 2 under the gap looked up for "weekly". |
| Analyse.ExampleDateTexts | test_project.py:23-28 | The ISO text of each example date is the literal the tests store. |
| Analyse.RunExample | analyse.py:69-77 | Day numbers stepping 1, 1, 2 give a longest run of 3 under a one-day gap. |
| Analyse.GapAfterThree | analyse.py:58-67 | The same holds after sorting, with the gap looked up for "daily". |
| Analyse.StreakOfRow | analyse.py:34-35 | One turn of the longest-streak loop extends the list of streaks seen so far by the streak of the next habit row. |
| Analyse.GetLongestStreak | analyse.py:20-43 | `maxStreak` is at least the streak of every habit. `best` is `None` exactly when `maxStreak` is 0. Otherwise `best` is the first habit in table order whose streak equals `maxStreak`, and every habit before it has a smaller streak, as the strict `>` makes it. A closed store gives `(None, 0)`. |
| Analyse.StreaksSnoc | analyse.py:31-40 | The streak list of the first i+1 habits is that of the first i followed by the streak of habit i. |
| Analyse.StreaksBound | analyse.py:36-38 | A bound on every entry of the streak list bounds the streak of every habit in the table. |
| Analyse.StreaksFirst | analyse.py:36-38 | A position whose streak is m, with only smaller streaks before it, names the first habit with streak m. |
| Analyse.NamesWithPeriodicity | analyse.py:13-15 | A name is listed exactly when some habit row has that name and exactly that periodicity. There is no case folding. |
| Analyse.NamesInTableOrder | analyse.py:13-14 | A habit appended to the table appears after all earlier names, and only when its periodicity matches. |
| Analyse.GetHabitsByPeriodicity | analyse.py:4-18 | On an open store, a name is listed exactly when some habit row has that name and exactly the given periodicity. The list is never longer than the habit table. A closed store gives `[]`. Table order is stated by `NamesInTableOrder`. |
| Runs.LongestRunIsLongest | analyse.py:69-77 | `LongestRun` is the length of a run of the sequence, and every run is at most that long. |
| Runs.LongestRunWithinIsLongest | analyse.py:70-75 | The longest run within the first j positions is attained, and no run inside them is longer. It is the `max_streak` of the loop. |
| Runs.RunEndingAtIsLongestThere | analyse.py:71-75 | The current-run counter is the length of the longest run ending at the current position. |
| Runs.DuplicateBreaksRun | analyse.py:71 | Under a positive gap, two equal neighbouring dates never lie inside one run. |
| Sequences.Sort | analyse.py:58 | The result is sorted and is a permutation of the input. |
| Sequences.SortIgnoresOrder | analyse.py:58 | Sorting two rearrangements of one list gives the same list. |
| Sequences.SortedUnique | analyse.py:58 | Two sorted lists with the same elements are equal. |
| Sequences.MapAllMeaning | analyse.py:58 | The comprehension over `strptime` fails exactly when one element fails. Otherwise it holds each element's result at that element's position. |
| Sequences.MapAllPointwise | analyse.py:58 | When every element succeeds with a known result, the comprehension gives exactly those results. |
| Sequences.MapAllAppend | analyse.py:58 | The comprehension over a concatenation is the concatenation of the comprehensions, and fails when either part fails. |
| Sequences.MapAllPermutation | analyse.py:54-58 | Rearranging the rows rearranges the parsed dates and does not change whether parsing succeeds. |
| Sequences.FilterMultiset | db.py:137-139 | The filter keeps every copy of each kept row and no copy of any other. |
| Sequences.FilterAppend | db.py:137-139 | Filtering a concatenation filters each part in order, so rows added later come later. |
| Dates.ParseIsoFormat | db.py:114-115 | Parsing the ISO text of a valid date gives the date back. |
| Dates.ParseDate | analyse.py:58 | A successful parse yields a valid calendar date. |
| Dates.OrdinalOrder | analyse.py:58 | One date comes before another exactly when its day number is smaller. Equal day numbers mean equal dates. |
| Dates.NextDayIsOneLater | analyse.py:61 | The next calendar day, across month and year ends, is exactly one day number later. So the difference of two day numbers is the distance in days between the dates, and a daily streak is a run of consecutive days. |
| Db.CheckoffsForCounts | db.py:137-139 | The rows of a habit are exactly the tracker rows with its name, duplicates included, and no others. |
| Db.HabitStore.GetHabitCheckoffs | db.py:130-139 | The returned rows are exactly the tracker rows of that habit, and never more rows than the tracker holds. |
| Db.HabitStore.GetAllHabits | db.py:120-128 | The names of the habit table, one per row, in table order. |
| Db.HabitNames | db.py:126-128 | The name list has one entry per habit row, in order. |
| Db.PeriodicityOf | db.py:93-94 | A lookup finds a periodicity exactly when the name is in the table, and returns the periodicity of that row. |
| Db.HabitStore.AddHabit | db.py:39-58 | If the name exists, both tables are unchanged. Otherwise exactly the row (name, periodicity) is appended. Names stay distinct and the tracker is untouched. |
| Db.AddIfAbsent | db.py:50-58 | The table only grows, by at most one row. It is unchanged exactly when the name is present. The name is present afterwards, and distinct names stay distinct. |
| Db.HabitStore.DeleteHabit | db.py:61-81 | An existing habit loses its row and all its tracker rows, and every other row keeps its order. A missing name changes nothing. |
| Db.DeleteEffects | db.py:74-78 | After a delete the name is gone and so are its check-offs. Every other habit keeps its periodicity and exactly its check-offs, in order. |
| Db.DeleteKeepsPeriodicity | db.py:76 | Deleting one habit does not change the periodicity found for any other. |
| Db.FilterKeepsUnique | db.py:76 | Removing rows keeps names distinct. |
| Db.HabitStore.EditHabit | db.py:83-101 | The result is true exactly when the habit exists. Only then does the table change, to the one with that habit's periodicity replaced. The tracker is untouched. |
| Db.WithPeriodicity | db.py:99 | The update keeps every name and position. It sets the periodicity of the rows with that name and keeps every other row's periodicity. |
| Db.EditThenLookup | db.py:99-101 | After an edit the edited habit reads back the new periodicity, and every other habit reads back its old one. |
| Db.HabitStore.CheckoffHabit | db.py:104-118 | Exactly one tracker row is appended. It carries the given date, or today's date in ISO form when none or an empty one is given. The habit table is untouched, and existence and duplicates are not checked. |
| Db.CheckoffComesLast | db.py:117 | A new check-off comes after all earlier check-offs of its habit, and leaves every other habit's check-offs unchanged. |
| Db.HabitStore.AddMissingHabits | db.py:159-163 | The habit table becomes the old one with each missing default habit appended in order. The tracker is untouched and names stay distinct. |
| Db.HabitStore.AppendCheckoffs | db.py:173-175 | The tracker becomes the old one followed by one row per date of each group, group after group. The habit table is untouched. |
| Db.HabitStore.InsertDefaultData | db.py:142-178 | Both effects in sequence: the missing default habits are added and every default check-off is appended. |
| Db.AddMissingCovers | db.py:159-163 | The old table is a prefix of the new one, and every default habit's name is present afterwards. |
| Db.AddMissingPresent | db.py:161-162 | When every name is already present, nothing is inserted. |
| Db.AddMissingIdempotent | db.py:159-163 | Adding the default habits a second time leaves the habit table as it was. |
| Db.AddMissingKeepsUnique | db.py:159-163 | Adding the default habits keeps names distinct. |
| Db.DefaultCheckoffCount | db.py:166-171 | The default check-offs are eleven rows. |
| Db.HabitStore.GetDb | db.py:4-14 | Opening the database opens the connection and then runs the default-data insertion on the existing tables. |
| Db.OpenTwice | db.py:4-14 | Opening twice leaves the habit table as after the first opening. The tracker becomes the old tracker followed by the eleven default check-offs twice over, 22 rows in all. |
| Db.HabitStore.Close | main.py:19 | Closing the connection leaves both tables as they are. |
| Db.HabitStore.constructor | db.py:16-37 | The state of a new database file right after `create_tables`: two empty tables and no open connection. |

## Left out

- The SQL engine, connections, cursors and `commit` are not modelled. The tables are sequences, and `commit` has no counterpart. Of `create_tables` only its outcome on a new file is modelled, as the constructor's two empty tables; the SQL schema text and the foreign-key declaration are not.
- Row order: `SELECT` without `ORDER BY` is taken to return rows in insertion order. `GetAllHabits` may differ from `get_all_habits` here: SQLite can answer `SELECT name FROM habit` from the primary-key index alone and then return the names in name order, which the model does not capture.
- Database failures other than a closed connection are left out: a locked or corrupt file, a full disk, a NULL periodicity.
- `print` output, in the success messages and in the `except` branches, is not modelled.
- `date.today()` is the `today` parameter of `CheckoffHabit`.
- `Lower`: `str.lower` is modelled on ASCII letters only. Other Unicode case mappings are not.
- `ParseDate`: `strptime` is modelled on ASCII digits. Other Unicode decimal digits that CPython's regex `\d` accepts are not, and no time-of-day part is possible.
- `CalculateStreak` returns a streak, and the exceptions it swallows are the two failures above. Other exceptions are not modelled.
- Concurrency and several connections to one database file are not modelled.
- The check that a periodicity is one of the five names happens in the command-line interface, which is not part of this model. The model accepts any periodicity text, as `db.py` does.
- gui.py and habit.py are not part of this model. They call into the core and add no behaviour of their own to it. Of main.py, only the `db.close()` calls and the pattern of opening the store once per command are modelled (`HabitStore.Close`, `OpenTwice`). The rest of main.py is not part of this model.
