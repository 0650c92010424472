/** The habit store: the `habit` table of (name, periodicity) rows, whose
    name is the primary key, and the `tracker` table of (date, habitName)
    check-off rows, kept in insertion order. The database file and its
    connection are one object; `isOpen` says whether the connection is open. */
module Db {
  import opened Options
  import opened Sequences
  import Dates

  /** A row of the `habit` table. */
  datatype Habit = Habit(name: string, periodicity: string)

  /** A row of the `tracker` table: a check-off of `habitName`, its date kept as text. */
  datatype Checkoff = Checkoff(date: string, habitName: string)

  // ---- Reads ----

  /** `get_all_habits`: the names of the habit table, in table order. */
  function HabitNames(habits: seq<Habit>): (names: seq<string>)
    ensures |names| == |habits|
    ensures forall i :: 0 <= i < |habits| ==> names[i] == habits[i].name
  {
    if habits == [] then [] else [habits[0].name] + HabitNames(habits[1..])
  }

  /** The names of two tables one after the other. */
  lemma HabitNamesAppend(a: seq<Habit>, b: seq<Habit>)
    ensures HabitNames(a + b) == HabitNames(a) + HabitNames(b)
  {
    assert forall i :: |a| <= i < |a| + |b| ==> (a + b)[i] == b[i - |a|];
  }

  /** The primary-key constraint on the habit table. */
  predicate UniqueNames(habits: seq<Habit>) {
    forall i, j :: 0 <= i < j < |habits| ==> habits[i].name != habits[j].name
  }

  function OfHabit(name: string): Checkoff -> bool {
    (c: Checkoff) => c.habitName == name
  }

  function NotOfHabit(name: string): Checkoff -> bool {
    (c: Checkoff) => c.habitName != name
  }

  function NotNamed(name: string): Habit -> bool {
    (h: Habit) => h.name != name
  }

  /** `get_habit_checkoffs`: the tracker rows of habit `name`, in insertion
      order, duplicates included. */
  function CheckoffsFor(tracker: seq<Checkoff>, name: string): (rows: seq<Checkoff>)
  {
    Filter(tracker, OfHabit(name))
  }

  /** Every tracker row of habit `name`, with its duplicates, and no other row. */
  lemma CheckoffsForCounts(tracker: seq<Checkoff>, name: string)
    ensures forall c :: c in CheckoffsFor(tracker, name) <==> c in tracker && c.habitName == name
    ensures forall c ::
      multiset(CheckoffsFor(tracker, name))[c] == if c.habitName == name then multiset(tracker)[c] else 0
  {
    FilterMultiset(tracker, OfHabit(name));
  }

  /** The periodicity stored for habit `name` (`SELECT periodicity FROM habit WHERE name = ?`). */
  function PeriodicityOf(habits: seq<Habit>, name: string): (r: Option<string>)
    ensures r.Some? <==> name in HabitNames(habits)
    ensures r.Some? ==> Habit(name, r.value) in habits
  {
    if habits == [] then None
    else if habits[0].name == name then Some(habits[0].periodicity)
    else PeriodicityOf(habits[1..], name)
  }

  // ---- Table updates ----

  /** The habit table after `INSERT` of `row` when no row has its name yet. */
  function AddIfAbsent(habits: seq<Habit>, row: Habit): (r: seq<Habit>)
    ensures habits <= r && |r| <= |habits| + 1
    ensures r == habits <==> row.name in HabitNames(habits)
    ensures row in r || row.name in HabitNames(habits)
    ensures row.name in HabitNames(r)
    ensures UniqueNames(habits) ==> UniqueNames(r)
  {
    if row.name in HabitNames(habits) then habits else habits + [row]
  }

  /** The habit table after `UPDATE habit SET periodicity = p WHERE name = name`. */
  function WithPeriodicity(habits: seq<Habit>, name: string, p: string): (r: seq<Habit>)
    ensures HabitNames(r) == HabitNames(habits)
    ensures forall i :: 0 <= i < |habits| ==>
      r[i].periodicity == if habits[i].name == name then p else habits[i].periodicity
  {
    if habits == [] then []
    else
      [if habits[0].name == name then Habit(name, p) else habits[0]]
        + WithPeriodicity(habits[1..], name, p)
  }

  /** After an edit, looking the edited habit up gives the new periodicity and
      every other habit keeps its own. */
  lemma {:induction false} EditThenLookup(habits: seq<Habit>, name: string, p: string, other: string)
    ensures name in HabitNames(habits) ==> PeriodicityOf(WithPeriodicity(habits, name, p), name) == Some(p)
    ensures other != name ==>
      PeriodicityOf(WithPeriodicity(habits, name, p), other) == PeriodicityOf(habits, other)
  {
    if habits != [] {
      EditThenLookup(habits[1..], name, p, other);
    }
  }

  /** Keeping some rows of a table with distinct names keeps the names distinct. */
  lemma {:induction false} FilterKeepsUnique(habits: seq<Habit>, keep: Habit -> bool)
    requires UniqueNames(habits)
    ensures UniqueNames(Filter(habits, keep))
  {
    if habits != [] {
      FilterKeepsUnique(habits[1..], keep);
      var rest := Filter(habits[1..], keep);
      forall h | h in rest ensures h.name != habits[0].name {
        var i :| 0 <= i < |habits[1..]| && habits[1..][i] == h;
        assert habits[i + 1] == h;
      }
    }
  }

  /** What `delete_habit` leaves behind: the habit is gone, so are its
      check-offs, every other habit keeps its row and its periodicity, and
      every other habit keeps exactly its check-offs, in their order. */
  lemma DeleteEffects(habits: seq<Habit>, tracker: seq<Checkoff>, name: string, other: string)
    ensures name !in HabitNames(Filter(habits, NotNamed(name)))
    ensures CheckoffsFor(Filter(tracker, NotOfHabit(name)), name) == []
    ensures other != name ==>
      PeriodicityOf(Filter(habits, NotNamed(name)), other) == PeriodicityOf(habits, other)
    ensures other != name ==>
      CheckoffsFor(Filter(tracker, NotOfHabit(name)), other) == CheckoffsFor(tracker, other)
  {
    var kept := Filter(habits, NotNamed(name));
    forall i | 0 <= i < |kept| ensures HabitNames(kept)[i] != name {
      assert kept[i] in kept;
    }
    FilterDropsAll(Filter(tracker, NotOfHabit(name)), OfHabit(name));
    if other != name {
      FilterFilter(tracker, NotOfHabit(name), OfHabit(other));
      DeleteKeepsPeriodicity(habits, name, other);
    }
  }

  lemma {:induction false} DeleteKeepsPeriodicity(habits: seq<Habit>, name: string, other: string)
    requires other != name
    ensures PeriodicityOf(Filter(habits, NotNamed(name)), other) == PeriodicityOf(habits, other)
  {
    if habits != [] {
      DeleteKeepsPeriodicity(habits[1..], name, other);
    }
  }

  /** A check-off appended to the tracker comes last among its habit's check-offs. */
  lemma CheckoffComesLast(tracker: seq<Checkoff>, c: Checkoff, name: string)
    ensures CheckoffsFor(tracker + [c], name)
      == CheckoffsFor(tracker, name) + (if c.habitName == name then [c] else [])
  {
    FilterAppend(tracker, [c], OfHabit(name));
  }

  // ---- Default data ----

  const DefaultHabits: seq<Habit> := [
    Habit("Yoga", "daily"),
    Habit("Groceries", "weekly"),
    Habit("Deep-clean apartment", "monthly"),
    Habit("Clean windows", "bi-annually"),
    Habit("Create my vision board", "annually")
  ]

  /** Default check-offs, grouped by habit. */
  const DefaultCheckoffs: seq<(string, seq<string>)> := [
    ("Yoga", ["2024-04-01", "2024-04-02", "2024-04-03", "2024-04-05", "2024-04-06", "2024-04-08"]),
    ("Groceries", ["2024-03-10", "2024-03-17", "2024-03-24", "2024-03-31"]),
    ("Deep-clean apartment", ["2024-02-15"])
  ]

  /** The habit table after adding each of `rows`, in order, when its name is absent. */
  function AddMissing(habits: seq<Habit>, rows: seq<Habit>): seq<Habit>
  {
    if rows == [] then habits
    else AddIfAbsent(AddMissing(habits, rows[..|rows| - 1]), rows[|rows| - 1])
  }

  /** One tracker row per date, for habit `habit`, in the order of `dates`. */
  function RowsFor(habit: string, dates: seq<string>): (rows: seq<Checkoff>)
    ensures |rows| == |dates|
  {
    seq(|dates|, k requires 0 <= k < |dates| => Checkoff(dates[k], habit))
  }

  /** The tracker rows of a list of (habit, dates) groups, group after group. */
  function Expand(groups: seq<(string, seq<string>)>): seq<Checkoff>
  {
    if groups == [] then []
    else
      var last := groups[|groups| - 1];
      Expand(groups[..|groups| - 1]) + RowsFor(last.0, last.1)
  }

  lemma RowsForStep(habit: string, dates: seq<string>, k: nat)
    requires k < |dates|
    ensures RowsFor(habit, dates[..k + 1]) == RowsFor(habit, dates[..k]) + [Checkoff(dates[k], habit)]
  {
  }

  lemma ExpandStep(groups: seq<(string, seq<string>)>, g: nat)
    requires g < |groups|
    ensures Expand(groups[..g + 1]) == Expand(groups[..g]) + RowsFor(groups[g].0, groups[g].1)
  {
    assert groups[..g + 1][..g] == groups[..g];
  }

  /** The default check-offs are eleven rows. */
  lemma DefaultCheckoffCount()
    ensures |Expand(DefaultCheckoffs)| == 11
  {
    var g := DefaultCheckoffs;
    assert g[..1][..0] == [];
    assert |Expand(g[..1])| == 6;
    assert g[..2][..1] == g[..1];
    assert |Expand(g[..2])| == 10;
    assert g[..3][..2] == g[..2] && g[..3] == g;
  }

  lemma AddMissingStep(habits: seq<Habit>, rows: seq<Habit>, i: nat)
    requires i < |rows|
    ensures AddMissing(habits, rows[..i + 1]) == AddIfAbsent(AddMissing(habits, rows[..i]), rows[i])
  {
    assert rows[..i + 1][..i] == rows[..i];
  }

  /** A table that only grows keeps every name it had. */
  lemma PrefixKeepsNames(a: seq<Habit>, b: seq<Habit>, n: string)
    requires a <= b && n in HabitNames(a)
    ensures n in HabitNames(b)
  {
    var i :| 0 <= i < |a| && HabitNames(a)[i] == n;
    assert HabitNames(b)[i] == n;
  }

  /** After AddMissing, the old table is a prefix of the new one and every
      added row's name is present. */
  lemma {:induction false} AddMissingCovers(habits: seq<Habit>, rows: seq<Habit>)
    ensures habits <= AddMissing(habits, rows)
    ensures forall r :: r in rows ==> r.name in HabitNames(AddMissing(habits, rows))
  {
    if rows != [] {
      var init := rows[..|rows| - 1];
      AddMissingCovers(habits, init);
      var before := AddMissing(habits, init);
      var after := AddMissing(habits, rows);
      forall r | r in rows ensures r.name in HabitNames(after) {
        if r != rows[|rows| - 1] {
          assert r in init;
          PrefixKeepsNames(before, after, r.name);
        }
      }
    }
  }

  /** AddMissing changes nothing when every name is already present. */
  lemma {:induction false} AddMissingPresent(habits: seq<Habit>, rows: seq<Habit>)
    requires forall r :: r in rows ==> r.name in HabitNames(habits)
    ensures AddMissing(habits, rows) == habits
  {
    if rows != [] {
      var init := rows[..|rows| - 1];
      assert forall r :: r in init ==> r in rows;
      AddMissingPresent(habits, init);
    }
  }

  /** Inserting the default habits a second time changes nothing. */
  lemma AddMissingIdempotent(habits: seq<Habit>, rows: seq<Habit>)
    ensures AddMissing(AddMissing(habits, rows), rows) == AddMissing(habits, rows)
  {
    AddMissingCovers(habits, rows);
    AddMissingPresent(AddMissing(habits, rows), rows);
  }

  lemma {:induction false} AddMissingKeepsUnique(habits: seq<Habit>, rows: seq<Habit>)
    requires UniqueNames(habits)
    ensures UniqueNames(AddMissing(habits, rows))
  {
    if rows != [] {
      AddMissingKeepsUnique(habits, rows[..|rows| - 1]);
    }
  }

  // ---- The store ----

  class HabitStore {
    var habits: seq<Habit>
    var tracker: seq<Checkoff>
    var isOpen: bool

    ghost predicate Valid()
      reads this
    {
      UniqueNames(habits)
    }

    /** A database file that does not exist yet: no rows, no connection. */
    constructor ()
      ensures Valid() && habits == [] && tracker == [] && !isOpen
    {
      habits, tracker, isOpen := [], [], false;
    }

    /** `get_db`: opens the connection, makes sure both tables exist and inserts the default data. */
    method GetDb()
      requires Valid()
      modifies this
      ensures Valid() && isOpen
      ensures habits == AddMissing(old(habits), DefaultHabits)
      ensures tracker == old(tracker) + Expand(DefaultCheckoffs)
    {
      isOpen := true;
      InsertDefaultData();
    }

    /** `db.close()`: the tables stay as they are. */
    method Close()
      modifies this
      ensures !isOpen && habits == old(habits) && tracker == old(tracker)
    {
      isOpen := false;
    }

    /** `add_habit`: inserts the row only when no habit has that name yet. */
    method AddHabit(name: string, periodicity: string)
      requires Valid() && isOpen
      modifies this
      ensures Valid() && isOpen && tracker == old(tracker)
      ensures habits == if name in HabitNames(old(habits)) then old(habits)
                        else old(habits) + [Habit(name, periodicity)]
    {
      if name !in HabitNames(habits) {
        habits := habits + [Habit(name, periodicity)];
        assert habits == AddIfAbsent(old(habits), Habit(name, periodicity));
      }
    }

    /** `delete_habit`: removes the habit and, with it, all its check-offs;
        a habit that does not exist changes nothing. */
    method DeleteHabit(name: string)
      requires Valid() && isOpen
      modifies this
      ensures Valid() && isOpen
      ensures name in HabitNames(old(habits)) ==>
        habits == Filter(old(habits), NotNamed(name)) && tracker == Filter(old(tracker), NotOfHabit(name))
      ensures name !in HabitNames(old(habits)) ==> habits == old(habits) && tracker == old(tracker)
    {
      if name in HabitNames(habits) {
        FilterKeepsUnique(habits, NotNamed(name));
        habits := Filter(habits, NotNamed(name));
        tracker := Filter(tracker, NotOfHabit(name));
      }
    }

    /** `edit_habit`: sets the periodicity of an existing habit and reports
        whether the habit existed. */
    method EditHabit(name: string, newPeriodicity: string) returns (ok: bool)
      requires Valid() && isOpen
      modifies this
      ensures Valid() && isOpen && tracker == old(tracker)
      ensures ok <==> name in HabitNames(old(habits))
      ensures habits == if ok then WithPeriodicity(old(habits), name, newPeriodicity) else old(habits)
    {
      if name !in HabitNames(habits) {
        return false;
      }
      habits := WithPeriodicity(habits, name, newPeriodicity);
      ok := true;
    }

    /** `checkoff_habit`: appends one tracker row, dated `eventDate`, or today
        in ISO form when no date (or an empty one) is given. Neither the
        habit's existence nor duplicates are checked. */
    method CheckoffHabit(name: string, eventDate: Option<string>, today: Dates.Date)
      requires Valid() && isOpen
      requires Dates.ValidDate(today)
      modifies this
      ensures Valid() && isOpen && habits == old(habits)
      ensures tracker == old(tracker) + [Checkoff(
        if eventDate.None? || eventDate.value == "" then Dates.IsoFormat(today) else eventDate.value,
        name)]
    {
      var date := if eventDate.None? || eventDate.value == "" then Dates.IsoFormat(today) else eventDate.value;
      tracker := tracker + [Checkoff(date, name)];
    }

    /** `get_all_habits`: the habit names, in table order. */
    function GetAllHabits(): (names: seq<string>)
      requires isOpen
      reads this
      ensures |names| == |habits|
      ensures forall i :: 0 <= i < |habits| ==> names[i] == habits[i].name
    {
      HabitNames(habits)
    }

    /** `get_habit_checkoffs`: the tracker rows of habit `name`, in insertion
        order; every row of that habit and no other (see `CheckoffsForCounts`
        for duplicates). */
    function GetHabitCheckoffs(name: string): (rows: seq<Checkoff>)
      requires isOpen
      reads this
      ensures |rows| <= |tracker|
      ensures forall c :: c in rows <==> c in tracker && c.habitName == name
    {
      CheckoffsFor(tracker, name)
    }

    /** The first loop of `insert_default_data`: adds each of `rows`, in
        order, when no habit has its name yet. */
    method AddMissingHabits(rows: seq<Habit>)
      requires Valid() && isOpen
      modifies this
      ensures Valid() && isOpen && tracker == old(tracker)
      ensures habits == AddMissing(old(habits), rows)
    {
      for i := 0 to |rows|
        invariant isOpen && tracker == old(tracker)
        invariant habits == AddMissing(old(habits), rows[..i])
      {
        AddMissingStep(old(habits), rows, i);
        if rows[i].name !in HabitNames(habits) {
          habits := habits + [rows[i]];
        }
      }
      assert rows[..|rows|] == rows;
      AddMissingKeepsUnique(old(habits), rows);
    }

    /** The second loop of `insert_default_data`: appends one tracker row per
        date of each (habit, dates) group, group after group, whether or not
        the row is already there. */
    method AppendCheckoffs(groups: seq<(string, seq<string>)>)
      requires Valid() && isOpen
      modifies this
      ensures Valid() && isOpen && habits == old(habits)
      ensures tracker == old(tracker) + Expand(groups)
    {
      for g := 0 to |groups|
        invariant isOpen && habits == old(habits)
        invariant tracker == old(tracker) + Expand(groups[..g])
      {
        var (habit, dates) := groups[g];
        ghost var done := tracker;
        for k := 0 to |dates|
          invariant isOpen && habits == old(habits)
          invariant tracker == done + RowsFor(habit, dates[..k])
        {
          RowsForStep(habit, dates, k);
          tracker := tracker + [Checkoff(dates[k], habit)];
        }
        assert dates[..|dates|] == dates;
        ExpandStep(groups, g);
      }
      assert groups[..|groups|] == groups;
    }

    /** `insert_default_data`: adds each default habit whose name is absent,
        then appends every default check-off. */
    method InsertDefaultData()
      requires Valid() && isOpen
      modifies this
      ensures Valid() && isOpen
      ensures habits == AddMissing(old(habits), DefaultHabits)
      ensures tracker == old(tracker) + Expand(DefaultCheckoffs)
    {
      AddMissingHabits(DefaultHabits);
      AppendCheckoffs(DefaultCheckoffs);
    }
  }

  /** Two commands in a row, each opening the database: the habit table is
      as after the first opening, while the tracker table receives the eleven
      default check-offs once more. */
  method OpenTwice(store: HabitStore)
    requires store.Valid()
    modifies store
    ensures store.Valid() && store.isOpen
    ensures store.habits == AddMissing(old(store.habits), DefaultHabits)
    ensures store.tracker == old(store.tracker) + Expand(DefaultCheckoffs) + Expand(DefaultCheckoffs)
    ensures |store.tracker| == |old(store.tracker)| + 22
  {
    store.GetDb();
    store.Close();
    store.GetDb();
    AddMissingIdempotent(old(store.habits), DefaultHabits);
    DefaultCheckoffCount();
  }
}
