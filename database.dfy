/**
 * The in-memory run ledger of `database.py`: a module-level dictionary from
 * user id to a record holding this week's per-date distances, the ISO week
 * number those distances belong to, the lifetime total and the join date.
 *
 * The clock is not read: every operation receives today's date and today's
 * ISO week number as parameters.
 */
module Database {
  import opened Wrappers

  /** Ordinal of `date.max` (9999-12-31), the last date Python can represent. */
  const MaxOrdinal: int := 3652059

  /** A calendar date as its proleptic Gregorian ordinal: 0001-01-01 is day 1. */
  type Date = d: int | 1 <= d <= MaxOrdinal witness 1

  type UserId = int

  /** `date.weekday()`: Monday is 0 and Sunday is 6; day 1 was a Monday. */
  function Weekday(d: Date): (w: int)
    ensures 0 <= w < 7
  {
    (d - 1) % 7
  }

  /** A Monday-to-Sunday window, both ends inclusive. */
  datatype Week = Week(start: Date, end: Date)

  /**
   * `get_week_range`: the Monday of today's week and the Sunday six days
   * later. Python raises `OverflowError` when that Sunday lies beyond
   * `date.max`, which happens exactly in the last five days of the calendar;
   * that failure is `None`.
   */
  function WeekRange(today: Date): (r: Option<Week>)
    ensures r.None? <==> today >= MaxOrdinal - 4
    ensures r.Some? ==> Weekday(r.value.start) == 0 && r.value.end == r.value.start + 6
    ensures r.Some? ==> r.value.start <= today <= r.value.end
  {
    var start := today - Weekday(today);
    if start + 6 <= MaxOrdinal then Some(Week(start, start + 6)) else None
  }

  /** The week WeekRange finds is the only Monday-to-Sunday window holding today. */
  lemma WeekRangeIsTheWeek(today: Date, monday: Date)
    requires Weekday(monday) == 0 && monday <= today <= monday + 6
    requires today < MaxOrdinal - 4
    ensures WeekRange(today) == Some(Week(monday, monday + 6))
  {
  }

  /** One entry of `users_db`. */
  datatype UserRecord = UserRecord(
    weeklyRuns: map<Date, real>,
    currentWeek: int,
    totalDistance: real,
    joinedDate: Date)

  /** What `init_user` stores for a user it has not seen before. */
  function NewUser(today: Date, week: int): (rec: UserRecord)
  {
    UserRecord(map[], week, 0.0, today)
  }

  /** The user's record after `init_user`: the stored one, or a fresh one. */
  function Existing(users: map<UserId, UserRecord>, id: UserId, today: Date, week: int): (rec: UserRecord)
  {
    if id in users then users[id] else NewUser(today, week)
  }

  /**
   * The record `add_run` leaves behind: the week's runs are dropped when the
   * stored week number differs from today's, today's entry grows by the
   * distance, and the lifetime total grows by the distance.
   */
  function RecordRun(rec: UserRecord, distance: real, today: Date, week: int): (updated: UserRecord)
  {
    var runs := if rec.currentWeek != week then map[] else rec.weeklyRuns;
    var before := if today in runs then runs[today] else 0.0;
    UserRecord(runs[today := before + distance], week, rec.totalDistance + distance, rec.joinedDate)
  }

  /** `sum(d.values())` for a dictionary with real values. */
  ghost function MapSum<K>(m: map<K, real>): real
    decreases |m.Keys|
  {
    if m.Keys == {} then 0.0
    else
      var k :| k in m.Keys;
      m[k] + MapSum(m - {k})
  }

  /** The sum of a dictionary's values may start from any of its keys. */
  lemma {:induction false} MapSumRemove<K>(m: map<K, real>, k: K)
    requires k in m
    ensures MapSum(m) == m[k] + MapSum(m - {k})
    decreases |m.Keys|
  {
    var j :| j in m.Keys && MapSum(m) == m[j] + MapSum(m - {j});
    if j != k {
      var withoutJ, withoutK := m - {j}, m - {k};
      assert withoutJ.Keys == m.Keys - {j} && k in withoutJ;
      assert withoutK.Keys == m.Keys - {k} && j in withoutK;
      MapSumRemove(withoutJ, k);
      MapSumRemove(withoutK, j);
      assert withoutJ - {k} == withoutK - {j};
    }
  }

  /** Raising one entry of a dictionary by `d` raises the sum of its values by `d`. */
  lemma MapSumAdd<K>(m: map<K, real>, k: K, d: real)
    ensures MapSum(m[k := (if k in m then m[k] else 0.0) + d]) == MapSum(m) + d
  {
    var m' := m[k := (if k in m then m[k] else 0.0) + d];
    MapSumRemove(m', k);
    assert m' - {k} == m - {k};
    if k in m {
      MapSumRemove(m, k);
    } else {
      assert m - {k} == m;
    }
  }

  /** A dictionary holding a single entry sums to that entry. */
  lemma MapSumSingle<K>(k: K, d: real)
    ensures MapSum(map[k := d]) == d
  {
    MapSumRemove(map[k := d], k);
    assert map[k := d] - {k} == map[];
  }

  /**
   * Python's `sum(weekly_runs.values())`, a loop over the dictionary.
   */
  method SumValues(m: map<Date, real>) returns (s: real)
    ensures s == MapSum(m)
  {
    s := 0.0;
    var rest := m;
    while rest != map[]
      invariant s + MapSum(rest) == MapSum(m)
      decreases |rest.Keys|
    {
      var k :| k in rest;
      MapSumRemove(rest, k);
      s := s + rest[k];
      rest := rest - {k};
    }
    assert rest.Keys == {};
  }

  /** The sum of a sequence of distances, in order. */
  function Sum(s: seq<real>): (total: real)
  {
    if s == [] then 0.0 else Sum(s[..|s| - 1]) + s[|s| - 1]
  }

  /**
   * Within the stored week, `add_run` keeps every earlier entry, adds the
   * distance to today's entry (creating it at the distance), and the weekly
   * sum and the lifetime total both grow by exactly the distance.
   */
  lemma RecordRunSameWeek(rec: UserRecord, distance: real, today: Date, week: int)
    requires rec.currentWeek == week
    ensures var r := RecordRun(rec, distance, today, week);
      && r.weeklyRuns.Keys == rec.weeklyRuns.Keys + {today}
      && r.weeklyRuns[today] == (if today in rec.weeklyRuns then rec.weeklyRuns[today] else 0.0) + distance
      && (forall d :: d in rec.weeklyRuns && d != today ==> r.weeklyRuns[d] == rec.weeklyRuns[d])
      && MapSum(r.weeklyRuns) == MapSum(rec.weeklyRuns) + distance
      && r.totalDistance == rec.totalDistance + distance
      && r.currentWeek == week && r.joinedDate == rec.joinedDate
  {
    MapSumAdd(rec.weeklyRuns, today, distance);
  }

  /**
   * On a new week number `add_run` forgets the stored week: afterwards the
   * week holds only today's run and sums to the distance, while the lifetime
   * total still grows by the distance.
   */
  lemma RecordRunNewWeek(rec: UserRecord, distance: real, today: Date, week: int)
    requires rec.currentWeek != week
    ensures var r := RecordRun(rec, distance, today, week);
      && r.weeklyRuns == map[today := distance]
      && MapSum(r.weeklyRuns) == distance
      && r.totalDistance == rec.totalDistance + distance
      && r.currentWeek == week && r.joinedDate == rec.joinedDate
  {
  }

  /**
   * Two runs on the same day and week number add up: the day's entry holds
   * both distances and the week's sum grows by both.
   */
  lemma SameDayRunsAdd(rec: UserRecord, a: real, b: real, today: Date, week: int)
    ensures var r := RecordRun(RecordRun(rec, a, today, week), b, today, week);
      var base: map<Date, real> := if rec.currentWeek == week then rec.weeklyRuns else map[];
      && r.weeklyRuns[today] == (if today in base then base[today] else 0.0) + a + b
      && MapSum(r.weeklyRuns) == MapSum(base) + a + b
      && r.totalDistance == rec.totalDistance + a + b
  {
    var once := RecordRun(rec, a, today, week);
    var base: map<Date, real> := if rec.currentWeek == week then rec.weeklyRuns else map[];
    if rec.currentWeek == week {
      RecordRunSameWeek(rec, a, today, week);
    } else {
      RecordRunNewWeek(rec, a, today, week);
      assert MapSum(base) == 0.0;
    }
    assert MapSum(once.weeklyRuns) == MapSum(base) + a;
    RecordRunSameWeek(once, b, today, week);
  }

  /**
   * Rollover looks only at the week number, not the year: a record last
   * written under the same week number keeps all its entries, however old
   * their dates. So when a user's next run falls in a week with the same ISO
   * week number (52 or 53 weeks later, or whole years later), last year's
   * runs stay in this week's sum.
   */
  lemma SameWeekNumberKeepsOldDates(rec: UserRecord, distance: real, today: Date, week: int, old_day: Date)
    requires rec.currentWeek == week && old_day in rec.weeklyRuns && old_day + 7 <= today
    ensures old_day in RecordRun(rec, distance, today, week).weeklyRuns
    ensures RecordRun(rec, distance, today, week).weeklyRuns[old_day] == rec.weeklyRuns[old_day]
  {
  }

  /** Every stored lifetime total is the sum of the distances logged for that user. */
  ghost predicate TotalsMatchLog(users: map<UserId, UserRecord>, log: map<UserId, seq<real>>)
  {
    && log.Keys == users.Keys
    && forall u :: u in users ==> users[u].totalDistance == Sum(log[u])
  }

  /** Logging a run while adding it to the lifetime total keeps totals and log in step. */
  lemma LoggedRunKeepsTotals(users: map<UserId, UserRecord>, log: map<UserId, seq<real>>,
                             id: UserId, rec: UserRecord, distance: real)
    requires TotalsMatchLog(users, log) && id in users
    requires rec.totalDistance == users[id].totalDistance + distance
    ensures TotalsMatchLog(users[id := rec], log[id := log[id] + [distance]])
  {
  }

  /** What `get_user_stats` returns. */
  datatype Stats = Stats(weeklyDistance: real, totalDistance: real, weeklyRuns: map<Date, real>, joinedDate: Date)

  /** The module-level `users_db` dictionary and the functions that update it. */
  class RunLedger {
    /** `users_db`: user id to record. */
    var users: map<UserId, UserRecord>
    /** Every distance ever passed to AddRun, per user, in order. */
    ghost var runLog: map<UserId, seq<real>>

    /** The lifetime total of every user is the sum of all distances ever added for them. */
    ghost predicate Valid()
      reads this
    {
      TotalsMatchLog(users, runLog)
    }

    /** The empty dictionary the module starts with. */
    constructor ()
      ensures Valid() && users == map[] && runLog == map[]
    {
      users := map[];
      runLog := map[];
    }

    /**
     * `init_user`: a record is created only for an unknown id; for a known
     * id nothing changes.
     */
    method InitUser(id: UserId, today: Date, week: int)
      requires Valid()
      modifies this
      ensures Valid()
      ensures id in old(users) ==> users == old(users) && runLog == old(runLog)
      ensures id !in old(users) ==>
        users == old(users)[id := NewUser(today, week)] && runLog == old(runLog)[id := []]
      ensures id in users && users[id] == Existing(old(users), id, today, week)
      ensures id !in old(users) ==>
        && users[id].weeklyRuns == map[] && users[id].totalDistance == 0.0
        && users[id].currentWeek == week && users[id].joinedDate == today
    {
      if id !in users {
        users := users[id := NewUser(today, week)];
        runLog := runLog[id := []];
      }
    }

    /**
     * `add_run`: creates the user if needed, resets the week on a new week
     * number, adds the distance to today's entry and to the lifetime total,
     * and returns the week's sum. Other users' records are untouched.
     */
    method AddRun(id: UserId, distance: real, today: Date, week: int) returns (weekly: real)
      requires Valid()
      modifies this
      ensures Valid()
      ensures users == old(users)[id := RecordRun(Existing(old(users), id, today, week), distance, today, week)]
      ensures runLog == old(runLog)[id := (if id in old(runLog) then old(runLog)[id] else []) + [distance]]
      ensures forall u :: u in old(users) && u != id ==> u in users && users[u] == old(users)[u]
      ensures users[id].totalDistance == Existing(old(users), id, today, week).totalDistance + distance
      ensures weekly == MapSum(users[id].weeklyRuns)
      ensures Existing(old(users), id, today, week).currentWeek != week ==> weekly == distance
    {
      InitUser(id, today, week);
      ghost var start := Existing(old(users), id, today, week);
      var rec := users[id];
      assert rec == start;
      if rec.currentWeek != week {
        rec := rec.(weeklyRuns := map[], currentWeek := week);
      }
      if today in rec.weeklyRuns {
        rec := rec.(weeklyRuns := rec.weeklyRuns[today := rec.weeklyRuns[today] + distance]);
      } else {
        rec := rec.(weeklyRuns := rec.weeklyRuns[today := distance]);
      }
      rec := rec.(totalDistance := rec.totalDistance + distance);
      assert rec == RecordRun(start, distance, today, week);
      LoggedRunKeepsTotals(users, runLog, id, rec, distance);
      users := users[id := rec];
      runLog := runLog[id := runLog[id] + [distance]];
      if start.currentWeek != week {
        MapSumSingle(today, distance);
      }
      weekly := SumValues(users[id].weeklyRuns);
    }

    /**
     * `get_user_stats`: creates the user if needed, then reports the week's
     * sum, the lifetime total, the week's entries and the join date.
     */
    method GetUserStats(id: UserId, today: Date, week: int) returns (stats: Stats)
      requires Valid()
      modifies this
      ensures Valid()
      ensures users == old(users)[id := Existing(old(users), id, today, week)]
      ensures id in old(users) ==> users == old(users) && runLog == old(runLog)
      ensures id !in old(users) ==> runLog == old(runLog)[id := []]
      ensures var rec := users[id];
        stats == Stats(MapSum(rec.weeklyRuns), rec.totalDistance, rec.weeklyRuns, rec.joinedDate)
    {
      InitUser(id, today, week);
      var weekly := SumValues(users[id].weeklyRuns);
      var rec := users[id];
      stats := Stats(weekly, rec.totalDistance, rec.weeklyRuns, rec.joinedDate);
    }

    /**
     * `has_runs_this_week`: whether the stored week has any entry. The stored
     * week number is not compared with today's, so entries of a past week
     * still answer true until the next AddRun.
     */
    method HasRunsThisWeek(id: UserId, today: Date, week: int) returns (has: bool)
      requires Valid()
      modifies this
      ensures Valid()
      ensures users == old(users)[id := Existing(old(users), id, today, week)]
      ensures id in old(users) ==> users == old(users) && runLog == old(runLog)
      ensures id !in old(users) ==> runLog == old(runLog)[id := []]
      ensures has <==> users[id].weeklyRuns != map[]
      ensures id in old(users) ==> (has <==> old(users)[id].weeklyRuns != map[])
    {
      InitUser(id, today, week);
      has := users[id].weeklyRuns != map[];
    }
  }
}
