/**
 * The two database tables of the uptime board (raw probe log and hourly
 * rollups), the calendar keys both are indexed by, and the plugin's
 * persisted `lastrun` setting, gathered in one `Database` object that the
 * scheduled tasks and the install hook update in place.
 */
module Tables {

  datatype Option<T> = None | Some(value: T)

  /** The value of the log table's `type` column: which probe wrote the row. */
  datatype Component = Http | Db

  /** The (year, month, day, hour) columns both tables are matched on. */
  datatype HourKey = HourKey(year: int, month: int, day: int, hour: int)

  /** The (year, month, day) part of an hour key, compared by the retention purge. */
  datatype DayKey = DayKey(year: int, month: int, day: int)

  /**
   * A calendar turns a Unix timestamp into the calendar fields of its hour
   * (UTC for the tasks, the server's local zone for the status page).
   * It is a parameter of every operation that needs one.
   */
  type Calendar = int -> HourKey

  const HourSeconds: int := 3600
  const DaySeconds: int := 86400

  function DayOf(k: HourKey): DayKey
  {
    DayKey(k.year, k.month, k.day)
  }

  /** Lexicographic order on (year, month, day), as the purge's WHERE clause spells it out. */
  predicate DayBefore(a: DayKey, b: DayKey)
  {
    || a.year < b.year
    || (a.year == b.year && a.month < b.month)
    || (a.year == b.year && a.month == b.month && a.day < b.day)
  }

  /** The start of the hour holding `t`: floor(t / 3600) * 3600. */
  function HourFloor(t: int): (h: int)
    ensures h % HourSeconds == 0
    ensures h <= t < h + HourSeconds
  {
    t / HourSeconds * HourSeconds
  }

  /** One row of the raw probe log. */
  datatype LogRow = LogRow(
    id: int,
    timecreated: int,
    kind: Component,
    key: HourKey,
    status: int,
    latencyms: int,
    httpcode: int,
    message: string)

  /** One row of the hourly rollup table. */
  datatype HourlyRow = HourlyRow(key: HourKey, uptime: int)

  function LogDay(r: LogRow): DayKey
  {
    DayOf(r.key)
  }

  function HourlyDay(r: HourlyRow): DayKey
  {
    DayOf(r.key)
  }

  /** Ids grow along the table, as auto-increment insertion leaves them. */
  ghost predicate IdsIncreasing(log: seq<LogRow>)
  {
    forall i, j :: 0 <= i < j < |log| ==> log[i].id < log[j].id
  }

  /**
   * The position of the first hourly row for hour `k`: the row a lookup
   * by year, month, day and hour returns, or None when there is none.
   */
  function FindHour(hourly: seq<HourlyRow>, k: HourKey): (r: Option<nat>)
    ensures r.None? <==> forall i :: 0 <= i < |hourly| ==> hourly[i].key != k
    ensures r.Some? ==> r.value < |hourly| && hourly[r.value].key == k
    ensures r.Some? ==> forall i :: 0 <= i < r.value ==> hourly[i].key != k
  {
    if |hourly| == 0 then None
    else if hourly[0].key == k then Some(0)
    else
      match FindHour(hourly[1..], k)
      case None => None
      case Some(i) => Some(i + 1)
  }

  /**
   * A range delete: keeps, in their order and unchanged, the rows whose
   * day is not lexicographically before `cut`.
   */
  function Retain<R>(rows: seq<R>, dayOf: R -> DayKey, cut: DayKey): (kept: seq<R>)
    ensures |kept| <= |rows|
    ensures forall i :: 0 <= i < |kept| ==> !DayBefore(dayOf(kept[i]), cut)
  {
    if |rows| == 0 then []
    else (if DayBefore(dayOf(rows[0]), cut) then [] else [rows[0]]) + Retain(rows[1..], dayOf, cut)
  }

  /** A row survives the purge iff it was there and its day is not before the cutoff. */
  lemma {:induction false} RetainMembership<R>(rows: seq<R>, dayOf: R -> DayKey, cut: DayKey, x: R)
    ensures x in Retain(rows, dayOf, cut) <==> x in rows && !DayBefore(dayOf(x), cut)
  {
    if |rows| > 0 {
      RetainMembership(rows[1..], dayOf, cut, x);
      assert rows == [rows[0]] + rows[1..];
    }
  }

  /** The purge works row by row: it distributes over concatenation, so order is kept. */
  lemma {:induction false} RetainConcat<R>(a: seq<R>, b: seq<R>, dayOf: R -> DayKey, cut: DayKey)
    ensures Retain(a + b, dayOf, cut) == Retain(a, dayOf, cut) + Retain(b, dayOf, cut)
  {
    if |a| == 0 {
      assert a + b == b;
    } else {
      assert (a + b)[1..] == a[1..] + b;
      RetainConcat(a[1..], b, dayOf, cut);
    }
  }

  /** Purging twice with the same cutoff removes nothing more. */
  lemma {:induction false} RetainIdempotent<R>(rows: seq<R>, dayOf: R -> DayKey, cut: DayKey)
    ensures Retain(Retain(rows, dayOf, cut), dayOf, cut) == Retain(rows, dayOf, cut)
  {
    if |rows| > 0 {
      var head := if DayBefore(dayOf(rows[0]), cut) then [] else [rows[0]];
      RetainConcat(head, Retain(rows[1..], dayOf, cut), dayOf, cut);
      RetainIdempotent(rows[1..], dayOf, cut);
      if head != [] {
        assert Retain(head, dayOf, cut) == [rows[0]] + Retain([], dayOf, cut);
      }
    }
  }

  /** A table no row of which is before the cutoff is left exactly as it is. */
  lemma {:induction false} RetainKeepsAll<R>(rows: seq<R>, dayOf: R -> DayKey, cut: DayKey)
    requires forall i :: 0 <= i < |rows| ==> !DayBefore(dayOf(rows[i]), cut)
    ensures Retain(rows, dayOf, cut) == rows
  {
    if |rows| > 0 {
      RetainKeepsAll(rows[1..], dayOf, cut);
      assert rows == [rows[0]] + rows[1..];
    }
  }

  /** Deleting log rows keeps their ids increasing. */
  lemma {:induction false} RetainKeepsIdsIncreasing(log: seq<LogRow>, cut: DayKey)
    requires IdsIncreasing(log)
    ensures IdsIncreasing(Retain(log, LogDay, cut))
  {
    if |log| > 0 {
      var rest := Retain(log[1..], LogDay, cut);
      RetainKeepsIdsIncreasing(log[1..], cut);
      forall x | x in rest
        ensures log[0].id < x.id
      {
        RetainMembership(log[1..], LogDay, cut, x);
      }
    }
  }

  /**
   * The plugin's persistent state: the raw log table, the hourly rollup
   * table, the next auto-increment id of the log table, and the `lastrun`
   * setting of the ping task (0 while unset).
   */
  class Database {
    var log: seq<LogRow>
    var hourly: seq<HourlyRow>
    var nextLogId: int
    var lastrun: int

    ghost predicate Valid()
      reads this
    {
      && 0 < nextLogId
      && IdsIncreasing(log)
      && forall i :: 0 <= i < |log| ==> 0 < log[i].id < nextLogId
    }

    constructor ()
      ensures Valid()
      ensures log == [] && hourly == [] && nextLogId == 1 && lastrun == 0
    {
      log := [];
      hourly := [];
      nextLogId := 1;
      lastrun := 0;
    }
  }
}
