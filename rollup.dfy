/**
 * The hourly rollup task: the uptime of the previous full hour, computed
 * from the ok rows of the log table that carry that hour's key, upserted
 * into the hourly table; then both tables are purged of the days before
 * the retention cutoff.
 */
module HourlyRollup {
  import opened Tables

  /** The configured ping interval in minutes, 5 when it is not positive. */
  function EffectiveInterval(config: int): (interval: int)
    ensures interval > 0
    ensures config > 0 ==> interval == config
    ensures config <= 0 ==> interval == 5
  {
    if config <= 0 then 5 else config
  }

  /** The number of pings an hour holds: floor(60 / interval). */
  function ExpectedPings(interval: int): (expected: nat)
    requires interval > 0
    ensures expected * interval <= 60 < (expected + 1) * interval
  {
    60 / interval
  }

  /** The start of the previous full hour: hour-aligned, and `now` lies in the hour after it. */
  function PreviousHourStart(now: nat): (hourstart: int)
    ensures hourstart % HourSeconds == 0
    ensures hourstart + HourSeconds <= now < hourstart + 2 * HourSeconds
  {
    now - now % HourSeconds - HourSeconds
  }

  /** The number of log rows with status 1 whose (year, month, day, hour) is `k`. */
  function OkCount(log: seq<LogRow>, k: HourKey): (n: nat)
    ensures n <= |log|
  {
    if |log| == 0 then 0
    else (if log[0].status == 1 && log[0].key == k then 1 else 0) + OkCount(log[1..], k)
  }

  /** The calendar maps two timestamps to the same key iff they lie in the same hour. */
  ghost predicate HourCalendar(cal: Calendar)
  {
    forall a, b :: cal(a) == cal(b) <==> a / HourSeconds == b / HourSeconds
  }

  /** Every row carries the key of the hour it was created in. */
  ghost predicate KeyedBy(log: seq<LogRow>, cal: Calendar)
  {
    forall i :: 0 <= i < |log| ==> log[i].key == cal(log[i].timecreated)
  }

  /** The number of rows with status 1 created in [start, start + 3600). */
  function OkInWindow(log: seq<LogRow>, start: int): nat
  {
    if |log| == 0 then 0
    else
      (if log[0].status == 1 && start <= log[0].timecreated < start + HourSeconds then 1 else 0)
      + OkInWindow(log[1..], start)
  }

  /**
   * Matching on the hour's calendar key counts exactly the ok rows created
   * inside that hour: rows before or after it are left out.
   */
  lemma {:induction false} OkCountIsHourWindow(log: seq<LogRow>, cal: Calendar, hourstart: int)
    requires HourCalendar(cal) && KeyedBy(log, cal)
    requires hourstart % HourSeconds == 0
    ensures OkCount(log, cal(hourstart)) == OkInWindow(log, hourstart)
  {
    if |log| > 0 {
      var t := log[0].timecreated;
      assert cal(t) == cal(hourstart) <==> t / HourSeconds == hourstart / HourSeconds;
      assert t / HourSeconds == hourstart / HourSeconds <==> hourstart <= t < hourstart + HourSeconds;
      OkCountIsHourWindow(log[1..], cal, hourstart);
    }
  }

  /** round(ok / expected * 100), clamped to [0, 100]; 0 when no ping is expected. */
  function RoundedPercent(ok: nat, expected: nat): (uptime: int)
    ensures 0 <= uptime <= 100
    ensures expected == 0 ==> uptime == 0
    ensures expected > 0 && ok >= expected ==> uptime == 100
    ensures expected > 0 && ok <= expected ==> (2 * uptime - 1) * expected <= 200 * ok < (2 * uptime + 1) * expected
  {
    if expected == 0 then 0
    else
      var q := (200 * ok + expected) / (2 * expected);
      RoundingBounds(ok, expected, q);
      if q > 100 then 100 else q
  }

  /** The integer quotient is the nearest integer to 100 * ok / expected, halves rounded up. */
  lemma RoundingBounds(ok: nat, expected: nat, q: int)
    requires expected > 0 && q == (200 * ok + expected) / (2 * expected)
    ensures 0 <= q
    ensures (2 * q - 1) * expected <= 200 * ok < (2 * q + 1) * expected
    ensures ok >= expected ==> q >= 100
    ensures ok <= expected ==> q <= 100
  {
    var d := 2 * expected;
    var n := 200 * ok + expected;
    var m := q * expected;
    assert n == q * d + n % d && 0 <= n % d < d;
    assert q * d == 2 * m;
    assert (2 * q - 1) * expected == 2 * m - expected;
    assert (2 * q + 1) * expected == 2 * m + expected;
    if ok >= expected {
      assert 199 * expected < (2 * q) * expected;
      MulLeCancel(200, 2 * q + 1, expected);
    }
    if ok <= expected {
      assert (2 * q) * expected <= 201 * expected;
      MulLeCancel(2 * q, 201, expected);
    }
  }

  lemma MulLeCancel(a: int, b: int, c: int)
    requires c > 0 && a * c <= b * c
    ensures a <= b
  {
    assert (b - a) * c == b * c - a * c;
  }

  /** The hourly table after the upsert: the first row of hour `k` gets the uptime, or a row is added. */
  function Upserted(hourly: seq<HourlyRow>, k: HourKey, uptime: int): (r: seq<HourlyRow>)
    ensures |hourly| <= |r| <= |hourly| + 1
    ensures forall i :: 0 <= i < |r| ==> r[i].key == k || (i < |hourly| && r[i] == hourly[i])
  {
    match FindHour(hourly, k)
    case Some(i) => hourly[i := hourly[i].(uptime := uptime)]
    case None => hourly + [HourlyRow(k, uptime)]
  }

  /**
   * An existing row for the hour changes only in its uptime; otherwise
   * exactly one row with that key and uptime is added; either way the hour's
   * row afterwards holds the uptime.
   */
  lemma UpsertSpec(hourly: seq<HourlyRow>, k: HourKey, uptime: int)
    ensures var r := Upserted(hourly, k, uptime);
      && FindHour(r, k).Some?
      && r[FindHour(r, k).value] == HourlyRow(k, uptime)
      && (FindHour(hourly, k).Some? ==>
            && |r| == |hourly|
            && FindHour(r, k) == FindHour(hourly, k)
            && forall i :: 0 <= i < |r| && i != FindHour(hourly, k).value ==> r[i] == hourly[i])
      && (FindHour(hourly, k).None? ==> r == hourly + [HourlyRow(k, uptime)])
  {
    var r := Upserted(hourly, k, uptime);
    match FindHour(hourly, k)
    case Some(i) =>
      assert r[i].key == k;
      assert forall j :: 0 <= j < i ==> r[j].key != k;
    case None =>
      assert r[|hourly|].key == k;
      assert forall j :: 0 <= j < |hourly| ==> r[j].key != k;
  }

  /** Upserting the same uptime twice leaves the table as one upsert does. */
  lemma UpsertIdempotent(hourly: seq<HourlyRow>, k: HourKey, uptime: int)
    ensures Upserted(Upserted(hourly, k, uptime), k, uptime) == Upserted(hourly, k, uptime)
  {
    var r := Upserted(hourly, k, uptime);
    UpsertSpec(hourly, k, uptime);
    var i := FindHour(r, k).value;
    assert r[i := r[i].(uptime := uptime)] == r;
  }

  /** Upsert of a table whose first row is of another hour leaves that row in front. */
  lemma UpsertCons(hourly: seq<HourlyRow>, k: HourKey, uptime: int)
    requires |hourly| > 0
    ensures hourly[0].key != k ==> Upserted(hourly, k, uptime) == [hourly[0]] + Upserted(hourly[1..], k, uptime)
    ensures hourly[0].key == k ==> Upserted(hourly, k, uptime) == [hourly[0].(uptime := uptime)] + hourly[1..]
  {
    if hourly[0].key != k {
      match FindHour(hourly[1..], k)
      case Some(i) =>
        assert FindHour(hourly, k) == Some(i + 1);
        assert hourly[i + 1 := hourly[i + 1].(uptime := uptime)]
            == [hourly[0]] + hourly[1..][i := hourly[1..][i].(uptime := uptime)];
      case None =>
        assert FindHour(hourly, k).None?;
        assert hourly + [HourlyRow(k, uptime)] == [hourly[0]] + (hourly[1..] + [HourlyRow(k, uptime)]);
    }
  }

  /** When the hour's day survives the purge, purging and upserting commute. */
  lemma {:induction false} UpsertRetainCommute(hourly: seq<HourlyRow>, k: HourKey, uptime: int, cut: DayKey)
    requires !DayBefore(DayOf(k), cut)
    ensures Retain(Upserted(hourly, k, uptime), HourlyDay, cut) == Upserted(Retain(hourly, HourlyDay, cut), k, uptime)
  {
    if |hourly| == 0 {
      assert Upserted(hourly, k, uptime) == [HourlyRow(k, uptime)];
      assert Retain([HourlyRow(k, uptime)], HourlyDay, cut) == [HourlyRow(k, uptime)] + Retain([], HourlyDay, cut);
    } else {
      var h := hourly[0];
      UpsertCons(hourly, k, uptime);
      if h.key == k {
        var up := [h.(uptime := uptime)] + hourly[1..];
        assert up[1..] == hourly[1..];
        assert Retain(hourly, HourlyDay, cut) == [h] + Retain(hourly[1..], HourlyDay, cut);
        UpsertCons(Retain(hourly, HourlyDay, cut), k, uptime);
        assert ([h] + Retain(hourly[1..], HourlyDay, cut))[1..] == Retain(hourly[1..], HourlyDay, cut);
      } else {
        var up := [h] + Upserted(hourly[1..], k, uptime);
        assert up[1..] == Upserted(hourly[1..], k, uptime);
        UpsertRetainCommute(hourly[1..], k, uptime, cut);
        if !DayBefore(HourlyDay(h), cut) {
          assert Retain(up, HourlyDay, cut) == [h] + Retain(up[1..], HourlyDay, cut);
          var kept := Retain(hourly, HourlyDay, cut);
          assert kept == [h] + Retain(hourly[1..], HourlyDay, cut);
          UpsertCons(kept, k, uptime);
          assert kept[1..] == Retain(hourly[1..], HourlyDay, cut);
        } else {
          assert Retain(up, HourlyDay, cut) == Retain(up[1..], HourlyDay, cut);
          assert Retain(hourly, HourlyDay, cut) == Retain(hourly[1..], HourlyDay, cut);
        }
      }
    }
  }

  /** When the hour's day is purged, the upsert leaves no trace after the purge. */
  lemma {:induction false} UpsertRetainDropped(hourly: seq<HourlyRow>, k: HourKey, uptime: int, cut: DayKey)
    requires DayBefore(DayOf(k), cut)
    ensures Retain(Upserted(hourly, k, uptime), HourlyDay, cut) == Retain(hourly, HourlyDay, cut)
  {
    if |hourly| == 0 {
      assert Upserted(hourly, k, uptime) == [HourlyRow(k, uptime)];
      assert Retain([HourlyRow(k, uptime)], HourlyDay, cut) == [] + Retain([], HourlyDay, cut);
    } else {
      var h := hourly[0];
      UpsertCons(hourly, k, uptime);
      if h.key == k {
        var up := [h.(uptime := uptime)] + hourly[1..];
        assert up[1..] == hourly[1..];
      } else {
        var up := [h] + Upserted(hourly[1..], k, uptime);
        assert up[1..] == Upserted(hourly[1..], k, uptime);
        UpsertRetainDropped(hourly[1..], k, uptime, cut);
      }
    }
  }

  /** Purging the days before the cutoff keeps the ok count of an hour on or after it. */
  lemma {:induction false} OkCountRetain(log: seq<LogRow>, k: HourKey, cut: DayKey)
    requires !DayBefore(DayOf(k), cut)
    ensures OkCount(Retain(log, LogDay, cut), k) == OkCount(log, k)
  {
    if |log| > 0 {
      OkCountRetain(log[1..], k, cut);
      var rest := Retain(log[1..], LogDay, cut);
      if !DayBefore(LogDay(log[0]), cut) {
        assert Retain(log, LogDay, cut) == [log[0]] + rest;
        assert ([log[0]] + rest)[1..] == rest;
      } else {
        assert Retain(log, LogDay, cut) == rest;
      }
    }
  }

  /** A retention of zero or fewer days means 30. */
  function RetentionDays(config: int): (days: int)
    ensures days > 0
    ensures config > 0 ==> days == config
    ensures config <= 0 ==> days == 30
  {
    if config <= 0 then 30 else config
  }

  /** The calendar day `days` days of seconds before `now`: rows of earlier days are purged. */
  function CutoffDay(now: int, retentionConfig: int, cal: Calendar): (cut: DayKey)
    ensures retentionConfig > 0 ==> cut == DayOf(cal(now - retentionConfig * DaySeconds))
    ensures retentionConfig <= 0 ==> cut == DayOf(cal(now - 30 * DaySeconds))
  {
    DayOf(cal(now - RetentionDays(retentionConfig) * DaySeconds))
  }

  /** The previous hour's key and uptime, as the task computes them from the log. */
  function HourKeyOf(now: nat, cal: Calendar): HourKey
  {
    cal(PreviousHourStart(now))
  }

  function UptimeOf(log: seq<LogRow>, intervalConfig: int, now: nat, cal: Calendar): int
  {
    RoundedPercent(OkCount(log, HourKeyOf(now, cal)), ExpectedPings(EffectiveInterval(intervalConfig)))
  }

  /** The log and hourly tables after one run of the task. */
  function RollupTables(log: seq<LogRow>, hourly: seq<HourlyRow>, intervalConfig: int, retentionConfig: int,
                        now: nat, cal: Calendar): (seq<LogRow>, seq<HourlyRow>)
  {
    var cut := CutoffDay(now, retentionConfig, cal);
    (Retain(log, LogDay, cut),
     Retain(Upserted(hourly, HourKeyOf(now, cal), UptimeOf(log, intervalConfig, now, cal)), HourlyDay, cut))
  }

  /**
   * A second run at the same time and with the same settings leaves both
   * tables as the first run left them.
   */
  lemma RollupIdempotent(log: seq<LogRow>, hourly: seq<HourlyRow>, intervalConfig: int, retentionConfig: int,
                         now: nat, cal: Calendar)
    ensures var once := RollupTables(log, hourly, intervalConfig, retentionConfig, now, cal);
      RollupTables(once.0, once.1, intervalConfig, retentionConfig, now, cal) == once
  {
    var cut := CutoffDay(now, retentionConfig, cal);
    var k := HourKeyOf(now, cal);
    var u := UptimeOf(log, intervalConfig, now, cal);
    var log1 := Retain(log, LogDay, cut);
    var hourly1 := Retain(Upserted(hourly, k, u), HourlyDay, cut);
    RetainIdempotent(log, LogDay, cut);
    if DayBefore(DayOf(k), cut) {
      var u1 := UptimeOf(log1, intervalConfig, now, cal);
      UpsertRetainDropped(hourly, k, u, cut);
      UpsertRetainDropped(hourly1, k, u1, cut);
      RetainIdempotent(hourly, HourlyDay, cut);
    } else {
      OkCountRetain(log, k, cut);
      assert UptimeOf(log1, intervalConfig, now, cal) == u;
      UpsertRetainCommute(Upserted(hourly, k, u), k, u, cut);
      UpsertIdempotent(hourly, k, u);
      RetainIdempotent(Upserted(hourly, k, u), HourlyDay, cut);
    }
  }

  /** After a run, the log and hourly rows left are exactly the old ones of days not before the cutoff. */
  lemma RollupPurgeSpec(log: seq<LogRow>, hourly: seq<HourlyRow>, intervalConfig: int, retentionConfig: int,
                        now: nat, cal: Calendar, x: LogRow, y: HourlyRow)
    ensures var after := RollupTables(log, hourly, intervalConfig, retentionConfig, now, cal);
      var cut := CutoffDay(now, retentionConfig, cal);
      && (x in after.0 <==> x in log && !DayBefore(DayOf(x.key), cut))
      && (y in after.1 ==> !DayBefore(DayOf(y.key), cut))
      && (y in hourly && y.key != HourKeyOf(now, cal) && !DayBefore(DayOf(y.key), cut) ==> y in after.1)
  {
    var cut := CutoffDay(now, retentionConfig, cal);
    var k := HourKeyOf(now, cal);
    var up := Upserted(hourly, k, UptimeOf(log, intervalConfig, now, cal));
    RetainMembership(log, LogDay, cut, x);
    RetainMembership(up, HourlyDay, cut, y);
    UpsertSpec(hourly, k, UptimeOf(log, intervalConfig, now, cal));
    if y in hourly && y.key != k {
      var i :| 0 <= i < |hourly| && hourly[i] == y;
      assert up[i] == y;
    }
  }

  // ----- the retention deletes as written -----

  /**
   * Moodle's DML layer binds named placeholders one to one: a statement is
   * accepted only when every placeholder has a parameter and no name occurs
   * twice; otherwise it raises a dml_exception before touching the table.
   */
  predicate PlaceholdersAccepted(placeholders: seq<string>, params: set<string>)
  {
    && (forall i :: 0 <= i < |placeholders| ==> placeholders[i] in params)
    && (forall i, j :: 0 <= i < j < |placeholders| ==> placeholders[i] != placeholders[j])
  }

  /** The placeholders of the cutoff WHERE clause, in order, and the keys of its parameter array. */
  const CutoffPlaceholders: seq<string> := ["cy", "cy", "cmo", "cy", "cmo", "cd"]
  const CutoffParams: set<string> := {"cy", "cmo", "cd"}

  /** The same clause with one name per occurrence, each given its own parameter. */
  const DistinctCutoffPlaceholders: seq<string> := ["cy1", "cy2", "cmo2", "cy3", "cmo3", "cd3"]
  const DistinctCutoffParams: set<string> := {"cy1", "cy2", "cmo2", "cy3", "cmo3", "cd3"}

  /** As written, both range deletes are rejected: `cy` is bound three times and `cmo` twice. */
  lemma CutoffDeleteRejected()
    ensures !PlaceholdersAccepted(CutoffPlaceholders, CutoffParams)
  {
    assert CutoffPlaceholders[0] == CutoffPlaceholders[1];
  }

  /** With distinct names the clause is accepted, so the deletes run as `Purge` describes. */
  lemma DistinctCutoffDeleteAccepted()
    ensures PlaceholdersAccepted(DistinctCutoffPlaceholders, DistinctCutoffParams)
  {
  }

  /**
   * The tables after one run as written: the upsert is committed, then the
   * log delete raises, so the hourly delete never runs and nothing is purged.
   */
  function RollupTablesAsWritten(log: seq<LogRow>, hourly: seq<HourlyRow>, intervalConfig: int, retentionConfig: int,
                                 now: nat, cal: Calendar): (after: (seq<LogRow>, seq<HourlyRow>))
    ensures after.0 == log
    ensures after.1 == Upserted(hourly, HourKeyOf(now, cal), UptimeOf(log, intervalConfig, now, cal))
  {
    CutoffDeleteRejected();
    if PlaceholdersAccepted(CutoffPlaceholders, CutoffParams) then
      RollupTables(log, hourly, intervalConfig, retentionConfig, now, cal)
    else
      (log, Upserted(hourly, HourKeyOf(now, cal), UptimeOf(log, intervalConfig, now, cal)))
  }

  /**
   * As written, a log row of a day before the cutoff survives every run,
   * where the intended purge removes it.
   */
  lemma AsWrittenKeepsExpiredRows(log: seq<LogRow>, hourly: seq<HourlyRow>, intervalConfig: int, retentionConfig: int,
                                  now: nat, cal: Calendar, x: LogRow)
    requires x in log && DayBefore(DayOf(x.key), CutoffDay(now, retentionConfig, cal))
    ensures x in RollupTablesAsWritten(log, hourly, intervalConfig, retentionConfig, now, cal).0
    ensures x !in RollupTables(log, hourly, intervalConfig, retentionConfig, now, cal).0
  {
    RetainMembership(log, LogDay, CutoffDay(now, retentionConfig, cal), x);
  }

  /**
   * execute: computes the previous hour's uptime, upserts it into the hourly
   * table and purges both tables of the days before the retention cutoff.
   */
  method Execute(db: Database, intervalConfig: int, retentionConfig: int, now: nat, cal: Calendar)
    requires db.Valid()
    modifies db
    ensures db.Valid()
    ensures (db.log, db.hourly) == RollupTables(old(db.log), old(db.hourly), intervalConfig, retentionConfig, now, cal)
    ensures db.nextLogId == old(db.nextLogId) && db.lastrun == old(db.lastrun)
  {
    var k, uptime := PreviousHourUptime(db.log, intervalConfig, now, cal);
    Upsert(db, k, uptime);

    var retentiondays := retentionConfig;
    if retentiondays <= 0 {
      retentiondays := 30;
    }
    var cut := DayOf(cal(now - retentiondays * DaySeconds));
    assert cut == CutoffDay(now, retentionConfig, cal);
    Purge(db, cut);
  }

  /** The first half of execute: the previous hour's key and its uptime from the ok rows of the log. */
  method PreviousHourUptime(log: seq<LogRow>, intervalConfig: int, now: nat, cal: Calendar) returns (k: HourKey, uptime: int)
    ensures k == HourKeyOf(now, cal) && k == cal(PreviousHourStart(now))
    ensures uptime == UptimeOf(log, intervalConfig, now, cal)
    ensures 0 <= uptime <= 100
  {
    var interval := intervalConfig;
    if interval <= 0 {
      interval := 5;
    }
    var expected := 60 / interval;

    var hourstart := now - now % HourSeconds - HourSeconds;
    k := cal(hourstart);
    var okcount := OkCount(log, k);

    uptime := 0;
    if expected > 0 {
      uptime := (200 * okcount + expected) / (2 * expected);
    }
    uptime := if uptime > 100 then 100 else if uptime < 0 then 0 else uptime;
    assert interval == EffectiveInterval(intervalConfig) && expected == ExpectedPings(interval);
    assert uptime == RoundedPercent(okcount, expected);
  }

  /** The read-then-update-or-insert of the hour's row. */
  method Upsert(db: Database, k: HourKey, uptime: int)
    requires db.Valid()
    modifies db
    ensures db.Valid()
    ensures db.hourly == Upserted(old(db.hourly), k, uptime)
    ensures db.log == old(db.log) && db.nextLogId == old(db.nextLogId) && db.lastrun == old(db.lastrun)
  {
    var found := FindHour(db.hourly, k);
    if found.Some? {
      db.hourly := db.hourly[found.value := db.hourly[found.value].(uptime := uptime)];
    } else {
      db.hourly := db.hourly + [HourlyRow(k, uptime)];
    }
  }

  /** The two range deletes of the days before `cut`. */
  method Purge(db: Database, cut: DayKey)
    requires db.Valid()
    modifies db
    ensures db.Valid()
    ensures db.log == Retain(old(db.log), LogDay, cut)
    ensures db.hourly == Retain(old(db.hourly), HourlyDay, cut)
    ensures db.nextLogId == old(db.nextLogId) && db.lastrun == old(db.lastrun)
  {
    ghost var before := db.log;
    db.log := Retain(db.log, LogDay, cut);
    db.hourly := Retain(db.hourly, HourlyDay, cut);

    RetainKeepsIdsIncreasing(before, cut);
    forall i | 0 <= i < |db.log|
      ensures 0 < db.log[i].id < db.nextLogId
    {
      RetainMembership(before, LogDay, cut, db.log[i]);
    }
  }
}
