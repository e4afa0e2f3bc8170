/**
 * The ping task: when the plugin is enabled and at least one interval has
 * passed since the persisted `lastrun`, it records the time, probes the
 * health endpoint once and logs the result.
 */
module PingTask {
  import opened Tables
  import Checker
  import Logs

  /** What one invocation of the task did. */
  datatype Outcome = Disabled | Skipped | Probed

  /** The probe interval in minutes: max(1, configured). */
  function IntervalMinutes(config: int): (interval: int)
    ensures interval >= 1 && interval >= config
    ensures config >= 1 ==> interval == config
    ensures config < 1 ==> interval == 1
  {
    if config < 1 then 1 else config
  }

  /**
   * The interval gate. A `lastrun` of 0 is unset (falsy) and never gates;
   * otherwise the task skips while less than one interval has passed.
   */
  function Decide(enabled: bool, intervalConfig: int, lastrun: int, now: int): (o: Outcome)
    ensures o == Disabled <==> !enabled
    ensures o == Skipped <==> enabled && lastrun != 0 && now - lastrun < IntervalMinutes(intervalConfig) * 60
    ensures o == Probed <==> enabled && (lastrun == 0 || now - lastrun >= IntervalMinutes(intervalConfig) * 60)
  {
    if !enabled then Disabled
    else if lastrun != 0 && now - lastrun < IntervalMinutes(intervalConfig) * 60 then Skipped
    else Probed
  }

  /**
   * execute: `now` is the clock read for the gate and `lastrun`; `code`,
   * `body` and `latencyms` are what the health endpoint answers if it is
   * called during this invocation, and `logTime` is the clock read when the
   * row is stored, after the probe.
   */
  method Execute(db: Database, enabled: bool, intervalConfig: int, now: nat, cal: Calendar,
                 code: int, body: string, latencyms: int, logTime: int)
    returns (outcome: Outcome)
    requires db.Valid()
    modifies db
    ensures db.Valid()
    ensures outcome == Decide(enabled, intervalConfig, old(db.lastrun), now)
    ensures outcome != Probed ==>
      db.lastrun == old(db.lastrun) && db.log == old(db.log) && db.nextLogId == old(db.nextLogId)
    ensures outcome == Probed ==>
      var http := Checker.ClassifyHttp(code, body, latencyms);
      && db.lastrun == now
      && db.log == old(db.log) + [Checker.ProbeRow(old(db.nextLogId), logTime, cal, Http, http.ok, http.latencyms, http.httpcode, http.message)]
      && db.nextLogId == old(db.nextLogId) + 1
    ensures db.hourly == old(db.hourly)
  {
    if !enabled {
      return Disabled;
    }

    var interval := if intervalConfig < 1 then 1 else intervalConfig;
    var lastrun := db.lastrun;

    if lastrun != 0 && now - lastrun < interval * 60 {
      return Skipped;
    }

    db.lastrun := now;

    var http := Checker.ClassifyHttp(code, body, latencyms);
    Checker.Log(db, logTime, cal, Http, http.ok, http.latencyms, http.httpcode, http.message);
    outcome := Probed;
  }

  /** Right after a run that probed, another run at the same (non-zero) time skips. */
  lemma SecondRunSkips(enabled: bool, intervalConfig: int, lastrun: int, now: int)
    requires Decide(enabled, intervalConfig, lastrun, now) == Probed
    requires now != 0
    ensures Decide(enabled, intervalConfig, now, now) == Skipped
  {
  }

  /** Two invocations at the same time: if the first probes, the second skips and changes nothing. */
  method RunTwice(db: Database, enabled: bool, intervalConfig: int, now: nat, cal: Calendar,
                  code: int, body: string, latencyms: int, logTime: int)
    returns (first: Outcome, second: Outcome)
    requires db.Valid()
    requires now != 0
    modifies db
    ensures db.Valid()
    ensures first == Probed ==> second == Skipped && |db.log| == |old(db.log)| + 1
    ensures first != Probed ==> second == first && db.log == old(db.log)
  {
    first := Execute(db, enabled, intervalConfig, now, cal, code, body, latencyms, logTime);
    second := Execute(db, enabled, intervalConfig, now, cal, code, body, latencyms, logTime);
  }

  /**
   * The row a probing run appends becomes the newest log row, so the public
   * page then reads operational iff the probe succeeded.
   */
  lemma ProbeDecidesPage(log: seq<LogRow>, id: int, logTime: int, cal: Calendar, code: int, body: string, latencyms: int)
    requires forall i :: 0 <= i < |log| ==> log[i].id < id
    ensures var http := Checker.ClassifyHttp(code, body, latencyms);
      var row := Checker.ProbeRow(id, logTime, cal, Http, http.ok, http.latencyms, http.httpcode, http.message);
      Logs.OverallOf(Logs.LastLog(log + [row])) == Checker.Operational <==> http.ok
  {
    var http := Checker.ClassifyHttp(code, body, latencyms);
    var row := Checker.ProbeRow(id, logTime, cal, Http, http.ok, http.latencyms, http.httpcode, http.message);
    Logs.AppendedRowIsLatest(log, row);
  }

  /**
   * The row the call at ping_task.php:75 stores as written: it passes the
   * type name first to a `log` that takes four parameters, so under PHP's
   * coercive typing "http" becomes `$ok` (true), the probe's ok flag becomes
   * `$latency` (0 or 1), the latency becomes `$httpcode`, the status code
   * becomes `$message` (its decimal text) and the message is dropped.
   */
  function ProbeRowAsWritten(id: int, now: int, cal: Calendar, http: Checker.ProbeResult): (row: LogRow)
    ensures row.status == 1
  {
    LogRow(id, now, Http, cal(now), 1, if http.ok then 1 else 0, http.latencyms, Checker.DecimalString(http.httpcode))
  }

  /** As written, every probing run leaves the public page reading operational, even when the probe failed. */
  lemma AsWrittenPageAlwaysOperational(log: seq<LogRow>, id: int, now: int, cal: Calendar, code: int, body: string, latencyms: int)
    requires forall i :: 0 <= i < |log| ==> log[i].id < id
    ensures var row := ProbeRowAsWritten(id, now, cal, Checker.ClassifyHttp(code, body, latencyms));
      Logs.OverallOf(Logs.LastLog(log + [row])) == Checker.Operational
  {
    var row := ProbeRowAsWritten(id, now, cal, Checker.ClassifyHttp(code, body, latencyms));
    Logs.AppendedRowIsLatest(log, row);
  }

  /** A concrete case: an HTTP 500 answer is stored as an up row with code 12 and message "500". */
  lemma AsWrittenRecordsFailureAsUp(cal: Calendar)
    ensures var http := Checker.ClassifyHttp(500, "", 12);
      var row := ProbeRowAsWritten(1, 3600, cal, http);
      !http.ok && row.status == 1 && row.httpcode == 12 && row.message == "500"
  {
    assert Checker.DecimalString(500) == "500";
  }
}
