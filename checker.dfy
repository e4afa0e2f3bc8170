/**
 * The checker: classification of a health-endpoint response, appending a
 * probe result to the log table, the latest sample per probe type with its
 * freshness, and the current overall status derived from those samples.
 */
module Checker {
  import opened Tables

  /** What one probe of the health endpoint yields. */
  datatype ProbeResult = ProbeResult(ok: bool, latencyms: int, httpcode: int, message: string)

  /** The marker a healthy response body carries. */
  const OkMarker: string := "\"ok\":true"

  const OkMessage: string := "HTTP OK"
  const ErrorPrefix: string := "HTTP error: "

  predicate OccursAt(s: string, p: string, i: int)
  {
    0 <= i && i + |p| <= |s| && s[i..i + |p|] == p
  }

  /** The position of the first occurrence of `p` in `s`, or None: PHP's strpos. */
  function Strpos(s: string, p: string): (r: Option<nat>)
    ensures r.Some? ==> OccursAt(s, p, r.value)
    ensures r.Some? ==> forall i :: 0 <= i < r.value ==> !OccursAt(s, p, i)
    ensures r.None? ==> forall i :: !OccursAt(s, p, i)
    decreases |s|
  {
    if |p| <= |s| && s[..|p|] == p then Some(0)
    else if |s| == 0 then None
    else
      var rest := Strpos(s[1..], p);
      assert forall i :: 0 < i ==> (OccursAt(s, p, i) <==> OccursAt(s[1..], p, i - 1));
      match rest
      case None => None
      case Some(i) => Some(i + 1)
  }

  function DigitChar(d: int): char
    requires 0 <= d < 10
  {
    "0123456789"[d]
  }

  function DigitValue(c: char): int
  {
    if '0' <= c <= '9' then c as int - '0' as int else 0
  }

  /** Decimal digits of a non-negative integer, most significant first. */
  function Digits(n: nat): (s: string)
    ensures |s| > 0 && s[0] != '-'
    ensures forall i :: 0 <= i < |s| ==> '0' <= s[i] <= '9'
  {
    if n < 10 then [DigitChar(n)] else Digits(n / 10) + [DigitChar(n % 10)]
  }

  /** PHP's integer-to-string conversion, as used in string concatenation. */
  function DecimalString(n: int): string
  {
    if n < 0 then "-" + Digits(-n) else Digits(n)
  }

  function ParseDigits(s: string): int
  {
    if |s| == 0 then 0 else ParseDigits(s[..|s| - 1]) * 10 + DigitValue(s[|s| - 1])
  }

  function ParseDecimal(s: string): int
  {
    if |s| > 0 && s[0] == '-' then -ParseDigits(s[1..]) else ParseDigits(s)
  }

  lemma {:induction false} DigitsRoundTrip(n: nat)
    ensures ParseDigits(Digits(n)) == n
  {
    if n >= 10 {
      var s := Digits(n / 10) + [DigitChar(n % 10)];
      assert s[..|s| - 1] == Digits(n / 10);
      DigitsRoundTrip(n / 10);
    }
  }

  /** Reading back the decimal text of a code gives the code. */
  lemma {:induction false} DecimalRoundTrip(n: int)
    ensures ParseDecimal(DecimalString(n)) == n
  {
    if n < 0 {
      var d := Digits(-n);
      var s := ['-'] + d;
      assert DecimalString(n) == s;
      assert s[1..] == d;
      DigitsRoundTrip(-n);
    } else {
      DigitsRoundTrip(n);
    }
  }

  /**
   * The outcome of one call of the health endpoint, given the HTTP code and
   * body it returned and the latency measured around it.
   */
  function ClassifyHttp(code: int, body: string, latencyms: int): (r: ProbeResult)
    ensures r.ok <==> code == 200 && exists i :: OccursAt(body, OkMarker, i)
    ensures r.ok ==> r.message == OkMessage
    ensures !r.ok ==> r.message == ErrorPrefix + DecimalString(code)
    ensures r.httpcode == code && r.latencyms == latencyms
  {
    var ok := code == 200 && Strpos(body, OkMarker).Some?;
    ProbeResult(ok, latencyms, code, if ok then OkMessage else ErrorPrefix + DecimalString(code))
  }

  /**
   * The stored message tells success from failure, and on failure the HTTP
   * code can be read back from it.
   */
  lemma {:induction false} MessageRecordsOutcome(code: int, body: string, latencyms: int)
    ensures ClassifyHttp(code, body, latencyms).message == OkMessage <==> ClassifyHttp(code, body, latencyms).ok
    ensures !ClassifyHttp(code, body, latencyms).ok ==>
      var m := ClassifyHttp(code, body, latencyms).message;
      |m| > |ErrorPrefix| && m[..|ErrorPrefix|] == ErrorPrefix && ParseDecimal(m[|ErrorPrefix|..]) == code
  {
    var r := ClassifyHttp(code, body, latencyms);
    if !r.ok {
      var d := DecimalString(code);
      var m := ErrorPrefix + d;
      assert r.message == m;
      assert |d| > 0;
      assert m[5] == 'e' && OkMessage[5] == 'O';
      assert m[..|ErrorPrefix|] == ErrorPrefix && m[|ErrorPrefix|..] == d;
      DecimalRoundTrip(code);
    }
  }

  /** The row a probe result becomes in the log table. */
  function ProbeRow(id: int, now: int, cal: Calendar, kind: Component, ok: bool, latency: int, httpcode: int, message: string): LogRow
  {
    LogRow(id, now, kind, cal(now), if ok then 1 else 0, latency, httpcode, message)
  }

  /** Stores one probe result as a new row of the log table. */
  method Log(db: Database, now: int, cal: Calendar, kind: Component, ok: bool, latency: int, httpcode: int, message: string)
    requires db.Valid()
    modifies db
    ensures db.Valid()
    ensures db.log == old(db.log) + [ProbeRow(old(db.nextLogId), now, cal, kind, ok, latency, httpcode, message)]
    ensures db.nextLogId == old(db.nextLogId) + 1
    ensures db.hourly == old(db.hourly) && db.lastrun == old(db.lastrun)
  {
    db.log := db.log + [ProbeRow(db.nextLogId, now, cal, kind, ok, latency, httpcode, message)];
    db.nextLogId := db.nextLogId + 1;
  }

  /** `a` sorts no later than `b` under ORDER BY timecreated DESC, id DESC. */
  predicate NotOlder(a: LogRow, b: LogRow)
  {
    a.timecreated > b.timecreated || (a.timecreated == b.timecreated && a.id >= b.id)
  }

  /** The first row of the log of type `kind` ordered by timecreated, then id, both descending. */
  function LatestOfType(log: seq<LogRow>, kind: Component): (r: Option<LogRow>)
    ensures r.None? <==> forall i :: 0 <= i < |log| ==> log[i].kind != kind
    ensures r.Some? ==> r.value in log && r.value.kind == kind
    ensures r.Some? ==> forall i :: 0 <= i < |log| && log[i].kind == kind ==> NotOlder(r.value, log[i])
  {
    if |log| == 0 then None
    else
      var rest := LatestOfType(log[1..], kind);
      assert forall i :: 1 <= i < |log| ==> log[i] == log[1..][i - 1];
      if log[0].kind != kind then rest
      else if rest.Some? && NotOlder(rest.value, log[0]) then rest
      else Some(log[0])
  }

  /** One entry of the sample map: a stored row with its freshness, or a placeholder. */
  datatype Sample = Sample(
    id: int,
    timecreated: int,
    kind: Component,
    status: int,
    latencyms: int,
    httpcode: int,
    message: string,
    freshFlag: int,
    staleFlag: int)

  const NoSamplesMessage: string := "no recent samples"

  /** Samples older than this are stale: two probe intervals (of at least a minute) before `now`. */
  function FreshCut(now: int, intervalConfig: int): (cut: int)
    ensures cut <= now - 120
    ensures intervalConfig >= 1 ==> cut == now - 2 * intervalConfig * 60
    ensures intervalConfig < 1 ==> cut == now - 120
  {
    var intervalmin := if intervalConfig < 1 then 1 else intervalConfig;
    now - 2 * intervalmin * 60
  }

  /** The stand-in for a type that has no row at all: down, stale, dated at the current hour. */
  function Placeholder(kind: Component, now: int): Sample
  {
    Sample(0, HourFloor(now), kind, 0, 0, 0, NoSamplesMessage, 0, 1)
  }

  function FromRow(rec: LogRow, freshcut: int): Sample
  {
    var isFresh := if rec.timecreated >= freshcut then 1 else 0;
    Sample(rec.id, rec.timecreated, rec.kind, rec.status, rec.latencyms, rec.httpcode, rec.message,
           isFresh, if isFresh == 1 then 0 else 1)
  }

  /** What the current status reports for probe type `kind`: a sample of that type, exactly one of fresh and stale. */
  function SampleFor(log: seq<LogRow>, kind: Component, freshcut: int, now: int): (s: Sample)
    ensures s.kind == kind
    ensures (s.freshFlag == 0 || s.freshFlag == 1) && s.staleFlag == 1 - s.freshFlag
  {
    match LatestOfType(log, kind)
    case Some(rec) => FromRow(rec, freshcut)
    case None => Placeholder(kind, now)
  }

  function Samples(log: seq<LogRow>, freshcut: int, now: int): map<Component, Sample>
  {
    map[Http := SampleFor(log, Http, freshcut, now), Db := SampleFor(log, Db, freshcut, now)]
  }

  /** Row `i` is the one the latest-sample query returns for its type. */
  ghost predicate IsLatest(log: seq<LogRow>, i: int, kind: Component)
  {
    && 0 <= i < |log|
    && log[i].kind == kind
    && forall j :: 0 <= j < |log| && log[j].kind == kind ==> NotOlder(log[i], log[j])
  }

  /**
   * The sample of a type that has rows is built from its latest row, is
   * fresh iff that row is not older than the cut, and is stale iff it is not
   * fresh; without rows it is the placeholder.
   */
  lemma SampleForSpec(log: seq<LogRow>, kind: Component, freshcut: int, now: int)
    requires UniqueIds(log)
    ensures var s := SampleFor(log, kind, freshcut, now);
      && s.kind == kind
      && s.freshFlag in {0, 1} && s.staleFlag == 1 - s.freshFlag
      && ((forall i :: 0 <= i < |log| ==> log[i].kind != kind) ==>
            s == Sample(0, HourFloor(now), kind, 0, 0, 0, NoSamplesMessage, 0, 1))
      && (forall i :: IsLatest(log, i, kind) ==>
            && s.id == log[i].id && s.timecreated == log[i].timecreated
            && s.status == log[i].status && s.message == log[i].message
            && s.latencyms == log[i].latencyms && s.httpcode == log[i].httpcode
            && (s.freshFlag == 1 <==> log[i].timecreated >= freshcut))
  {
    var s := SampleFor(log, kind, freshcut, now);
    var r := LatestOfType(log, kind);
    forall i | IsLatest(log, i, kind)
      ensures s.id == log[i].id && s.timecreated == log[i].timecreated
      ensures s.status == log[i].status && s.message == log[i].message
      ensures s.latencyms == log[i].latencyms && s.httpcode == log[i].httpcode
      ensures s.freshFlag == 1 <==> log[i].timecreated >= freshcut
    {
      var j :| 0 <= j < |log| && log[j] == r.value;
      assert NotOlder(log[i], log[j]) && NotOlder(log[j], log[i]);
      assert i == j;
    }
  }

  /**
   * last_samples: one entry per probe type, each the latest row of that
   * type with its freshness against `now - 2 * interval * 60`, or a
   * placeholder when the type has no row.
   */
  method LastSamples(db: Database, intervalConfig: int, now: int) returns (out: map<Component, Sample>)
    ensures out.Keys == {Http, Db}
    ensures forall k :: k in out ==> out[k] == SampleFor(db.log, k, FreshCut(now, intervalConfig), now)
  {
    var intervalmin := if intervalConfig < 1 then 1 else intervalConfig;
    var freshcut := now - 2 * intervalmin * 60;
    out := map[];
    var types := [Http, Db];
    for n := 0 to |types|
      invariant out.Keys == set j | 0 <= j < n :: types[j]
      invariant forall k :: k in out ==> out[k] == SampleFor(db.log, k, freshcut, now)
    {
      var kind := types[n];
      var rec := LatestOfType(db.log, kind);
      if rec.Some? {
        var isFresh := if rec.value.timecreated >= freshcut then 1 else 0;
        out := out[kind := Sample(rec.value.id, rec.value.timecreated, rec.value.kind, rec.value.status,
                                  rec.value.latencyms, rec.value.httpcode, rec.value.message,
                                  isFresh, if isFresh == 1 then 0 else 1)];
        continue;
      }
      out := out[kind := Sample(0, now / HourSeconds * HourSeconds, kind, 0, 0, 0, NoSamplesMessage, 0, 1)];
    }
    assert out.Keys == {types[0], types[1]};
  }

  datatype Overall = Operational | Partial | Down

  datatype Summary = Summary(overall: Overall, httpOk: int, dbOk: int, samples: map<Component, Sample>)

  /** A component counts as up when its sample is present, fresh and has status 1. */
  predicate ComponentUp(samples: map<Component, Sample>, kind: Component)
  {
    kind in samples && samples[kind].freshFlag == 1 && samples[kind].status == 1
  }

  /** The overall verdict over the two components. */
  function SummaryOf(samples: map<Component, Sample>): (r: Summary)
    ensures r.httpOk == (if ComponentUp(samples, Http) then 1 else 0)
    ensures r.dbOk == (if ComponentUp(samples, Db) then 1 else 0)
    ensures r.overall == Operational <==> ComponentUp(samples, Http) && ComponentUp(samples, Db)
    ensures r.overall == Partial <==> ComponentUp(samples, Http) != ComponentUp(samples, Db)
    ensures r.overall == Down <==> !ComponentUp(samples, Http) && !ComponentUp(samples, Db)
    ensures r.samples == samples
  {
    var httpok := if ComponentUp(samples, Http) then 1 else 0;
    var dbok := if ComponentUp(samples, Db) then 1 else 0;
    var sum := httpok + dbok;
    var overall := if sum == 2 then Operational else if sum == 1 then Partial else Down;
    Summary(overall, httpok, dbok, samples)
  }

  /** summary: the overall status built from the latest samples. */
  method CurrentSummary(db: Database, intervalConfig: int, now: int) returns (r: Summary)
    ensures r == SummaryOf(Samples(db.log, FreshCut(now, intervalConfig), now))
  {
    var samples := LastSamples(db, intervalConfig, now);
    assert samples == Samples(db.log, FreshCut(now, intervalConfig), now);
    r := SummaryOf(samples);
  }

  /** Ids that no two rows share, as the log table's primary key guarantees. */
  ghost predicate UniqueIds(log: seq<LogRow>)
  {
    forall i, j :: 0 <= i < |log| && 0 <= j < |log| && i != j ==> log[i].id != log[j].id
  }

  /** The latest row of a type is up and not older than the cut. */
  ghost predicate UpAndFresh(log: seq<LogRow>, kind: Component, freshcut: int)
  {
    exists i :: IsLatest(log, i, kind) && log[i].status == 1 && log[i].timecreated >= freshcut
  }

  lemma ComponentUpIffUpAndFresh(log: seq<LogRow>, kind: Component, freshcut: int, now: int)
    requires UniqueIds(log)
    ensures ComponentUp(Samples(log, freshcut, now), kind) <==> UpAndFresh(log, kind, freshcut)
  {
    var samples := Samples(log, freshcut, now);
    assert samples[kind] == SampleFor(log, kind, freshcut, now);
    SampleForSpec(log, kind, freshcut, now);
    var r := LatestOfType(log, kind);
    if r.Some? {
      var j :| 0 <= j < |log| && log[j] == r.value;
      assert IsLatest(log, j, kind);
    }
  }

  /**
   * The overall status in terms of the log alone: operational iff the latest
   * row of both types is up and fresh, partial iff exactly one is, down
   * otherwise, a type without rows or with a stale latest row counting as down.
   */
  lemma OverallFromLog(log: seq<LogRow>, freshcut: int, now: int)
    requires UniqueIds(log)
    ensures var r := SummaryOf(Samples(log, freshcut, now));
      && (r.overall == Operational <==> UpAndFresh(log, Http, freshcut) && UpAndFresh(log, Db, freshcut))
      && (r.overall == Partial <==> UpAndFresh(log, Http, freshcut) != UpAndFresh(log, Db, freshcut))
      && (r.overall == Down <==> !UpAndFresh(log, Http, freshcut) && !UpAndFresh(log, Db, freshcut))
  {
    ComponentUpIffUpAndFresh(log, Http, freshcut, now);
    ComponentUpIffUpAndFresh(log, Db, freshcut, now);
  }

  /** A type with no row at all is never up, so the overall status is never operational. */
  lemma MissingTypeIsDown(log: seq<LogRow>, kind: Component, freshcut: int, now: int)
    requires UniqueIds(log)
    requires forall i :: 0 <= i < |log| ==> log[i].kind != kind
    ensures !ComponentUp(Samples(log, freshcut, now), kind)
    ensures SummaryOf(Samples(log, freshcut, now)).overall != Operational
  {
    SampleForSpec(log, kind, freshcut, now);
  }

  /** The log table kept by the database object has unique ids. */
  lemma ValidHasUniqueIds(db: Database)
    requires db.Valid()
    ensures UniqueIds(db.log)
  {
    forall i, j | 0 <= i < |db.log| && 0 <= j < |db.log| && i != j
      ensures db.log[i].id != db.log[j].id
    {
      if i < j { assert db.log[i].id < db.log[j].id; } else { assert db.log[j].id < db.log[i].id; }
    }
  }

  /**
   * summary() on the database: the overall status in terms of its log, with
   * the freshness threshold of the configured interval.
   */
  lemma CurrentSummaryFromLog(db: Database, intervalConfig: int, now: int)
    requires db.Valid()
    ensures var cut := FreshCut(now, intervalConfig);
      var r := SummaryOf(Samples(db.log, cut, now));
      && (r.overall == Operational <==> UpAndFresh(db.log, Http, cut) && UpAndFresh(db.log, Db, cut))
      && (r.overall == Partial <==> UpAndFresh(db.log, Http, cut) != UpAndFresh(db.log, Db, cut))
      && (r.overall == Down <==> !UpAndFresh(db.log, Http, cut) && !UpAndFresh(db.log, Db, cut))
  {
    ValidHasUniqueIds(db);
    OverallFromLog(db.log, FreshCut(now, intervalConfig), now);
  }
}
