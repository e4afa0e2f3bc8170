/**
 * The public status page data: the newest log row, the list of module
 * names configured as text, the trailing window of hourly bars with their
 * colour classes, and the page summary that combines them.
 */
module Logs {
  import opened Tables
  import Checker

  // ----- the newest log row -----

  /** The log row with the highest id (ORDER BY id DESC LIMIT 1). */
  function LatestById(log: seq<LogRow>): (r: Option<LogRow>)
    ensures r.None? <==> |log| == 0
    ensures r.Some? ==> r.value in log
    ensures r.Some? ==> forall i :: 0 <= i < |log| ==> log[i].id <= r.value.id
  {
    if |log| == 0 then None
    else
      var rest := LatestById(log[1..]);
      assert forall i :: 1 <= i < |log| ==> log[i] == log[1..][i - 1];
      if rest.Some? && rest.value.id >= log[0].id then rest else Some(log[0])
  }

  /** What the page shows of the newest row; the row's hour stands for its display time. */
  datatype LastLogView = LastLogView(id: int, key: HourKey, status: int, latencyms: int, httpcode: int, staleFlag: int)

  /** last_log: false (None) on an empty table, otherwise the newest row, always marked stale. */
  function LastLog(log: seq<LogRow>): (r: Option<LastLogView>)
    ensures r.None? <==> |log| == 0
    ensures r.Some? ==> r.value.staleFlag == 1
    ensures r.Some? ==>
      exists i ::
        && 0 <= i < |log|
        && r.value == LastLogView(log[i].id, log[i].key, log[i].status, log[i].latencyms, log[i].httpcode, 1)
        && forall j :: 0 <= j < |log| ==> log[j].id <= log[i].id
  {
    match LatestById(log)
    case None => None
    case Some(row) => Some(LastLogView(row.id, row.key, row.status, row.latencyms, row.httpcode, 1))
  }

  /** In a table kept in id order the newest row is the last one. */
  lemma {:induction false} LastLogIsLastRow(log: seq<LogRow>)
    requires IdsIncreasing(log)
    requires |log| > 0
    ensures LatestById(log) == Some(log[|log| - 1])
  {
    if |log| > 1 {
      LastLogIsLastRow(log[1..]);
      assert log[1..][|log| - 2] == log[|log| - 1];
    }
  }

  /** A row appended with an id above all others becomes the newest row. */
  lemma {:induction false} AppendedRowIsLatest(log: seq<LogRow>, row: LogRow)
    requires forall i :: 0 <= i < |log| ==> log[i].id < row.id
    ensures LatestById(log + [row]) == Some(row)
  {
    if |log| > 0 {
      assert (log + [row])[1..] == log[1..] + [row];
      AppendedRowIsLatest(log[1..], row);
    }
  }

  // ----- module names -----

  /** Characters PHP's trim() strips by default. */
  predicate IsTrimChar(c: char)
  {
    c == ' ' || c == '\t' || c == '\n' || c == '\r' || c == '\0' || c == '\U{000B}'
  }

  predicate IsLineBreak(c: char)
  {
    c == '\r' || c == '\n'
  }

  /**
   * preg_split('/\r\n|\r|\n/', s): the pieces between line breaks, where a
   * break is "\r\n", or else a lone "\r" or "\n"; there is always one piece.
   */
  function SplitLines(s: string): (lines: seq<string>)
    ensures |lines| >= 1
  {
    if |s| == 0 then [""]
    else if s[0] == '\r' && |s| >= 2 && s[1] == '\n' then [""] + SplitLines(s[2..])
    else if IsLineBreak(s[0]) then [""] + SplitLines(s[1..])
    else
      var rest := SplitLines(s[1..]);
      [[s[0]] + rest[0]] + rest[1..]
  }

  /** No piece of the split holds a line break. */
  lemma {:induction false} SplitLinesSpec(s: string)
    ensures forall i, j :: 0 <= i < |SplitLines(s)| && 0 <= j < |SplitLines(s)[i]| ==> !IsLineBreak(SplitLines(s)[i][j])
  {
    if |s| == 0 {
    } else if s[0] == '\r' && |s| >= 2 && s[1] == '\n' {
      var rest := SplitLines(s[2..]);
      SplitLinesSpec(s[2..]);
      assert SplitLines(s) == [""] + rest;
    } else if IsLineBreak(s[0]) {
      var rest := SplitLines(s[1..]);
      SplitLinesSpec(s[1..]);
      assert SplitLines(s) == [""] + rest;
    } else {
      var rest := SplitLines(s[1..]);
      SplitLinesSpec(s[1..]);
      var first := [s[0]] + rest[0];
      assert forall j :: 0 <= j < |first| ==> !IsLineBreak(first[j]);
      assert SplitLines(s) == [first] + rest[1..];
    }
  }

  /** The text with every "\r\n" and every lone "\r" turned into "\n". */
  function NormalizeBreaks(s: string): string
  {
    if |s| == 0 then ""
    else if s[0] == '\r' && |s| >= 2 && s[1] == '\n' then "\n" + NormalizeBreaks(s[2..])
    else if s[0] == '\r' then "\n" + NormalizeBreaks(s[1..])
    else [s[0]] + NormalizeBreaks(s[1..])
  }

  function JoinLines(lines: seq<string>): string
    requires |lines| >= 1
  {
    if |lines| == 1 then lines[0] else lines[0] + "\n" + JoinLines(lines[1..])
  }

  /** Splitting loses nothing but the kind of line break: joining the pieces with "\n" gives the text back. */
  lemma {:induction false} SplitLinesJoin(s: string)
    ensures JoinLines(SplitLines(s)) == NormalizeBreaks(s)
  {
    if |s| == 0 {
    } else if s[0] == '\r' && |s| >= 2 && s[1] == '\n' {
      SplitLinesJoin(s[2..]);
      var rest := SplitLines(s[2..]);
      assert ([""] + rest)[1..] == rest;
    } else if IsLineBreak(s[0]) {
      SplitLinesJoin(s[1..]);
      var rest := SplitLines(s[1..]);
      assert ([""] + rest)[1..] == rest;
    } else {
      SplitLinesJoin(s[1..]);
      JoinExtendsFirst(s[0], SplitLines(s[1..]));
    }
  }

  /** Prefixing the first piece with a character prefixes the joined text with it. */
  lemma JoinExtendsFirst(c: char, rest: seq<string>)
    requires |rest| >= 1
    ensures JoinLines([[c] + rest[0]] + rest[1..]) == [c] + JoinLines(rest)
  {
    var lines := [[c] + rest[0]] + rest[1..];
    if |rest| > 1 {
      assert lines[1..] == rest[1..];
      assert JoinLines(lines) == ([c] + rest[0]) + "\n" + JoinLines(rest[1..]);
    }
  }

  /** The number of trim characters at the start of `s`. */
  function LeadingTrim(s: string): (n: nat)
    ensures n <= |s|
    ensures forall i :: 0 <= i < n ==> IsTrimChar(s[i])
    ensures n < |s| ==> !IsTrimChar(s[n])
  {
    if |s| > 0 && IsTrimChar(s[0]) then 1 + LeadingTrim(s[1..]) else 0
  }

  /** The number of trim characters at the end of `s`. */
  function TrailingTrim(s: string): (n: nat)
    ensures n <= |s|
    ensures forall i :: |s| - n <= i < |s| ==> IsTrimChar(s[i])
    ensures n < |s| ==> !IsTrimChar(s[|s| - n - 1])
  {
    if |s| > 0 && IsTrimChar(s[|s| - 1]) then 1 + TrailingTrim(s[..|s| - 1]) else 0
  }

  /** `r` is `s` with the trim characters before position `a` and after `r` removed. */
  predicate TrimmedAt(s: string, r: string, a: int)
  {
    && 0 <= a && a + |r| <= |s|
    && s[a..a + |r|] == r
    && (forall i :: 0 <= i < a ==> IsTrimChar(s[i]))
    && (forall i :: a + |r| <= i < |s| ==> IsTrimChar(s[i]))
  }

  /** PHP's trim(): the infix of `s` left once leading and trailing trim characters are cut. */
  function Trim(s: string): (r: string)
    ensures |r| <= |s|
  {
    var a := LeadingTrim(s);
    var t := s[a..];
    t[..|t| - TrailingTrim(t)]
  }

  /** trim() removes only leading and trailing trim characters, and the result neither starts nor ends with one. */
  lemma TrimSpec(s: string)
    ensures exists a :: TrimmedAt(s, Trim(s), a)
    ensures |Trim(s)| == 0 || (!IsTrimChar(Trim(s)[0]) && !IsTrimChar(Trim(s)[|Trim(s)| - 1]))
  {
    var a := LeadingTrim(s);
    var t := s[a..];
    var n := TrailingTrim(t);
    var r := t[..|t| - n];
    assert r == Trim(s);
    assert TrimmedAt(s, r, a);
    if |r| > 0 {
      assert r[0] == s[a];
      assert r[|r| - 1] == t[|t| - n - 1];
    }
  }

  /** The trimmed lines of at least four characters (isset($line[3])), in their order. */
  function KeptLines(lines: seq<string>): (kept: seq<string>)
    ensures |kept| <= |lines|
  {
    if |lines| == 0 then []
    else
      var line := Trim(lines[|lines| - 1]);
      KeptLines(lines[..|lines| - 1]) + (if |line| >= 4 then [line] else [])
  }

  /** Filtering works line by line: it distributes over concatenation, so input order is kept. */
  lemma {:induction false} KeptLinesConcat(a: seq<string>, b: seq<string>)
    ensures KeptLines(a + b) == KeptLines(a) + KeptLines(b)
  {
    if |b| == 0 {
      assert a + b == a;
    } else {
      assert (a + b)[..|a + b| - 1] == a + b[..|b| - 1];
      KeptLinesConcat(a, b[..|b| - 1]);
    }
  }

  /** Trimming a line without line breaks yields a name without line breaks. */
  lemma TrimKeepsNoBreaks(s: string)
    requires forall j :: 0 <= j < |s| ==> !IsLineBreak(s[j])
    ensures forall j :: 0 <= j < |Trim(s)| ==> !IsLineBreak(Trim(s)[j])
  {
    var r := Trim(s);
    TrimSpec(s);
    var a :| TrimmedAt(s, r, a);
    forall j | 0 <= j < |r|
      ensures !IsLineBreak(r[j])
    {
      assert r[j] == s[a..a + |r|][j] == s[a + j];
    }
  }

  /** A module name as the page lists it: at least four characters, no surrounding blanks, no line breaks. */
  predicate WellFormedName(name: string)
  {
    && |name| >= 4 && !IsTrimChar(name[0]) && !IsTrimChar(name[|name| - 1])
    && forall j :: 0 <= j < |name| ==> !IsLineBreak(name[j])
  }

  /** Every kept name has at least four characters and no surrounding blanks or line breaks. */
  lemma {:induction false} KeptLinesShape(lines: seq<string>)
    requires forall i, j :: 0 <= i < |lines| && 0 <= j < |lines[i]| ==> !IsLineBreak(lines[i][j])
    ensures forall k :: 0 <= k < |KeptLines(lines)| ==> WellFormedName(KeptLines(lines)[k])
  {
    if |lines| > 0 {
      var init := lines[..|lines| - 1];
      var last := lines[|lines| - 1];
      assert forall i :: 0 <= i < |init| ==> init[i] == lines[i];
      KeptLinesShape(init);
      TrimSpec(last);
      TrimKeepsNoBreaks(last);
    }
  }

  /** status_modules: the site name, then the kept lines of the configured modules text. */
  method StatusModules(siteName: string, modules: string) returns (names: seq<string>)
    ensures names == [siteName] + KeptLines(SplitLines(modules))
  {
    names := [siteName];
    var lines := SplitLines(modules);
    for k := 0 to |lines|
      invariant names == [siteName] + KeptLines(lines[..k])
    {
      var line := Trim(lines[k]);
      assert lines[..k + 1][..k] == lines[..k];
      if |line| >= 4 {
        names := names + [line];
      }
    }
    assert lines[..|lines|] == lines;
  }

  /** The page's module list starts with the site name and holds only well-formed names after it. */
  lemma ModuleNamesShape(siteName: string, modules: string)
    ensures var names := [siteName] + KeptLines(SplitLines(modules));
      && names[0] == siteName
      && forall k :: 1 <= k < |names| ==> WellFormedName(names[k])
  {
    var kept := KeptLines(SplitLines(modules));
    var names := [siteName] + kept;
    SplitLinesSpec(modules);
    KeptLinesShape(SplitLines(modules));
    forall k | 1 <= k < |names|
      ensures names[k] == kept[k - 1]
    {
    }
  }

  // ----- hourly bars -----

  /** The colour class of one hour bar. */
  datatype BarClass = Ok | Good | Warn | Bad | Down

  /** Higher is healthier. */
  function Rank(c: BarClass): int
  {
    match c
    case Down => 0
    case Bad => 1
    case Warn => 2
    case Good => 3
    case Ok => 4
  }

  /** The threshold chain: a missing row is down, otherwise >= 99, >= 95, >= 80 and > 0 pick the class. */
  function ClassOf(found: bool, pct: int): (c: BarClass)
    ensures !found ==> c == Down
    ensures found ==> (c == Down <==> pct <= 0)
    ensures c == Ok <==> found && pct >= 99
    ensures c == Good <==> found && 95 <= pct < 99
    ensures c == Warn <==> found && 80 <= pct < 95
    ensures c == Bad <==> found && 0 < pct < 80
  {
    if !found then Down
    else if pct >= 99 then Ok
    else if pct >= 95 then Good
    else if pct >= 80 then Warn
    else if pct > 0 then Bad
    else Down
  }

  /** A higher uptime never gets a worse class. */
  lemma ClassMonotone(p: int, q: int)
    requires p <= q
    ensures Rank(ClassOf(true, p)) <= Rank(ClassOf(true, q))
  {
  }

  /** One bar: the hour's class, its uptime (0 without a row) and the hour's start. */
  datatype Bar = Bar(cls: BarClass, pct: int, ts: int)

  function BarAt(hourly: seq<HourlyRow>, localCal: Calendar, ts: int): Bar
  {
    var row := FindHour(hourly, localCal(ts));
    var pct := if row.Some? then hourly[row.value].uptime else 0;
    Bar(ClassOf(row.Some?, pct), pct, ts)
  }

  /** The number of bars: statuspagedays (5 when unset) times 24, at least one. */
  function WindowHours(statuspagedays: int): (w: nat)
    ensures w >= 1
    ensures statuspagedays == 0 ==> w == 120
    ensures statuspagedays > 0 ==> w == 24 * statuspagedays
    ensures statuspagedays < 0 ==> w == 1
  {
    var days := if statuspagedays == 0 then 5 else statuspagedays;
    if days * 24 < 1 then 1 else days * 24
  }

  /** The bars of the `w` whole hours before the hour starting at `hnow`, oldest first. */
  function Bars(hourly: seq<HourlyRow>, w: nat, hnow: int, localCal: Calendar): (bars: seq<Bar>)
    ensures |bars| == w
  {
    seq(w, j requires 0 <= j < w => BarAt(hourly, localCal, hnow - (w - j) * HourSeconds))
  }

  /**
   * The bars cover consecutive whole hours ending just before the current
   * hour, oldest first.
   */
  lemma BarsCoverWindow(hourly: seq<HourlyRow>, w: nat, now: int, localCal: Calendar)
    requires w >= 1
    ensures var bars := Bars(hourly, w, HourFloor(now), localCal);
      && |bars| == w
      && bars[0].ts == HourFloor(now) - w * HourSeconds
      && bars[w - 1].ts == HourFloor(now) - HourSeconds
      && (forall j :: 0 <= j < w ==> bars[j].ts % HourSeconds == 0 && bars[j].ts + HourSeconds <= HourFloor(now))
      && (forall j :: 0 <= j < w - 1 ==> bars[j + 1].ts == bars[j].ts + HourSeconds)
  {
    var hnow := HourFloor(now);
    var bars := Bars(hourly, w, hnow, localCal);
    forall j | 0 <= j < w
      ensures bars[j] == BarAt(hourly, localCal, hnow - (w - j) * HourSeconds)
      ensures bars[j].ts == hnow - (w - j) * HourSeconds
      ensures bars[j].ts % HourSeconds == 0 && bars[j].ts + HourSeconds <= hnow
    {
      assert hnow - (w - j) * HourSeconds == (hnow / HourSeconds - (w - j)) * HourSeconds;
    }
    forall j | 0 <= j < w - 1
      ensures bars[j + 1].ts == bars[j].ts + HourSeconds
    {
      assert (w - j) * HourSeconds == (w - (j + 1)) * HourSeconds + HourSeconds;
    }
  }

  /** An hour without a row is a down bar at 0%; an hour with one shows that row's uptime and its class. */
  lemma BarsShowUptime(hourly: seq<HourlyRow>, w: nat, hnow: int, localCal: Calendar)
    ensures var bars := Bars(hourly, w, hnow, localCal);
      && (forall j :: 0 <= j < w && FindHour(hourly, localCal(bars[j].ts)).None? ==>
            bars[j].pct == 0 && bars[j].cls == Down)
      && (forall j :: 0 <= j < w && FindHour(hourly, localCal(bars[j].ts)).Some? ==>
            var row := hourly[FindHour(hourly, localCal(bars[j].ts)).value];
            bars[j].pct == row.uptime && bars[j].cls == ClassOf(true, row.uptime))
  {
    var bars := Bars(hourly, w, hnow, localCal);
    forall j | 0 <= j < w
      ensures bars[j] == BarAt(hourly, localCal, bars[j].ts)
    {
      var ts := hnow - (w - j) * HourSeconds;
      assert bars[j] == BarAt(hourly, localCal, ts);
      assert BarAt(hourly, localCal, ts).ts == ts;
    }
  }

  /** status: one bar per hour of the window, built by counting down from the oldest hour. */
  method Status(db: Database, statuspagedays: int, now: int, localCal: Calendar) returns (bars: seq<Bar>)
    ensures bars == Bars(db.hourly, WindowHours(statuspagedays), HourFloor(now), localCal)
  {
    var days := statuspagedays;
    if days == 0 {
      days := 5;
    }
    var windowhours := days * 24;
    var hnow := now / HourSeconds * HourSeconds;
    if windowhours < 1 {
      windowhours := 1;
    }
    bars := [];
    var i := windowhours;
    while i >= 1
      invariant 0 <= i <= windowhours
      invariant |bars| == windowhours - i
      invariant forall j :: 0 <= j < |bars| ==>
        bars[j] == BarAt(db.hourly, localCal, hnow - (windowhours - j) * HourSeconds)
    {
      var ts := hnow - i * HourSeconds;
      var row := FindHour(db.hourly, localCal(ts));
      var pct := if row.Some? then db.hourly[row.value].uptime else 0;
      var cls;
      if row.None? {
        cls := Down;
      } else if pct >= 99 {
        cls := Ok;
      } else if pct >= 95 {
        cls := Good;
      } else if pct >= 80 {
        cls := Warn;
      } else if pct > 0 {
        cls := Bad;
      } else {
        cls := Down;
      }
      bars := bars + [Bar(cls, pct, ts)];
      i := i - 1;
    }
  }

  // ----- the page summary -----

  /** The page's overall verdict: operational iff there is a newest row and its status is truthy. */
  function OverallOf(last: Option<LastLogView>): (o: Checker.Overall)
    ensures o == Checker.Operational <==> last.Some? && last.value.status != 0
    ensures o != Checker.Partial
  {
    if last.Some? && last.value.status != 0 then Checker.Operational else Checker.Down
  }

  /** The configured public title when it has at least four characters, the plugin name otherwise. */
  function TitleOf(publictitle: string, pluginname: string): (t: string)
    ensures |publictitle| >= 4 ==> t == publictitle
    ensures |publictitle| < 4 ==> t == pluginname
  {
    if |publictitle| >= 4 then publictitle else pluginname
  }

  datatype PageSummary = PageSummary(
    title: string,
    overall: Checker.Overall,
    lastLog: Option<LastLogView>,
    bars: seq<Bar>,
    modules: seq<string>)

  /** summary: everything the public page shows. */
  method Summary(db: Database, publictitle: string, pluginname: string, siteName: string,
                 modules: string, statuspagedays: int, now: int, localCal: Calendar)
    returns (r: PageSummary)
    ensures r.lastLog == LastLog(db.log)
    ensures r.overall == Checker.Operational <==> |db.log| > 0 && r.lastLog.value.status != 0
    ensures r.overall != Checker.Partial
    ensures r.title == TitleOf(publictitle, pluginname)
    ensures r.bars == Bars(db.hourly, WindowHours(statuspagedays), HourFloor(now), localCal)
    ensures r.modules == [siteName] + KeptLines(SplitLines(modules))
  {
    var last := LastLog(db.log);
    var overall := OverallOf(last);
    var bars := Status(db, statuspagedays, now, localCal);
    var names := StatusModules(siteName, modules);
    r := PageSummary(TitleOf(publictitle, pluginname), overall, last, bars, names);
  }

  /** With the log kept by the database object, the page is operational iff the last row's status is truthy. */
  lemma OverallFollowsLastRow(db: Database)
    requires db.Valid()
    ensures OverallOf(LastLog(db.log)) == Checker.Operational <==> |db.log| > 0 && db.log[|db.log| - 1].status != 0
  {
    if |db.log| > 0 {
      LastLogIsLastRow(db.log);
    }
  }
}
