/**
 * The install hook: seeds the hourly table with 100% uptime for each of
 * the 168 whole hours before the current one, skipping hours that already
 * have a row, inserting in batches of 50.
 */
module Install {
  import opened Tables

  const SeedHours: nat := 168
  const BatchSize: nat := 50
  const SeedUptime: int := 100

  /** The seeded hours: hnow - i * 3600 for i from 168 down to 1. */
  function Candidates(now: int): seq<int>
  {
    seq(SeedHours, j requires 0 <= j < SeedHours => HourFloor(now) - (SeedHours - j) * HourSeconds)
  }

  /**
   * The 168 candidate hours are hour-aligned, strictly before the current
   * hour, consecutive and increasing, from hnow - 168 * 3600 to hnow - 3600.
   */
  lemma CandidatesSpec(now: int)
    ensures var c := Candidates(now);
      && |c| == SeedHours
      && c[0] == HourFloor(now) - SeedHours * HourSeconds
      && c[SeedHours - 1] == HourFloor(now) - HourSeconds
      && (forall j :: 0 <= j < SeedHours ==> c[j] % HourSeconds == 0 && c[j] < HourFloor(now))
      && (forall j :: 0 <= j < SeedHours - 1 ==> c[j] < c[j + 1] == c[j] + HourSeconds)
  {
    var c := Candidates(now);
    var hnow := HourFloor(now);
    forall j | 0 <= j < SeedHours
      ensures c[j] == hnow - (SeedHours - j) * HourSeconds
      ensures c[j] % HourSeconds == 0 && c[j] < hnow
    {
      assert hnow - (SeedHours - j) * HourSeconds == (hnow / HourSeconds - (SeedHours - j)) * HourSeconds;
    }
    forall j | 0 <= j < SeedHours - 1
      ensures c[j] < c[j + 1] == c[j] + HourSeconds
    {
      assert (SeedHours - j) * HourSeconds == (SeedHours - (j + 1)) * HourSeconds + HourSeconds;
    }
  }

  /** The records built for the candidates, in the same order. */
  function SeedRecords(now: int, cal: Calendar): seq<HourlyRow>
  {
    seq(SeedHours, j requires 0 <= j < SeedHours => HourlyRow(cal(Candidates(now)[j]), SeedUptime))
  }

  /** PHP's array_chunk: consecutive pieces of `n` elements, the last one possibly shorter. */
  function Chunks<T>(s: seq<T>, n: nat): (chunks: seq<seq<T>>)
    requires n > 0
    ensures forall i :: 0 <= i < |chunks| ==> 0 < |chunks[i]| <= n
    ensures forall i :: 0 <= i < |chunks| - 1 ==> |chunks[i]| == n
    decreases |s|
  {
    if |s| == 0 then []
    else if |s| <= n then [s]
    else [s[..n]] + Chunks(s[n..], n)
  }

  function Flatten<T>(ss: seq<seq<T>>): seq<T>
  {
    if |ss| == 0 then [] else Flatten(ss[..|ss| - 1]) + ss[|ss| - 1]
  }

  lemma {:induction false} FlattenCons<T>(a: seq<T>, ss: seq<seq<T>>)
    ensures Flatten([a] + ss) == a + Flatten(ss)
  {
    if |ss| > 0 {
      assert ([a] + ss)[..|ss|] == [a] + ss[..|ss| - 1];
      FlattenCons(a, ss[..|ss| - 1]);
    } else {
      assert ([a] + ss)[..0] == [];
    }
  }

  /** Batching changes nothing: the batches, in order, are the records in order. */
  lemma {:induction false} ChunksFlatten<T>(s: seq<T>, n: nat)
    requires n > 0
    ensures Flatten(Chunks(s, n)) == s
    decreases |s|
  {
    if |s| == 0 {
    } else if |s| <= n {
      assert [s][..0] == [];
    } else {
      ChunksFlatten(s[n..], n);
      FlattenCons(s[..n], Chunks(s[n..], n));
      assert s[..n] + s[n..] == s;
    }
  }

  /** One record inserted unless a row for its hour exists. */
  function InsertOne(hourly: seq<HourlyRow>, rec: HourlyRow): seq<HourlyRow>
  {
    if FindHour(hourly, rec.key).Some? then hourly else hourly + [rec]
  }

  /** The records inserted one after the other, each only when its hour is absent. */
  function InsertAbsent(hourly: seq<HourlyRow>, recs: seq<HourlyRow>): (r: seq<HourlyRow>)
    ensures |hourly| <= |r| <= |hourly| + |recs|
    ensures hourly <= r
  {
    if |recs| == 0 then hourly
    else InsertOne(InsertAbsent(hourly, recs[..|recs| - 1]), recs[|recs| - 1])
  }

  /**
   * Existing rows are kept unchanged in front; every added row is one of the
   * records and its hour had no row before it was added.
   */
  lemma {:induction false} InsertAbsentExtends(hourly: seq<HourlyRow>, recs: seq<HourlyRow>)
    ensures var r := InsertAbsent(hourly, recs);
      && |hourly| <= |r| <= |hourly| + |recs|
      && r[..|hourly|] == hourly
      && (forall i :: |hourly| <= i < |r| ==> r[i] in recs)
      && (forall i, j :: 0 <= j < i < |r| && |hourly| <= i ==> r[j].key != r[i].key)
  {
    if |recs| > 0 {
      InsertAbsentExtends(hourly, recs[..|recs| - 1]);
      var prev := InsertAbsent(hourly, recs[..|recs| - 1]);
      var rec := recs[|recs| - 1];
      if FindHour(prev, rec.key).None? {
        assert (prev + [rec])[..|hourly|] == prev[..|hourly|];
        forall i | |hourly| <= i < |prev|
          ensures prev[i] in recs
        {
          assert prev[i] in recs[..|recs| - 1];
        }
      } else {
        forall i | |hourly| <= i < |prev|
          ensures prev[i] in recs
        {
          assert prev[i] in recs[..|recs| - 1];
        }
      }
    }
  }

  /** Afterwards every record's hour has a row. */
  lemma {:induction false} InsertAbsentCovers(hourly: seq<HourlyRow>, recs: seq<HourlyRow>)
    ensures forall k :: 0 <= k < |recs| ==> FindHour(InsertAbsent(hourly, recs), recs[k].key).Some?
  {
    if |recs| > 0 {
      var init := recs[..|recs| - 1];
      InsertAbsentCovers(hourly, init);
      var prev := InsertAbsent(hourly, init);
      var rec := recs[|recs| - 1];
      var r := InsertAbsent(hourly, recs);
      assert r == InsertOne(prev, rec);
      assert prev <= r;
      forall k | 0 <= k < |recs|
        ensures FindHour(r, recs[k].key).Some?
      {
        if k < |recs| - 1 {
          assert recs[k] == init[k];
          var p := FindHour(prev, recs[k].key).value;
          assert r[p] == prev[p];
        } else if FindHour(prev, rec.key).None? {
          assert r[|prev|] == rec;
        }
      }
    }
  }

  /** When every record's hour already has a row, nothing is inserted. */
  lemma {:induction false} InsertAbsentNoop(hourly: seq<HourlyRow>, recs: seq<HourlyRow>)
    requires forall k :: 0 <= k < |recs| ==> FindHour(hourly, recs[k].key).Some?
    ensures InsertAbsent(hourly, recs) == hourly
  {
    if |recs| > 0 {
      InsertAbsentNoop(hourly, recs[..|recs| - 1]);
    }
  }

  /** Running the seeding a second time with the same records adds nothing. */
  lemma InsertAbsentIdempotent(hourly: seq<HourlyRow>, recs: seq<HourlyRow>)
    ensures InsertAbsent(InsertAbsent(hourly, recs), recs) == InsertAbsent(hourly, recs)
  {
    InsertAbsentCovers(hourly, recs);
    InsertAbsentNoop(InsertAbsent(hourly, recs), recs);
  }

  /**
   * After seeding, rows that existed are unchanged in front, every added row
   * has uptime 100 and the key of one of the seeded hours, and each of the
   * 168 hours has a row.
   */
  lemma SeedSpec(hourly: seq<HourlyRow>, now: int, cal: Calendar)
    ensures var r := InsertAbsent(hourly, SeedRecords(now, cal));
      && |hourly| <= |r| <= |hourly| + SeedHours
      && r[..|hourly|] == hourly
      && (forall i :: |hourly| <= i < |r| ==>
            r[i].uptime == SeedUptime && exists j :: 0 <= j < SeedHours && r[i].key == cal(Candidates(now)[j]))
      && (forall j :: 0 <= j < SeedHours ==> FindHour(r, cal(Candidates(now)[j])).Some?)
  {
    var recs := SeedRecords(now, cal);
    var r := InsertAbsent(hourly, recs);
    InsertAbsentExtends(hourly, recs);
    InsertAbsentCovers(hourly, recs);
    forall i | |hourly| <= i < |r|
      ensures r[i].uptime == SeedUptime
      ensures exists j :: 0 <= j < SeedHours && r[i].key == cal(Candidates(now)[j])
    {
      var j :| 0 <= j < |recs| && recs[j] == r[i];
      assert r[i].key == cal(Candidates(now)[j]);
    }
    forall j | 0 <= j < SeedHours
      ensures FindHour(r, cal(Candidates(now)[j])).Some?
    {
      assert recs[j].key == cal(Candidates(now)[j]);
    }
  }

  /** The counting loop: the record of hnow - i * 3600 for i from 168 down to 1. */
  method BuildRecords(now: nat, cal: Calendar) returns (records: seq<HourlyRow>)
    ensures records == SeedRecords(now, cal)
  {
    var hours := SeedHours;
    records := [];
    var i := hours;
    while i >= 1
      invariant 0 <= i <= hours
      invariant records == SeedRecords(now, cal)[..hours - i]
    {
      var t := now - now % HourSeconds - i * HourSeconds;
      assert now - now % HourSeconds == HourFloor(now);
      assert t == Candidates(now)[hours - i];
      records := records + [HourlyRow(cal(t), SeedUptime)];
      i := i - 1;
    }
  }

  /** Inserting two lists of records one after the other is inserting their concatenation. */
  lemma {:induction false} InsertAbsentConcat(hourly: seq<HourlyRow>, a: seq<HourlyRow>, b: seq<HourlyRow>)
    ensures InsertAbsent(hourly, a + b) == InsertAbsent(InsertAbsent(hourly, a), b)
  {
    if |b| == 0 {
      assert a + b == a;
    } else {
      assert (a + b)[..|a + b| - 1] == a + b[..|b| - 1];
      InsertAbsentConcat(hourly, a, b[..|b| - 1]);
    }
  }

  /** The inner loop: one batch, each record inserted only if its hour has no row yet. */
  method InsertBatch(db: Database, chunk: seq<HourlyRow>)
    requires db.Valid()
    modifies db
    ensures db.Valid()
    ensures db.hourly == InsertAbsent(old(db.hourly), chunk)
    ensures db.log == old(db.log) && db.nextLogId == old(db.nextLogId) && db.lastrun == old(db.lastrun)
  {
    for j := 0 to |chunk|
      invariant db.Valid()
      invariant db.hourly == InsertAbsent(old(db.hourly), chunk[..j])
      invariant db.log == old(db.log) && db.nextLogId == old(db.nextLogId) && db.lastrun == old(db.lastrun)
    {
      var hourly := chunk[j];
      assert chunk[..j + 1][..j] == chunk[..j];
      var present := FindHour(db.hourly, hourly.key).Some?;
      if !present {
        db.hourly := db.hourly + [hourly];
      }
    }
    assert chunk[..|chunk|] == chunk;
  }

  /** The outer loop over the batches of 50. */
  method InsertBatches(db: Database, records: seq<HourlyRow>)
    requires db.Valid()
    modifies db
    ensures db.Valid()
    ensures db.hourly == InsertAbsent(old(db.hourly), records)
    ensures db.log == old(db.log) && db.nextLogId == old(db.nextLogId) && db.lastrun == old(db.lastrun)
  {
    var chunks := Chunks(records, BatchSize);
    for c := 0 to |chunks|
      invariant db.Valid()
      invariant db.hourly == InsertAbsent(old(db.hourly), Flatten(chunks[..c]))
      invariant db.log == old(db.log) && db.nextLogId == old(db.nextLogId) && db.lastrun == old(db.lastrun)
    {
      InsertBatch(db, chunks[c]);
      assert chunks[..c + 1][..c] == chunks[..c];
      InsertAbsentConcat(old(db.hourly), Flatten(chunks[..c]), chunks[c]);
    }
    assert chunks[..|chunks|] == chunks;
    ChunksFlatten(records, BatchSize);
  }

  /** xmldb_local_kopere_status_install: builds the 168 records, then inserts the absent ones in batches. */
  method SeedHourly(db: Database, now: nat, cal: Calendar)
    requires db.Valid()
    modifies db
    ensures db.Valid()
    ensures db.hourly == InsertAbsent(old(db.hourly), SeedRecords(now, cal))
    ensures db.log == old(db.log) && db.nextLogId == old(db.nextLogId) && db.lastrun == old(db.lastrun)
  {
    var records := BuildRecords(now, cal);
    InsertBatches(db, records);
  }
}
