/** Chronic failures per matrix area: tests red on enough distinct days of the history. */
module TestHealth {
  import opened Texts
  import opened Sequences
  import MR = MatrixRefresh

  datatype HealthRow = HealthRow(file: string, test: string)

  datatype HistoryRun = HistoryRun(date: string, failures: seq<HealthRow>, flaky: seq<HealthRow>)

  datatype Kind = Hard | Flaky

  /** A test that failed, or flaked, in one area. */
  datatype Key = Key(area: string, kind: Kind, name: string)

  /** One bad result: the test, and the day. */
  datatype Sighting = Sighting(key: Key, date: string)

  /** Which area a spec path belongs to; the directory patterns are a parameter. */
  type AreaOf = string -> Option<string>

  function SightingOf(areaOf: AreaOf, kind: Kind, date: string): HealthRow -> Option<Sighting>
  {
    (row: HealthRow) =>
      var area := areaOf("/" + row.file);
      if area.None? then None else Some(Sighting(Key(area.value, kind, row.file + "::" + row.test), date))
  }

  function RunSightings(run: HistoryRun, since: string, areaOf: AreaOf): seq<Sighting>
  {
    if !TextLe(since, run.date) then []
    else FilterMap(run.failures, SightingOf(areaOf, Hard, run.date)) + FilterMap(run.flaky, SightingOf(areaOf, Flaky, run.date))
  }

  function Sightings(runs: seq<HistoryRun>, since: string, areaOf: AreaOf): seq<Sighting>
  {
    if runs == [] then []
    else Sightings(runs[..|runs| - 1], since, areaOf) + RunSightings(runs[|runs| - 1], since, areaOf)
  }

  /** The distinct days of one test. */
  function Days(sightings: seq<Sighting>, key: Key): set<string>
  {
    set s | s in sightings && s.key == key :: s.date
  }

  ghost predicate IsSeen(seen: map<Key, set<string>>, sightings: seq<Sighting>)
  {
    && seen.Keys == (set s <- sightings :: s.key)
    && forall key <- seen :: seen[key] == Days(sightings, key)
  }

  method Record(seen: map<Key, set<string>>, rows: seq<HealthRow>, areaOf: AreaOf, kind: Kind, date: string,
                ghost before: seq<Sighting>) returns (out: map<Key, set<string>>)
    requires IsSeen(seen, before)
    ensures IsSeen(out, before + FilterMap(rows, SightingOf(areaOf, kind, date)))
  {
    out := seen;
    assert before + [] == before;
    for i := 0 to |rows|
      invariant IsSeen(out, before + FilterMap(rows[..i], SightingOf(areaOf, kind, date)))
    {
      FilterMapSnoc(rows, i, SightingOf(areaOf, kind, date));
      var area := areaOf("/" + rows[i].file);
      if area.None? { continue; }
      var key := Key(area.value, kind, rows[i].file + "::" + rows[i].test);
      OneMoreSighting(out, before + FilterMap(rows[..i], SightingOf(areaOf, kind, date)), Sighting(key, date));
      AppendAssoc(before, FilterMap(rows[..i], SightingOf(areaOf, kind, date)), [Sighting(key, date)]);
      out := out[key := (if key in out then out[key] else {}) + {date}];
    }
    TakeAll(rows);
  }

  lemma OneMoreSighting(seen: map<Key, set<string>>, sightings: seq<Sighting>, s: Sighting)
    requires IsSeen(seen, sightings)
    ensures IsSeen(seen[s.key := (if s.key in seen then seen[s.key] else {}) + {s.date}], sightings + [s])
  {
    forall key ensures Days(sightings + [s], key) == Days(sightings, key) + if s.key == key then {s.date} else {} {
    }
    assert s.key !in seen ==> Days(sightings, s.key) == {};
  }

  /** Of the given keys, those of one area and kind whose days reach the threshold. */
  function Chronic(seen: map<Key, set<string>>, keys: set<Key>, minDays: nat, area: string, kind: Kind): set<Key>
  {
    set key | key in keys && key in seen && key.area == area && key.kind == kind && |seen[key]| >= minDays
  }

  function CountsFor(seen: map<Key, set<string>>, keys: set<Key>, minDays: nat, area: string): MR.AreaHealth
  {
    MR.AreaHealth(|Chronic(seen, keys, minDays, area, Hard)|, |Chronic(seen, keys, minDays, area, Flaky)|)
  }

  function HealthAt(out: map<string, MR.AreaHealth>, area: string): MR.AreaHealth
  {
    if area in out then out[area] else MR.AreaHealth(0, 0)
  }

  function Tally(h: MR.AreaHealth, kind: Kind): MR.AreaHealth
  {
    if kind == Hard then h.(chronicHardFailures := h.chronicHardFailures + 1) else h.(chronicFlaky := h.chronicFlaky + 1)
  }

  predicate Counts(seen: map<Key, set<string>>, key: Key, minDays: nat, area: string)
  {
    key in seen && key.area == area && |seen[key]| >= minDays
  }

  lemma OneMoreChronic(seen: map<Key, set<string>>, keys: set<Key>, key: Key, minDays: nat, area: string, kind: Kind)
    requires key in seen && key !in keys
    ensures |Chronic(seen, keys + {key}, minDays, area, kind)|
            == |Chronic(seen, keys, minDays, area, kind)| + if key.kind == kind && Counts(seen, key, minDays, area) then 1 else 0
  {
    var before := Chronic(seen, keys, minDays, area, kind);
    var own := if key.kind == kind && Counts(seen, key, minDays, area) then {key} else {};
    assert Chronic(seen, keys + {key}, minDays, area, kind) == before + own;
    assert key !in before;
  }

  lemma OneMoreKey(seen: map<Key, set<string>>, keys: set<Key>, key: Key, minDays: nat, area: string)
    requires key in seen && key !in keys
    ensures CountsFor(seen, keys + {key}, minDays, area)
            == if Counts(seen, key, minDays, area) then Tally(CountsFor(seen, keys, minDays, area), key.kind)
               else CountsFor(seen, keys, minDays, area)
  {
    OneMoreChronic(seen, keys, key, minDays, area, Hard);
    OneMoreChronic(seen, keys, key, minDays, area, Flaky);
  }

  method CountChronic(seen: map<Key, set<string>>, minDays: nat) returns (out: map<string, MR.AreaHealth>)
    ensures forall area :: HealthAt(out, area) == CountsFor(seen, seen.Keys, minDays, area)
  {
    out := map[];
    var todo := seen.Keys;
    ghost var done: set<Key> := {};
    while todo != {}
      invariant todo <= seen.Keys && done == seen.Keys - todo
      invariant forall area :: HealthAt(out, area) == CountsFor(seen, done, minDays, area)
    {
      var key :| key in todo;
      todo := todo - {key};
      forall area ensures CountsFor(seen, done + {key}, minDays, area)
                          == if Counts(seen, key, minDays, area) then Tally(CountsFor(seen, done, minDays, area), key.kind)
                             else CountsFor(seen, done, minDays, area)
      {
        OneMoreKey(seen, done, key, minDays, area);
      }
      if |seen[key]| >= minDays {
        out := out[key.area := Tally(HealthAt(out, key.area), key.kind)];
      }
      done := done + {key};
    }
    assert done == seen.Keys;
  }

  /** The health of one area over a history. */
  function HealthOf(runs: seq<HistoryRun>, since: string, minDays: nat, areaOf: AreaOf, area: string): MR.AreaHealth
  {
    var sightings := Sightings(runs, since, areaOf);
    MR.AreaHealth(|ChronicIn(sightings, minDays, area, Hard)|, |ChronicIn(sightings, minDays, area, Flaky)|)
  }

  function ChronicIn(sightings: seq<Sighting>, minDays: nat, area: string, kind: Kind): set<Key>
  {
    var keys := set s <- sightings :: s.key;
    set key | key in keys && key.area == area && key.kind == kind && |Days(sightings, key)| >= minDays
  }

  method MeasureTestHealth(runs: seq<HistoryRun>, since: string, minDays: nat, areaOf: AreaOf)
    returns (out: map<string, MR.AreaHealth>)
    ensures forall area :: HealthAt(out, area) == HealthOf(runs, since, minDays, areaOf, area)
  {
    var seen: map<Key, set<string>> := map[];
    for i := 0 to |runs|
      invariant IsSeen(seen, Sightings(runs[..i], since, areaOf))
    {
      assert runs[..i + 1][..i] == runs[..i];
      ghost var before := Sightings(runs[..i], since, areaOf);
      if !TextLe(since, runs[i].date) {
        assert before + [] == before;
        continue;
      }
      seen := Record(seen, runs[i].failures, areaOf, Hard, runs[i].date, before);
      ghost var hard := FilterMap(runs[i].failures, SightingOf(areaOf, Hard, runs[i].date));
      seen := Record(seen, runs[i].flaky, areaOf, Flaky, runs[i].date, before + hard);
      AppendAssoc(before, hard, FilterMap(runs[i].flaky, SightingOf(areaOf, Flaky, runs[i].date)));
    }
    TakeAll(runs);
    out := CountChronic(seen, minDays);
    forall area ensures CountsFor(seen, seen.Keys, minDays, area) == HealthOf(runs, since, minDays, areaOf, area) {
      SameChronic(seen, Sightings(runs, since, areaOf), minDays, area);
    }
  }

  lemma SameChronic(seen: map<Key, set<string>>, sightings: seq<Sighting>, minDays: nat, area: string)
    requires IsSeen(seen, sightings)
    ensures forall kind: Kind :: Chronic(seen, seen.Keys, minDays, area, kind) == ChronicIn(sightings, minDays, area, kind)
  {
  }

  /* ---- what the measure promises ---- */

  lemma SubsetSize<T>(a: set<T>, b: set<T>)
    requires a <= b
    ensures |a| <= |b|
  {
    var rest := b - a;
    assert b == a + rest;
  }

  lemma MoreSightings(a: seq<Sighting>, b: seq<Sighting>, minDays: nat, area: string, kind: Kind)
    ensures |ChronicIn(a, minDays, area, kind)| <= |ChronicIn(a + b, minDays, area, kind)|
  {
    forall key <- ChronicIn(a, minDays, area, kind) ensures key in ChronicIn(a + b, minDays, area, kind) {
      SubsetSize(Days(a, key), Days(a + b, key));
      var s :| s in a && s.key == key;
      assert s in a + b;
    }
    SubsetSize(ChronicIn(a, minDays, area, kind), ChronicIn(a + b, minDays, area, kind));
  }

  lemma {:induction false} SightingsAppend(a: seq<HistoryRun>, b: seq<HistoryRun>, since: string, areaOf: AreaOf)
    ensures Sightings(a + b, since, areaOf) == Sightings(a, since, areaOf) + Sightings(b, since, areaOf)
  {
    if b == [] {
      assert a + b == a;
    } else {
      var n := |b| - 1;
      assert (a + b)[..|a + b| - 1] == a + b[..n];
      SightingsAppend(a, b[..n], since, areaOf);
      AppendAssoc(Sightings(a, since, areaOf), Sightings(b[..n], since, areaOf), RunSightings(b[n], since, areaOf));
    }
  }

  /** A longer history never looks healthier. */
  lemma MoreHistoryMoreChronic(runs: seq<HistoryRun>, more: seq<HistoryRun>, since: string, minDays: nat, areaOf: AreaOf, area: string)
    ensures var a, b := HealthOf(runs, since, minDays, areaOf, area), HealthOf(runs + more, since, minDays, areaOf, area);
            a.chronicHardFailures <= b.chronicHardFailures && a.chronicFlaky <= b.chronicFlaky
  {
    SightingsAppend(runs, more, since, areaOf);
    MoreSightings(Sightings(runs, since, areaOf), Sightings(more, since, areaOf), minDays, area, Hard);
    MoreSightings(Sightings(runs, since, areaOf), Sightings(more, since, areaOf), minDays, area, Flaky);
  }

  /** However often a test is red on one day, one day is not chronic. */
  lemma OneDayIsNotChronic(sightings: seq<Sighting>, minDays: nat, key: Key, day: string)
    requires minDays >= 2 && forall s <- sightings :: s.key == key ==> s.date == day
    ensures key !in ChronicIn(sightings, minDays, key.area, key.kind)
  {
    assert Days(sightings, key) <= {day};
    SubsetSize(Days(sightings, key), {day});
  }

  /** From history to risk: more red days never lower an area's residual risk. */
  lemma MoreHistoryMoreRisk(runs: seq<HistoryRun>, more: seq<HistoryRun>, since: string, minDays: nat, areaOf: AreaOf,
                            measured: MR.Measured, worse: MR.Measured, a: MR.Area)
    requires a.name in measured.bullets && worse == measured.(health := worse.health)
    requires 0 <= MR.Gross(a.judged, measured.bullets[a.name]) <= 100
    requires MR.HealthOf(measured, a.name) == HealthOf(runs, since, minDays, areaOf, a.name)
    requires MR.HealthOf(worse, a.name) == HealthOf(runs + more, since, minDays, areaOf, a.name)
    ensures MR.Refreshed(measured)(a).derived.residualRisk <= MR.Refreshed(worse)(a).derived.residualRisk
  {
    MoreHistoryMoreChronic(runs, more, since, minDays, areaOf, a.name);
    MR.MoreChronicMoreRisk(measured, worse, a);
  }

  /* ---- what counts as chronic ---- */

  /** On that day, at or after the start date, some run lists the test, as failed or as flaky, in that area. */
  ghost predicate RedOn(runs: seq<HistoryRun>, since: string, areaOf: AreaOf, key: Key, day: string)
  {
    exists run <- runs :: run.date == day && TextLe(since, run.date) && ListsTest(run, areaOf, key)
  }

  predicate ListsTest(run: HistoryRun, areaOf: AreaOf, key: Key)
  {
    exists row <- (match key.kind case Hard => run.failures case Flaky => run.flaky) ::
      areaOf("/" + row.file) == Some(key.area) && row.file + "::" + row.test == key.name
  }

  lemma RunSighted(run: HistoryRun, since: string, areaOf: AreaOf, key: Key, day: string)
    ensures Sighting(key, day) in RunSightings(run, since, areaOf)
            <==> run.date == day && TextLe(since, run.date) && ListsTest(run, areaOf, key)
  {
    FilterMapMembers(run.failures, SightingOf(areaOf, Hard, run.date), Sighting(key, day));
    FilterMapMembers(run.flaky, SightingOf(areaOf, Flaky, run.date), Sighting(key, day));
  }

  lemma {:induction false} SightedIff(runs: seq<HistoryRun>, since: string, areaOf: AreaOf, key: Key, day: string)
    ensures Sighting(key, day) in Sightings(runs, since, areaOf) <==> RedOn(runs, since, areaOf, key, day)
  {
    if runs != [] {
      var n := |runs| - 1;
      SightedIff(runs[..n], since, areaOf, key, day);
      RunSighted(runs[n], since, areaOf, key, day);
      assert runs == runs[..n] + [runs[n]];
    }
  }

  /** A test is chronic in its area exactly when it was red, in its kind, on enough distinct days from the start date on. */
  lemma ChronicIff(runs: seq<HistoryRun>, since: string, minDays: nat, areaOf: AreaOf, key: Key) returns (days: set<string>)
    requires minDays > 0
    ensures forall day :: day in days <==> RedOn(runs, since, areaOf, key, day)
    ensures key in ChronicIn(Sightings(runs, since, areaOf), minDays, key.area, key.kind) <==> |days| >= minDays
  {
    var sightings := Sightings(runs, since, areaOf);
    days := Days(sightings, key);
    forall day ensures day in days <==> RedOn(runs, since, areaOf, key, day) {
      SightedIff(runs, since, areaOf, key, day);
      if day in days {
        var s :| s in sightings && s.key == key && s.date == day;
        assert s == Sighting(key, day);
      }
    }
    if |days| >= minDays {
      assert days != {};
      var day :| day in days;
      var s :| s in sightings && s.key == key && s.date == day;
    }
  }

  /** The test was red, in its kind, on enough distinct days from the start date on. */
  ghost predicate IsChronic(runs: seq<HistoryRun>, since: string, minDays: nat, areaOf: AreaOf, key: Key)
  {
    exists days: set<string> :: (forall day :: day in days <==> RedOn(runs, since, areaOf, key, day)) && |days| >= minDays
  }

  lemma SameDays(a: set<string>, b: set<string>, runs: seq<HistoryRun>, since: string, areaOf: AreaOf, key: Key)
    requires forall day :: day in a <==> RedOn(runs, since, areaOf, key, day)
    requires forall day :: day in b <==> RedOn(runs, since, areaOf, key, day)
    ensures a == b
  {
  }

  /** The two numbers of an area: its tests that are chronic by failing, and those that are by being flaky. */
  lemma HealthSays(runs: seq<HistoryRun>, since: string, minDays: nat, areaOf: AreaOf, area: string)
    returns (hard: set<Key>, flaky: set<Key>)
    requires minDays > 0
    ensures HealthOf(runs, since, minDays, areaOf, area) == MR.AreaHealth(|hard|, |flaky|)
    ensures forall key :: key in hard <==> key.area == area && key.kind == Hard && IsChronic(runs, since, minDays, areaOf, key)
    ensures forall key :: key in flaky <==> key.area == area && key.kind == Flaky && IsChronic(runs, since, minDays, areaOf, key)
  {
    var sightings := Sightings(runs, since, areaOf);
    hard, flaky := ChronicIn(sightings, minDays, area, Hard), ChronicIn(sightings, minDays, area, Flaky);
    forall key, kind: Kind
      ensures key in ChronicIn(sightings, minDays, area, kind)
              <==> key.area == area && key.kind == kind && IsChronic(runs, since, minDays, areaOf, key)
    {
      ChronicMembers(runs, since, minDays, areaOf, area, kind, key);
    }
  }

  lemma ChronicMembers(runs: seq<HistoryRun>, since: string, minDays: nat, areaOf: AreaOf, area: string, kind: Kind, key: Key)
    requires minDays > 0
    ensures key in ChronicIn(Sightings(runs, since, areaOf), minDays, area, kind)
            <==> key.area == area && key.kind == kind && IsChronic(runs, since, minDays, areaOf, key)
  {
    var days := ChronicIff(runs, since, minDays, areaOf, key);
    if other: set<string> :| (forall day :: day in other <==> RedOn(runs, since, areaOf, key, day)) && |other| >= minDays {
      SameDays(days, other, runs, since, areaOf, key);
    }
  }
}
