/** What the rows of a removal run say, failure by failure. */
module RemovalRows {
  import opened Texts
  import opened Sequences
  import opened FailureClassification
  import opened SpliceTags
  import opened StableRemoval

  /* ---- one failure ---- */

  /** The match a failure is about: the only one of its title, or the first of them on the reported line. */
  ghost predicate IsTarget(spec: SpecFile, f: Failure, m: Match)
  {
    && f.title in spec.matches
    && exists i | 0 <= i < |spec.matches[f.title]| :: TargetAt(spec.matches[f.title], f.line, m, i)
  }

  ghost predicate TargetAt(candidates: seq<Match>, line: nat, m: Match, i: int)
  {
    && 0 <= i < |candidates| && candidates[i] == m
    && (|candidates| == 1 || (m.line == line && forall j | 0 <= j < i :: candidates[j].line != line))
  }

  lemma {:induction false} OnLineFirst(candidates: seq<Match>, line: nat)
    requires OnLine(candidates, line).Some?
    ensures exists i | 0 <= i < |candidates| ::
              candidates[i] == OnLine(candidates, line).value && candidates[i].line == line
              && forall j | 0 <= j < i :: candidates[j].line != line
  {
    if candidates[0].line != line {
      OnLineFirst(candidates[1..], line);
      var i :| 0 <= i < |candidates[1..]| && candidates[1..][i] == OnLine(candidates, line).value
               && candidates[1..][i].line == line && forall j | 0 <= j < i :: candidates[1..][j].line != line;
      assert forall j | 0 <= j < i + 1 :: candidates[j].line != line by {
        forall j | 0 <= j < i + 1 ensures candidates[j].line != line {
          if j > 0 { assert candidates[1..][j - 1] == candidates[j]; }
        }
      }
      assert candidates[i + 1] == candidates[1..][i];
    }
  }

  lemma TargetIff(spec: SpecFile, f: Failure)
    ensures Resolve(spec, f).Some? ==> IsTarget(spec, f, Resolve(spec, f).value)
    ensures Resolve(spec, f).None? ==> forall m :: !IsTarget(spec, f, m)
  {
    var candidates := CandidatesFor(spec, f.title);
    OnLineMeaning(candidates, f.line);
    if |candidates| == 1 {
      assert TargetAt(candidates, f.line, candidates[0], 0);
    } else if OnLine(candidates, f.line).Some? {
      OnLineFirst(candidates, f.line);
      var i :| 0 <= i < |candidates| && candidates[i] == OnLine(candidates, f.line).value && candidates[i].line == f.line
               && forall j | 0 <= j < i :: candidates[j].line != f.line;
      assert TargetAt(candidates, f.line, candidates[i], i);
    }
  }

  /** What a removal row says: the line of its target, and whether its array held nothing else. */
  ghost predicate RemovedSays(disk: Disk, r: Removed)
  {
    && r.failure.file in disk
    && exists m :: IsTarget(disk[r.failure.file], r.failure, m) && r.line == m.line && (r.soleTag <==> |m.elements| == 1)
  }

  /** Why a candidate is skipped: its file is gone, its title is no tagged test of it, or the line tells none of several apart. */
  ghost predicate SkippedSays(disk: Disk, s: Skipped)
  {
    var file, title := s.failure.file, s.failure.title;
    match s.reason
    case SpecFileNotFound => file !in disk
    case NoPerTestTag => file in disk && (title in disk[file].matches ==> disk[file].matches[title] == [])
    case AmbiguousTitle =>
      && file in disk && title in disk[file].matches && |disk[file].matches[title]| >= 2
      && forall m <- disk[file].matches[title] :: m.line != s.failure.line
  }

  lemma {:induction false} CuttingsSay(disk: Disk, file: string, failures: seq<Failure>)
    requires WellFormedDisk(disk) && file in disk && forall f <- failures :: f.file == file
    ensures forall c <- CuttingsOf(disk[file], failures) :: RemovedSays(disk, c.removed)
    ensures forall s <- SkipsOf(disk[file], failures) :: SkippedSays(disk, s)
  {
    if failures != [] {
      var n := |failures| - 1;
      CuttingsSay(disk, file, failures[..n]);
      assert failures[n] in failures;
      OneSays(disk, file, failures[n]);
    }
  }

  lemma OneSays(disk: Disk, file: string, f: Failure)
    requires WellFormedDisk(disk) && file in disk && f.file == file
    ensures CuttingFor(disk[file], f).Some? ==> RemovedSays(disk, CuttingFor(disk[file], f).value.removed)
    ensures CuttingFor(disk[file], f).None? ==> SkippedSays(disk, SkipFor(disk[file], f))
  {
    var spec := disk[file];
    TargetIff(spec, f);
    ResolvedIsValid(spec, f);
    OnLineMeaning(CandidatesFor(spec, f.title), f.line);
    if Resolve(spec, f).Some? {
      assert IsTarget(spec, f, Resolve(spec, f).value);
    }
  }

  /* ---- conservation, row by row ---- */

  function FailuresOf(removed: seq<Removed>, skipped: seq<Skipped>): multiset<Failure>
  {
    multiset(MapSeq(removed, (r: Removed) => r.failure)) + multiset(MapSeq(skipped, (s: Skipped) => s.failure))
  }

  lemma MapAppend<T, U>(a: seq<T>, b: seq<T>, f: T -> U)
    ensures MapSeq(a + b, f) == MapSeq(a, f) + MapSeq(b, f)
  {
  }

  lemma FailuresAdd(r1: seq<Removed>, s1: seq<Skipped>, r2: seq<Removed>, s2: seq<Skipped>)
    ensures FailuresOf(r1 + r2, s1 + s2) == FailuresOf(r1, s1) + FailuresOf(r2, s2)
  {
    MapAppend(r1, r2, (r: Removed) => r.failure);
    MapAppend(s1, s2, (s: Skipped) => s.failure);
  }

  function FailureOf(c: Cutting): Failure
  {
    c.removed.failure
  }

  lemma {:induction false} CuttingsSplit(spec: SpecFile, failures: seq<Failure>)
    requires WellFormedSpec(spec)
    ensures FailuresOf(RowsOf(CuttingsOf(spec, failures)), SkipsOf(spec, failures)) == multiset(failures)
  {
    if failures != [] {
      var n := |failures| - 1;
      CuttingsSplit(spec, failures[..n]);
      assert failures == failures[..n] + [failures[n]];
      var c := CuttingFor(spec, failures[n]);
      if c.Some? {
        MapAppend(CuttingsOf(spec, failures[..n]), [c.value], (c: Cutting) => c.removed);
        FailuresAdd(RowsOf(CuttingsOf(spec, failures[..n])), SkipsOf(spec, failures[..n]), [c.value.removed], []);
        assert RowsOf(CuttingsOf(spec, failures)) == RowsOf(CuttingsOf(spec, failures[..n])) + [c.value.removed];
        assert SkipsOf(spec, failures[..n]) + [] == SkipsOf(spec, failures[..n]);
        OneRow([c.value.removed], [], failures[n]);
      } else {
        FailuresAdd(RowsOf(CuttingsOf(spec, failures[..n])), SkipsOf(spec, failures[..n]), [], [SkipFor(spec, failures[n])]);
        assert RowsOf(CuttingsOf(spec, failures[..n])) + [] == RowsOf(CuttingsOf(spec, failures[..n]));
        OneRow([], [SkipFor(spec, failures[n])], failures[n]);
      }
    }
  }

  lemma OneRow(r: seq<Removed>, s: seq<Skipped>, f: Failure)
    requires (|r| == 1 && s == [] && r[0].failure == f) || (r == [] && |s| == 1 && s[0].failure == f)
    ensures FailuresOf(r, s) == multiset{f}
  {
  }

  /** What one file contributes: rows that say what became of each of its failures, and one row for each. */
  lemma FileSays(disk: Disk, file: string, failures: seq<Failure>)
    requires WellFormedDisk(disk) && forall f <- failures :: f.file == file
    ensures var (removed, skipped, text) := FileOutcome(disk, file, failures);
            && (forall r <- removed :: RemovedSays(disk, r)) && (forall s <- skipped :: SkippedSays(disk, s))
            && FailuresOf(removed, skipped) == multiset(failures)
  {
    if file in disk {
      var cuttings := CuttingsOf(disk[file], failures);
      var sorted := StableSort(cuttings, LaterCutFirst);
      CuttingsSay(disk, file, failures);
      CuttingsSplit(disk[file], failures);
      LaterCutOrder();
      StableSortProperties(cuttings, LaterCutFirst);
      SortedRows(cuttings);
      forall r <- RowsOf(sorted) ensures RemovedSays(disk, r) {
        var i :| 0 <= i < |sorted| && sorted[i].removed == r;
        assert sorted[i] in sorted;
      }
    } else {
      assert MapSeq(NotFoundRows(failures), (s: Skipped) => s.failure) == failures;
    }
  }

  lemma SortedRows(cuttings: seq<Cutting>)
    ensures multiset(MapSeq(RowsOf(StableSort(cuttings, LaterCutFirst)), (r: Removed) => r.failure))
            == multiset(MapSeq(RowsOf(cuttings), (r: Removed) => r.failure))
  {
    SortMapped(cuttings, LaterCutFirst, FailureOf);
    RowsAreFailures(cuttings);
    RowsAreFailures(StableSort(cuttings, LaterCutFirst));
  }

  lemma RowsAreFailures(cuttings: seq<Cutting>)
    ensures MapSeq(RowsOf(cuttings), (r: Removed) => r.failure) == MapSeq(cuttings, FailureOf)
  {
  }

  lemma HasFile(f: Failure, file: string)
    ensures HasKey(FileOf, file)(f) <==> f.file == file
  {
    assert FileOf(f) == f.file;
  }

  /** How often a failure stands in the groups of some files. */
  lemma {:induction false} HavingCounts(failures: seq<Failure>, file: string, f: Failure)
    ensures multiset(Having(failures, FileOf, file))[f] == if f.file == file then multiset(failures)[f] else 0
  {
    if failures != [] {
      HavingCounts(failures[1..], file, f);
      assert failures == [failures[0]] + failures[1..];
      HasFile(failures[0], file);
    }
  }

  lemma GroupFiles(failures: seq<Failure>, file: string)
    ensures forall f <- Having(failures, FileOf, file) :: f.file == file
  {
    FilterMembers(failures, HasKey(FileOf, file));
    forall f <- Having(failures, FileOf, file) ensures f.file == file {
      HasFile(f, file);
    }
  }

  lemma {:induction false} FilesSay(disk: Disk, failures: seq<Failure>, files: seq<string>)
    requires WellFormedDisk(disk) && Distinct(files)
    ensures var out := FilesFrom(disk, failures, files);
            && (forall r <- out.removed :: RemovedSays(disk, r)) && (forall s <- out.skipped :: SkippedSays(disk, s))
            && forall f: Failure :: FailuresOf(out.removed, out.skipped)[f] == if f.file in files then multiset(failures)[f] else 0
  {
    if files != [] {
      var n := |files| - 1;
      var group := Having(failures, FileOf, files[n]);
      var front, more := FilesFrom(disk, failures, files[..n]), FileOutcome(disk, files[n], group);
      FilesSay(disk, failures, files[..n]);
      GroupFiles(failures, files[n]);
      FileSays(disk, files[n], group);
      FailuresAdd(front.removed, front.skipped, more.0, more.1);
      forall f: Failure ensures multiset(group)[f] == if f.file == files[n] then multiset(failures)[f] else 0 {
        HavingCounts(failures, files[n], f);
      }
    }
  }

  /**
   * Row by row: when the guard lets a run through, its rows are about the candidates, each as
   * often as it was reported; a removal row names its own test's line, and a skipped one the
   * reason that holds.
   */
  lemma RunSays(all: seq<Failure>, attributable: seq<Failure>, threshold: Option<int>, disk: Disk)
    requires WellFormedDisk(disk) && !Trips(all, threshold)
    ensures var out := Remove(all, attributable, threshold, disk);
            && (forall r <- out.removed :: RemovedSays(disk, r)) && (forall s <- out.skipped :: SkippedSays(disk, s))
            && FailuresOf(out.removed, out.skipped) == multiset(attributable)
  {
    var files := KeysOf(attributable, FileOf);
    DedupMembers(MapSeq(attributable, FileOf));
    FilesSay(disk, attributable, files);
    var out := Remove(all, attributable, threshold, disk);
    forall f: Failure ensures FailuresOf(out.removed, out.skipped)[f] == multiset(attributable)[f] {
      if f in attributable {
        var i :| 0 <= i < |attributable| && attributable[i] == f;
        assert MapSeq(attributable, FileOf)[i] == f.file;
      }
    }
  }

  /** So a candidate is removed exactly when its file is there and it has a target, and skipped otherwise. */
  lemma RemovedIffTarget(all: seq<Failure>, attributable: seq<Failure>, threshold: Option<int>, disk: Disk, f: Failure)
    requires WellFormedDisk(disk) && !Trips(all, threshold) && f in attributable
    ensures var out := Remove(all, attributable, threshold, disk);
            (exists r <- out.removed :: r.failure == f) <==> f.file in disk && exists m :: IsTarget(disk[f.file], f, m)
  {
    var out := Remove(all, attributable, threshold, disk);
    RunSays(all, attributable, threshold, disk);
    assert f in FailuresOf(out.removed, out.skipped);
    if forall r <- out.removed :: r.failure != f {
      var s := SkippedFor(out.removed, out.skipped, f);
      if f.file in disk {
        SkippedHasNoTarget(disk, s);
      }
    }
  }

  lemma SkippedFor(removed: seq<Removed>, skipped: seq<Skipped>, f: Failure) returns (s: Skipped)
    requires f in FailuresOf(removed, skipped) && forall r <- removed :: r.failure != f
    ensures s in skipped && s.failure == f
  {
    var failures := MapSeq(skipped, (s: Skipped) => s.failure);
    assert f !in MapSeq(removed, (r: Removed) => r.failure);
    var i :| 0 <= i < |skipped| && failures[i] == f;
    s := skipped[i];
  }

  lemma SkippedHasNoTarget(disk: Disk, s: Skipped)
    requires SkippedSays(disk, s) && s.failure.file in disk
    ensures forall m :: !IsTarget(disk[s.failure.file], s.failure, m)
  {
  }

  /* ---- which runs and which files ---- */

  /** Where the failures stand that the guard counts: all that are no unexpected passes, exempt ones included. */
  function HardAt(all: seq<Failure>): set<nat>
  {
    set i: nat | i < |all| && !all[i].unexpectedPass
  }

  /** A run stops at the guard exactly when a threshold is set and more failures than it allows are no unexpected passes. */
  lemma GuardIff(all: seq<Failure>, attributable: seq<Failure>, threshold: Option<int>, disk: Disk)
    requires WellFormedDisk(disk)
    ensures var out := Remove(all, attributable, threshold, disk);
            && (out.status == GuardTripped <==> threshold.Some? && |HardAt(all)| > threshold.value)
            && (out.status == GuardTripped ==> out == Outcome(GuardTripped, [], [], map[]))
  {
    FilterCounts(all, CountsForGuard, |all|);
    TakeAll(all);
    assert PlacesOf(all, CountsForGuard, |all|) == HardAt(all);
  }

  predicate RowOf(removed: seq<Removed>, file: string)
  {
    exists r <- removed :: r.failure.file == file
  }

  lemma RowsJoin(a: seq<Removed>, b: seq<Removed>, file: string)
    ensures RowOf(a + b, file) <==> RowOf(a, file) || RowOf(b, file)
  {
  }

  lemma {:induction false} FilesWritten(disk: Disk, failures: seq<Failure>, files: seq<string>, file: string)
    requires WellFormedDisk(disk)
    ensures file in FilesFrom(disk, failures, files).written <==> RowOf(FilesFrom(disk, failures, files).removed, file)
  {
    if files != [] {
      var n := |files| - 1;
      var group := Having(failures, FileOf, files[n]);
      FilesWritten(disk, failures, files[..n], file);
      FileAccounts(disk, files[n], group);
      GroupFiles(failures, files[n]);
      var front, more := FilesFrom(disk, failures, files[..n]), FileOutcome(disk, files[n], group);
      RowsJoin(front.removed, more.0, file);
      assert more.0 != [] ==> more.0[0] in more.0;
    }
  }

  /** A run writes exactly the files of its removal rows: a file none of whose candidates resolve is not touched. */
  lemma WrittenIff(all: seq<Failure>, attributable: seq<Failure>, threshold: Option<int>, disk: Disk, file: string)
    requires WellFormedDisk(disk)
    ensures var out := Remove(all, attributable, threshold, disk);
            file in out.written <==> exists r <- out.removed :: r.failure.file == file
  {
    if !Trips(all, threshold) {
      FilesWritten(disk, attributable, KeysOf(attributable, FileOf), file);
    }
  }
}
