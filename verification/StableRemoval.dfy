/**
 * Removing `@stable` from the tests that failed hard: the mass-failure guard, the
 * resolution of each failure to one tag element, and the splice of each file.
 */
module StableRemoval {
  import opened Texts
  import opened Sequences
  import opened FailureClassification
  import opened SpliceTags

  datatype SkipReason = SpecFileNotFound | AmbiguousTitle | NoPerTestTag

  datatype Removed = Removed(failure: Failure, line: nat, soleTag: bool)

  datatype Skipped = Skipped(failure: Failure, reason: SkipReason)

  /** A spec file as found on disk: its text, and its `@stable` matches by title. */
  datatype SpecFile = SpecFile(text: string, matches: map<string, seq<Match>>)

  ghost predicate WellFormedSpec(spec: SpecFile)
  {
    forall title <- spec.matches, m <- spec.matches[title] :: ValidMatch(m)
  }

  /** The files on disk; a path outside the map does not exist. */
  type Disk = map<string, SpecFile>

  ghost predicate WellFormedDisk(disk: Disk)
  {
    forall file <- disk :: WellFormedSpec(disk[file])
  }

  datatype Status = TagsRemoved | NothingRemoved | GuardTripped

  datatype Outcome = Outcome(status: Status, removed: seq<Removed>, skipped: seq<Skipped>, written: map<string, string>)

  /* ---- resolving one failure ---- */

  function OnLine(candidates: seq<Match>, line: nat): Option<Match>
  {
    if candidates == [] then None
    else if candidates[0].line == line then Some(candidates[0])
    else OnLine(candidates[1..], line)
  }

  function CandidatesFor(spec: SpecFile, title: string): seq<Match>
  {
    if title in spec.matches then spec.matches[title] else []
  }

  /** The single match, or with duplicate titles the one on the reported line. */
  function Resolve(spec: SpecFile, f: Failure): Option<Match>
  {
    var candidates := CandidatesFor(spec, f.title);
    if |candidates| == 1 then Some(candidates[0]) else OnLine(candidates, f.line)
  }

  lemma {:induction false} OnLineMeaning(candidates: seq<Match>, line: nat)
    ensures var m := OnLine(candidates, line);
            if m.Some? then m.value in candidates && m.value.line == line
            else forall c <- candidates :: c.line != line
  {
    if candidates != [] {
      OnLineMeaning(candidates[1..], line);
      assert candidates == [candidates[0]] + candidates[1..];
    }
  }

  lemma ResolvedIsValid(spec: SpecFile, f: Failure)
    requires WellFormedSpec(spec)
    ensures var m := Resolve(spec, f);
            m.Some? ==> m.value in CandidatesFor(spec, f.title) && ValidMatch(m.value)
  {
    OnLineMeaning(CandidatesFor(spec, f.title), f.line);
  }

  /* ---- one file ---- */

  /** A range to cut, with the row it will be reported as. */
  datatype Cutting = Cutting(range: Range, removed: Removed)

  function CuttingFor(spec: SpecFile, f: Failure): Option<Cutting>
    requires WellFormedSpec(spec)
  {
    ResolvedIsValid(spec, f);
    var m := Resolve(spec, f);
    if m.None? then None
    else
      var (range, sole) := SpliceRange(m.value);
      Some(Cutting(range, Removed(f, m.value.line, sole)))
  }

  function CuttingsOf(spec: SpecFile, failures: seq<Failure>): seq<Cutting>
    requires WellFormedSpec(spec)
  {
    if failures == [] then []
    else
      var n := |failures| - 1;
      var front := CuttingsOf(spec, failures[..n]);
      var c := CuttingFor(spec, failures[n]);
      if c.Some? then front + [c.value] else front
  }

  function SkipFor(spec: SpecFile, f: Failure): Skipped
  {
    Skipped(f, if CandidatesFor(spec, f.title) != [] then AmbiguousTitle else NoPerTestTag)
  }

  function SkipsOf(spec: SpecFile, failures: seq<Failure>): seq<Skipped>
    requires WellFormedSpec(spec)
  {
    if failures == [] then []
    else
      var n := |failures| - 1;
      var front := SkipsOf(spec, failures[..n]);
      if CuttingFor(spec, failures[n]).Some? then front else front + [SkipFor(spec, failures[n])]
  }

  predicate LaterCutFirst(a: Cutting, b: Cutting)
  {
    LaterFirst(a.range, b.range)
  }

  function RangesOf(cuttings: seq<Cutting>): seq<Range>
  {
    MapSeq(cuttings, (c: Cutting) => c.range)
  }

  function RowsOf(cuttings: seq<Cutting>): seq<Removed>
  {
    MapSeq(cuttings, (c: Cutting) => c.removed)
  }

  method CollectCuttings(spec: SpecFile, failures: seq<Failure>) returns (ranges: seq<Cutting>, skipped: seq<Skipped>)
    requires WellFormedSpec(spec)
    ensures ranges == CuttingsOf(spec, failures) && skipped == SkipsOf(spec, failures)
  {
    ranges, skipped := [], [];
    for i := 0 to |failures|
      invariant ranges == CuttingsOf(spec, failures[..i]) && skipped == SkipsOf(spec, failures[..i])
    {
      assert failures[..i + 1][..i] == failures[..i];
      var cutting := CuttingFor(spec, failures[i]);
      if cutting.None? {
        skipped := skipped + [SkipFor(spec, failures[i])];
      } else {
        ranges := ranges + [cutting.value];
      }
    }
    assert failures[..|failures|] == failures;
  }

  /** Splice from the end of the file backwards, reporting each removal as it is made. */
  method CutFile(text: string, cuttings: seq<Cutting>) returns (out: string, removed: seq<Removed>)
    ensures out == CutAll(text, BackToFront(RangesOf(cuttings)))
    ensures removed == RowsOf(StableSort(cuttings, LaterCutFirst))
  {
    var sorted := StableSort(cuttings, LaterCutFirst);
    SortedTogether(cuttings);
    out, removed := text, [];
    for i := 0 to |sorted|
      invariant out == CutAll(text, RangesOf(sorted[..i]))
      invariant removed == RowsOf(sorted[..i])
    {
      var ranges := RangesOf(sorted[..i + 1]);
      assert ranges[..|ranges| - 1] == RangesOf(sorted[..i]);
      out := out[..Clamp(sorted[i].range.start, out)] + out[Clamp(sorted[i].range.end, out)..];
      removed := removed + [sorted[i].removed];
    }
    assert sorted[..|sorted|] == sorted;
  }

  lemma {:induction false} InsertedTogether(c: Cutting, cuttings: seq<Cutting>)
    ensures RangesOf(Insert(c, cuttings, LaterCutFirst)) == Insert(c.range, RangesOf(cuttings), LaterFirst)
  {
    if cuttings != [] && !LaterCutFirst(c, cuttings[0]) {
      InsertedTogether(c, cuttings[1..]);
      assert RangesOf(cuttings)[1..] == RangesOf(cuttings[1..]);
    } else {
      assert RangesOf([c] + cuttings) == [c.range] + RangesOf(cuttings);
    }
  }

  /** Sorting the rows with their ranges sorts the ranges. */
  lemma {:induction false} SortedTogether(cuttings: seq<Cutting>)
    ensures RangesOf(StableSort(cuttings, LaterCutFirst)) == BackToFront(RangesOf(cuttings))
  {
    if cuttings != [] {
      SortedTogether(cuttings[1..]);
      InsertedTogether(cuttings[0], StableSort(cuttings[1..], LaterCutFirst));
      assert RangesOf(cuttings)[1..] == RangesOf(cuttings[1..]);
    }
  }

  /* ---- all files ---- */

  function FileOf(f: Failure): string
  {
    f.file
  }

  function NotFoundRows(failures: seq<Failure>): seq<Skipped>
  {
    MapSeq(failures, (f: Failure) => Skipped(f, SpecFileNotFound))
  }

  /** What one file contributes: removed rows, skipped rows, and its new text if any range was cut. */
  function FileOutcome(disk: Disk, file: string, failures: seq<Failure>): (seq<Removed>, seq<Skipped>, Option<string>)
    requires WellFormedDisk(disk)
  {
    if file !in disk then ([], NotFoundRows(failures), None)
    else
      var spec := disk[file];
      var cuttings := CuttingsOf(spec, failures);
      (RowsOf(StableSort(cuttings, LaterCutFirst)), SkipsOf(spec, failures),
       if cuttings == [] then None else Some(CutAll(spec.text, BackToFront(RangesOf(cuttings)))))
  }

  /** The files in first-seen order, one after another. */
  function FilesFrom(disk: Disk, failures: seq<Failure>, files: seq<string>): Outcome
    requires WellFormedDisk(disk)
  {
    if files == [] then Outcome(NothingRemoved, [], [], map[])
    else
      var n := |files| - 1;
      var front := FilesFrom(disk, failures, files[..n]);
      WithFile(front, files[n], FileOutcome(disk, files[n], Having(failures, FileOf, files[n])))
  }

  /** An outcome with what one more file contributes. */
  function WithFile(out: Outcome, file: string, more: (seq<Removed>, seq<Skipped>, Option<string>)): Outcome
  {
    out.(removed := out.removed + more.0, skipped := out.skipped + more.1,
         written := if more.2.Some? then out.written[file := more.2.value] else out.written)
  }

  lemma FilesNext(disk: Disk, failures: seq<Failure>, files: seq<string>, i: nat)
    requires WellFormedDisk(disk) && i < |files|
    ensures FilesFrom(disk, failures, files[..i + 1])
            == WithFile(FilesFrom(disk, failures, files[..i]), files[i], FileOutcome(disk, files[i], Having(failures, FileOf, files[i])))
  {
    assert files[..i + 1][..i] == files[..i];
  }

  method ProcessFile(disk: Disk, file: string, failures: seq<Failure>)
    returns (removed: seq<Removed>, skipped: seq<Skipped>, text: Option<string>)
    requires WellFormedDisk(disk)
    ensures (removed, skipped, text) == FileOutcome(disk, file, failures)
  {
    if file !in disk {
      return [], NotFoundRows(failures), None;
    }
    var spec := disk[file];
    var ranges;
    ranges, skipped := CollectCuttings(spec, failures);
    if ranges == [] {
      return [], skipped, None;
    }
    var out;
    out, removed := CutFile(spec.text, ranges);
    text := Some(out);
  }

  /* ---- the guard and the whole run ---- */

  predicate CountsForGuard(f: Failure)
  {
    !f.unexpectedPass
  }

  function GuardCount(all: seq<Failure>): nat
  {
    |Filter(all, CountsForGuard)|
  }

  /** More failures than the threshold allows; a threshold that is not a number is never exceeded. */
  predicate Trips(all: seq<Failure>, threshold: Option<int>)
  {
    threshold.Some? && GuardCount(all) > threshold.value
  }

  function Remove(all: seq<Failure>, attributable: seq<Failure>, threshold: Option<int>, disk: Disk): Outcome
    requires WellFormedDisk(disk)
  {
    if Trips(all, threshold) then Outcome(GuardTripped, [], [], map[])
    else
      var out := FilesFrom(disk, attributable, KeysOf(attributable, FileOf));
      out.(status := if out.removed != [] then TagsRemoved else NothingRemoved)
  }

  /**
   * The whole run. The guard trips on the number of failures that are not unexpected passes,
   * never without a threshold, and a tripped guard removes nothing and writes nothing.
   */
  method RemoveStable(all: seq<Failure>, c: Corroboration, classify: Classifier, threshold: Option<int>, disk: Disk)
    returns (split: Classification, out: Outcome)
    requires WellFormedDisk(disk)
    ensures IsClassificationOf(split, all, c, classify)
    ensures out == Remove(all, split.attributable, threshold, disk)
    ensures out.status == GuardTripped <==> threshold.Some? && GuardCount(all) > threshold.value
    ensures out.status == GuardTripped ==> out.removed == [] && out.skipped == [] && out.written == map[]
  {
    split := ClassifyFailures(all, c, classify);
    var failures := split.attributable;
    out := Outcome(NothingRemoved, [], [], map[]);
    if Trips(all, threshold) {
      return split, out.(status := GuardTripped);
    }
    if failures == [] {
      assert MapSeq(failures, FileOf) == [];
      return split, out;
    }
    out := RemoveFromFiles(disk, failures);
    out := out.(status := if out.removed != [] then TagsRemoved else NothingRemoved);
  }

  /** Group the failures by file, so each file is parsed and written once. */
  method RemoveFromFiles(disk: Disk, failures: seq<Failure>) returns (out: Outcome)
    requires WellFormedDisk(disk)
    ensures out == FilesFrom(disk, failures, KeysOf(failures, FileOf))
  {
    out := Outcome(NothingRemoved, [], [], map[]);
    var order, byFile := GroupBy(failures, FileOf);
    for i := 0 to |order|
      invariant out == FilesFrom(disk, failures, order[..i])
    {
      ghost var before := out;
      FilesNext(disk, failures, order, i);
      var removed, skipped, text := ProcessFile(disk, order[i], byFile[order[i]]);
      out := out.(removed := out.removed + removed, skipped := out.skipped + skipped);
      if text.Some? {
        out := out.(written := out.written[order[i] := text.value]);
      }
      assert out == WithFile(before, order[i], (removed, skipped, text));
    }
    TakeAll(order);
  }

  /* ---- what a run promises ---- */

  lemma {:induction false} CuttingsAndSkips(spec: SpecFile, failures: seq<Failure>)
    requires WellFormedSpec(spec)
    ensures |CuttingsOf(spec, failures)| + |SkipsOf(spec, failures)| == |failures|
    ensures forall c <- CuttingsOf(spec, failures) :: c.removed.failure in failures && CuttingFor(spec, c.removed.failure) == Some(c)
  {
    if failures != [] {
      var n := |failures| - 1;
      CuttingsAndSkips(spec, failures[..n]);
      assert failures == failures[..n] + [failures[n]];
    }
  }

  lemma LaterCutOrder()
    ensures TotalOrder(LaterCutFirst)
  {
  }

  lemma FileAccounts(disk: Disk, file: string, failures: seq<Failure>)
    requires WellFormedDisk(disk)
    ensures var (removed, skipped, text) := FileOutcome(disk, file, failures);
            && |removed| + |skipped| == |failures|
            && (text.Some? <==> removed != [])
            && forall r <- removed :: r.failure in failures
  {
    if file in disk {
      var cuttings := CuttingsOf(disk[file], failures);
      CuttingsAndSkips(disk[file], failures);
      LaterCutOrder();
      StableSortProperties(cuttings, LaterCutFirst);
      var sorted := StableSort(cuttings, LaterCutFirst);
      forall r <- RowsOf(sorted) ensures r.failure in failures {
        var i :| 0 <= i < |sorted| && sorted[i].removed == r;
        assert sorted[i] in sorted;
      }
    }
  }

  lemma HavingIsPart<T>(xs: seq<T>, key: T -> string, k: string, i: nat)
    requires i < |Having(xs, key, k)|
    ensures Having(xs, key, k)[i] in xs
    decreases |xs|
  {
    if !HasKey(key, k)(xs[0]) {
      HavingIsPart(xs[1..], key, k, i);
    } else if i > 0 {
      HavingIsPart(xs[1..], key, k, i - 1);
    }
  }

  lemma {:induction false} FilesAccount(disk: Disk, failures: seq<Failure>, files: seq<string>)
    requires WellFormedDisk(disk)
    ensures var out := FilesFrom(disk, failures, files);
            && |out.removed| + |out.skipped| == GroupSizes(failures, FileOf, files)
            && (forall r <- out.removed :: r.failure in failures)
            && (out.removed == [] ==> out.written == map[])
            && out.written.Keys <= disk.Keys
  {
    if files != [] {
      var n := |files| - 1;
      var group := Having(failures, FileOf, files[n]);
      FilesAccount(disk, failures, files[..n]);
      FileAccounts(disk, files[n], group);
      forall f <- group ensures f in failures {
        var i :| 0 <= i < |group| && group[i] == f;
        HavingIsPart(failures, FileOf, files[n], i);
      }
    }
  }

  /** When the guard lets the run through, every candidate is removed or named as skipped. */
  lemma EveryCandidateIsAccountedFor(all: seq<Failure>, attributable: seq<Failure>, threshold: Option<int>, disk: Disk)
    requires WellFormedDisk(disk) && !Trips(all, threshold)
    ensures var out := Remove(all, attributable, threshold, disk);
            && |out.removed| + |out.skipped| == |attributable|
            && (forall r <- out.removed :: r.failure in attributable)
            && (out.status == TagsRemoved <==> out.removed != [])
            && (out.status == NothingRemoved ==> out.written == map[])
  {
    GroupsCoverAll(attributable, FileOf);
    FilesAccount(disk, attributable, KeysOf(attributable, FileOf));
  }

  lemma {:induction false} FilterTwice<T>(xs: seq<T>, p: T -> bool, q: T -> bool)
    ensures |Filter(Filter(xs, p), q)| <= |Filter(xs, q)|
  {
    if xs != [] {
      FilterTwice(xs[1..], p, q);
      assert Filter([xs[0]] + Filter(xs[1..], p), q) == (if q(xs[0]) then [xs[0]] else []) + Filter(Filter(xs[1..], p), q) by {
        assert ([xs[0]] + Filter(xs[1..], p))[1..] == Filter(xs[1..], p);
      }
    }
  }

  /**
   * What bounds one unreviewed commit: with a threshold, a run removes at most that many tags,
   * plus one for each candidate that is an unexpected pass.
   */
  lemma RemovalsAreBounded(all: seq<Failure>, c: Corroboration, classify: Classifier, threshold: int, disk: Disk,
                           split: Classification)
    requires WellFormedDisk(disk) && IsClassificationOf(split, all, c, classify)
    ensures var out := Remove(all, split.attributable, Some(threshold), disk);
            out.removed == [] || |out.removed| <= threshold + |Filter(split.attributable, (f: Failure) => f.unexpectedPass)|
  {
    if !Trips(all, Some(threshold)) {
      EveryCandidateIsAccountedFor(all, split.attributable, Some(threshold), disk);
      FilterComplement(split.attributable, CountsForGuard, (f: Failure) => f.unexpectedPass);
      FilterTwice(all, IsAttributable(c, classify), CountsForGuard);
    }
  }

  /** No removal is made on account of a failure the run exempts. */
  lemma ExemptionsProtect(all: seq<Failure>, c: Corroboration, classify: Classifier, threshold: Option<int>, disk: Disk,
                          split: Classification)
    requires WellFormedDisk(disk) && IsClassificationOf(split, all, c, classify)
    ensures forall r <- Remove(all, split.attributable, threshold, disk).removed ::
              r.failure in all && !Decide(r.failure, c, classify).Exempted?
  {
    if !Trips(all, threshold) {
      EveryCandidateIsAccountedFor(all, split.attributable, threshold, disk);
      FilterMembers(all, IsAttributable(c, classify));
    }
  }

  /* ---- the text of one file ---- */

  /**
   * With no resolved range at the very end of the file, its new text is the old one with exactly
   * the resolved ranges deleted if and only if no two of them meet.
   */
  lemma FileTextIsTheDeletion(spec: SpecFile, failures: seq<Failure>)
    requires WellFormedSpec(spec) && Inside(RangesOf(CuttingsOf(spec, failures)), |spec.text|)
    ensures CutAll(spec.text, BackToFront(RangesOf(CuttingsOf(spec, failures))))
              == DeleteAll(spec.text, RangesOf(CuttingsOf(spec, failures)))
       <==> AllApart(RangesOf(CuttingsOf(spec, failures)))
  {
    RightExactlyWhenApart(spec.text, RangesOf(CuttingsOf(spec, failures)));
  }

  /** Two failures with one title and one candidate resolve to the very same range. */
  lemma SameTitleSameRange(spec: SpecFile, f: Failure, g: Failure)
    requires WellFormedSpec(spec) && f.title == g.title && |CandidatesFor(spec, f.title)| == 1
    ensures CuttingFor(spec, f).Some? && CuttingFor(spec, g).Some?
    ensures CuttingFor(spec, f).value.range == CuttingFor(spec, g).value.range
  {
    ResolvedIsValid(spec, f);
    ResolvedIsValid(spec, g);
  }

  /**
   * So a test that fails hard twice in one report — under two projects, say — is cut twice:
   * as many characters again disappear from what follows its tag.
   */
  lemma FailingTwiceCutsTwice(spec: SpecFile, f: Failure, g: Failure)
    requires WellFormedSpec(spec) && f.title == g.title && |CandidatesFor(spec, f.title)| == 1
    requires var r := CuttingFor(spec, f); r.Some? ==>
               r.value.range.start <= r.value.range.end && 2 * r.value.range.end - r.value.range.start <= |spec.text|
    ensures var r := CuttingFor(spec, f).value.range;
            CutAll(spec.text, BackToFront(RangesOf(CuttingsOf(spec, [f, g]))))
            == spec.text[..r.start] + spec.text[r.end + (r.end - r.start)..]
  {
    SameTitleSameRange(spec, f, g);
    var r := CuttingFor(spec, f).value.range;
    assert [f, g][..1] == [f] && [f][..0] == [];
    assert CuttingsOf(spec, [f]) == [CuttingFor(spec, f).value];
    assert RangesOf(CuttingsOf(spec, [f, g])) == [r, r];
    RangeTwiceEatsOn(spec.text, r);
  }
}
