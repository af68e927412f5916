/** Why the two generators of the checklist stop: each error names the first landmark that is not there. */
module StopReasons {
  import opened Texts
  import opened Documents
  import opened CoverageCells
  import CS = CoverageSummary
  import PZ = PhaseZero

  /** No line of a range has a property. */
  ghost predicate NoLine(lines: seq<Line>, p: Line -> bool, from: nat, to: nat)
  {
    forall i | from <= i < to && i < |lines| :: !p(lines[i])
  }

  /* The landmarks, written out apart from the generators' own tests of a line. */

  function TrimsTo(text: string): Line -> bool { (l: Line) => Trim(l) == text }
  function BeginsWith(text: string): Line -> bool { (l: Line) => text <= l }

  lemma FindIs(lines: seq<Line>, p: Line -> bool, q: Line -> bool, from: nat)
    requires forall l :: p(l) == q(l)
    ensures var at := FindIn(lines, p, from, |lines|);
            if at.Some? then FirstLine(lines, q, from, at.value) else NoLine(lines, q, from, |lines|)
  {
    FindInMeaning(lines, p, from, |lines|);
  }

  lemma FindBeforeIs(lines: seq<Line>, p: Line -> bool, q: Line -> bool, from: nat, to: nat)
    requires to <= |lines| && forall l :: p(l) == q(l)
    ensures var at := FindIn(lines, p, from, to);
            if at.Some? then FirstLine(lines, q, from, at.value) && at.value < to else NoLine(lines, q, from, to)
  {
    FindInMeaning(lines, p, from, to);
  }

  /* ---- the Phase 0 generator ---- */

  const COVERAGE := "## Coverage Summary"
  const NOTE := "> Note:"

  /** Where the Note is looked for: at or below the first Coverage header. */
  ghost predicate NoteStandsAt(lines: seq<Line>, n: nat)
  {
    exists c: nat :: FirstLine(lines, BeginsWith(COVERAGE), 0, c) && FirstLine(lines, BeginsWith(NOTE), c, n)
  }

  lemma NoteStops(lines: seq<Line>)
    ensures match PZ.NoteAt(lines)
            case Ok(n) => NoteStandsAt(lines, n)
            case Err(CoverageHeaderMissing) => NoLine(lines, BeginsWith(COVERAGE), 0, |lines|)
            case Err(NoteMissing) =>
              exists c: nat :: FirstLine(lines, BeginsWith(COVERAGE), 0, c) && NoLine(lines, BeginsWith(NOTE), c, |lines|)
            case Err(Phase0Missing) => false
            case Err(Phase1Missing) => false
            case Err(SeparatorMissing) => false
  {
    FindIs(lines, CS.IsCoverageHeader, BeginsWith(COVERAGE), 0);
    var c := FindIn(lines, CS.IsCoverageHeader, 0, |lines|);
    if c.Some? {
      FindIs(lines, PZ.IsNote, BeginsWith(NOTE), c.value);
    }
  }

  /** The line a separator is expected on: the last one above the Phase 1 header that is not blank, no higher than the Phase 0 header. */
  ghost predicate AboveBlanks(lines: seq<Line>, p0: nat, p1: nat, sep: nat)
  {
    && p0 <= sep < p1 <= |lines| && (sep > p0 ==> Trim(lines[sep]) != "")
    && forall i | sep < i < p1 :: Trim(lines[i]) == ""
  }

  lemma {:induction false} WalkedBack(lines: seq<Line>, floor: nat, from: nat)
    requires floor <= from < |lines|
    ensures AboveBlanks(lines, floor, from + 1, PZ.WalkBack(lines, floor, from))
  {
    if from > floor && PZ.IsBlank(lines[from]) {
      WalkedBack(lines, floor, from - 1);
    }
  }

  ghost predicate SectionStands(lines: seq<Line>, p0: nat, p1: nat, sep: nat)
  {
    && FirstLine(lines, TrimsTo(PZ.PHASE_0_HEADER), 0, p0) && FirstLine(lines, TrimsTo(PZ.PHASE_1_HEADER), p0 + 1, p1)
    && AboveBlanks(lines, p0, p1, sep)
  }

  lemma SectionStops(lines: seq<Line>)
    ensures match PZ.SectionAt(lines)
            case Ok((p0, sep)) => exists p1: nat :: SectionStands(lines, p0, p1, sep) && Trim(lines[sep]) == "---"
            case Err(Phase0Missing) => NoLine(lines, TrimsTo(PZ.PHASE_0_HEADER), 0, |lines|)
            case Err(Phase1Missing) =>
              exists p0: nat :: FirstLine(lines, TrimsTo(PZ.PHASE_0_HEADER), 0, p0)
                                && NoLine(lines, TrimsTo(PZ.PHASE_1_HEADER), p0 + 1, |lines|)
            case Err(SeparatorMissing) => exists p0: nat, p1: nat, sep: nat :: SectionStands(lines, p0, p1, sep) && Trim(lines[sep]) != "---"
            case Err(CoverageHeaderMissing) => false
            case Err(NoteMissing) => false
  {
    FindIs(lines, PZ.IsPhase0, TrimsTo(PZ.PHASE_0_HEADER), 0);
    var p0 := FindIn(lines, PZ.IsPhase0, 0, |lines|);
    if p0.Some? {
      SectionFromStops(lines, p0.value);
    }
  }

  /** The same, once the Phase 0 header is found. */
  lemma SectionFromStops(lines: seq<Line>, p0: nat)
    requires FirstLine(lines, TrimsTo(PZ.PHASE_0_HEADER), 0, p0)
    ensures match PZ.SectionFrom(lines, p0)
            case Ok((start, sep)) => start == p0 && exists p1: nat :: SectionStands(lines, p0, p1, sep) && Trim(lines[sep]) == "---"
            case Err(Phase1Missing) => NoLine(lines, TrimsTo(PZ.PHASE_1_HEADER), p0 + 1, |lines|)
            case Err(SeparatorMissing) => exists p1: nat, sep: nat :: SectionStands(lines, p0, p1, sep) && Trim(lines[sep]) != "---"
            case Err(Phase0Missing) => false
            case Err(CoverageHeaderMissing) => false
            case Err(NoteMissing) => false
  {
    FindIs(lines, PZ.IsPhase1, TrimsTo(PZ.PHASE_1_HEADER), p0 + 1);
    var p1 := FindIn(lines, PZ.IsPhase1, p0 + 1, |lines|);
    if p1.Some? {
      BoundsStop(lines, p0, p1.value);
    }
  }

  lemma BoundsStop(lines: seq<Line>, p0: nat, p1: nat)
    requires p0 < p1 < |lines|
    requires FirstLine(lines, TrimsTo(PZ.PHASE_0_HEADER), 0, p0) && FirstLine(lines, TrimsTo(PZ.PHASE_1_HEADER), p0 + 1, p1)
    ensures var sep := PZ.WalkBack(lines, p0, p1 - 1);
            && SectionStands(lines, p0, p1, sep)
            && PZ.SectionBounds(lines, p0, p1) == if Trim(lines[sep]) == "---" then Ok((p0, sep)) else Err(PZ.SeparatorMissing)
  {
    WalkedBack(lines, p0, p1 - 1);
  }

  /** The Note's run of quoted lines: from its first line down to the first that is no quote. */
  ghost predicate QuotedRun(lines: seq<Line>, n: nat, end: nat)
  {
    && n < end <= |lines| && (forall i | n < i < end :: Begins(lines[i], '>')) && (end < |lines| ==> !Begins(lines[end], '>'))
  }

  /** The second half: the section is replaced above its separator, or its landmark's error stops the run. */
  lemma SectionOrStop(noted: seq<Line>, block: seq<Line>)
    ensures match PZ.SectionAt(noted)
            case Err(e) => PZ.ReplaceSection(noted, block) == Err(e)
            case Ok((p0, sep)) => p0 <= sep <= |noted| && PZ.ReplaceSection(noted, block) == Ok(noted[..p0] + block + noted[sep..])
  {
    PZ.SectionAtBounds(noted);
  }

  /** The first half: the Note's quoted run is replaced. */
  lemma NoteOrStop(lines: seq<Line>, note: seq<Line>) returns (n: nat, end: nat)
    requires PZ.NoteAt(lines).Ok?
    ensures NoteStandsAt(lines, n) && QuotedRun(lines, n, end)
    ensures PZ.ReplaceNote(lines, note) == Ok(lines[..n] + note + lines[end..])
  {
    NoteStops(lines);
    PZ.NoteAtBounds(lines);
    n := PZ.NoteAt(lines).value;
    end := RunEnd(lines, n + 1, '>');
    RunStops(lines, n + 1, '>');
  }

  /**
   * The whole generator: it stops for the first landmark that is missing, in the order it looks
   * for them, and else replaces the Note's quoted run and then the section above its separator.
   */
  lemma RefreshOrStop(lines: seq<Line>, note: seq<Line>, block: seq<Line>)
    ensures PZ.NoteAt(lines).Err? ==> PZ.Refresh(lines, note, block) == Err(PZ.NoteAt(lines).error)
    ensures PZ.NoteAt(lines).Ok? ==>
              exists n: nat, end: nat :: NoteStandsAt(lines, n) && QuotedRun(lines, n, end)
                && var noted := lines[..n] + note + lines[end..];
                   match PZ.SectionAt(noted)
                   case Err(e) => PZ.Refresh(lines, note, block) == Err(e)
                   case Ok((p0, sep)) => p0 <= sep <= |noted| && PZ.Refresh(lines, note, block) == Ok(noted[..p0] + block + noted[sep..])
  {
    PZ.NoteAtBounds(lines);
    if PZ.NoteAt(lines).Ok? {
      var n, end := NoteOrStop(lines, note);
      SectionOrStop(lines[..n] + note + lines[end..], block);
      assert NoteStandsAt(lines, n) && QuotedRun(lines, n, end);
    }
  }

  lemma {:induction false} RunStops(lines: seq<Line>, from: nat, c: char)
    requires from <= |lines|
    ensures var end := RunEnd(lines, from, c);
            from <= end <= |lines| && (forall i | from <= i < end :: Begins(lines[i], c)) && (end < |lines| ==> !Begins(lines[end], c))
    decreases |lines| - from
  {
    if from < |lines| && Begins(lines[from], c) {
      RunStops(lines, from + 1, c);
    }
  }

  /* ---- the checklist generator ---- */

  const PART_II := "# PART II — TEST AUTOMATION COVERAGE"

  /** Where the checklist generator looks for modules: between Part II and the first Coverage header below it. */
  ghost predicate Bounded(lines: seq<Line>, p: nat, c: nat)
  {
    FirstLine(lines, TrimsTo(PART_II), 0, p) && FirstLine(lines, BeginsWith(COVERAGE), p, c)
  }

  lemma BoundsFound(lines: seq<Line>)
    ensures var p := FindIn(lines, CS.IsPartII, 0, |lines|);
            if p.None? then NoLine(lines, TrimsTo(PART_II), 0, |lines|)
            else FirstLine(lines, TrimsTo(PART_II), 0, p.value)
                 && var c := FindIn(lines, CS.IsCoverageHeader, p.value, |lines|);
                    if c.None? then NoLine(lines, BeginsWith(COVERAGE), p.value, |lines|) else Bounded(lines, p.value, c.value)
  {
    FindIs(lines, CS.IsPartII, TrimsTo(PART_II), 0);
    var p := FindIn(lines, CS.IsPartII, 0, |lines|);
    if p.Some? {
      FindIs(lines, CS.IsCoverageHeader, BeginsWith(COVERAGE), p.value);
    }
  }

  /** A prefix begins some line of the range. */
  ghost predicate Found(lines: seq<Line>, start: string, from: nat, to: nat)
  {
    exists at: nat :: at < to && FirstLine(lines, BeginsWith(start), from, at)
  }

  /** The first module, in the order of the list, whose prefix begins no line of the range. */
  ghost predicate FirstUnfound(lines: seq<Line>, modules: seq<CS.ModuleConfig>, from: nat, to: nat, m: nat)
  {
    && m < |modules| && NoLine(lines, BeginsWith(modules[m].sectionStart), from, to)
    && forall k | 0 <= k < m :: Found(lines, modules[k].sectionStart, from, to)
  }

  lemma {:induction false} StartsOrStop(lines: seq<Line>, modules: seq<CS.ModuleConfig>, from: nat, to: nat)
    requires to <= |lines|
    ensures match CS.ModuleStarts(lines, modules, from, to)
            case Ok(starts) =>
              |starts| == |modules| && forall k | 0 <= k < |modules| ::
                starts[k] < to && FirstLine(lines, BeginsWith(modules[k].sectionStart), from, starts[k])
            case Err(e) => exists m: nat :: FirstUnfound(lines, modules, from, to, m) && e == CS.SectionMissing(modules[m].rowLabel)
  {
    if modules != [] {
      var n := |modules| - 1;
      StartsOrStop(lines, modules[..n], from, to);
      FindBeforeIs(lines, CS.StartsWith(modules[n].sectionStart), BeginsWith(modules[n].sectionStart), from, to);
      var front := CS.ModuleStarts(lines, modules[..n], from, to);
      if front.Err? {
        var m: nat :| FirstUnfound(lines, modules[..n], from, to, m) && front.error == CS.SectionMissing(modules[..n][m].rowLabel);
        forall k | 0 <= k < m ensures Found(lines, modules[k].sectionStart, from, to) { assert modules[..n][k] == modules[k]; }
        assert FirstUnfound(lines, modules, from, to, m);
      } else {
        forall k | 0 <= k < n ensures front.value[k] < to && FirstLine(lines, BeginsWith(modules[k].sectionStart), from, front.value[k]) {
          assert modules[..n][k] == modules[k];
        }
        if FindIn(lines, CS.StartsWith(modules[n].sectionStart), from, to).None? {
          forall k | 0 <= k < n ensures Found(lines, modules[k].sectionStart, from, to) {
            assert front.value[k] < to && FirstLine(lines, BeginsWith(modules[k].sectionStart), from, front.value[k]);
          }
          assert FirstUnfound(lines, modules, from, to, n);
        }
      }
    }
  }

  /** The first module found at or above the one before it. */
  ghost predicate FirstMisplaced(starts: seq<nat>, m: nat)
  {
    1 <= m < |starts| && starts[m] <= starts[m - 1] && forall k | 1 <= k < m :: starts[k - 1] < starts[k]
  }

  lemma {:induction false} MisplacedIs(starts: seq<nat>, from: nat)
    requires from >= 1
    ensures match CS.FirstMisordered(starts, from)
            case None => forall k | from <= k < |starts| :: starts[k - 1] < starts[k]
            case Some(m) => from <= m < |starts| && starts[m] <= starts[m - 1] && forall k | from <= k < m :: starts[k - 1] < starts[k]
    decreases if from < |starts| then |starts| - from else 0
  {
    if from < |starts| {
      MisplacedIs(starts, from + 1);
    }
  }

  /** What a stopped count says: the headers first, then the first module that is missing, then the first out of order. */
  ghost predicate CountStopped(lines: seq<Line>, modules: seq<CS.ModuleConfig>, e: CS.DocError)
  {
    || (e == CS.PartIIMissing && NoLine(lines, TrimsTo(PART_II), 0, |lines|))
    || (e == CS.CoverageHeaderMissing
        && exists p: nat :: FirstLine(lines, TrimsTo(PART_II), 0, p) && NoLine(lines, BeginsWith(COVERAGE), p, |lines|))
    || (exists p: nat, c: nat, m: nat ::
          Bounded(lines, p, c) && FirstUnfound(lines, modules, p, c, m) && e == CS.SectionMissing(modules[m].rowLabel))
    || (exists p: nat, c: nat, starts: seq<nat>, m: nat ::
          Bounded(lines, p, c) && CS.ModuleStarts(lines, modules, p, c) == Ok(starts) && |starts| == |modules|
          && FirstMisplaced(starts, m) && e == CS.ModulesMisordered(modules[m].rowLabel))
  }

  lemma CountsStop(lines: seq<Line>, modules: seq<CS.ModuleConfig>)
    requires CS.ComputeCounts(lines, modules).Err?
    ensures CountStopped(lines, modules, CS.ComputeCounts(lines, modules).error)
  {
    BoundsFound(lines);
    var p := FindIn(lines, CS.IsPartII, 0, |lines|);
    if p.Some? {
      var c := FindIn(lines, CS.IsCoverageHeader, p.value, |lines|);
      if c.Some? {
        StartsOrStop(lines, modules, p.value, c.value);
        var starts := CS.ModuleStarts(lines, modules, p.value, c.value);
        if starts.Ok? {
          MisplacedIs(starts.value, 1);
          assert FirstMisplaced(starts.value, CS.FirstMisordered(starts.value, 1).value);
        }
      }
    }
  }

  const TABLE := "| Module | Total |"
  const PHASE_TABLE := "| Module | Validate"
  const DATE := "> **Last updated:**"

  /** The Coverage table is looked for at or below the Coverage header. */
  lemma TableStops(lines: seq<Line>)
    ensures match CS.TableAt(lines)
            case Ok(at) => exists p: nat, c: nat :: Bounded(lines, p, c) && FirstLine(lines, BeginsWith(TABLE), c, at)
            case Err(e) =>
              || (e == CS.PartIIMissing && NoLine(lines, TrimsTo(PART_II), 0, |lines|))
              || (e == CS.CoverageHeaderMissing
                  && exists p: nat :: FirstLine(lines, TrimsTo(PART_II), 0, p) && NoLine(lines, BeginsWith(COVERAGE), p, |lines|))
              || (e == CS.TableHeaderMissing
                  && exists p: nat, c: nat :: Bounded(lines, p, c) && NoLine(lines, BeginsWith(TABLE), c, |lines|))
  {
    BoundsFound(lines);
    var p := FindIn(lines, CS.IsPartII, 0, |lines|);
    if p.Some? {
      var c := FindIn(lines, CS.IsCoverageHeader, p.value, |lines|);
      if c.Some? {
        FindIs(lines, CS.IsTableHeader, BeginsWith(TABLE), c.value);
      }
    }
  }

  /** Where a phase's table is looked for: from its header down to the next phase's, or to the end. */
  ghost predicate PhaseRange(lines: seq<Line>, header: string, next: Option<string>, h: nat, end: nat)
  {
    && FirstLine(lines, TrimsTo(header), 0, h)
    && (match next
        case None => end == |lines|
        case Some(other) => FirstLine(lines, TrimsTo(other), h + 1, end) || (end == |lines| && NoLine(lines, TrimsTo(other), h + 1, |lines|)))
  }

  lemma PhaseTableStops(lines: seq<Line>, header: string, next: Option<string>)
    ensures match CS.PhaseTableAt(lines, header, next)
            case Ok(at) =>
              exists h: nat, end: nat :: PhaseRange(lines, header, next, h, end) && at < end && FirstLine(lines, BeginsWith(PHASE_TABLE), h, at)
            case Err(e) =>
              || (e == CS.PhaseHeaderMissing(header) && NoLine(lines, TrimsTo(header), 0, |lines|))
              || (e == CS.PhaseTableMissing(header)
                  && exists h: nat, end: nat :: PhaseRange(lines, header, next, h, end) && NoLine(lines, BeginsWith(PHASE_TABLE), h, end))
  {
    FindIs(lines, CS.TrimsTo(header), TrimsTo(header), 0);
    var h := FindIn(lines, CS.TrimsTo(header), 0, |lines|);
    if h.Some? {
      var end := CS.UpperBound(lines, next, h.value + 1);
      if next.Some? {
        FindIs(lines, CS.TrimsTo(next.value), TrimsTo(next.value), h.value + 1);
      }
      assert PhaseRange(lines, header, next, h.value, end);
      FindBeforeIs(lines, CS.IsPhaseTableHeader, BeginsWith(PHASE_TABLE), h.value, end);
    }
  }

  predicate Names(modules: seq<CS.ModuleConfig>, rowLabel: string)
  {
    exists m <- modules :: m.rowLabel == rowLabel
  }

  /** The first row of a table whose label is no module's. */
  ghost predicate FirstUnknown(rows: seq<Line>, modules: seq<CS.ModuleConfig>, i: nat)
  {
    i < |rows| && !Names(modules, FirstCell(rows[i])) && forall k | 0 <= k < i :: Names(modules, FirstCell(rows[k]))
  }

  lemma {:induction false} LabelKnown(modules: seq<CS.ModuleConfig>, rowLabel: string)
    ensures CS.IndexOfLabel(modules, rowLabel).Some? <==> Names(modules, rowLabel)
  {
    if modules != [] {
      var n := |modules| - 1;
      LabelKnown(modules[..n], rowLabel);
      assert modules == modules[..n] + [modules[n]];
    }
  }

  ghost predicate AllNamed(rows: seq<Line>, modules: seq<CS.ModuleConfig>)
  {
    forall k | 0 <= k < |rows| :: Names(modules, FirstCell(rows[k]))
  }

  ghost predicate SomeUnknown(rows: seq<Line>, modules: seq<CS.ModuleConfig>, e: CS.DocError)
  {
    exists i: nat :: FirstUnknown(rows, modules, i) && e == CS.UnknownPhaseRow(FirstCell(rows[i]))
  }

  lemma UnknownAbove(rows: seq<Line>, n: nat, modules: seq<CS.ModuleConfig>, e: CS.DocError)
    requires n <= |rows| && SomeUnknown(rows[..n], modules, e)
    ensures SomeUnknown(rows, modules, e)
  {
    var i: nat :| FirstUnknown(rows[..n], modules, i) && e == CS.UnknownPhaseRow(FirstCell(rows[..n][i]));
    forall k | 0 <= k <= i ensures rows[..n][k] == rows[k] {}
    assert FirstUnknown(rows, modules, i);
  }

  lemma LastRowDecides(rows: seq<Line>, modules: seq<CS.ModuleConfig>)
    requires rows != [] && AllNamed(rows[..|rows| - 1], modules)
    ensures var n := |rows| - 1;
            if Names(modules, FirstCell(rows[n])) then AllNamed(rows, modules)
            else SomeUnknown(rows, modules, CS.UnknownPhaseRow(FirstCell(rows[n])))
  {
    var n := |rows| - 1;
    forall k | 0 <= k < n ensures Names(modules, FirstCell(rows[k])) { assert rows[..n][k] == rows[k]; }
    if !Names(modules, FirstCell(rows[n])) {
      assert FirstUnknown(rows, modules, n);
    }
  }

  lemma {:induction false} RowsOrStop(rows: seq<Line>, modules: seq<CS.ModuleConfig>, counts: seq<CS.Counts>)
    requires |counts| == |modules|
    ensures match CS.PhaseRows(rows, modules, counts) case Ok(_) => AllNamed(rows, modules) case Err(e) => SomeUnknown(rows, modules, e)
  {
    if rows != [] {
      var n := |rows| - 1;
      RowsOrStop(rows[..n], modules, counts);
      var front := CS.PhaseRows(rows[..n], modules, counts);
      if front.Err? {
        UnknownAbove(rows, n, modules, front.error);
      } else {
        LabelKnown(modules, FirstCell(rows[n]));
        LastRowDecides(rows, modules);
      }
    }
  }

  /** The run of rows of a table found at `at`. */
  ghost predicate TableRun(lines: seq<Line>, at: nat, end: nat)
  {
    && at < end <= |lines| && (forall i | at < i < end :: Begins(lines[i], '|')) && (end < |lines| ==> !Begins(lines[end], '|'))
  }

  /** What is said of a table that was found: that it has no row, or which row is the first to name no module. */
  ghost predicate RowsStopped(lines: seq<Line>, at: nat, end: nat, header: string, modules: seq<CS.ModuleConfig>, e: CS.DocError)
    requires at < end <= |lines|
  {
    if end <= at + 2 then e == CS.PhaseTableEmpty(header)
    else SomeUnknown(lines[at + 2..end], modules, e)
  }

  /** From a table that was found: its run of lines, and what stops its rows. */
  lemma StepAtStops(lines: seq<Line>, at: nat, header: string, modules: seq<CS.ModuleConfig>, counts: seq<CS.Counts>)
    returns (end: nat)
    requires |counts| == |modules| && at < |lines|
    ensures TableRun(lines, at, end)
    ensures match CS.StepAt(lines, at, header, modules, counts)
            case Ok(_) => end > at + 2
            case Err(e) => RowsStopped(lines, at, end, header, modules, e)
  {
    end := RunEnd(lines, at + 1, '|');
    RunStops(lines, at + 1, '|');
    if end > at + 2 {
      RowsOrStop(lines[at + 2..end], modules, counts);
    }
  }

  /** A phase's rewrite stops for a missing header or table, then for an empty one, then for the first row that names no module. */
  lemma PhaseStepStops(lines: seq<Line>, header: string, next: Option<string>, modules: seq<CS.ModuleConfig>, counts: seq<CS.Counts>)
    requires |counts| == |modules|
    ensures var at := CS.PhaseTableAt(lines, header, next);
            match CS.PhaseStep(lines, header, next, modules, counts)
            case Ok(_) => at.Ok? && exists end: nat :: TableRun(lines, at.value, end) && end > at.value + 2
            case Err(e) =>
              || (at.Err? && e == at.error)
              || (at.Ok? && exists end: nat :: TableRun(lines, at.value, end) && RowsStopped(lines, at.value, end, header, modules, e))
  {
    CS.PhaseTableAtBounds(lines, header, next);
    var at := CS.PhaseTableAt(lines, header, next);
    if at.Ok? {
      var end := StepAtStops(lines, at.value, header, modules, counts);
    }
  }

  /** The date line is the first that begins as one; it is replaced whole. */
  lemma DateStops(lines: seq<Line>, today: string)
    ensures match CS.RegenerateDate(lines, today)
            case Ok(out) => exists d: nat :: FirstLine(lines, BeginsWith(DATE), 0, d) && out == lines[d := DATE + " " + today]
            case Err(e) => e == CS.LastUpdatedMissing && NoLine(lines, BeginsWith(DATE), 0, |lines|)
  {
    FindIs(lines, CS.IsLastUpdated, BeginsWith(DATE), 0);
  }
}
