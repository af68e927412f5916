/**
 * The two generators run one after the other on the checklist file, in either order.
 *
 * They meet only in the file: each reads back the text the other wrote. A title with a newline
 * can therefore put a Phase header before the checklist generator that no generator wrote as a
 * line, and then the order matters.
 */
module ChecklistOrders {
  import opened Texts
  import opened Sequences
  import opened Documents
  import opened CoverageSummary
  import opened PhaseZero
  import opened PhaseZeroLaws
  import opened PhaseZeroFiles
  import opened ChecklistCommutes
  import CF = CoverageFiles

  /* ---- the orders ---- */

  /** Whichever generator runs first, the second leaves the same text; a checklist generator that stops stops alike. */
  ghost predicate OrdersAgree(original: string, modules: seq<ModuleConfig>, today: string, tests: seq<StableTest>)
  {
    var refreshed, run := RefreshText(original, tests), Generate(original, modules, today);
    && refreshed.Ok?
    && (var after := Generate(refreshed.value, modules, today);
        if run.Err? then after == run else after.Ok? && RefreshText(run.value, tests) == Ok(after.value))
  }

  /** A well-laid checklist, as a file. */
  ghost predicate LaidFile(original: string, l: Layout)
  {
    WellLaid(l) && LinesOf(original) == Assemble(l)
  }

  /** What the Phase 0 generator makes of a layout, read back. */
  function Refreshed(l: Layout, tests: seq<StableTest>): Layout
  {
    RefreshOn(l, NOTE_LINES, Flat(Section(tests)))
  }

  lemma AssembledParts(lines: seq<Line>, l: Layout, tests: seq<StableTest>, trailing: bool)
    requires WellLaid(l) && CF.Writable(Assemble(l), trailing)
    ensures var out := Refresh(Assemble(l), NOTE_LINES, Section(tests));
            out.Ok? && out.value != [] && Flat(out.value) == Assemble(Refreshed(l, tests))
    ensures CF.Writable(Assemble(Refreshed(l, tests)), trailing)
  {
    NoteIsNoteBlock();
    NoteIsSolid();
    SectionReadsBack(tests);
    RefreshOfLayout(l, NOTE_LINES, Section(tests));
    RefreshOfLayout(l, NOTE_LINES, Flat(Section(tests)));
    RefreshedIsNotEmpty(Assemble(l), NOTE_LINES, Section(tests));
    FlatRefresh(Assemble(l), NOTE_LINES, Section(tests));
    RefreshIsWritable(Assemble(l), NOTE_LINES, Flat(Section(tests)), Assemble(Refreshed(l, tests)), trailing);
  }

  lemma RefreshIsWritable(lines: seq<Line>, note: seq<Line>, block: seq<Line>, out: seq<Line>, trailing: bool)
    requires IsNoteBlock(note) && (forall l <- note :: CF.Solid(l)) && CF.Writable(lines, trailing)
    requires block != [] && (forall l <- block :: '\n' !in l) && Refresh(lines, note, block) == Ok(out)
    ensures CF.Writable(out, trailing)
  {
    var noted := ReplaceNote(lines, note).value;
    RefreshIs(lines, note, block, noted);
    NotedIsWritable(lines, note, noted, trailing);
    var p0, p1, sep := SectionAtParts(noted);
    ReplaceSectionIs(noted, block, p0, sep);
    SectionIsWritable(noted, p0, sep, block, trailing);
  }

  /** The Phase 0 generator on a well-laid file, and what is read back from what it wrote. */
  lemma RefreshOfFile(original: string, l: Layout, tests: seq<StableTest>)
    requires LaidFile(original, l)
    ensures var r, t := RefreshText(original, tests), EndsWithNewline(original);
            && CF.Writable(Assemble(Refreshed(l, tests)), t) && r == Ok(TextOf(Assemble(Refreshed(l, tests)), t))
            && LinesOf(r.value) == Assemble(Refreshed(l, tests)) && EndsWithNewline(r.value) == t
  {
    var t := EndsWithNewline(original);
    LinesOfClean(original);
    AssembledParts(LinesOf(original), l, tests, t);
    var out := Refresh(Assemble(l), NOTE_LINES, Section(tests)).value;
    ReadsBackFlat(out, t);
    FlatOfClean(Flat(out));
    SameTextIff(out, Flat(out), t);
  }

  lemma GenerateIs(original: string, modules: seq<ModuleConfig>, today: string, run: Result<seq<Line>, DocError>)
    requires Run(LinesOf(original), modules, today) == run
    ensures Generate(original, modules, today) == if run.Err? then Err(run.error) else Ok(TextOf(run.value, EndsWithNewline(original)))
  {
  }

  /** What the checklist generator wrote is read back line for line. */
  lemma RunReadsBack(original: string, modules: seq<ModuleConfig>, today: string, out: seq<Line>)
    requires WellFormedModules(modules) && '\n' !in today && Run(LinesOf(original), modules, today) == Ok(out)
    ensures var t := EndsWithNewline(original);
            CF.Writable(out, t) && LinesOf(TextOf(out, t)) == out && EndsWithNewline(TextOf(out, t)) == t
  {
    LinesOfClean(original);
    CF.RunWritable(LinesOf(original), modules, today, out, EndsWithNewline(original));
    LinesReadBack(out, EndsWithNewline(original));
  }

  lemma SameLinesIff(a: seq<Line>, b: seq<Line>, trailing: bool)
    requires CF.Writable(a, trailing) && CF.Writable(b, trailing)
    ensures TextOf(a, trailing) == TextOf(b, trailing) <==> a == b
  {
    LinesReadBack(a, trailing);
    LinesReadBack(b, trailing);
  }

  /* ---- the two orders, line by line ---- */

  /** Everything above the section, once both generators have run. */
  function Above(l: Layout, modules: seq<ModuleConfig>, counts: seq<Counts>, today: string): seq<Line>
    requires |counts| == |modules|
  {
    DatedHead(l.head, today) + (CoverageTable(modules, counts) + Upper(RefreshOn(l, NOTE_LINES, [])))
  }

  /** The checklist generator after the Phase 0 generator. */
  lemma CountsAfterRefresh(original: string, l: Layout, modules: seq<ModuleConfig>, today: string, tests: seq<StableTest>,
                           counts: seq<Counts>, low: Result<seq<Line>, DocError>)
    requires LaidFile(original, l) && WellFormedModules(modules) && '\n' !in today
    requires ComputeCounts(l.head, modules) == Ok(counts) && |counts| == |modules|
    requires low == PhasesFrom(Flat(Section(tests)) + l.tail, 0, modules, counts)
    ensures var t := EndsWithNewline(original);
            && RefreshText(original, tests).Ok?
            && (var after := Generate(RefreshText(original, tests).value, modules, today);
                if low.Err? then after == Err(low.error)
                else after == Ok(TextOf(Above(l, modules, counts, today) + low.value, t))
                     && CF.Writable(Above(l, modules, counts, today) + low.value, t))
  {
    var l2 := Refreshed(l, tests);
    NoteIsNoteBlock();
    RefreshOfFile(original, l, tests);
    var text := RefreshText(original, tests).value;
    RunOfOpen(l2, modules, today);
    RebuiltIs(l, modules, counts, today, tests, low);
    GenerateIs(text, modules, today, Rebuilt(l2, counts, modules, today, low));
    if low.Ok? {
      RunReadsBack(text, modules, today, Rebuilt(l2, counts, modules, today, low).value);
    }
  }

  lemma RebuiltIs(l: Layout, modules: seq<ModuleConfig>, counts: seq<Counts>, today: string, tests: seq<StableTest>,
                  low: Result<seq<Line>, DocError>)
    requires |counts| == |modules|
    ensures var built := Rebuilt(Refreshed(l, tests), counts, modules, today, low);
            built == if low.Err? then low else Ok(Above(l, modules, counts, today) + low.value)
  {
    if low.Ok? {
      Regroup(DatedHead(l.head, today), CoverageTable(modules, counts), Upper(Refreshed(l, tests)), low.value);
    }
  }

  /** The Phase 0 generator after the checklist generator. */
  lemma RefreshAfterCounts(original: string, l: Layout, modules: seq<ModuleConfig>, today: string, tests: seq<StableTest>,
                           counts: seq<Counts>, tail: Result<seq<Line>, DocError>)
    requires LaidFile(original, l) && WellFormedModules(modules) && '\n' !in today
    requires ComputeCounts(l.head, modules) == Ok(counts) && |counts| == |modules|
    requires tail == PhasesFrom(l.tail, 0, modules, counts)
    ensures var run, t := Generate(original, modules, today), EndsWithNewline(original);
            if tail.Err? then run == Err(tail.error)
            else run.Ok?
                 && RefreshText(run.value, tests) == Ok(TextOf(Above(l, modules, counts, today) + (Flat(Section(tests)) + tail.value), t))
                 && CF.Writable(Above(l, modules, counts, today) + (Flat(Section(tests)) + tail.value), t)
  {
    RunOfLayout(l, modules, today);
    RunOnUnfolds(l, modules, today, counts);
    var r := RunOn(l, modules, today);
    GenerateIs(original, modules, today, if r.Ok? then Ok(Assemble(r.value)) else Err(r.error));
    if r.Ok? {
      RunReadsBack(original, modules, today, Assemble(r.value));
      RunKeepsLayout(l, modules, today);
      RefreshOfFile(TextOf(Assemble(r.value), EndsWithNewline(original)), r.value, tests);
      AssembledAbove(l, modules, counts, today, tests, r.value);
    }
  }

  lemma AssembledAbove(l: Layout, modules: seq<ModuleConfig>, counts: seq<Counts>, today: string, tests: seq<StableTest>, r: Layout)
    requires |counts| == |modules|
    requires r == l.(head := DatedHead(l.head, today), table := CoverageTable(modules, counts), tail := r.tail)
    ensures Assemble(Refreshed(r, tests)) == Above(l, modules, counts, today) + (Flat(Section(tests)) + r.tail)
  {
    AssembleNested(Refreshed(r, tests));
    Regroup(r.head, r.table, Upper(Refreshed(r, tests)), Flat(Section(tests)) + r.tail);
  }

  /**
   * On a well-laid file the orders agree exactly when rewriting the Phase tables below the new
   * section, read back, is rewriting them in what stands below it.
   */
  lemma OrdersAgreeIff(original: string, l: Layout, modules: seq<ModuleConfig>, today: string, tests: seq<StableTest>,
                       counts: seq<Counts>)
    requires LaidFile(original, l) && WellFormedModules(modules) && '\n' !in today
    requires ComputeCounts(l.head, modules) == Ok(counts) && |counts| == |modules|
    ensures OrdersAgree(original, modules, today, tests)
       <==> PhasesFrom(Flat(Section(tests)) + l.tail, 0, modules, counts)
            == Prepend(Flat(Section(tests)), PhasesFrom(l.tail, 0, modules, counts))
  {
    var section := Flat(Section(tests));
    var low, tail := PhasesFrom(section + l.tail, 0, modules, counts), PhasesFrom(l.tail, 0, modules, counts);
    CountsAfterRefresh(original, l, modules, today, tests, counts, low);
    RefreshAfterCounts(original, l, modules, today, tests, counts, tail);
    if low.Ok? && tail.Ok? {
      var above := Above(l, modules, counts, today);
      SameLinesIff(above + low.value, above + (section + tail.value), EndsWithNewline(original));
      SameBelow(above, low.value, section + tail.value);
    }
  }

  lemma SameBelow(above: seq<Line>, a: seq<Line>, b: seq<Line>)
    ensures above + a == above + b <==> a == b
  {
    assert (above + a)[|above|..] == a && (above + b)[|above|..] == b;
  }

  /** A checklist whose bullets cannot be counted stops in either order, with the same error. */
  lemma UncountedOrdersAgree(original: string, l: Layout, modules: seq<ModuleConfig>, today: string, tests: seq<StableTest>)
    requires LaidFile(original, l) && WellFormedModules(modules) && ComputeCounts(l.head, modules).Err?
    ensures OrdersAgree(original, modules, today, tests)
  {
    var stop: Result<seq<Line>, DocError> := Err(ComputeCounts(l.head, modules).error);
    NoteIsNoteBlock();
    RefreshOfFile(original, l, tests);
    RunOfOpen(l, modules, today);
    RunOfOpen(Refreshed(l, tests), modules, today);
    GenerateIs(original, modules, today, stop);
    GenerateIs(RefreshText(original, tests).value, modules, today, stop);
  }

  /* ---- sections that do no harm ---- */

  /**
   * No line of the section reads as the Phase 2 header, and below one that reads as the Phase 1
   * header no Phase table begins.
   */
  ghost predicate Harmless(section: seq<Line>)
  {
    && NoHeader(section, PHASE_HEADERS[1])
    && forall i, j | 0 <= i <= j < |section| && TrimsTo(PHASE_HEADERS[0])(section[i]) :: !IsPhaseTableHeader(section[j])
  }

  /** The two turns of the phase loop. */
  function SecondPhase(first: Result<seq<Line>, DocError>, modules: seq<ModuleConfig>, counts: seq<Counts>): Result<seq<Line>, DocError>
    requires |counts| == |modules|
  {
    if first.Err? then first else PhaseStep(first.value, PHASE_HEADERS[1], None, modules, counts)
  }

  lemma TwoPhases(lines: seq<Line>, modules: seq<ModuleConfig>, counts: seq<Counts>)
    requires |counts| == |modules|
    ensures PhasesFrom(lines, 0, modules, counts)
            == SecondPhase(PhaseStep(lines, PHASE_HEADERS[0], Some(PHASE_HEADERS[1]), modules, counts), modules, counts)
  {
    var first := PhaseStep(lines, PHASE_HEADERS[0], NextHeader(0), modules, counts);
    assert NextHeader(0) == Some(PHASE_HEADERS[1]) && NextHeader(1) == None;
    if first.Ok? {
      LastPhase(first.value, modules, counts);
    }
  }

  lemma LastPhase(lines: seq<Line>, modules: seq<ModuleConfig>, counts: seq<Counts>)
    requires |counts| == |modules|
    ensures PhasesFrom(lines, 1, modules, counts) == PhaseStep(lines, PHASE_HEADERS[1], NextHeader(1), modules, counts)
  {
    var second := PhaseStep(lines, PHASE_HEADERS[1], NextHeader(1), modules, counts);
    if second.Ok? {
      assert PhasesFrom(second.value, 2, modules, counts) == Ok(second.value);
    }
  }

  /** A search through lines that do not answer it goes on behind them. */
  lemma {:induction false} FindOn(a: seq<Line>, b: seq<Line>, p: Line -> bool, from: nat, to: nat)
    requires from <= |a| && to <= |b| && forall i | from <= i < |a| :: !p(a[i])
    ensures FindIn(a + b, p, from, |a| + to) == Shift(FindIn(b, p, 0, to), |a|)
    decreases |a| - from
  {
    if from < |a| {
      FindOn(a, b, p, from + 1, to);
    } else {
      FindShifted(a, b, p, 0, to);
    }
  }

  lemma {:induction false} FindLater(lines: seq<Line>, p: Line -> bool, from: nat, mid: nat, to: nat)
    requires from <= mid <= to <= |lines| && forall i | from <= i < mid :: !p(lines[i])
    ensures FindIn(lines, p, from, to) == FindIn(lines, p, mid, to)
    decreases mid - from
  {
    if from < mid {
      FindLater(lines, p, from + 1, mid, to);
    }
  }

  /** Where the tail's own Phase 1 table is. */
  lemma TailTable(tail: seq<Line>, p1: nat)
    requires TailLaid(tail, p1)
    ensures var next := Some(PHASE_HEADERS[1]);
            PhaseTableAt(tail, PHASE_HEADERS[0], next) == TableFound(FindIn(tail, IsPhaseTableHeader, 0, UpperBound(tail, next, 0)))
  {
    var next := Some(PHASE_HEADERS[1]);
    TailIsNoHeader(tail, p1);
    FindInIs(tail, TrimsTo(PHASE_HEADERS[0]), 0, |tail|, p1);
    PhaseTableFromHeader(tail, PHASE_HEADERS[0], next, p1);
    TailBound(tail, p1);
    TailHasNoTable(tail, p1);
    FindLater(tail, IsPhaseTableHeader, 0, p1, UpperBound(tail, next, 0));
  }

  lemma TailBound(tail: seq<Line>, p1: nat)
    requires TailLaid(tail, p1)
    ensures var next := Some(PHASE_HEADERS[1]); UpperBound(tail, next, p1 + 1) == UpperBound(tail, next, 0) >= p1
  {
    TailLines(tail, p1);
    assert PHASE_HEADERS[1] in PHASE_HEADERS;
    Phase1IsNoPhase2(tail[p1]);
    FindLater(tail, TrimsTo(PHASE_HEADERS[1]), 0, p1 + 1, |tail|);
    UpperBoundFrom(tail, p1 + 1);
  }

  function TableFound(found: Option<nat>): Result<nat, DocError>
  {
    if found.None? then Err(PhaseTableMissing(PHASE_HEADERS[0])) else Ok(found.value)
  }

  lemma UpperBoundFrom(lines: seq<Line>, from: nat)
    requires from <= |lines|
    requires FindIn(lines, TrimsTo(PHASE_HEADERS[1]), 0, |lines|) == FindIn(lines, TrimsTo(PHASE_HEADERS[1]), from, |lines|)
    ensures UpperBound(lines, Some(PHASE_HEADERS[1]), from) == UpperBound(lines, Some(PHASE_HEADERS[1]), 0) >= from
  {
    FindInMeaning(lines, TrimsTo(PHASE_HEADERS[1]), from, |lines|);
  }

  lemma Phase1IsNoPhase2(l: Line)
    requires IsPhase1(l)
    ensures !TrimsTo(PHASE_HEADERS[1])(l)
  {
    assert PHASE_HEADERS[0][4] != PHASE_HEADERS[1][4];
  }

  lemma TailHasNoTable(tail: seq<Line>, p1: nat)
    requires TailLaid(tail, p1)
    ensures forall i | 0 <= i < p1 :: !IsPhaseTableHeader(tail[i])
  {
    forall i | 0 <= i < p1 ensures !IsPhaseTableHeader(tail[i]) {
      RowIsNoSeparator(tail[i]);
    }
  }

  lemma RowIsNoSeparator(l: Line)
    requires IsSeparator(l) || IsBlank(l)
    ensures !Begins(l, '|') && !IsPhaseTableHeader(l)
  {
    if Begins(l, '|') {
      TrimKeepsFirst(l);
    }
    TableHeaderIsRow(l);
  }

  lemma TableHeaderIsRow(l: Line)
    ensures IsPhaseTableHeader(l) ==> Begins(l, '|')
  {
    if IsPhaseTableHeader(l) {
      assert l[0] == PHASE_TABLE_HEADER_PREFIX[0];
    }
  }

  /** A hidden Phase 1 header with no table below it in the section leads to the tail's own table. */
  lemma HarmlessTable(section: seq<Line>, tail: seq<Line>, p1: nat)
    requires Harmless(section) && TailLaid(tail, p1)
    ensures PhaseTableAt(section + tail, PHASE_HEADERS[0], Some(PHASE_HEADERS[1]))
            == ShiftAt(PhaseTableAt(tail, PHASE_HEADERS[0], Some(PHASE_HEADERS[1])), |section|)
  {
    var first := FindIn(section, TrimsTo(PHASE_HEADERS[0]), 0, |section|);
    FindInMeaning(section, TrimsTo(PHASE_HEADERS[0]), 0, |section|);
    if first.None? {
      PhaseTableShifted(section, tail, PHASE_HEADERS[0], Some(PHASE_HEADERS[1]));
    } else {
      HiddenTable(section, tail, first.value);
      TailTable(tail, p1);
    }
  }

  lemma HiddenTable(section: seq<Line>, tail: seq<Line>, i: nat)
    requires i < |section| && FindIn(section, TrimsTo(PHASE_HEADERS[0]), 0, |section|) == Some(i)
    requires NoHeader(section, PHASE_HEADERS[1]) && forall j | i <= j < |section| :: !IsPhaseTableHeader(section[j])
    ensures var next := Some(PHASE_HEADERS[1]);
            PhaseTableAt(section + tail, PHASE_HEADERS[0], next)
            == ShiftAt(TableFound(FindIn(tail, IsPhaseTableHeader, 0, UpperBound(tail, next, 0))), |section|)
  {
    HiddenHeader(section, tail, i);
    HiddenBound(section, tail, i + 1);
    HiddenBelow(section, tail, i, UpperBound(tail, Some(PHASE_HEADERS[1]), 0));
  }

  lemma HiddenHeader(section: seq<Line>, tail: seq<Line>, i: nat)
    requires i < |section| && FindIn(section, TrimsTo(PHASE_HEADERS[0]), 0, |section|) == Some(i)
    ensures PhaseTableAt(section + tail, PHASE_HEADERS[0], Some(PHASE_HEADERS[1]))
            == TableBelow(section + tail, PHASE_HEADERS[0], Some(PHASE_HEADERS[1]), i)
  {
    FindInFront(section, tail, TrimsTo(PHASE_HEADERS[0]), 0);
    PhaseTableFromHeader(section + tail, PHASE_HEADERS[0], Some(PHASE_HEADERS[1]), i);
  }

  lemma HiddenBelow(section: seq<Line>, tail: seq<Line>, i: nat, to: nat)
    requires i < |section| && to <= |tail| && UpperBound(section + tail, Some(PHASE_HEADERS[1]), i + 1) == |section| + to
    requires forall j | i <= j < |section| :: !IsPhaseTableHeader(section[j])
    ensures TableBelow(section + tail, PHASE_HEADERS[0], Some(PHASE_HEADERS[1]), i)
            == ShiftAt(TableFound(FindIn(tail, IsPhaseTableHeader, 0, to)), |section|)
  {
    FindOn(section, tail, IsPhaseTableHeader, i, to);
    TableBelowIs(section + tail, Some(PHASE_HEADERS[1]), i, |section| + to);
  }

  lemma HiddenBound(section: seq<Line>, tail: seq<Line>, from: nat)
    requires from <= |section| && NoHeader(section, PHASE_HEADERS[1])
    ensures UpperBound(section + tail, Some(PHASE_HEADERS[1]), from) == |section| + UpperBound(tail, Some(PHASE_HEADERS[1]), 0)
  {
    forall j | from <= j < |section| ensures !TrimsTo(PHASE_HEADERS[1])(section[j]) {
      assert section[j] in section;
    }
    FindOn(section, tail, TrimsTo(PHASE_HEADERS[1]), from, |tail|);
    BoundAcross(section, tail, from);
  }

  lemma TableBelowIs(lines: seq<Line>, next: Option<string>, h: nat, to: nat)
    requires h < |lines| && UpperBound(lines, next, h + 1) == to <= |lines|
    ensures TableBelow(lines, PHASE_HEADERS[0], next, h) == TableFound(FindIn(lines, IsPhaseTableHeader, h, to))
  {
  }

  lemma BoundAcross(section: seq<Line>, tail: seq<Line>, from: nat)
    requires from <= |section|
    requires FindIn(section + tail, TrimsTo(PHASE_HEADERS[1]), from, |section| + |tail|)
             == Shift(FindIn(tail, TrimsTo(PHASE_HEADERS[1]), 0, |tail|), |section|)
    ensures UpperBound(section + tail, Some(PHASE_HEADERS[1]), from) == |section| + UpperBound(tail, Some(PHASE_HEADERS[1]), 0)
  {
  }

  /** A harmless section leaves the Phase tables to the tail. */
  lemma HarmlessPhases(section: seq<Line>, tail: seq<Line>, p1: nat, modules: seq<ModuleConfig>, counts: seq<Counts>)
    requires Harmless(section) && TailLaid(tail, p1) && |counts| == |modules|
    ensures PhasesFrom(section + tail, 0, modules, counts) == Prepend(section, PhasesFrom(tail, 0, modules, counts))
  {
    var next := Some(PHASE_HEADERS[1]);
    HarmlessTable(section, tail, p1);
    StepWithTable(section, tail, PHASE_HEADERS[0], next, modules, counts);
    TwoPhases(tail, modules, counts);
    TwoPhases(section + tail, modules, counts);
    var first := PhaseStep(tail, PHASE_HEADERS[0], next, modules, counts);
    if first.Ok? {
      PhaseStepShifted(section, first.value, PHASE_HEADERS[1], None, modules, counts);
    }
  }

  /**
   * The generators commute, from file to file: on a well-laid checklist, with a section that
   * does no harm when it is read back, either order leaves the same text.
   */
  lemma GeneratorsCommute(original: string, l: Layout, modules: seq<ModuleConfig>, today: string, tests: seq<StableTest>)
    requires LaidFile(original, l) && WellFormedModules(modules) && '\n' !in today && Harmless(Flat(Section(tests)))
    ensures OrdersAgree(original, modules, today, tests)
  {
    var c := ComputeCounts(l.head, modules);
    CountsPerModule(l.head, modules);
    if c.Err? {
      UncountedOrdersAgree(original, l, modules, today, tests);
    } else {
      var p1: nat :| TailLaid(l.tail, p1);
      HarmlessPhases(Flat(Section(tests)), l.tail, p1, modules, c.value);
      OrdersAgreeIff(original, l, modules, today, tests, c.value);
    }
  }

  /* ---- titles on one line ---- */

  lemma PlainTextIsNoHeader(l: Line)
    requires PlainText(l)
    ensures !TrimsTo(PHASE_HEADERS[0])(l) && !TrimsTo(PHASE_HEADERS[1])(l)
  {
    if l != "" {
      TrimIsPrefix(l);
      assert PHASE_HEADERS[0][0] == '#' && PHASE_HEADERS[0][3] == ' ' && |PHASE_HEADERS[0]| > 4;
      assert PHASE_HEADERS[1][0] == '#' && PHASE_HEADERS[1][3] == ' ' && |PHASE_HEADERS[1]| > 4;
    }
  }

  lemma HeadersDiffer(l: Line)
    requires Trim(l) == PHASE_0_HEADER
    ensures !TrimsTo(PHASE_HEADERS[0])(l) && !TrimsTo(PHASE_HEADERS[1])(l)
  {
    assert PHASE_0_HEADER[4] != PHASE_HEADERS[0][4] && PHASE_0_HEADER[4] != PHASE_HEADERS[1][4];
  }

  /** As it is written line by line, the section holds no Phase header. */
  lemma SectionIsLaid(tests: seq<StableTest>)
    ensures SectionLaid(Section(tests))
  {
    var specs := |set t <- tests :: t.relativePath|;
    var groups := Groups(tests, KeysOf(tests, ModuleOf));
    GroupsLines(tests, KeysOf(tests, ModuleOf));
    BodyIsPlain(|tests|, specs, groups);
    HeaderTrims();
    forall l <- Body(|tests|, specs, groups) ensures !TrimsTo(PHASE_HEADERS[0])(l) && !TrimsTo(PHASE_HEADERS[1])(l) {
      PlainTextIsNoHeader(l);
    }
    HeadersDiffer(PHASE_0_HEADER);
  }

  /** Titles, modules and spec names on one line each do no harm. */
  lemma OneLineIsHarmless(tests: seq<StableTest>)
    requires forall t <- tests :: OneLine(t)
    ensures Harmless(Flat(Section(tests)))
  {
    OneLineReadsBack(tests);
    SectionIsLaid(tests);
    SectionHasNoPhase(Section(tests));
    assert PHASE_HEADERS[0] in PHASE_HEADERS && PHASE_HEADERS[1] in PHASE_HEADERS;
    forall i | 0 <= i < |Section(tests)| ensures !TrimsTo(PHASE_HEADERS[0])(Section(tests)[i]) {
      assert Section(tests)[i] in Section(tests);
    }
  }
}
