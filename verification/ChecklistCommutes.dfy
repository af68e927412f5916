/**
 * The two generators that write the checklist, run in either order.
 *
 * A `Layout` cuts a document at the blocks the generators own. On a well-laid document
 * each generator rewrites its own blocks and copies every other line.
 */
module ChecklistCommutes {
  import opened Texts
  import opened Sequences
  import opened Documents
  import opened CoverageSummary
  import opened CoverageIdempotence
  import opened PhaseZero
  import opened PhaseZeroLaws

  /**
   * `head` runs down to the Coverage table and holds the date line, Part II and the Coverage
   * header; `tail` starts at the separator below the Phase 0 section.
   */
  datatype Layout = Layout(
    head: seq<Line>, table: seq<Line>, mid: seq<Line>, note: seq<Line>, gap: seq<Line>, section: seq<Line>, tail: seq<Line>)

  function Assemble(l: Layout): seq<Line>
  {
    l.head + l.table + l.mid + l.note + l.gap + l.section + l.tail
  }

  /** Lines a search for any of the generators' landmarks passes over. */
  predicate Plain(l: Line)
  {
    !IsPhase0(l) && !TrimsTo(PHASE_HEADERS[0])(l) && !TrimsTo(PHASE_HEADERS[1])(l)
  }

  predicate StartsOther(lines: seq<Line>, c: char)
  {
    lines != [] && !Begins(lines[0], c)
  }

  predicate NoTableNoNote(l: Line)
  {
    !IsTableHeader(l) && !IsNote(l)
  }

  ghost predicate AllLines(lines: seq<Line>, p: Line -> bool, from: nat)
  {
    forall i | from <= i < |lines| :: p(lines[i])
  }

  ghost predicate HeadLaid(head: seq<Line>)
  {
    exists c: nat :: HeadWith(head, c)
  }

  ghost predicate HeadWith(head: seq<Line>, c: nat)
  {
    && AllLines(head, Plain, 0) && AllLines(head, NoTableNoNote, c) && CoverageAt(head, c)
    && FindIn(head, IsLastUpdated, 0, |head|).Some?
  }

  /** The Coverage header both generators find, below Part II. */
  ghost predicate CoverageAt(head: seq<Line>, c: nat)
  {
    && c < |head| && FindIn(head, IsCoverageHeader, 0, |head|) == Some(c)
    && (var p := FindIn(head, IsPartII, 0, |head|); p.Some? && p.value <= c)
  }

  ghost predicate TableLaid(table: seq<Line>)
  {
    table != [] && IsTableHeader(table[0]) && AllRows(table)
  }

  ghost predicate MidLaid(mid: seq<Line>)
  {
    StartsOther(mid, '|') && forall l <- mid :: Plain(l) && !IsNote(l)
  }

  ghost predicate GapLaid(gap: seq<Line>)
  {
    StartsOther(gap, '>') && forall l <- gap :: Plain(l)
  }

  ghost predicate SectionLaid(section: seq<Line>)
  {
    section != [] && IsPhase0(section[0]) && forall l <- section :: !TrimsTo(PHASE_HEADERS[0])(l) && !TrimsTo(PHASE_HEADERS[1])(l)
  }

  /** Everything in its place, whatever the section holds. */
  ghost predicate OpenLaid(l: Layout)
  {
    HeadLaid(l.head) && TableLaid(l.table) && MidLaid(l.mid) && IsNoteBlock(l.note) && GapLaid(l.gap)
  }

  ghost predicate WellLaid(l: Layout)
  {
    OpenLaid(l) && SectionLaid(l.section) && exists p1: nat :: TailLaid(l.tail, p1)
  }

  /* ---- searches in a concatenation ---- */

  lemma FindInFront(a: seq<Line>, b: seq<Line>, p: Line -> bool, from: nat)
    requires FindIn(a, p, from, |a|).Some?
    ensures FindIn(a + b, p, from, |a + b|) == FindIn(a, p, from, |a|)
  {
    FindInMeaning(a, p, from, |a|);
    var i := FindIn(a, p, from, |a|).value;
    FindInIs(a + b, p, from, |a + b|, i);
  }

  lemma FindUpTo(a: seq<Line>, b: seq<Line>, p: Line -> bool, from: nat, to: nat)
    requires to <= |a|
    ensures FindIn(a + b, p, from, to) == FindIn(a, p, from, to)
  {
    FindInAgrees(a + b, a, p, from, to);
  }

  function Shift(found: Option<nat>, n: nat): Option<nat>
  {
    if found.Some? then Some(found.value + n) else None
  }

  lemma {:induction false} FindShifted(a: seq<Line>, b: seq<Line>, p: Line -> bool, from: nat, to: nat)
    requires to <= |b|
    ensures FindIn(a + b, p, |a| + from, |a| + to) == Shift(FindIn(b, p, from, to), |a|)
    decreases if from < to then to - from else 0
  {
    if from < to {
      assert (a + b)[|a| + from] == b[from];
      FindShifted(a, b, p, from + 1, to);
    }
  }

  lemma {:induction false} FindPast(a: seq<Line>, b: seq<Line>, p: Line -> bool, from: nat)
    requires from <= |a| && forall i | from <= i < |a| :: !p(a[i])
    ensures FindIn(a + b, p, from, |a + b|) == Shift(FindIn(b, p, 0, |b|), |a|)
    decreases |a| - from
  {
    if from < |a| {
      FindPast(a, b, p, from + 1);
    } else {
      FindShifted(a, b, p, 0, |b|);
    }
  }

  lemma RunInFront(a: seq<Line>, run: seq<Line>, b: seq<Line>, c: char)
    requires run != [] && (forall l <- run :: Begins(l, c)) && StartsOther(b, c)
    ensures RunEnd(a + run + b, |a| + 1, c) == |a| + |run|
  {
    forall i | |a| + 1 <= i < |a| + |run| ensures Begins((a + run + b)[i], c) {
      assert (a + run + b)[i] == run[i - |a|] && run[i - |a|] in run;
    }
    RunEndIs(a + run + b, |a| + 1, c, |a| + |run|);
  }

  /* ---- the checklist generator: counts, table, date ---- */

  lemma HeadCoverage(head: seq<Line>) returns (p: nat, c: nat)
    requires HeadLaid(head)
    ensures p <= c < |head| && FindIn(head, IsPartII, 0, |head|) == Some(p)
    ensures FindIn(head, IsCoverageHeader, p, |head|) == Some(c) == FindIn(head, IsCoverageHeader, 0, |head|)
    ensures AllLines(head, NoTableNoNote, c)
  {
    c :| HeadWith(head, c);
    p := FindIn(head, IsPartII, 0, |head|).value;
    FindInMeaning(head, IsCoverageHeader, 0, |head|);
    FindInIs(head, IsCoverageHeader, p, |head|, c);
  }

  lemma {:induction false} FoldInFront(a: seq<Line>, b: seq<Line>, add: (Counts, Line) -> Counts, from: nat, to: nat)
    requires to <= |a|
    ensures FoldBetween(a + b, add, from, to) == FoldBetween(a, add, from, to)
  {
    if from < to {
      FoldInFront(a, b, add, from, to - 1);
    }
  }

  lemma {:induction false} StartsInFront(a: seq<Line>, b: seq<Line>, modules: seq<ModuleConfig>, from: nat, to: nat)
    requires to <= |a|
    ensures ModuleStarts(a + b, modules, from, to) == ModuleStarts(a, modules, from, to)
  {
    if modules != [] {
      var n := |modules| - 1;
      StartsInFront(a, b, modules[..n], from, to);
      FindUpTo(a, b, StartsWith(modules[n].sectionStart), from, to);
    }
  }

  lemma CountsInFront(a: seq<Line>, b: seq<Line>, starts: seq<nat>, to: nat)
    requires to <= |a| && forall m | 0 <= m < |starts| :: starts[m] < to
    ensures CountsOf(a + b, starts, to) == CountsOf(a, starts, to)
  {
    forall m | 0 <= m < |starts| ensures SectionCounts(a + b, starts, m, to) == SectionCounts(a, starts, m, to) {
      FoldInFront(a, b, AddLine, starts[m] + 1, if m + 1 < |starts| then starts[m + 1] else to);
    }
  }

  /** The counts are read above the Coverage header, so they depend on the head alone. */
  lemma CountsOfHead(head: seq<Line>, rest: seq<Line>, modules: seq<ModuleConfig>)
    requires HeadLaid(head)
    ensures ComputeCounts(head + rest, modules) == ComputeCounts(head, modules)
  {
    var p, c := HeadCoverage(head);
    FindInFront(head, rest, IsPartII, 0);
    FindInFront(head, rest, IsCoverageHeader, p);
    StartsInFront(head, rest, modules, p, c);
    var starts := ModuleStarts(head, modules, p, c);
    if starts.Ok? {
      ModuleStartsBounds(head, modules, p, c);
      if FirstMisordered(starts.value, 1).None? {
        CountsInFront(head, rest, starts.value, c);
      }
    }
  }

  lemma TableIsBelowHead(head: seq<Line>, table: seq<Line>, rest: seq<Line>)
    requires HeadLaid(head) && TableLaid(table)
    ensures TableAt(head + (table + rest)) == Ok(|head|)
  {
    var p, c := HeadCoverage(head);
    var below := table + rest;
    FindInFront(head, below, IsPartII, 0);
    FindInFront(head, below, IsCoverageHeader, p);
    FindPast(head, below, IsTableHeader, c);
    assert below[0] == table[0];
    FindInIs(below, IsTableHeader, 0, |below|, 0);
  }

  lemma CoverageOfLayout(head: seq<Line>, table: seq<Line>, rest: seq<Line>, newTable: seq<Line>)
    requires HeadLaid(head) && TableLaid(table) && StartsOther(rest, '|')
    ensures RegenerateCoverage(head + (table + rest), newTable) == Ok(head + (newTable + rest))
  {
    TableIsBelowHead(head, table, rest);
    RunInFront(head, table, rest, '|');
    assert head + table + rest == head + (table + rest);
    SpliceMiddle(head, table, rest, newTable);
    assert head + newTable + rest == head + (newTable + rest);
  }

  function DatedHead(head: seq<Line>, today: string): seq<Line>
  {
    var dated := RegenerateDate(head, today);
    if dated.Ok? then dated.value else head
  }

  lemma DateOfLayout(head: seq<Line>, rest: seq<Line>, today: string)
    requires HeadLaid(head)
    ensures RegenerateDate(head + rest, today) == Ok(DatedHead(head, today) + rest)
  {
    FindInFront(head, rest, IsLastUpdated, 0);
    FindInMeaning(head, IsLastUpdated, 0, |head|);
    var d := FindIn(head, IsLastUpdated, 0, |head|).value;
    assert (head + rest)[d := LAST_UPDATED_PREFIX + " " + today] == head[d := LAST_UPDATED_PREFIX + " " + today] + rest;
  }

  /* ---- the checklist generator: the Phase tables ---- */

  predicate NoHeader(lines: seq<Line>, header: string)
  {
    forall l <- lines :: !TrimsTo(header)(l)
  }

  lemma UpperBoundShifted(a: seq<Line>, b: seq<Line>, next: Option<string>, from: nat)
    requires from <= |b|
    ensures UpperBound(a + b, next, |a| + from) == |a| + UpperBound(b, next, from)
  {
    if next.Some? {
      FindShifted(a, b, TrimsTo(next.value), from, |b|);
    }
  }

  function ShiftAt(at: Result<nat, DocError>, n: nat): Result<nat, DocError>
  {
    if at.Ok? then Ok(at.value + n) else at
  }

  lemma PhaseTableFromHeader(lines: seq<Line>, header: string, next: Option<string>, h: nat)
    requires h < |lines| && FindIn(lines, TrimsTo(header), 0, |lines|) == Some(h)
    ensures PhaseTableAt(lines, header, next) == TableBelow(lines, header, next, h)
  {
  }

  lemma TableBelowShifted(a: seq<Line>, b: seq<Line>, header: string, next: Option<string>, h: nat)
    requires h < |b|
    ensures TableBelow(a + b, header, next, |a| + h) == ShiftAt(TableBelow(b, header, next, h), |a|)
  {
    UpperBoundShifted(a, b, next, h + 1);
    FindShifted(a, b, IsPhaseTableHeader, h, UpperBound(b, next, h + 1));
  }

  lemma PhaseTableShifted(a: seq<Line>, b: seq<Line>, header: string, next: Option<string>)
    requires NoHeader(a, header)
    ensures PhaseTableAt(a + b, header, next) == ShiftAt(PhaseTableAt(b, header, next), |a|)
  {
    FindPast(a, b, TrimsTo(header), 0);
    FindInMeaning(b, TrimsTo(header), 0, |b|);
    var found := FindIn(b, TrimsTo(header), 0, |b|);
    if found.Some? {
      var h := found.value;
      PhaseTableFromHeader(b, header, next, h);
      PhaseTableFromHeader(a + b, header, next, |a| + h);
      TableBelowShifted(a, b, header, next, h);
    }
  }

  lemma {:induction false} RunShifted(a: seq<Line>, b: seq<Line>, from: nat, c: char)
    requires from <= |b|
    ensures RunEnd(a + b, |a| + from, c) == |a| + RunEnd(b, from, c)
    decreases |b| - from
  {
    if from < |b| {
      assert (a + b)[|a| + from] == b[from];
      RunShifted(a, b, from + 1, c);
    }
  }

  function Prepend(a: seq<Line>, r: Result<seq<Line>, DocError>): Result<seq<Line>, DocError>
  {
    if r.Ok? then Ok(a + r.value) else r
  }

  lemma PhaseStepFromTable(lines: seq<Line>, header: string, next: Option<string>, modules: seq<ModuleConfig>, counts: seq<Counts>)
    requires |counts| == |modules|
    ensures var table := PhaseTableAt(lines, header, next);
            if table.Err? then PhaseStep(lines, header, next, modules, counts) == Err(table.error)
            else table.value < |lines|
                 && PhaseStep(lines, header, next, modules, counts) == StepAt(lines, table.value, header, modules, counts)
  {
    PhaseTableAtBounds(lines, header, next);
  }

  lemma StepAtShifted(a: seq<Line>, b: seq<Line>, at: nat, header: string, modules: seq<ModuleConfig>, counts: seq<Counts>)
    requires |counts| == |modules| && at < |b|
    ensures StepAt(a + b, |a| + at, header, modules, counts) == Prepend(a, StepAt(b, at, header, modules, counts))
  {
    RunShifted(a, b, at + 1, '|');
    var end := RunEnd(b, at + 1, '|');
    if end > at + 2 {
      assert (a + b)[|a| + at + 2..|a| + end] == b[at + 2..end];
      RewrittenShifted(a, b, at, end, b[at + 2..end], modules, counts);
    }
  }

  lemma RewrittenShifted(a: seq<Line>, b: seq<Line>, at: nat, end: nat, rows: seq<Line>,
                         modules: seq<ModuleConfig>, counts: seq<Counts>)
    requires |counts| == |modules| && at <= end <= |b|
    ensures Rewritten(a + b, |a| + at, |a| + end, rows, modules, counts) == Prepend(a, Rewritten(b, at, end, rows, modules, counts))
  {
    var newRows := PhaseRows(rows, modules, counts);
    if newRows.Ok? {
      SpliceShifted(a, b, at, end, PhaseBlock(newRows.value));
    }
  }

  lemma StepFromTable(a: seq<Line>, b: seq<Line>, header: string, next: Option<string>,
                      modules: seq<ModuleConfig>, counts: seq<Counts>, at: nat)
    requires |counts| == |modules|
    requires PhaseTableAt(b, header, next) == Ok(at) && PhaseTableAt(a + b, header, next) == Ok(|a| + at)
    ensures PhaseStep(a + b, header, next, modules, counts) == Prepend(a, PhaseStep(b, header, next, modules, counts))
  {
    PhaseStepFromTable(b, header, next, modules, counts);
    PhaseStepFromTable(a + b, header, next, modules, counts);
    StepAtShifted(a, b, at, header, modules, counts);
  }

  /** A phase step that finds the table of the lower lines rewrites those alone. */
  lemma StepWithTable(a: seq<Line>, b: seq<Line>, header: string, next: Option<string>,
                      modules: seq<ModuleConfig>, counts: seq<Counts>)
    requires |counts| == |modules|
    requires PhaseTableAt(a + b, header, next) == ShiftAt(PhaseTableAt(b, header, next), |a|)
    ensures PhaseStep(a + b, header, next, modules, counts) == Prepend(a, PhaseStep(b, header, next, modules, counts))
  {
    var table := PhaseTableAt(b, header, next);
    if table.Ok? {
      StepFromTable(a, b, header, next, modules, counts, table.value);
    } else {
      PhaseStepFromTable(b, header, next, modules, counts);
      PhaseStepFromTable(a + b, header, next, modules, counts);
    }
  }

  lemma PhaseStepShifted(a: seq<Line>, b: seq<Line>, header: string, next: Option<string>,
                         modules: seq<ModuleConfig>, counts: seq<Counts>)
    requires |counts| == |modules| && NoHeader(a, header)
    ensures PhaseStep(a + b, header, next, modules, counts) == Prepend(a, PhaseStep(b, header, next, modules, counts))
  {
    PhaseTableShifted(a, b, header, next);
    StepWithTable(a, b, header, next, modules, counts);
  }

  lemma PhasesShifted(a: seq<Line>, b: seq<Line>, phase: nat, modules: seq<ModuleConfig>, counts: seq<Counts>)
    requires |counts| == |modules| && phase <= |PHASE_HEADERS|
    requires forall h <- PHASE_HEADERS :: NoHeader(a, h)
    ensures PhasesFrom(a + b, phase, modules, counts) == Prepend(a, PhasesFrom(b, phase, modules, counts))
    decreases |PHASE_HEADERS| - phase
  {
    if phase < |PHASE_HEADERS| {
      var h, next := PHASE_HEADERS[phase], NextHeader(phase);
      PhaseStepShifted(a, b, h, next, modules, counts);
      var step := PhaseStep(b, h, next, modules, counts);
      if step.Ok? {
        PhasesShifted(a, step.value, phase + 1, modules, counts);
      }
    }
  }

  /* ---- the tail keeps its shape ---- */

  /** A phase step moves nothing down to the Phase 1 header, and elsewhere only table rows. */
  lemma StepKeepsTop(tail: seq<Line>, p1: nat, header: string, next: Option<string>,
                     modules: seq<ModuleConfig>, counts: seq<Counts>, out: seq<Line>)
    requires |counts| == |modules| && WellFormedModules(modules) && p1 < |tail|
    requires forall i | 0 <= i < p1 :: !TrimsTo(header)(tail[i])
    requires !Begins(tail[p1], '|')
    requires PhaseStep(tail, header, next, modules, counts) == Ok(out)
    ensures RowsOnly(tail, out) && forall i | 0 <= i <= p1 :: out[i] == tail[i]
  {
    var at, end := PhaseStepShape(tail, header, next, modules, counts, out);
    TableBelowHeader(tail, p1, header, next, at);
    TouchedAreRows(tail, out, modules, Kinds(modules), at, end);
  }

  lemma TableBelowHeader(tail: seq<Line>, p1: nat, header: string, next: Option<string>, at: nat)
    requires p1 < |tail| && PhaseTableAt(tail, header, next) == Ok(at)
    requires forall i | 0 <= i < p1 :: !TrimsTo(header)(tail[i])
    ensures p1 <= at
  {
    var h, upper := PhaseTableParts(tail, header, next, at);
    FindInMeaning(tail, TrimsTo(header), 0, |tail|);
    FindInMeaning(tail, IsPhaseTableHeader, h, upper);
  }

  /** Only table rows change between the two tails. */
  ghost predicate RowsOnly(tail: seq<Line>, out: seq<Line>)
  {
    |out| == |tail| && forall i | 0 <= i < |tail| && out[i] != tail[i] :: Begins(tail[i], '|') && Begins(out[i], '|')
  }

  lemma TouchedAreRows(lines: seq<Line>, out: seq<Line>, modules: seq<ModuleConfig>, kind: Line -> Kind, at: nat, end: nat)
    requires PhaseStepped(lines, out, kind, at, end) && kind == Kinds(modules)
    ensures RowsOnly(lines, out) && Begins(lines[at], '|') && forall i | 0 <= i < at :: out[i] == lines[i]
  {
    RunsAreRows(lines, out, modules, kind, at, end);
    RowsWithin(lines, out, at, end);
  }

  lemma RowsWithin(lines: seq<Line>, out: seq<Line>, at: nat, end: nat)
    requires |out| == |lines| && at < end <= |lines| && AllRows(lines[at..end]) && AllRows(out[at..end])
    requires forall i | 0 <= i < |lines| && !(at <= i < end) :: out[i] == lines[i]
    ensures RowsOnly(lines, out) && Begins(lines[at], '|')
  {
    forall i | at <= i < end ensures Begins(lines[i], '|') && Begins(out[i], '|') {
      assert lines[i] == lines[at..end][i - at] && out[i] == out[at..end][i - at];
    }
  }

  lemma TailLines(tail: seq<Line>, p1: nat)
    requires TailLaid(tail, p1)
    ensures forall h <- PHASE_HEADERS, i | 0 <= i < p1 :: !TrimsTo(h)(tail[i])
    ensures !Begins(tail[p1], '|')
  {
    forall h <- PHASE_HEADERS, i | 0 <= i < p1 ensures !TrimsTo(h)(tail[i]) {
      NoHeaderThere(tail[i], h);
    }
    HeaderIsNoRow(tail[p1]);
  }

  lemma HeaderIsNoRow(l: Line)
    requires IsPhase1(l)
    ensures !Begins(l, '|')
  {
    var lead, trail := TrimDecomposes(l);
    assert PHASE_1_HEADER[0] == '#';
    assert lead != [] ==> l[0] == lead[0] && lead[0] in lead;
  }

  lemma NoHeaderThere(l: Line, h: string)
    requires h in PHASE_HEADERS && (IsSeparator(l) || IsBlank(l))
    ensures !TrimsTo(h)(l)
  {
    assert PHASE_HEADERS[0][0] == '#' && PHASE_HEADERS[1][0] == '#';
  }

  lemma PhasesKeepTail(tail: seq<Line>, p1: nat, phase: nat, modules: seq<ModuleConfig>, counts: seq<Counts>, out: seq<Line>)
    requires |counts| == |modules| && WellFormedModules(modules) && TailLaid(tail, p1) && phase <= |PHASE_HEADERS|
    requires PhasesFrom(tail, phase, modules, counts) == Ok(out)
    ensures TailLaid(out, p1) && RowsOnly(tail, out)
    decreases |PHASE_HEADERS| - phase
  {
    if phase < |PHASE_HEADERS| {
      var step := PhaseStep(tail, PHASE_HEADERS[phase], NextHeader(phase), modules, counts).value;
      OnePhaseKeepsTail(tail, p1, PHASE_HEADERS[phase], NextHeader(phase), modules, counts, step);
      PhasesKeepTail(step, p1, phase + 1, modules, counts, out);
      RowsOnlyTwice(tail, step, out);
    }
  }

  lemma RowsOnlyTwice(a: seq<Line>, b: seq<Line>, c: seq<Line>)
    requires RowsOnly(a, b) && RowsOnly(b, c)
    ensures RowsOnly(a, c)
  {
  }

  lemma OnePhaseKeepsTail(tail: seq<Line>, p1: nat, header: string, next: Option<string>,
                          modules: seq<ModuleConfig>, counts: seq<Counts>, out: seq<Line>)
    requires |counts| == |modules| && WellFormedModules(modules) && TailLaid(tail, p1) && header in PHASE_HEADERS
    requires PhaseStep(tail, header, next, modules, counts) == Ok(out)
    ensures TailLaid(out, p1) && RowsOnly(tail, out)
  {
    TailLines(tail, p1);
    StepKeepsTop(tail, p1, header, next, modules, counts, out);
    SameTop(tail, out, p1);
  }

  lemma SameTop(tail: seq<Line>, out: seq<Line>, p1: nat)
    requires TailLaid(tail, p1) && |out| == |tail| && forall i | 0 <= i <= p1 :: out[i] == tail[i]
    ensures TailLaid(out, p1)
  {
  }

  /* ---- the checklist generator on a layout ---- */

  /** What the checklist generator does to a layout, block by block. */
  function RunOn(l: Layout, modules: seq<ModuleConfig>, today: string): Result<Layout, DocError>
  {
    CountsPerModule(l.head, modules);
    var counts := ComputeCounts(l.head, modules);
    if counts.Err? then Err(counts.error)
    else
      var tail := PhasesFrom(l.tail, 0, modules, counts.value);
      if tail.Err? then Err(tail.error)
      else Ok(l.(head := DatedHead(l.head, today), table := CoverageTable(modules, counts.value), tail := tail.value))
  }

  function RefreshOn(l: Layout, note: seq<Line>, block: seq<Line>): Layout
  {
    l.(note := note, section := block)
  }

  lemma RowIsPlain(l: Line)
    requires Begins(l, '|') || Begins(l, '>')
    ensures Plain(l)
  {
    TrimKeepsFirst(l);
    assert PHASE_HEADERS[0][0] == '#' && PHASE_HEADERS[1][0] == '#' && PHASE_0_HEADER[0] == '#';
  }

  /** No phase header stands above the section. */
  lemma TopHasNoPhase(l: Layout, table: seq<Line>, upper: seq<Line>)
    requires OpenLaid(l) && AllRows(table) && upper == l.mid + l.note + l.gap
    ensures forall h <- PHASE_HEADERS :: NoHeader(l.head + (table + upper), h)
  {
    forall row <- table + l.note ensures Plain(row) { RowIsPlain(row); }
    forall row <- l.head + (table + upper), h <- PHASE_HEADERS ensures !TrimsTo(h)(row) {
      assert row in l.head || row in table + l.note || row in l.mid || row in l.gap;
    }
  }

  lemma RunUnfolds(lines: seq<Line>, modules: seq<ModuleConfig>, today: string)
    ensures var c := ComputeCounts(lines, modules);
            if c.Err? then Run(lines, modules, today) == Err(c.error)
            else |c.value| == |modules| && Run(lines, modules, today) == Rewrite(lines, modules, c.value, today)
  {
    CountsPerModule(lines, modules);
  }

  lemma RewriteUnfolds(lines: seq<Line>, covered: seq<Line>, modules: seq<ModuleConfig>, counts: seq<Counts>, today: string)
    requires |counts| == |modules| && RegenerateCoverage(lines, CoverageTable(modules, counts)) == Ok(covered)
    ensures var phased := PhasesFrom(covered, 0, modules, counts);
            Rewrite(lines, modules, counts, today) == if phased.Err? then phased else RegenerateDate(phased.value, today)
  {
  }

  /** The lines between the table and the section. */
  function Upper(l: Layout): seq<Line>
  {
    l.mid + l.note + l.gap
  }

  /** The checklist generator on a layout, when the section may hold anything. */
  lemma RunOfOpen(l: Layout, modules: seq<ModuleConfig>, today: string)
    requires OpenLaid(l) && WellFormedModules(modules)
    ensures var c := ComputeCounts(l.head, modules);
            if c.Err? then Run(Assemble(l), modules, today) == Err(c.error)
            else |c.value| == |modules|
                 && Run(Assemble(l), modules, today)
                    == Rebuilt(l, c.value, modules, today, PhasesFrom(l.section + l.tail, 0, modules, c.value))
  {
    AssembleNested(l);
    CountsOfHead(l.head, l.table + (Upper(l) + (l.section + l.tail)), modules);
    RunUnfolds(Assemble(l), modules, today);
    var c := ComputeCounts(l.head, modules);
    if c.Ok? {
      RewriteOfOpen(l, modules, c.value, today);
    }
  }

  /** The document around a rewritten section and tail. */
  function Rebuilt(l: Layout, counts: seq<Counts>, modules: seq<ModuleConfig>, today: string,
                   low: Result<seq<Line>, DocError>): Result<seq<Line>, DocError>
    requires |counts| == |modules|
  {
    if low.Err? then low else Ok(DatedHead(l.head, today) + (CoverageTable(modules, counts) + (Upper(l) + low.value)))
  }

  /** The checklist generator rewrites the date line, the table and the tail's rows; nothing else. */
  lemma RunOfLayout(l: Layout, modules: seq<ModuleConfig>, today: string)
    requires WellLaid(l) && WellFormedModules(modules)
    ensures var r := RunOn(l, modules, today);
            Run(Assemble(l), modules, today) == if r.Ok? then Ok(Assemble(r.value)) else Err(r.error)
  {
    RunOfOpen(l, modules, today);
    var c := ComputeCounts(l.head, modules);
    if c.Ok? {
      SectionHasNoPhase(l.section);
      PhasesShifted(l.section, l.tail, 0, modules, c.value);
      RunOnUnfolds(l, modules, today, c.value);
      var r := RunOn(l, modules, today);
      if r.Ok? { AssembleNested(r.value); }
    }
  }

  lemma SectionHasNoPhase(section: seq<Line>)
    requires SectionLaid(section)
    ensures forall h <- PHASE_HEADERS :: NoHeader(section, h)
  {
    forall h <- PHASE_HEADERS, row <- section ensures !TrimsTo(h)(row) {
      assert h == PHASE_HEADERS[0] || h == PHASE_HEADERS[1];
    }
  }

  lemma RunOnUnfolds(l: Layout, modules: seq<ModuleConfig>, today: string, counts: seq<Counts>)
    requires ComputeCounts(l.head, modules) == Ok(counts) && |counts| == |modules|
    ensures var tail := PhasesFrom(l.tail, 0, modules, counts);
            RunOn(l, modules, today) ==
              if tail.Err? then Err(tail.error)
              else Ok(l.(head := DatedHead(l.head, today), table := CoverageTable(modules, counts), tail := tail.value))
  {
  }

  lemma AssembleNested(l: Layout)
    ensures Assemble(l) == l.head + (l.table + (Upper(l) + (l.section + l.tail)))
  {
    var top := l.head + l.table;
    assert top + l.mid + l.note + l.gap == top + Upper(l);
    assert Assemble(l) == (top + Upper(l)) + (l.section + l.tail);
  }

  lemma RewriteOfOpen(l: Layout, modules: seq<ModuleConfig>, counts: seq<Counts>, today: string)
    requires OpenLaid(l) && WellFormedModules(modules) && |counts| == |modules|
    ensures Rewrite(l.head + (l.table + (Upper(l) + (l.section + l.tail))), modules, counts, today)
            == Rebuilt(l, counts, modules, today, PhasesFrom(l.section + l.tail, 0, modules, counts))
  {
    var table, upper, lower := CoverageTable(modules, counts), Upper(l), l.section + l.tail;
    InnerStart(l, lower);
    CoverageOfLayout(l.head, l.table, upper + lower, table);
    RewriteUnfolds(l.head + (l.table + (upper + lower)), l.head + (table + (upper + lower)), modules, counts, today);
    TableKinds(modules, counts);
    TopHasNoPhase(l, table, upper);
    PhasesShifted(l.head + (table + upper), lower, 0, modules, counts);
    Regroup(l.head, table, upper, lower);
    var low := PhasesFrom(lower, 0, modules, counts);
    if low.Ok? {
      Regroup(l.head, table, upper, low.value);
      DateOfLayout(l.head, table + (upper + low.value), today);
    }
  }

  lemma Regroup(a: seq<Line>, b: seq<Line>, c: seq<Line>, d: seq<Line>)
    ensures a + (b + (c + d)) == (a + (b + c)) + d
  {
    assert b + (c + d) == (b + c) + d;
  }

  lemma InnerStart(l: Layout, lower: seq<Line>)
    requires MidLaid(l.mid)
    ensures StartsOther(Upper(l) + lower, '|')
  {
    assert (Upper(l) + lower)[0] == l.mid[0];
  }

  lemma DatedHeadLaid(head: seq<Line>, today: string)
    requires HeadLaid(head)
    ensures HeadLaid(DatedHead(head, today))
  {
    var c: nat :| HeadWith(head, c);
    var out := DatedHead(head, today);
    var d := DateShape(head, today, out);
    DatedCoverage(head, out, c);
    FindInMeaning(out, IsLastUpdated, 0, |out|);
    RowIsPlain(out[d]);
    QuoteIsNoRow(out[d]);
    DateIsNoNote(out[d]);
    ChangedLine(head, out, d, Plain, 0);
    ChangedLine(head, out, d, NoTableNoNote, c);
    assert HeadWith(out, c);
  }

  lemma DatedCoverage(head: seq<Line>, out: seq<Line>, c: nat)
    requires SameHeadings(head, out) && CoverageAt(head, c)
    ensures CoverageAt(out, c)
  {
    SameHeadingSearches(head, out, PHASE_HEADERS[0]);
    FindInAgrees(head, out, IsPartII, 0, |head|);
    FindInAgrees(head, out, IsCoverageHeader, 0, |head|);
  }

  lemma ChangedLine(head: seq<Line>, out: seq<Line>, d: nat, p: Line -> bool, from: nat)
    requires d < |head| == |out| && p(out[d]) && AllLines(head, p, from)
    requires forall i | 0 <= i < |head| && i != d :: out[i] == head[i]
    ensures AllLines(out, p, from)
  {
    forall i | from <= i < |out| ensures p(out[i]) {
      assert i == d || out[i] == head[i];
    }
  }

  lemma DateIsNoNote(l: Line)
    requires IsLastUpdated(l)
    ensures !IsNote(l)
  {
    assert l[2] == LAST_UPDATED_PREFIX[2] == '*';
  }

  /** A run keeps the layout. */
  lemma RunKeepsLayout(l: Layout, modules: seq<ModuleConfig>, today: string)
    requires WellLaid(l) && WellFormedModules(modules) && RunOn(l, modules, today).Ok?
    ensures WellLaid(RunOn(l, modules, today).value)
    ensures RowsOnly(l.tail, RunOn(l, modules, today).value.tail)
  {
    CountsPerModule(l.head, modules);
    var counts := ComputeCounts(l.head, modules).value;
    DatedHeadLaid(l.head, today);
    TableKinds(modules, counts);
    var p1: nat :| TailLaid(l.tail, p1);
    PhasesKeepTail(l.tail, p1, 0, modules, counts, PhasesFrom(l.tail, 0, modules, counts).value);
  }

  /* ---- the Phase 0 generator on a layout ---- */

  lemma NoteOfLayout(top: seq<Line>, c: nat, was: seq<Line>, rest: seq<Line>, note: seq<Line>)
    requires IsNoteBlock(was) && StartsOther(rest, '>')
    requires c < |top| && FindIn(top, IsCoverageHeader, 0, |top|) == Some(c)
    requires forall i | c <= i < |top| :: !IsNote(top[i])
    ensures ReplaceNote(top + was + rest, note) == Ok(top + note + rest)
  {
    AppendAssoc(top, was, rest);
    NoteBelow(top, c, was + rest);
    RunInFront(top, was, rest, '>');
    ReplaceNoteIs(top + was + rest, note, |top|);
    SpliceMiddle(top, was, rest, note);
  }

  lemma NoteBelow(top: seq<Line>, c: nat, below: seq<Line>)
    requires c < |top| && FindIn(top, IsCoverageHeader, 0, |top|) == Some(c)
    requires forall i | c <= i < |top| :: !IsNote(top[i])
    requires below != [] && IsNote(below[0])
    ensures NoteAt(top + below) == Ok(|top|)
  {
    FindInFront(top, below, IsCoverageHeader, 0);
    FindPast(top, below, IsNote, c);
    FindInIs(below, IsNote, 0, |below|, 0);
    NoteAtUnfolds(top + below, c);
  }

  /** The Phase 0 generator rewrites the Note and the section; nothing else. */
  lemma RefreshOfLayout(l: Layout, note: seq<Line>, block: seq<Line>)
    requires WellLaid(l) && IsNoteBlock(note)
    ensures Refresh(Assemble(l), note, block) == Ok(Assemble(RefreshOn(l, note, block)))
  {
    var top := l.head + l.table + l.mid;
    var c := TopCoverage(l);
    assert Assemble(l) == top + l.note + (l.gap + l.section + l.tail);
    NoteOfLayout(top, c, l.note, l.gap + l.section + l.tail, note);
    var above := top + note + l.gap;
    assert top + note + (l.gap + l.section + l.tail) == above + l.section + l.tail;
    var p1: nat :| TailLaid(l.tail, p1);
    AboveIsPlain(l, note);
    SectionOfLayout(above, l.section, l.tail, p1, block);
  }

  lemma AboveIsPlain(l: Layout, note: seq<Line>)
    requires WellLaid(l) && IsNoteBlock(note)
    ensures forall row <- l.head + l.table + l.mid + note + l.gap :: !IsPhase0(row)
    ensures forall row <- l.section :: !IsPhase1(row)
  {
    forall row <- l.table + note ensures Plain(row) { RowIsPlain(row); }
    forall row <- l.head + l.table + l.mid + note + l.gap ensures Plain(row) {
      assert row in l.head || row in l.table + note || row in l.mid || row in l.gap;
    }
    forall row <- l.section ensures !IsPhase1(row) {
      assert !TrimsTo(PHASE_HEADERS[0])(row);
    }
  }

  lemma TopCoverage(l: Layout) returns (c: nat)
    requires WellLaid(l)
    ensures var top := l.head + l.table + l.mid;
            && c < |top| && FindIn(top, IsCoverageHeader, 0, |top|) == Some(c)
            && forall i | c <= i < |top| :: !IsNote(top[i])
  {
    var p;
    p, c := HeadCoverage(l.head);
    var below := l.table + l.mid;
    AppendAssoc(l.head, l.table, l.mid);
    FindInFront(l.head, below, IsCoverageHeader, 0);
    forall row <- below ensures !IsNote(row) {
      if row in l.table { assert Begins(row, '|'); }
    }
    NotesBelow(l.head, below, c);
  }

  lemma NotesBelow(head: seq<Line>, below: seq<Line>, c: nat)
    requires AllLines(head, NoTableNoNote, c) && forall row <- below :: !IsNote(row)
    ensures forall i | c <= i < |head + below| :: !IsNote((head + below)[i])
  {
    forall i | c <= i < |head + below| ensures !IsNote((head + below)[i]) {
      if i < |head| {
        assert NoTableNoNote(head[i]);
      } else {
        assert (head + below)[i] == below[i - |head|];
      }
    }
  }
}
