/** The checklist generator on whole files, and what its totals count. */
module CoverageFiles {
  import opened Texts
  import opened Documents
  import opened CoverageSummary
  import opened CoverageIdempotence

  /* ---- the text of a generated document ---- */

  /** Lines that survive being written and read back. */
  ghost predicate Writable(lines: seq<Line>, trailingNewline: bool)
  {
    CleanLines(lines) && (!trailingNewline ==> |lines| == 1 || lines[|lines| - 1] != [])
  }

  /** A generated line: not empty, no newline. */
  predicate Solid(l: Line)
  {
    l != [] && '\n' !in l
  }

  lemma SpliceWritable(lines: seq<Line>, from: nat, to: nat, block: seq<Line>, trailingNewline: bool)
    requires Writable(lines, trailingNewline) && from < to <= |lines|
    requires block != [] && forall l <- block :: Solid(l)
    ensures Writable(Splice(lines, from, to, block), trailingNewline)
  {
    var out := Splice(lines, from, to, block);
    forall l <- out ensures '\n' !in l {
      assert l in lines[..from] || l in block || l in lines[to..];
    }
    if to == |lines| {
      assert out[|out| - 1] == block[|block| - 1] && block[|block| - 1] in block;
    } else {
      assert out[|out| - 1] == lines[|lines| - 1];
    }
  }

  lemma DecimalClean(n: nat)
    ensures '\n' !in Decimal(n)
  {
    DecimalRoundTrip(n);
  }

  lemma CountsClean(c: Counts)
    ensures '\n' !in DataCells(c) && '\n' !in PhaseCells(c)
  {
    DecimalClean(TotalOf(c));
    DecimalClean(c.validated);
    DecimalClean(c.needsValidation);
    DecimalClean(c.partial);
    DecimalClean(c.notAutomated);
  }

  lemma PercentClean(part: nat, whole: nat)
    ensures '\n' !in Percent(part, whole)
  {
    if whole != 0 { DecimalClean((200 * part + whole) / (2 * whole)); }
  }

  lemma CellClean(number: string, percent: string)
    requires '\n' !in number && '\n' !in percent
    ensures '\n' !in "**" + number + " (" + percent + ")** |"
  {
  }

  lemma ShareClean(part: nat, whole: nat)
    ensures '\n' !in Share(part, whole)
  {
    DecimalClean(part);
    PercentClean(part, whole);
    CellClean(Decimal(part), Percent(part, whole));
  }

  lemma TotalsClean(tot: Counts)
    ensures '\n' !in TotalCells(tot)
  {
    var sum := TotalOf(tot);
    DecimalClean(sum);
    ShareClean(tot.validated, sum);
    ShareClean(tot.needsValidation, sum);
    ShareClean(tot.partial, sum);
    ShareClean(tot.notAutomated, sum);
  }

  lemma RowOfSolid(cell: string, rest: string)
    requires '\n' !in cell && '\n' !in rest
    ensures Solid(RowOf(cell, rest))
  {
  }

  lemma {:induction false} ExcludedKeysClean(modules: seq<ModuleConfig>)
    requires WellFormedModules(modules)
    ensures forall k <- ExcludedKeys(modules) :: '\n' !in k
  {
    if modules != [] {
      var n := |modules| - 1;
      ExcludedKeysClean(modules[..n]);
      assert modules[n] in modules;
      BeforeDashPrefix(modules[n].rowLabel);
      var key := BeforeDash(modules[n].rowLabel);
      assert forall i | 0 <= i < |key| :: key[i] == modules[n].rowLabel[i];
    }
  }

  lemma TotalLabelClean(excluded: seq<string>)
    requires forall k <- excluded :: '\n' !in k
    ensures '\n' !in TotalLabel(excluded)
  {
    JoinAvoids(excluded, ", ", '\n');
    var keys := Join(excluded, ", ");
    assert '\n' !in " (OSS — excludes " + keys + ")";
  }

  lemma TotalRowSolid(excluded: seq<string>, tot: Counts)
    requires forall k <- excluded :: '\n' !in k
    ensures Solid(TotalRow(excluded, tot))
  {
    TotalLabelClean(excluded);
    TotalsClean(tot);
    RowOfSolid(TotalLabel(excluded), TotalCells(tot));
  }

  lemma DataRowSolid(m: ModuleConfig, c: Counts)
    requires WellFormedModule(m)
    ensures Solid(DataRow(m, c))
  {
    CountsClean(c);
    RowOfSolid(DataLabel(m), DataCells(c));
  }

  lemma TableSolid(modules: seq<ModuleConfig>, counts: seq<Counts>)
    requires |counts| == |modules| && WellFormedModules(modules)
    ensures forall l <- CoverageTable(modules, counts) :: Solid(l)
  {
    ExcludedKeysClean(modules);
    TotalRowSolid(ExcludedKeys(modules), TotalCounts(modules, counts));
    forall l <- DataRows(modules, counts) ensures Solid(l) {
      var i :| 0 <= i < |modules| && DataRows(modules, counts)[i] == l;
      assert modules[i] in modules;
      DataRowSolid(modules[i], counts[i]);
    }
    FixedLinesSolid();
  }

  lemma FixedLinesSolid()
    ensures Solid(TABLE_HEADER) && Solid(TABLE_SEPARATOR) && Solid(PHASE_TABLE_HEADER) && Solid(PHASE_TABLE_SEPARATOR)
    ensures Solid(LAST_UPDATED_PREFIX)
  {
    CoverageLinesSolid();
    PhaseLinesSolid();
  }

  lemma CoverageLinesSolid()
    ensures Solid(TABLE_HEADER) && Solid(TABLE_SEPARATOR)
  {
  }

  lemma PhaseLinesSolid()
    ensures Solid(PHASE_TABLE_HEADER) && Solid(PHASE_TABLE_SEPARATOR) && Solid(LAST_UPDATED_PREFIX)
  {
  }

  lemma PhaseBlockSolid(rows: seq<Line>, modules: seq<ModuleConfig>, counts: seq<Counts>)
    requires |counts| == |modules| && WellFormedModules(modules) && PhaseRows(rows, modules, counts).Ok?
    ensures forall l <- PhaseBlock(PhaseRows(rows, modules, counts).value) :: Solid(l)
  {
    FixedLinesSolid();
    var newRows := PhaseRows(rows, modules, counts).value;
    forall l <- newRows ensures Solid(l) {
      var i :| 0 <= i < |newRows| && newRows[i] == l;
      PhaseRowsAt(rows, modules, counts, i);
      var index := IndexOfLabel(modules, FirstCell(rows[i])).value;
      assert modules[index] in modules;
      CountsClean(counts[index]);
      RowOfSolid(FirstCell(rows[i]), PhaseCells(counts[index]));
    }
  }

  lemma StepWritable(lines: seq<Line>, header: string, next: Option<string>, modules: seq<ModuleConfig>,
                     counts: seq<Counts>, out: seq<Line>, trailingNewline: bool)
    requires |counts| == |modules| && WellFormedModules(modules) && Writable(lines, trailingNewline)
    requires PhaseStep(lines, header, next, modules, counts) == Ok(out)
    ensures Writable(out, trailingNewline)
  {
    var at, end := PhaseStepShape(lines, header, next, modules, counts, out);
    PhaseBlockSolid(lines[at + 2..end], modules, counts);
    SpliceWritable(lines, at, end, PhaseBlock(PhaseRows(lines[at + 2..end], modules, counts).value), trailingNewline);
  }

  lemma DateWritable(lines: seq<Line>, today: string, out: seq<Line>, trailingNewline: bool)
    requires Writable(lines, trailingNewline) && '\n' !in today && RegenerateDate(lines, today) == Ok(out)
    ensures Writable(out, trailingNewline)
  {
    FixedLinesSolid();
    FindInMeaning(lines, IsLastUpdated, 0, |lines|);
    var d := FindIn(lines, IsLastUpdated, 0, |lines|).value;
    var date := LAST_UPDATED_PREFIX + " " + today;
    assert Solid(date);
    assert out == Splice(lines, d, d + 1, [date]);
    SpliceWritable(lines, d, d + 1, [date], trailingNewline);
  }

  lemma RunWritable(lines: seq<Line>, modules: seq<ModuleConfig>, today: string, out: seq<Line>, trailingNewline: bool)
    requires WellFormedModules(modules) && '\n' !in today && Writable(lines, trailingNewline)
    requires Run(lines, modules, today) == Ok(out)
    ensures Writable(out, trailingNewline)
  {
    CountsPerModule(lines, modules);
    var counts := ComputeCounts(lines, modules).value;
    var covered, first, second := RewriteStages(lines, modules, counts, today, out);
    var a, b := CoverageShape(lines, CoverageTable(modules, counts), covered);
    TableSolid(modules, counts);
    SpliceWritable(lines, a, b, CoverageTable(modules, counts), trailingNewline);
    StepWritable(covered, PHASE_HEADERS[0], NextHeader(0), modules, counts, first, trailingNewline);
    StepWritable(first, PHASE_HEADERS[1], NextHeader(1), modules, counts, second, trailingNewline);
    DateWritable(second, today, out, trailingNewline);
  }

  /** On whole files: a second run on the same day writes back the very same text. */
  lemma GenerateIsIdempotent(original: string, modules: seq<ModuleConfig>, today: string, written: string)
    requires WellFormedModules(modules) && '\n' !in today
    requires Generate(original, modules, today) == Ok(written)
    ensures Generate(written, modules, today) == Ok(written)
  {
    var trailing := EndsWithNewline(original);
    var lines := LinesOf(original);
    var out := Run(lines, modules, today).value;
    LinesOfClean(original);
    RunWritable(lines, modules, today, out, trailing);
    LinesReadBack(out, trailing);
    RunIsIdempotent(lines, modules, today, out);
  }

  /* ---- the totals count every bullet once ---- */

  function Sum(counts: seq<Counts>): nat
  {
    if counts == [] then 0 else Sum(counts[..|counts| - 1]) + TotalOf(counts[|counts| - 1])
  }

  function BulletCount(line: Line): nat
  {
    if MarkerOf(line).Some? then 1 else 0
  }

  /** The weights of a range of lines, added up. */
  function Tally(lines: seq<Line>, weight: Line -> nat, from: nat, to: nat): nat
    requires to <= |lines|
  {
    if from >= to then 0 else Tally(lines, weight, from, to - 1) + weight(lines[to - 1])
  }

  /** How many lines of a range are bullets of any state. */
  function Bullets(lines: seq<Line>, from: nat, to: nat): nat
    requires to <= |lines|
  {
    Tally(lines, BulletCount, from, to)
  }

  lemma OneMoreLine(c: Counts, line: Line)
    ensures TotalOf(AddLine(c, line)) == TotalOf(c) + BulletCount(line)
  {
  }

  /** Adding a line adds its weight to the total. */
  ghost predicate Additive(add: (Counts, Line) -> Counts, total: Counts -> nat, weight: Line -> nat)
  {
    total(ZERO) == 0 && forall c, l :: Adds(add, total, weight, c, l)
  }

  predicate Adds(add: (Counts, Line) -> Counts, total: Counts -> nat, weight: Line -> nat, c: Counts, l: Line)
  {
    total(add(c, l)) == total(c) + weight(l)
  }

  lemma AddLineIsAdditive()
    ensures Additive(AddLine, TotalOf, BulletCount)
  {
    forall c, l ensures Adds(AddLine, TotalOf, BulletCount, c, l) { OneMoreLine(c, l); }
  }

  lemma {:induction false} FoldTallies(lines: seq<Line>, add: (Counts, Line) -> Counts, total: Counts -> nat, weight: Line -> nat,
                                       from: nat, to: nat)
    requires to <= |lines| && Additive(add, total, weight)
    ensures total(FoldBetween(lines, add, from, to)) == Tally(lines, weight, from, to)
  {
    if from < to {
      FoldTallies(lines, add, total, weight, from, to - 1);
      assert Adds(add, total, weight, FoldBetween(lines, add, from, to - 1), lines[to - 1]);
    }
  }

  lemma CountsAreBullets(lines: seq<Line>, from: nat, to: nat)
    requires to <= |lines|
    ensures TotalOf(CountBetween(lines, from, to)) == Bullets(lines, from, to)
  {
    AddLineIsAdditive();
    FoldTallies(lines, AddLine, TotalOf, BulletCount, from, to);
  }

  lemma {:induction false} TallyAdds(lines: seq<Line>, weight: Line -> nat, from: nat, mid: nat, to: nat)
    requires from <= mid <= to <= |lines|
    ensures Tally(lines, weight, from, to) == Tally(lines, weight, from, mid) + Tally(lines, weight, mid, to)
  {
    if mid < to {
      TallyAdds(lines, weight, from, mid, to - 1);
    }
  }

  lemma BelowHeading(lines: seq<Line>, weight: Line -> nat, start: nat, end: nat)
    requires start < end <= |lines| && weight(lines[start]) == 0
    ensures Tally(lines, weight, start + 1, end) == Tally(lines, weight, start, end)
  {
    TallyAdds(lines, weight, start, start + 1, end);
    assert Tally(lines, weight, start, start) == 0;
  }

  lemma HeadingIsNoBullet(l: Line)
    requires Begins(l, '#')
    ensures BulletCount(l) == 0
  {
  }

  lemma SumSnoc(counts: seq<Counts>, n: nat)
    requires n < |counts|
    ensures Sum(counts[..n + 1]) == Sum(counts[..n]) + TotalOf(counts[n])
  {
    assert counts[..n + 1][..n] == counts[..n];
  }

  /** Sections that tile a range add up to the range. */
  lemma {:induction false} SectionsAddUp(lines: seq<Line>, weight: Line -> nat, counts: seq<Counts>, ends: seq<nat>, n: nat)
    requires |ends| == |counts| + 1 && n < |counts| && Ascending(ends, |lines|)
    requires forall m | 0 <= m < |counts| :: TotalOf(counts[m]) == Tally(lines, weight, ends[m], ends[m + 1])
    ensures Sum(counts[..n + 1]) == Tally(lines, weight, ends[0], ends[n + 1])
  {
    SumSnoc(counts, n);
    if n == 0 {
      assert counts[..0] == [];
    } else {
      SectionsAddUp(lines, weight, counts, ends, n - 1);
      TallyAdds(lines, weight, ends[0], ends[n], ends[n + 1]);
    }
  }

  ghost predicate Ascending(ends: seq<nat>, bound: nat)
  {
    (forall i, j | 0 <= i < j < |ends| :: ends[i] < ends[j]) && forall i | 0 <= i < |ends| :: ends[i] <= bound
  }

  lemma OneSection(lines: seq<Line>, modules: seq<ModuleConfig>, starts: seq<nat>, to: nat, m: nat, end: nat)
    requires WellFormedModules(modules) && |starts| == |modules| && m < |modules| && to <= |lines|
    requires forall k | 0 <= k < |starts| :: starts[k] < to
    requires modules[m].sectionStart <= lines[starts[m]] && starts[m] < end
    requires end == if m + 1 < |starts| then starts[m + 1] else to
    ensures TotalOf(SectionCounts(lines, starts, m, to)) == Bullets(lines, starts[m], end)
  {
    assert modules[m] in modules;
    assert lines[starts[m]][0] == modules[m].sectionStart[0];
    HeadingIsNoBullet(lines[starts[m]]);
    BelowHeading(lines, BulletCount, starts[m], end);
    CountsAreBullets(lines, starts[m] + 1, end);
  }

  /**
   * The counts of the table add up to the bullets of Part II: every bullet from the first
   * module's heading to the Coverage Summary is counted in exactly one module and one state.
   */
  lemma EveryBulletIsCountedOnce(lines: seq<Line>, modules: seq<ModuleConfig>) returns (from: nat, to: nat)
    requires WellFormedModules(modules) && modules != [] && ComputeCounts(lines, modules).Ok?
    ensures from < to < |lines| && modules[0].sectionStart <= lines[from] && IsCoverageHeader(lines[to])
    ensures Sum(ComputeCounts(lines, modules).value) == Bullets(lines, from, to)
  {
    var starts;
    starts, to := ModuleLayout(lines, modules);
    from := starts[0];
    var counts := ComputeCounts(lines, modules).value;
    SectionsTile(lines, modules, starts, to, starts + [to]);
    SectionsAddUp(lines, BulletCount, counts, starts + [to], |modules| - 1);
    assert counts[..|modules|] == counts;
  }

  lemma SectionsTile(lines: seq<Line>, modules: seq<ModuleConfig>, starts: seq<nat>, to: nat, ends: seq<nat>)
    requires WellFormedModules(modules) && |starts| == |modules| && to <= |lines|
    requires ends == starts + [to] && Ascending(ends, |lines|)
    requires forall m | 0 <= m < |starts| :: starts[m] < to && modules[m].sectionStart <= lines[starts[m]]
    ensures forall m | 0 <= m < |starts| ::
              TotalOf(CountsOf(lines, starts, to)[m]) == Tally(lines, BulletCount, ends[m], ends[m + 1])
  {
    forall m | 0 <= m < |starts|
      ensures TotalOf(SectionCounts(lines, starts, m, to)) == Bullets(lines, ends[m], ends[m + 1])
    {
      assert ends[m] < ends[m + 1];
      OneSection(lines, modules, starts, to, m, ends[m + 1]);
    }
  }

  lemma ModuleLayout(lines: seq<Line>, modules: seq<ModuleConfig>) returns (starts: seq<nat>, to: nat)
    requires ComputeCounts(lines, modules).Ok?
    ensures to < |lines| && IsCoverageHeader(lines[to]) && |starts| == |modules| && Ascending(starts + [to], |lines|)
    ensures forall m | 0 <= m < |starts| :: starts[m] < to && modules[m].sectionStart <= lines[starts[m]]
    ensures ComputeCounts(lines, modules).value == CountsOf(lines, starts, to)
  {
    var partII := FindIn(lines, IsPartII, 0, |lines|).value;
    FindInMeaning(lines, IsCoverageHeader, partII, |lines|);
    to := FindIn(lines, IsCoverageHeader, partII, |lines|).value;
    ModuleStartsBounds(lines, modules, partII, to);
    starts := ModuleStarts(lines, modules, partII, to).value;
    FirstMisorderedMeaning(starts, 1);
    StartsAscend(starts);
  }

  lemma StartsAscend(starts: seq<nat>)
    requires forall m | 1 <= m < |starts| :: starts[m - 1] < starts[m]
    ensures forall i, j | 0 <= i < j < |starts| :: starts[i] < starts[j]
  {
    forall i, j | 0 <= i < j < |starts| ensures starts[i] < starts[j] {
      StartBelow(starts, i, j);
    }
  }

  lemma {:induction false} StartBelow(starts: seq<nat>, i: nat, j: nat)
    requires i < j < |starts| && forall m | 1 <= m < |starts| :: starts[m - 1] < starts[m]
    ensures starts[i] < starts[j]
  {
    if i + 1 < j { StartBelow(starts, i, j - 1); }
  }

  /** The total row is the sum of the rows it does not exclude. */
  lemma {:induction false} TotalIsSumOfIncluded(modules: seq<ModuleConfig>, counts: seq<Counts>)
    requires |counts| == |modules|
    ensures TotalOf(TotalCounts(modules, counts)) + Sum(ExcludedCounts(modules, counts)) == Sum(counts)
  {
    if modules != [] {
      var n := |modules| - 1;
      TotalIsSumOfIncluded(modules[..n], counts[..n]);
      if modules[n].excludeFromTotal {
        var front := ExcludedCounts(modules[..n], counts[..n]);
        assert (front + [counts[n]])[..|front|] == front;
      }
    }
  }

  function ExcludedCounts(modules: seq<ModuleConfig>, counts: seq<Counts>): seq<Counts>
    requires |counts| == |modules|
  {
    if modules == [] then []
    else
      var n := |modules| - 1;
      var front := ExcludedCounts(modules[..n], counts[..n]);
      if modules[n].excludeFromTotal then front + [counts[n]] else front
  }
}
