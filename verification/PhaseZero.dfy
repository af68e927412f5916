/**
 * The Phase 0 generator: replace the Coverage Note and the Phase 0 section of the checklist
 * from the list of `@stable` tests.
 */
module PhaseZero {
  import opened Texts
  import opened Sequences
  import opened Documents
  import CS = CoverageSummary

  datatype StableTest = StableTest(title: string, modulePath: string, specFile: string, relativePath: string, line: nat)

  datatype PhaseError = CoverageHeaderMissing | NoteMissing | Phase0Missing | Phase1Missing | SeparatorMissing

  const PHASE_0_HEADER := "### \U{1F7E2} Phase 0 — Validated"
  const PHASE_1_HEADER := CS.PHASE_HEADERS[0]

  function Quote(text: string): Line { "> " + text }

  const NOTE_SECOND := "`@stable` tag is per-`test()`," + " and a single `@stable` test may map to"
  const NOTE_THIRD := "several bullets via `test.step()`" + " (e.g. the agent suite covers 7"
  const NOTE_FOURTH := "bullets). The canonical list" + " of `@stable` `test()` calls is in"
  const NOTE_FIFTH := "**Phase 0 — Validated** below."

  const NOTE_TEXTS: seq<string> := [NOTE_SECOND, NOTE_THIRD, NOTE_FOURTH, NOTE_FIFTH]

  const NOTE_HEAD := "> Note:" + (" `Validated [x]` counts checklist bullets," + " not `test()` calls. The")

  const NOTE_LINES: seq<Line> := [NOTE_HEAD] + MapSeq(NOTE_TEXTS, Quote)

  predicate IsNote(l: Line) { "> Note:" <= l }
  predicate IsPhase0(l: Line) { Trim(l) == PHASE_0_HEADER }
  predicate IsPhase1(l: Line) { Trim(l) == PHASE_1_HEADER }
  predicate IsBlank(l: Line) { Trim(l) == "" }
  predicate IsSeparator(l: Line) { Trim(l) == "---" }

  /* ---- the Note ---- */

  function NoteAt(lines: seq<Line>): Result<nat, PhaseError>
  {
    var coverage := FindIn(lines, CS.IsCoverageHeader, 0, |lines|);
    if coverage.None? then Err(CoverageHeaderMissing)
    else
      var note := FindIn(lines, IsNote, coverage.value, |lines|);
      if note.None? then Err(NoteMissing) else Ok(note.value)
  }

  lemma NoteAtBounds(lines: seq<Line>)
    ensures var at := NoteAt(lines); at.Ok? ==> at.value < |lines| && IsNote(lines[at.value])
  {
    var coverage := FindIn(lines, CS.IsCoverageHeader, 0, |lines|);
    if coverage.Some? {
      FindInMeaning(lines, IsNote, coverage.value, |lines|);
    }
  }

  function ReplaceNote(lines: seq<Line>, note: seq<Line>): Result<seq<Line>, PhaseError>
  {
    NoteAtBounds(lines);
    var at := NoteAt(lines);
    if at.Err? then Err(at.error) else Ok(Splice(lines, at.value, RunEnd(lines, at.value + 1, '>'), note))
  }

  method ReplaceNoteBlock(lines: seq<Line>, note: seq<Line>) returns (r: Result<seq<Line>, PhaseError>)
    ensures r == ReplaceNote(lines, note)
  {
    NoteAtBounds(lines);
    var coverage := FindLineIndex(lines, CS.IsCoverageHeader, 0, |lines|);
    if coverage.None? { return Err(CoverageHeaderMissing); }
    var noteStart := FindLineIndex(lines, IsNote, coverage.value, |lines|);
    if noteStart.None? { return Err(NoteMissing); }
    var noteEnd := FindRunEnd(lines, noteStart.value, '>');
    return Ok(Splice(lines, noteStart.value, noteEnd, note));
  }

  /* ---- the Phase 0 section ---- */

  /** Walk back from `from` over blank lines, never past `floor`. */
  function WalkBack(lines: seq<Line>, floor: nat, from: nat): (sep: nat)
    requires floor <= from < |lines|
    ensures floor <= sep <= from
  {
    if from > floor && IsBlank(lines[from]) then WalkBack(lines, floor, from - 1) else from
  }

  /** Where the section starts and where its separator is. */
  function SectionAt(lines: seq<Line>): Result<(nat, nat), PhaseError>
  {
    var p0 := FindIn(lines, IsPhase0, 0, |lines|);
    if p0.None? then Err(Phase0Missing) else SectionFrom(lines, p0.value)
  }

  /** The same, once the Phase 0 header is found at `p0`. */
  function SectionFrom(lines: seq<Line>, p0: nat): Result<(nat, nat), PhaseError>
  {
    var p1 := FindIn(lines, IsPhase1, p0 + 1, |lines|);
    FindInMeaning(lines, IsPhase1, p0 + 1, |lines|);
    if p1.None? then Err(Phase1Missing) else SectionBounds(lines, p0, p1.value)
  }

  function SectionBounds(lines: seq<Line>, p0: nat, p1: nat): Result<(nat, nat), PhaseError>
    requires p0 < p1 < |lines|
  {
    var sep := WalkBack(lines, p0, p1 - 1);
    if !IsSeparator(lines[sep]) then Err(SeparatorMissing) else Ok((p0, sep))
  }

  lemma SectionAtBounds(lines: seq<Line>)
    ensures var at := SectionAt(lines); at.Ok? ==> at.value.0 <= at.value.1 < |lines|
  {
    var p0 := FindIn(lines, IsPhase0, 0, |lines|);
    if p0.Some? {
      FindInMeaning(lines, IsPhase1, p0.value + 1, |lines|);
    }
  }

  function ReplaceSection(lines: seq<Line>, block: seq<Line>): Result<seq<Line>, PhaseError>
  {
    SectionAtBounds(lines);
    var at := SectionAt(lines);
    if at.Err? then Err(at.error) else Ok(Splice(lines, at.value.0, at.value.1, block))
  }

  /** Step back over blank lines to the line a separator is expected on. */
  method FindSeparator(lines: seq<Line>, floor: nat, from: nat) returns (sep: nat)
    requires floor <= from < |lines|
    ensures sep == WalkBack(lines, floor, from)
  {
    sep := from;
    while sep > floor && IsBlank(lines[sep])
      invariant floor <= sep <= from
      invariant WalkBack(lines, floor, sep) == WalkBack(lines, floor, from)
    {
      sep := sep - 1;
    }
  }

  method LocateSection(lines: seq<Line>) returns (r: Result<(nat, nat), PhaseError>)
    ensures r == SectionAt(lines)
  {
    var phase0Idx := FindLineIndex(lines, IsPhase0, 0, |lines|);
    if phase0Idx.None? { return Err(Phase0Missing); }
    var phase1Idx := FindLineIndex(lines, IsPhase1, phase0Idx.value + 1, |lines|);
    if phase1Idx.None? { return Err(Phase1Missing); }
    FindInMeaning(lines, IsPhase1, phase0Idx.value + 1, |lines|);
    r := CheckSeparator(lines, phase0Idx.value, phase1Idx.value);
  }

  method CheckSeparator(lines: seq<Line>, phase0Idx: nat, phase1Idx: nat) returns (r: Result<(nat, nat), PhaseError>)
    requires phase0Idx < phase1Idx < |lines|
    ensures r == SectionBounds(lines, phase0Idx, phase1Idx)
  {
    var sepIdx := FindSeparator(lines, phase0Idx, phase1Idx - 1);
    if !IsSeparator(lines[sepIdx]) { return Err(SeparatorMissing); }
    return Ok((phase0Idx, sepIdx));
  }

  method ReplacePhase0Block(lines: seq<Line>, phase0Lines: seq<Line>) returns (r: Result<seq<Line>, PhaseError>)
    ensures r == ReplaceSection(lines, phase0Lines)
  {
    SectionAtBounds(lines);
    var at := LocateSection(lines);
    if at.Err? { return Err(at.error); }
    return Ok(Splice(lines, at.value.0, at.value.1, phase0Lines));
  }

  /** The whole generator over lines: the Note first, then the section. */
  function Refresh(lines: seq<Line>, note: seq<Line>, block: seq<Line>): Result<seq<Line>, PhaseError>
  {
    var noted := ReplaceNote(lines, note);
    if noted.Err? then noted else ReplaceSection(noted.value, block)
  }

  /* ---- the section's own lines ---- */

  /** A title with each template placeholder shown as a name in angle brackets. */
  function RenderTitle(title: string): string
    decreases |title|
  {
    if title == [] then []
    else if "${" <= title && PlaceholderEnd(title, 2) > 2 && PlaceholderEnd(title, 2) < |title| then
      var end := PlaceholderEnd(title, 2);
      "<" + Trim(title[2..end]) + ">" + RenderTitle(title[end + 1..])
    else [title[0]] + RenderTitle(title[1..])
  }

  /** The first `}` at or after `from`, or the end. */
  function PlaceholderEnd(title: string, from: nat): (end: nat)
    requires from <= |title|
    ensures from <= end <= |title|
    decreases |title| - from
  {
    if from == |title| || title[from] == '}' then from else PlaceholderEnd(title, from + 1)
  }

  function Bullet(t: StableTest): Line
  {
    "- [x] " + RenderTitle(t.title) + " → `" + t.specFile + "`"
  }

  function BulletsOf(tests: seq<StableTest>): seq<Line>
  {
    if tests == [] then [] else BulletsOf(tests[..|tests| - 1]) + [Bullet(tests[|tests| - 1])]
  }

  function ModuleOf(t: StableTest): string
  {
    t.modulePath
  }

  /** One `#### module/` group. */
  function Group(tests: seq<StableTest>, key: string): seq<Line>
  {
    ["#### " + key + "/"] + BulletsOf(Having(tests, ModuleOf, key)) + [""]
  }

  function Groups(tests: seq<StableTest>, keys: seq<string>): seq<Line>
  {
    if keys == [] then [] else Groups(tests, keys[..|keys| - 1]) + Group(tests, keys[|keys| - 1])
  }

  function IntroHead(total: nat, specs: nat): string
  {
    Decimal(total) + INTRO_TESTS + Decimal(specs) + INTRO_SPECS
  }

  function IntroTexts(total: nat, specs: nat): seq<string>
  {
    [IntroHead(total, specs)] + INTRO_REST
  }

  const INTRO_TESTS := " `test()` calls carrying the `@stable` tag," + " distributed across "
  const INTRO_SPECS := " spec"
  const INTRO_SECOND := "files. Run weekly by the stable workflow." + " New specs are merged with all"
  const INTRO_THIRD := "tests tagged `@stable`;" + " the tag is removed per-test" + " during weekly triage"
  const INTRO_FOURTH := "when a failure is classified as a test bug" + " — so a spec may end up with a"
  const INTRO_FIFTH := "mix of tagged and untagged tests over time."

  const INTRO_REST: seq<string> := [INTRO_SECOND, INTRO_THIRD, INTRO_FOURTH, INTRO_FIFTH]

  /** Everything below the header: the intro, then the groups. */
  function Body(total: nat, specs: nat, groups: seq<Line>): seq<Line>
  {
    [""] + MapSeq(IntroTexts(total, specs), Quote) + [""] + groups
  }

  function Section(tests: seq<StableTest>): seq<Line>
  {
    [PHASE_0_HEADER] + Body(|tests|, |set t <- tests :: t.relativePath|, Groups(tests, KeysOf(tests, ModuleOf)))
  }

  /* ---- building the section, as the script does ---- */

  method BuildPhase0Block(tests: seq<StableTest>) returns (lines: seq<Line>)
    ensures lines == Section(tests)
  {
    var order, grouped := GroupBy(tests, ModuleOf);
    var groups := RenderGroups(tests, order, grouped);
    lines := [PHASE_0_HEADER] + Body(|tests|, |set t <- tests :: t.relativePath|, groups);
  }

  method RenderGroups(ghost tests: seq<StableTest>, order: seq<string>, grouped: map<string, seq<StableTest>>)
    returns (lines: seq<Line>)
    requires Grouped(tests, ModuleOf, order, grouped)
    ensures lines == Groups(tests, order)
  {
    lines := [];
    for k := 0 to |order|
      invariant lines == Groups(tests, order[..k])
    {
      assert order[..k + 1][..k] == order[..k];
      var bullets := RenderBullets(grouped[order[k]]);
      lines := lines + (["#### " + order[k] + "/"] + bullets + [""]);
    }
    assert order[..|order|] == order;
  }

  method RenderBullets(items: seq<StableTest>) returns (lines: seq<Line>)
    ensures lines == BulletsOf(items)
  {
    lines := [];
    for i := 0 to |items|
      invariant lines == BulletsOf(items[..i])
    {
      assert items[..i + 1][..i] == items[..i];
      lines := lines + [Bullet(items[i])];
    }
    assert items[..|items|] == items;
  }

  /* ---- the whole script ---- */

  /** From the text of the checklist to the text the script leaves. */
  function RefreshText(original: string, tests: seq<StableTest>): Result<string, PhaseError>
  {
    var updated := Refresh(LinesOf(original), NOTE_LINES, Section(tests));
    if updated.Err? then Err(updated.error) else Ok(TextOf(updated.value, EndsWithNewline(original)))
  }

  method RefreshChecklist(original: string, tests: seq<StableTest>) returns (r: Result<string, PhaseError>)
    ensures r == RefreshText(original, tests)
  {
    var phase0Lines := BuildPhase0Block(tests);
    var updated := ReplaceNoteBlock(LinesOf(original), NOTE_LINES);
    if updated.Err? { return Err(updated.error); }
    updated := ReplacePhase0Block(updated.value, phase0Lines);
    if updated.Err? { return Err(updated.error); }
    return Ok(TextOf(updated.value, EndsWithNewline(original)));
  }
}
