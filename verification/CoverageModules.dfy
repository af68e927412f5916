/** The module list of the checklist generator, and a head on which it can be counted. */
module CoverageModules {
  import opened Texts
  import opened Sequences
  import opened Documents
  import opened CoverageSummary
  import opened PhaseZero
  import opened PhaseZeroLaws
  import opened ChecklistCommutes
  import opened ChecklistOrders
  import opened ChecklistWitness
  import CF = CoverageFiles

  const CORE := "core-functionality/"

  function RowLabel(folder: string, note: string): string
  {
    "`" + folder + "`" + if note == "" then "" else " — " + note
  }

  /** A module by its folder and the heading its section starts with. */
  function Lane(folder: string, note: string, level: string, path: string): ModuleConfig
  {
    ModuleConfig(RowLabel(folder, note), level + path, false)
  }

  const MODULES: seq<ModuleConfig> := [
    Lane("api/flows/", "REST API", "### ", "api/flows/"),
    Lane("core-components/", "Component Config", "### ", "2."),
    Lane("core-components/", "Core Components", "### ", "3."),
    Lane(CORE + "auth/", "", "### ", CORE + "auth/"),
    Lane(CORE + "knowledge-ingestion/", "", "### ", CORE + "knowledge-ingestion-management/"),
    Lane(CORE + "llm-agents/", "", "### ", CORE + "llm-agents/"),
    Lane(CORE + "model-provider/", "", "### ", CORE + "model-provider/"),
    Lane(CORE + "observability-monitoring/", "", "### ", CORE + "observability-monitoring/"),
    Lane(CORE + "playground/", "", "### ", CORE + "playground/"),
    Lane(CORE + "project-management/", "", "### ", CORE + "project-management/"),
    Lane(CORE + "templates/", "", "### ", CORE + "templates/"),
    Lane(CORE + "a2a/", "", "### ", CORE + "a2a/"),
    Lane("flow-functionality/", "", "## ", "flow-functionality/"),
    Lane("mcp/client/", "", "### ", "mcp/client/"),
    Lane("mcp/server/", "", "### ", "mcp/server/"),
    Lane("ui-ux/", "Canvas", "## ", "ui-ux/"),
    Lane("ui-ux/", "Settings", "#### ", "15.10"),
    Lane("security/", "Validation, SSRF, Secrets", "## ", "security/"),
    Lane("i18n/", "Language and Localization", "## ", "i18n/"),
    Lane("memory/", "Memory Base Registration", "## ", "memory/"),
    Lane("governance/", "Catalog and Provider Policy", "## ", "governance/"),
    Lane("enterprise/", "Enterprise-only Surfaces", "## ", "enterprise/").(excludeFromTotal := true),
    Lane("serving/", "Serving-Plane End-User Identity", "## ", "serving/"),
    Lane("integrations/", "Dedicated Integrations", "## ", "integrations/"),
    Lane("instance-migration/", "Instance Migration", "## ", "instance-migration/")]

  /* ---- a head of section headings alone ---- */

  /** A section prefix that can stand as a heading line of its own. */
  predicate OwnHeading(s: string)
  {
    '\n' !in s && Plain(s) && !IsCoverageHeader(s) && !(s <= PART_II_HEADER)
  }

  /** Each section prefix is a heading, and none begins the heading of an earlier module. */
  ghost predicate Apart(modules: seq<ModuleConfig>)
  {
    && (forall m <- modules :: OwnHeading(m.sectionStart))
    && forall i, j | 0 <= i < j < |modules| :: !(modules[j].sectionStart <= modules[i].sectionStart)
  }

  /** Part II, one heading a module, the Coverage header and the date line. */
  function HeadOf(modules: seq<ModuleConfig>): seq<Line>
  {
    [PART_II_HEADER] + MapSeq(modules, (m: ModuleConfig) => m.sectionStart) + [COVERAGE_SUMMARY_HEADER_PREFIX, LAST_UPDATED_PREFIX]
  }

  lemma HeadLines(modules: seq<ModuleConfig>)
    ensures var head, n := HeadOf(modules), |modules|;
            && |head| == n + 3 && head[0] == PART_II_HEADER && head[n + 1] == COVERAGE_SUMMARY_HEADER_PREFIX
            && head[n + 2] == LAST_UPDATED_PREFIX && forall m | 0 <= m < n :: head[m + 1] == modules[m].sectionStart
  {
  }

  lemma NoPhaseHeader(l: Line)
    requires |l| >= 3 && l[0] == '#' && l[2] != '#'
    ensures Plain(l)
  {
    TrimIsPrefix(l);
    assert PHASE_0_HEADER[2] == '#' && PHASE_HEADERS[0][2] == '#' && PHASE_HEADERS[1][2] == '#';
  }

  lemma PartIsHeader()
    ensures IsPartII(PART_II_HEADER) && !IsCoverageHeader(PART_II_HEADER) && Plain(PART_II_HEADER)
  {
    TrimOfTrimmed(PART_II_HEADER);
    assert COVERAGE_SUMMARY_HEADER_PREFIX[1] == '#' && PART_II_HEADER[1] == ' ';
    NoPhaseHeader(PART_II_HEADER);
  }

  lemma PartIsClean()
    ensures '\n' !in PART_II_HEADER
  {
  }

  lemma CoverageIsHeader()
    ensures IsCoverageHeader(COVERAGE_SUMMARY_HEADER_PREFIX) && Plain(COVERAGE_SUMMARY_HEADER_PREFIX)
    ensures NoTableNoNote(COVERAGE_SUMMARY_HEADER_PREFIX) && '\n' !in COVERAGE_SUMMARY_HEADER_PREFIX
  {
    NoPhaseHeader(COVERAGE_SUMMARY_HEADER_PREFIX);
    CoverageIsNoQuote(COVERAGE_SUMMARY_HEADER_PREFIX);
    assert TABLE_HEADER_PREFIX[0] == '|';
  }

  lemma DateIsHeader()
    ensures IsLastUpdated(LAST_UPDATED_PREFIX) && Plain(LAST_UPDATED_PREFIX) && NoTableNoNote(LAST_UPDATED_PREFIX)
    ensures '\n' !in LAST_UPDATED_PREFIX
  {
    assert LAST_UPDATED_PREFIX[0] == '>' && TABLE_HEADER_PREFIX[0] == '|';
    RowIsPlain(LAST_UPDATED_PREFIX);
    DateIsNoNote(LAST_UPDATED_PREFIX);
    CF.FixedLinesSolid();
  }

  ghost predicate QuietLine(l: Line)
  {
    Plain(l) && '\n' !in l
  }

  /** What a head must hold for its bullets to be counted: the landmarks, and each module on its own line. */
  ghost predicate CountableHead(head: seq<Line>, modules: seq<ModuleConfig>)
  {
    && |head| == |modules| + 3 && IsPartII(head[0]) && IsCoverageHeader(head[|modules| + 1]) && IsLastUpdated(head[|modules| + 2])
    && NoTableNoNote(head[|modules| + 1]) && NoTableNoNote(head[|modules| + 2])
    && (forall i | 0 <= i < |head| :: QuietLine(head[i]))
    && (forall i | 0 <= i <= |modules| :: !IsCoverageHeader(head[i]))
    && forall m | 0 <= m < |modules| :: FirstStart(head, modules[m].sectionStart, m + 1)
  }

  ghost predicate FirstStart(head: seq<Line>, start: string, at: nat)
    requires at < |head|
  {
    start <= head[at] && forall i | 0 <= i < at :: !(start <= head[i])
  }

  lemma Landmarks(modules: seq<ModuleConfig>)
    ensures var head, n := HeadOf(modules), |modules|;
            && IsPartII(head[0]) && IsCoverageHeader(head[n + 1]) && IsLastUpdated(head[n + 2]) && !IsCoverageHeader(head[0])
            && NoTableNoNote(head[n + 1]) && NoTableNoNote(head[n + 2])
  {
    HeadLines(modules);
    PartIsHeader();
    CoverageIsHeader();
    DateIsHeader();
  }

  lemma LandmarksAreQuiet()
    ensures QuietLine(PART_II_HEADER) && QuietLine(COVERAGE_SUMMARY_HEADER_PREFIX) && QuietLine(LAST_UPDATED_PREFIX)
  {
    PartIsHeader();
    PartIsClean();
    CoverageIsHeader();
    DateIsHeader();
  }

  lemma HeadingsAre(modules: seq<ModuleConfig>, m: nat)
    requires Apart(modules) && m < |modules|
    ensures HeadOf(modules)[m + 1] == modules[m].sectionStart && OwnHeading(modules[m].sectionStart)
  {
    HeadLines(modules);
    assert modules[m] in modules;
  }

  lemma OnItsHeading(modules: seq<ModuleConfig>, m: nat)
    requires Apart(modules) && m < |modules|
    ensures FirstStart(HeadOf(modules), modules[m].sectionStart, m + 1)
  {
    HeadLines(modules);
    HeadingsAre(modules, m);
    FirstStartIs(HeadOf(modules), modules, m);
  }

  lemma FirstStartIs(head: seq<Line>, modules: seq<ModuleConfig>, m: nat)
    requires m < |modules| < |head| && !(modules[m].sectionStart <= head[0])
    requires forall k | 0 <= k < |modules| :: head[k + 1] == modules[k].sectionStart
    requires forall i | 0 <= i < m :: !(modules[m].sectionStart <= modules[i].sectionStart)
    ensures FirstStart(head, modules[m].sectionStart, m + 1)
  {
    forall i | 0 < i < m + 1 ensures !(modules[m].sectionStart <= head[i]) {
      assert head[(i - 1) + 1] == modules[i - 1].sectionStart;
    }
  }

  lemma HeadOfIsQuiet(modules: seq<ModuleConfig>, i: nat)
    requires Apart(modules) && i < |HeadOf(modules)|
    ensures QuietLine(HeadOf(modules)[i]) && (i <= |modules| ==> !IsCoverageHeader(HeadOf(modules)[i]))
  {
    var head, n := HeadOf(modules), |modules|;
    HeadLines(modules);
    if 0 < i <= n {
      HeadingsAre(modules, i - 1);
    } else {
      Landmarks(modules);
      LandmarksAreQuiet();
      assert i == 0 || i == n + 1 || i == n + 2;
    }
  }

  lemma HeadOfIsCountable(modules: seq<ModuleConfig>)
    requires Apart(modules)
    ensures CountableHead(HeadOf(modules), modules)
  {
    var head, n := HeadOf(modules), |modules|;
    HeadLines(modules);
    Landmarks(modules);
    forall i | 0 <= i < |head| ensures QuietLine(head[i]) && (i <= n ==> !IsCoverageHeader(head[i])) {
      HeadOfIsQuiet(modules, i);
    }
    forall m | 0 <= m < n ensures FirstStart(head, modules[m].sectionStart, m + 1) {
      OnItsHeading(modules, m);
    }
  }

  lemma CountableSearches(head: seq<Line>, modules: seq<ModuleConfig>)
    requires CountableHead(head, modules)
    ensures FindIn(head, IsPartII, 0, |head|) == Some(0) && FindIn(head, IsCoverageHeader, 0, |head|) == Some(|modules| + 1)
    ensures FindIn(head, IsLastUpdated, 0, |head|).Some?
  {
    FindInIs(head, IsPartII, 0, |head|, 0);
    FindInIs(head, IsCoverageHeader, 0, |head|, |modules| + 1);
    FindInMeaning(head, IsLastUpdated, 0, |head|);
  }

  lemma CountableLines(head: seq<Line>, modules: seq<ModuleConfig>)
    requires CountableHead(head, modules)
    ensures AllLines(head, Plain, 0) && AllLines(head, NoTableNoNote, |modules| + 1)
  {
    forall i | 0 <= i < |head| ensures Plain(head[i]) {
      assert QuietLine(head[i]);
    }
    forall i | |modules| + 1 <= i < |head| ensures NoTableNoNote(head[i]) {
      assert i == |modules| + 1 || i == |modules| + 2;
    }
  }

  lemma CountableIsLaid(head: seq<Line>, modules: seq<ModuleConfig>)
    requires CountableHead(head, modules)
    ensures HeadLaid(head)
  {
    CountableSearches(head, modules);
    CountableLines(head, modules);
    assert HeadWith(head, |modules| + 1);
  }

  function FromOne(n: nat): (starts: seq<nat>)
    ensures |starts| == n
  {
    seq(n, i requires 0 <= i < n => i + 1)
  }

  lemma {:induction false} StartsAreHeadings(head: seq<Line>, modules: seq<ModuleConfig>, to: nat)
    requires |modules| < to <= |head| && forall m | 0 <= m < |modules| :: FirstStart(head, modules[m].sectionStart, m + 1)
    ensures ModuleStarts(head, modules, 0, to) == Ok(FromOne(|modules|))
  {
    if modules != [] {
      var k := |modules|;
      StartsAreHeadings(head, modules[..k - 1], to);
      FindInIs(head, StartsWith(modules[k - 1].sectionStart), 0, to, k);
      assert FromOne(k - 1) + [k] == FromOne(k);
    }
  }

  lemma CountableIsCounted(head: seq<Line>, modules: seq<ModuleConfig>)
    requires CountableHead(head, modules)
    ensures ComputeCounts(head, modules).Ok?
  {
    CountableSearches(head, modules);
    StartsAreHeadings(head, modules, |modules| + 1);
    FirstMisorderedMeaning(FromOne(|modules|), 1);
  }

  /** A list whose headings stand apart can be counted below them. */
  lemma HeadIsCounted(modules: seq<ModuleConfig>)
    requires Apart(modules)
    ensures Counted(HeadOf(modules), modules)
  {
    HeadOfIsCountable(modules);
    CountableIsLaid(HeadOf(modules), modules);
    CountableIsCounted(HeadOf(modules), modules);
  }

  /* ---- the generator's own list ---- */

  /** Which module's section a heading opens, told by a few of its characters. */
  function SectionOf(l: Line): nat
  {
    if |l| < 6 then 25
    else match l[4]
      case 'a' => 0
      case '2' => 1
      case '3' => 2
      case 'c' => CoreSectionOf(l)
      case 'l' => 12
      case 'm' => if |l| > 8 && l[8] == 'c' then 13 else 14
      case 'i' => 15
      case ' ' => 16
      case 'e' => if l[5] == 'c' then 17 else if l[5] == 'm' then 19 else 22
      case '1' => 18
      case 'o' => 20
      case 'n' => if |l| <= 7 then 25 else if l[7] == 'r' then 21 else if l[7] == 'g' then 23 else 24
      case _ => 25
  }

  function CoreSectionOf(l: Line): nat
  {
    if |l| < 25 then 25
    else match l[24]
      case 'u' => 3
      case 'n' => 4
      case 'l' => if l[23] == 'l' then 5 else 8
      case 'o' => 6
      case 'b' => 7
      case 'r' => 9
      case 'e' => 10
      case '2' => 11
      case _ => 25
  }

  lemma PrefixChars(s: string, l: Line)
    requires s <= l
    ensures |s| <= |l| && forall k | 0 <= k < |s| :: l[k] == s[k]
  {
  }

  lemma Sections0To2(m: nat, l: Line)
    requires 0 <= m < 3 && MODULES[m].sectionStart <= l
    ensures SectionOf(l) == m
  {
    PrefixChars(MODULES[m].sectionStart, l);
  }

  lemma Sections3To5(m: nat, l: Line)
    requires 3 <= m < 6 && MODULES[m].sectionStart <= l
    ensures SectionOf(l) == m
  {
    PrefixChars(MODULES[m].sectionStart, l);
  }

  lemma Sections6To8(m: nat, l: Line)
    requires 6 <= m < 9 && MODULES[m].sectionStart <= l
    ensures SectionOf(l) == m
  {
    PrefixChars(MODULES[m].sectionStart, l);
  }

  lemma Sections9To11(m: nat, l: Line)
    requires 9 <= m < 12 && MODULES[m].sectionStart <= l
    ensures SectionOf(l) == m
  {
    PrefixChars(MODULES[m].sectionStart, l);
  }

  lemma Sections12To14(m: nat, l: Line)
    requires 12 <= m < 15 && MODULES[m].sectionStart <= l
    ensures SectionOf(l) == m
  {
    PrefixChars(MODULES[m].sectionStart, l);
  }

  lemma Sections15To17(m: nat, l: Line)
    requires 15 <= m < 18 && MODULES[m].sectionStart <= l
    ensures SectionOf(l) == m
  {
    PrefixChars(MODULES[m].sectionStart, l);
  }

  lemma Sections18To20(m: nat, l: Line)
    requires 18 <= m < 21 && MODULES[m].sectionStart <= l
    ensures SectionOf(l) == m
  {
    PrefixChars(MODULES[m].sectionStart, l);
  }

  lemma Sections21To24(m: nat, l: Line)
    requires 21 <= m < 25 && MODULES[m].sectionStart <= l
    ensures SectionOf(l) == m
  {
    PrefixChars(MODULES[m].sectionStart, l);
  }

  lemma SectionOfHeading(m: nat, l: Line)
    requires m < |MODULES| && MODULES[m].sectionStart <= l
    ensures SectionOf(l) == m
  {
    if m < 3 {
      Sections0To2(m, l);
    } else if m < 6 {
      Sections3To5(m, l);
    } else if m < 9 {
      Sections6To8(m, l);
    } else if m < 12 {
      Sections9To11(m, l);
    } else if m < 15 {
      Sections12To14(m, l);
    } else if m < 18 {
      Sections15To17(m, l);
    } else if m < 21 {
      Sections18To20(m, l);
    } else {
      Sections21To24(m, l);
    }
  }

  /* ---- its labels and headings fit ---- */

  /** Text for a table cell, on one line. */
  predicate CleanText(s: string)
  {
    '|' !in s && '\n' !in s
  }

  predicate EndsInLetter(s: string)
  {
    s != "" && 'A' <= s[|s| - 1] <= 'z'
  }

  lemma LabelFits(folder: string, note: string)
    requires CleanText(folder) && CleanText(note) && (note == "" || EndsInLetter(note))
    ensures var s := RowLabel(folder, note);
            CleanText(s) && Trimmed(s) && s != [] && s != "Module" && s != "--------"
  {
    assert RowLabel(folder, note)[0] == '`';
  }

  /** A section path that begins neither as a Phase header's text nor as the Coverage header's. */
  predicate PathFits(path: string)
  {
    CleanText(path) && |path| >= 2 && path[0] != '#' && path[0] != 'C' && path[0] < '\U{1F000}'
  }

  lemma HeadingFits(level: string, path: string)
    requires level in {"## ", "### ", "#### "} && PathFits(path)
    ensures OwnHeading(level + path) && Begins(level + path, '#')
  {
    var s := level + path;
    assert s[1] == '#' && PART_II_HEADER[1] == ' ';
    assert s[3] != 'C' && COVERAGE_SUMMARY_HEADER_PREFIX[3] == 'C';
    HeadingIsPlain(s);
  }

  lemma HeadingIsPlain(s: string)
    requires |s| > 4 && s[0] == '#' && (s[2] != '#' || s[3] != ' ' || s[4] < '\U{1F000}')
    ensures Plain(s)
  {
    TrimIsPrefix(s);
    assert PHASE_0_HEADER[2] == PHASE_HEADERS[0][2] == PHASE_HEADERS[1][2] == '#';
    assert PHASE_0_HEADER[3] == PHASE_HEADERS[0][3] == PHASE_HEADERS[1][3] == ' ';
    assert PHASE_0_HEADER[4] == '\U{1F7E2}' && PHASE_HEADERS[0][4] == '\U{1F535}' && PHASE_HEADERS[1][4] == '\U{1F7E1}';
  }

  lemma LaneFits(folder: string, note: string, level: string, path: string)
    requires CleanText(folder) && CleanText(note) && (note == "" || EndsInLetter(note))
    requires level in {"## ", "### ", "#### "} && PathFits(path)
    ensures Fitting(Lane(folder, note, level, path))
  {
    LabelFits(folder, note);
    HeadingFits(level, path);
  }

  lemma CoreIsClean()
    ensures PathFits(CORE)
  {
  }

  lemma CoreLaneFits(folder: string, path: string)
    requires CleanText(folder) && CleanText(path)
    ensures Fitting(Lane(CORE + folder, "", "### ", CORE + path))
  {
    CoreIsClean();
    assert (CORE + path)[0] == CORE[0];
    LaneFits(CORE + folder, "", "### ", CORE + path);
  }

  predicate Fitting(m: ModuleConfig)
  {
    WellFormedModule(m) && OwnHeading(m.sectionStart)
  }

  lemma Note1()
    ensures CleanText("Component Config") && EndsInLetter("Component Config")
  {
  }

  lemma Note17()
    ensures CleanText("Validation, SSRF, Secrets") && EndsInLetter("Validation, SSRF, Secrets")
  {
  }

  lemma Note18()
    ensures CleanText("Language and Localization") && EndsInLetter("Language and Localization")
  {
  }

  lemma Note19()
    ensures CleanText("Memory Base Registration") && EndsInLetter("Memory Base Registration")
  {
  }

  lemma Note20()
    ensures CleanText("Catalog and Provider Policy") && EndsInLetter("Catalog and Provider Policy")
  {
  }

  lemma Note21()
    ensures CleanText("Enterprise-only Surfaces") && EndsInLetter("Enterprise-only Surfaces")
  {
  }

  lemma Note22()
    ensures CleanText("Serving-Plane End-User Identity") && EndsInLetter("Serving-Plane End-User Identity")
  {
  }

  lemma Note23()
    ensures CleanText("Dedicated Integrations") && EndsInLetter("Dedicated Integrations")
  {
  }

  lemma Note24()
    ensures CleanText("Instance Migration") && EndsInLetter("Instance Migration")
  {
  }

  lemma Fits0()
    ensures Fitting(MODULES[0])
  {
    LaneFits("api/flows/", "REST API", "### ", "api/flows/");
  }

  lemma Fits1()
    ensures Fitting(MODULES[1])
  {
    Note1();
    LaneFits("core-components/", "Component Config", "### ", "2.");
  }

  lemma Fits2()
    ensures Fitting(MODULES[2])
  {
    LaneFits("core-components/", "Core Components", "### ", "3.");
  }

  lemma Fits3()
    ensures Fitting(MODULES[3])
  {
    CoreLaneFits("auth/", "auth/");
  }

  lemma Fits4()
    ensures Fitting(MODULES[4])
  {
    CoreLaneFits("knowledge-ingestion/", "knowledge-ingestion-management/");
  }

  lemma Fits5()
    ensures Fitting(MODULES[5])
  {
    CoreLaneFits("llm-agents/", "llm-agents/");
  }

  lemma Fits6()
    ensures Fitting(MODULES[6])
  {
    CoreLaneFits("model-provider/", "model-provider/");
  }

  lemma Fits7()
    ensures Fitting(MODULES[7])
  {
    CoreLaneFits("observability-monitoring/", "observability-monitoring/");
  }

  lemma Fits8()
    ensures Fitting(MODULES[8])
  {
    CoreLaneFits("playground/", "playground/");
  }

  lemma Fits9()
    ensures Fitting(MODULES[9])
  {
    CoreLaneFits("project-management/", "project-management/");
  }

  lemma Fits10()
    ensures Fitting(MODULES[10]) && Fitting(MODULES[11])
  {
    CoreLaneFits("templates/", "templates/");
    CoreLaneFits("a2a/", "a2a/");
  }

  lemma Fits12()
    ensures Fitting(MODULES[12]) && Fitting(MODULES[13])
  {
    LaneFits("flow-functionality/", "", "## ", "flow-functionality/");
    LaneFits("mcp/client/", "", "### ", "mcp/client/");
  }

  lemma Fits14()
    ensures Fitting(MODULES[14]) && Fitting(MODULES[15])
  {
    LaneFits("mcp/server/", "", "### ", "mcp/server/");
    LaneFits("ui-ux/", "Canvas", "## ", "ui-ux/");
  }

  lemma Fits16()
    ensures Fitting(MODULES[16])
  {
    LaneFits("ui-ux/", "Settings", "#### ", "15.10");
  }

  lemma Fits17()
    ensures Fitting(MODULES[17])
  {
    Note17();
    LaneFits("security/", "Validation, SSRF, Secrets", "## ", "security/");
  }

  lemma Fits18()
    ensures Fitting(MODULES[18])
  {
    Note18();
    LaneFits("i18n/", "Language and Localization", "## ", "i18n/");
  }

  lemma Fits19()
    ensures Fitting(MODULES[19])
  {
    Note19();
    LaneFits("memory/", "Memory Base Registration", "## ", "memory/");
  }

  lemma Fits20()
    ensures Fitting(MODULES[20])
  {
    Note20();
    LaneFits("governance/", "Catalog and Provider Policy", "## ", "governance/");
  }

  lemma Fits21()
    ensures Fitting(MODULES[21])
  {
    Note21();
    LaneFits("enterprise/", "Enterprise-only Surfaces", "## ", "enterprise/");
  }

  lemma Fits22()
    ensures Fitting(MODULES[22])
  {
    Note22();
    LaneFits("serving/", "Serving-Plane End-User Identity", "## ", "serving/");
  }

  lemma Fits23()
    ensures Fitting(MODULES[23])
  {
    Note23();
    LaneFits("integrations/", "Dedicated Integrations", "## ", "integrations/");
  }

  lemma Fits24()
    ensures Fitting(MODULES[24])
  {
    Note24();
    LaneFits("instance-migration/", "Instance Migration", "## ", "instance-migration/");
  }

  /** The generator's labels and headings fit, and no heading prefix begins an earlier module's heading. */
  lemma ModulesFit()
    ensures Listed(MODULES) && Apart(MODULES)
  {
    forall m | 0 <= m < |MODULES| ensures Fitting(MODULES[m]) {
      if m < 1 {
        Fits0();
      } else if m < 2 {
        Fits1();
      } else if m < 3 {
        Fits2();
      } else if m < 4 {
        Fits3();
      } else if m < 5 {
        Fits4();
      } else if m < 6 {
        Fits5();
      } else if m < 7 {
        Fits6();
      } else if m < 8 {
        Fits7();
      } else if m < 9 {
        Fits8();
      } else if m < 10 {
        Fits9();
      } else if m < 12 {
        Fits10();
      } else if m < 14 {
        Fits12();
      } else if m < 16 {
        Fits14();
      } else if m < 17 {
        Fits16();
      } else if m < 18 {
        Fits17();
      } else if m < 19 {
        Fits18();
      } else if m < 20 {
        Fits19();
      } else if m < 21 {
        Fits20();
      } else if m < 22 {
        Fits21();
      } else if m < 23 {
        Fits22();
      } else if m < 24 {
        Fits23();
      } else {
        Fits24();
      }
    }
    forall i, j | 0 <= i < j < |MODULES| ensures !(MODULES[j].sectionStart <= MODULES[i].sectionStart) {
      SectionOfHeading(i, MODULES[i].sectionStart);
      if MODULES[j].sectionStart <= MODULES[i].sectionStart { SectionOfHeading(j, MODULES[i].sectionStart); }
    }
  }

  /**
   * With the generator's own modules, the order of the two generators never matters if and only
   * if the section does no harm.
   */
  lemma OwnModulesCommuteIffHarmless(tests: seq<StableTest>)
    ensures OrderNeverMatters(tests, MODULES) <==> Harmless(Flat(Section(tests)))
  {
    ModulesFit();
    HeadIsCounted(MODULES);
    CommuteIffHarmless(tests, MODULES);
  }
}
