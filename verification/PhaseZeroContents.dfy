/** What the Phase 0 section lists, read back line by line. */
module PhaseZeroContents {
  import opened Texts
  import opened Sequences
  import opened Documents
  import opened PhaseZero

  /* ---- reading a section ---- */

  /** A bullet of the section, under the module heading above it. */
  datatype Entry = Entry(modulePath: string, bullet: Line)

  predicate IsHeading(l: Line)
  {
    |l| >= 6 && l[..5] == "#### " && l[|l| - 1] == '/'
  }

  predicate IsBullet(l: Line)
  {
    "- [x] " <= l
  }

  /** The bullets of some lines, each with the last heading above it. */
  function Read(lines: seq<Line>, heading: string): seq<Entry>
  {
    if lines == [] then []
    else if IsHeading(lines[0]) then Read(lines[1..], lines[0][5..|lines[0]| - 1])
    else (if IsBullet(lines[0]) then [Entry(heading, lines[0])] else []) + Read(lines[1..], heading)
  }

  /** The heading that stands last, once the lines are read. */
  function LastHeading(lines: seq<Line>, heading: string): string
  {
    if lines == [] then heading
    else LastHeading(lines[1..], if IsHeading(lines[0]) then lines[0][5..|lines[0]| - 1] else heading)
  }

  lemma {:induction false} ReadAppend(a: seq<Line>, b: seq<Line>, heading: string)
    ensures Read(a + b, heading) == Read(a, heading) + Read(b, LastHeading(a, heading))
  {
    if a == [] {
      assert a + b == b;
    } else {
      assert (a + b)[1..] == a[1..] + b;
      ReadAppend(a[1..], b, if IsHeading(a[0]) then a[0][5..|a[0]| - 1] else heading);
    }
  }

  lemma {:induction false} NothingRead(lines: seq<Line>, heading: string)
    requires forall l <- lines :: !IsHeading(l) && !IsBullet(l)
    ensures Read(lines, heading) == [] && LastHeading(lines, heading) == heading
  {
    if lines != [] {
      assert lines[0] in lines && forall l <- lines[1..] :: l in lines;
      NothingRead(lines[1..], heading);
    }
  }

  /* ---- what it should list ---- */

  /** The bullet of a test: its title, placeholders shown, and its spec. */
  function EntryOf(t: StableTest): Entry
  {
    Entry(t.modulePath, "- [x] " + RenderTitle(t.title) + " → `" + t.specFile + "`")
  }

  lemma BulletKinds(t: StableTest)
    ensures Bullet(t) == EntryOf(t).bullet && IsBullet(Bullet(t)) && !IsHeading(Bullet(t))
  {
    var rest := RenderTitle(t.title) + " → `" + t.specFile + "`";
    assert Bullet(t) == "- [x] " + rest;
    assert Bullet(t)[0] == '-';
    assert Bullet(t)[..6] == "- [x] ";
  }

  lemma {:induction false} BulletsRead(tests: seq<StableTest>, heading: string)
    requires forall t <- tests :: t.modulePath == heading
    ensures Read(BulletsOf(tests), heading) == MapSeq(tests, EntryOf) && LastHeading(BulletsOf(tests), heading) == heading
  {
    if tests != [] {
      var n := |tests| - 1;
      BulletsRead(tests[..n], heading);
      BulletKinds(tests[n]);
      ReadAppend(BulletsOf(tests[..n]), [Bullet(tests[n])], heading);
      HeadingAfter(BulletsOf(tests[..n]), [Bullet(tests[n])], heading);
      OneBulletRead(Bullet(tests[n]), heading);
      assert tests == tests[..n] + [tests[n]];
      assert MapSeq(tests, EntryOf) == MapSeq(tests[..n], EntryOf) + [EntryOf(tests[n])];
    }
  }

  lemma OneBulletRead(l: Line, heading: string)
    requires IsBullet(l) && !IsHeading(l)
    ensures Read([l], heading) == [Entry(heading, l)] && LastHeading([l], heading) == heading
  {
    assert [l][1..] == [];
  }

  lemma {:induction false} HeadingAfter(a: seq<Line>, b: seq<Line>, heading: string)
    ensures LastHeading(a + b, heading) == LastHeading(b, LastHeading(a, heading))
  {
    if a == [] {
      assert a + b == b;
    } else {
      assert (a + b)[1..] == a[1..] + b;
      HeadingAfter(a[1..], b, if IsHeading(a[0]) then a[0][5..|a[0]| - 1] else heading);
    }
  }

  lemma HeadingReads(key: string)
    ensures var l := "#### " + key + "/"; IsHeading(l) && l[5..|l| - 1] == key
  {
  }

  lemma GroupRead(tests: seq<StableTest>, key: string, heading: string)
    ensures Read(Group(tests, key), heading) == MapSeq(Having(tests, ModuleOf, key), EntryOf)
    ensures LastHeading(Group(tests, key), heading) == key
  {
    var l, bullets := "#### " + key + "/", BulletsOf(Having(tests, ModuleOf, key));
    HeadingReads(key);
    GroupIsOfModule(tests, key);
    BulletsRead(Having(tests, ModuleOf, key), key);
    BlankReads(key);
    ReadAppend(bullets, [""], key);
    HeadingAfter(bullets, [""], key);
    assert Group(tests, key) == [l] + (bullets + [""]);
    assert ([l] + (bullets + [""]))[1..] == bullets + [""];
  }

  lemma BlankReads(heading: string)
    ensures Read([""], heading) == [] && LastHeading([""], heading) == heading
  {
    assert [""][1..] == [];
    assert !IsBullet("");
  }

  lemma GroupIsOfModule(tests: seq<StableTest>, key: string)
    ensures forall t <- Having(tests, ModuleOf, key) :: t.modulePath == key
  {
    FilterMembers(tests, HasKey(ModuleOf, key));
    forall t <- Having(tests, ModuleOf, key) ensures t.modulePath == key {
      assert ModuleOf(t) == t.modulePath && HasKey(ModuleOf, key)(t);
    }
  }

  lemma {:induction false} GroupsRead(tests: seq<StableTest>, keys: seq<string>, heading: string)
    ensures Read(Groups(tests, keys), heading) == MapSeq(InGroups(tests, ModuleOf, keys), EntryOf)
  {
    if keys != [] {
      var n := |keys| - 1;
      var front := Groups(tests, keys[..n]);
      GroupsRead(tests, keys[..n], heading);
      GroupRead(tests, keys[n], LastHeading(front, heading));
      ReadAppend(front, Group(tests, keys[n]), heading);
      var before, group := InGroups(tests, ModuleOf, keys[..n]), Having(tests, ModuleOf, keys[n]);
      assert MapSeq(before + group, EntryOf) == MapSeq(before, EntryOf) + MapSeq(group, EntryOf);
    }
  }

  lemma QuoteReads(text: string)
    ensures !IsHeading(Quote(text)) && !IsBullet(Quote(text))
  {
    assert Quote(text)[0] == '>';
  }

  /** The section reads back as its tests: module by module in first-seen order, each module's tests in their own order. */
  lemma SectionReads(tests: seq<StableTest>)
    ensures Read(Section(tests), "") == MapSeq(InGroups(tests, ModuleOf, KeysOf(tests, ModuleOf)), EntryOf)
  {
    var groups := Groups(tests, KeysOf(tests, ModuleOf));
    var intro := MapSeq(IntroTexts(|tests|, |set t <- tests :: t.relativePath|), Quote);
    var top := [PHASE_0_HEADER] + ([""] + intro + [""]);
    TopIsSilent(intro, |tests|, |set t <- tests :: t.relativePath|);
    assert Section(tests) == top + groups;
    NothingRead(top, "");
    ReadAppend(top, groups, "");
    GroupsRead(tests, KeysOf(tests, ModuleOf), "");
  }

  lemma TopIsSilent(intro: seq<Line>, total: nat, specs: nat)
    requires intro == MapSeq(IntroTexts(total, specs), Quote)
    ensures forall l <- [PHASE_0_HEADER] + ([""] + intro + [""]) :: !IsHeading(l) && !IsBullet(l)
  {
    forall l <- [PHASE_0_HEADER] + ([""] + intro + [""]) ensures !IsHeading(l) && !IsBullet(l) {
      if l in intro {
        var i :| 0 <= i < |intro| && intro[i] == l;
        QuoteReads(IntroTexts(total, specs)[i]);
      } else if l != "" {
        assert l == PHASE_0_HEADER && PHASE_0_HEADER[3] == ' ' && PHASE_0_HEADER[0] == '#';
        assert "#### "[3] == '#';
      }
    }
  }

  /** The first line of the intro tells how many tests there are, and how many spec files they are declared in. */
  lemma IntroTells(tests: seq<StableTest>) returns (specs: set<string>)
    ensures forall path :: path in specs <==> exists t <- tests :: t.relativePath == path
    ensures |Section(tests)| > 2
    ensures Section(tests)[2]
            == "> " + (Decimal(|tests|) + INTRO_TESTS + Decimal(|specs|) + INTRO_SPECS)
  {
    specs := set t <- tests :: t.relativePath;
    var intro := MapSeq(IntroTexts(|tests|, |specs|), Quote);
    assert intro[0] == Quote(IntroHead(|tests|, |specs|));
    assert Section(tests)[2] == ([""] + intro)[1] == intro[0];
  }

  /** Every stable test is listed once for each time it is declared, under its own module, and nothing else is. */
  lemma SectionListsEveryTest(tests: seq<StableTest>)
    ensures multiset(Read(Section(tests), "")) == multiset(MapSeq(tests, EntryOf))
  {
    SectionReads(tests);
    GroupsPermute(tests, ModuleOf);
    MapPermutes(InGroups(tests, ModuleOf, KeysOf(tests, ModuleOf)), tests, EntryOf);
  }

  /* ---- titles ---- */

  /** A title as it is written: plain text, and placeholders with an expression in them. */
  datatype Segment = Text(text: string) | Hole(expr: string)

  predicate WellFormed(s: Segment)
  {
    match s case Text(text) => '$' !in text case Hole(expr) => expr != [] && '}' !in expr
  }

  function Written(segments: seq<Segment>): string
  {
    if segments == [] then []
    else (match segments[0] case Text(text) => text case Hole(expr) => "${" + expr + "}") + Written(segments[1..])
  }

  /** The title a reader sees: each expression, trimmed, in angle brackets. */
  function Shown(segments: seq<Segment>): string
  {
    if segments == [] then []
    else (match segments[0] case Text(text) => text case Hole(expr) => "<" + Trim(expr) + ">") + Shown(segments[1..])
  }

  lemma {:induction false} TextStays(text: string, rest: string)
    requires '$' !in text
    ensures RenderTitle(text + rest) == text + RenderTitle(rest)
  {
    if text == [] {
      assert text + rest == rest;
    } else {
      assert (text + rest)[1..] == text[1..] + rest && text[0] in text;
      assert (text + rest)[0] == text[0] != '$';
      TextStays(text[1..], rest);
      assert text == [text[0]] + text[1..];
    }
  }

  lemma {:induction false} EndIs(title: string, from: nat, end: nat)
    requires from <= end < |title| && title[end] == '}' && forall i | from <= i < end :: title[i] != '}'
    ensures PlaceholderEnd(title, from) == end
    decreases end - from
  {
    if from < end {
      EndIs(title, from + 1, end);
    }
  }

  lemma HoleIsShown(expr: string, rest: string)
    requires expr != [] && '}' !in expr
    ensures RenderTitle("${" + expr + "}" + rest) == "<" + Trim(expr) + ">" + RenderTitle(rest)
  {
    var title, end := "${" + expr + "}" + rest, 2 + |expr|;
    assert title[..2] == "${" && title[end] == '}' && title[2..end] == expr && title[end + 1..] == rest;
    forall i | 2 <= i < end ensures title[i] != '}' { assert title[i] == expr[i - 2] && expr[i - 2] in expr; }
    EndIs(title, 2, end);
  }

  /** However texts and placeholders alternate, the title is shown with each placeholder's expression in its place. */
  lemma {:induction false} TitleIsShown(segments: seq<Segment>)
    requires forall s <- segments :: WellFormed(s)
    ensures RenderTitle(Written(segments)) == Shown(segments)
  {
    if segments != [] {
      assert segments[0] in segments && forall s <- segments[1..] :: s in segments;
      TitleIsShown(segments[1..]);
      match segments[0] {
        case Text(text) => TextStays(text, Written(segments[1..]));
        case Hole(expr) => HoleIsShown(expr, Written(segments[1..]));
      }
    }
  }
}
