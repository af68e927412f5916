/** Measuring the derivable half of the matrix: checklist bullets per section, and test health. */
module MatrixMeasure {
  import opened Texts
  import opened Sequences
  import opened MatrixRefresh

  /* ---- what a line is ---- */

  /** The length of the dotted number a string starts with, if whitespace follows it; 0 without one. */
  function SectionNumber(s: string): (n: nat)
    ensures n <= |s|
    decreases |s|
  {
    var d := RunLength(s, IsDigit);
    if d == 0 || d == |s| then 0
    else if IsSpace(s[d]) then d
    else if s[d] != '.' then 0
    else
      var rest := SectionNumber(s[d + 1..]);
      if rest == 0 then 0 else d + 1 + rest
  }

  predicate IsHash(c: char) { c == '#' }

  /** The section a line opens: the dotted number after three or four hashes. */
  function HeadingOf(line: string): Option<string>
  {
    var h := RunLength(line, IsHash);
    if h != 3 && h != 4 then None
    else
      var s := RunLength(line[h..], IsSpace);
      var rest := line[h + s..];
      if s == 0 || SectionNumber(rest) == 0 then None else Some(rest[..SectionNumber(rest)])
  }

  predicate IsMarker(c: char)
  {
    c == 'x' || c == '-' || c == '~' || c == '!' || c == ' '
  }

  /** The marker of a bullet: one of five characters in brackets behind a dash or a star. */
  function BulletOf(line: string): Option<char>
  {
    var rest := line[RunLength(line, IsSpace)..];
    if |rest| >= 5 && (rest[0] == '-' || rest[0] == '*') && IsSpace(rest[1]) && rest[2] == '[' && IsMarker(rest[3]) && rest[4] == ']'
    then Some(rest[3]) else None
  }

  /* ---- the tallies, as a list of events ---- */

  /** A bullet with the section it stands in. */
  datatype Event = Event(section: string, marker: char)

  /** The last section opened above a line. */
  function SectionAbove(lines: seq<string>, headingOf: string -> Option<string>, from: nat, i: nat): Option<string>
    requires i <= |lines|
  {
    if i <= from then None
    else
      var h := headingOf(lines[i - 1]);
      if h.Some? then h else SectionAbove(lines, headingOf, from, i - 1)
  }

  /** The bullets from `from` up to `to`, each with the section it stands in. */
  function EventsIn(lines: seq<string>, headingOf: string -> Option<string>, bulletOf: string -> Option<char>,
                    from: nat, to: nat): seq<Event>
    requires to <= |lines|
  {
    if to <= from then []
    else
      var front, line := EventsIn(lines, headingOf, bulletOf, from, to - 1), lines[to - 1];
      var current, bullet := SectionAbove(lines, headingOf, from, to - 1), bulletOf(line);
      if headingOf(line).None? && bullet.Some? && current.Some? then front + [Event(current.value, bullet.value)] else front
  }

  function SectionOf(e: Event): string
  {
    e.section
  }

  function MarkerIn(e: Event): char
  {
    e.marker
  }

  /** A section's tally: its bullets, and how many of each state. */
  datatype SectionTally = SectionTally(bullets: nat, states: map<char, nat>)

  function State(states: map<char, nat>, m: char): nat
  {
    if m in states then states[m] else 0
  }

  /** The tally of a list of bullets. */
  ghost predicate Tallies(t: SectionTally, events: seq<Event>)
  {
    t.bullets == |events| && forall m :: State(t.states, m) == |Having(events, MarkerIn, m)|
  }

  ghost predicate TalliesSections(out: map<string, SectionTally>, events: seq<Event>)
  {
    && (forall s <- out :: Tallies(out[s], Having(events, SectionOf, s)))
    && forall s :: s !in out ==> Having(events, SectionOf, s) == []
  }

  /* ---- parsing the checklist ---- */

  predicate IsPartStart(l: string) { "## api/ " <= l }

  predicate IsPartEnd(l: string) { "## Coverage Summary" <= l }

  function FirstLine(lines: seq<string>, p: string -> bool): nat
  {
    if lines == [] then 0 else if p(lines[0]) then 0 else 1 + FirstLine(lines[1..], p)
  }

  lemma {:induction false} FirstLineBounds(lines: seq<string>, p: string -> bool)
    ensures FirstLine(lines, p) <= |lines|
    ensures FirstLine(lines, p) < |lines| <==> exists l <- lines :: p(l)
  {
    if lines != [] {
      FirstLineBounds(lines[1..], p);
      assert lines == [lines[0]] + lines[1..];
    }
  }

  /** Where Part II starts: at the file's start when its first module heading is missing. */
  function PartFrom(lines: seq<string>): nat
  {
    var i := FirstLine(lines, IsPartStart);
    if i < |lines| then i else 0
  }

  function PartEvents(lines: seq<string>): seq<Event>
  {
    FirstLineBounds(lines, IsPartEnd);
    EventsIn(lines, HeadingOf, BulletOf, PartFrom(lines), FirstLine(lines, IsPartEnd))
  }

  function Add(t: SectionTally, m: char): SectionTally
  {
    SectionTally(t.bullets + 1, t.states[m := State(t.states, m) + 1])
  }

  lemma AddEvent(t: SectionTally, events: seq<Event>, e: Event)
    requires Tallies(t, events)
    ensures Tallies(Add(t, e.marker), events + [e])
  {
    forall m ensures State(Add(t, e.marker).states, m) == |Having(events + [e], MarkerIn, m)| {
      HavingSnoc(events, e, MarkerIn, m);
    }
  }

  /** One more bullet, counted in its own section. */
  lemma AddToSections(out: map<string, SectionTally>, events: seq<Event>, e: Event)
    requires TalliesSections(out, events) && e.section in out
    ensures TalliesSections(out[e.section := Add(out[e.section], e.marker)], events + [e])
  {
    var next := out[e.section := Add(out[e.section], e.marker)];
    forall s ensures Having(events + [e], SectionOf, s)
                     == if e.section == s then Having(events, SectionOf, s) + [e] else Having(events, SectionOf, s)
    {
      HavingSnoc(events, e, SectionOf, s);
    }
    AddEvent(out[e.section], Having(events, SectionOf, e.section), e);
    forall s <- next ensures Tallies(next[s], Having(events + [e], SectionOf, s)) {
    }
  }

  lemma OpenSection(out: map<string, SectionTally>, events: seq<Event>, s: string)
    requires TalliesSections(out, events) && s !in out
    ensures TalliesSections(out[s := SectionTally(0, map[])], events)
  {
    NoneTally();
  }

  lemma NoneTally()
    ensures Tallies(SectionTally(0, map[]), [])
  {
  }

  method ParseChecklistSections(lines: seq<string>) returns (out: map<string, SectionTally>)
    ensures TalliesSections(out, PartEvents(lines))
  {
    FirstLineBounds(lines, IsPartEnd);
    out := TallyLines(lines, HeadingOf, BulletOf, PartFrom(lines), FirstLine(lines, IsPartEnd));
  }

  method TallyLines(lines: seq<string>, headingOf: string -> Option<string>, bulletOf: string -> Option<char>,
                    start: nat, end: nat) returns (out: map<string, SectionTally>)
    requires end <= |lines|
    ensures TalliesSections(out, EventsIn(lines, headingOf, bulletOf, start, end))
  {
    out := map[];
    var current: Option<string> := None;
    var i := start;
    while i < end
      invariant start <= i && (i <= end || (i == start && out == map[]))
      invariant i <= end ==> current == SectionAbove(lines, headingOf, start, i)
                             && TalliesSections(out, EventsIn(lines, headingOf, bulletOf, start, i))
      invariant current.Some? ==> current.value in out
    {
      ghost var events := EventsIn(lines, headingOf, bulletOf, start, i);
      var heading := headingOf(lines[i]);
      if heading.Some? {
        current := heading;
        if heading.value !in out {
          OpenSection(out, events, heading.value);
          out := out[heading.value := SectionTally(0, map[])];
        }
        i := i + 1;
        continue;
      }
      var bullet := bulletOf(lines[i]);
      if bullet.Some? && current.Some? {
        AddToSections(out, events, Event(current.value, bullet.value));
        out := out[current.value := Add(out[current.value], bullet.value)];
      }
      i := i + 1;
    }
  }

  /* ---- the bullets of an area ---- */

  /** A bullet's weight, in hundredths; a marker of no weight counts nothing. */
  function BulletWeight(m: char): nat
  {
    if m == 'x' then 80 else if m == '-' then 40 else if m == '~' || m == '!' then 25 else 0
  }

  /** The weight of a table of states. */
  function WeightOf(states: map<char, nat>): nat
  {
    80 * State(states, 'x') + 40 * State(states, '-') + 25 * (State(states, '~') + State(states, '!'))
  }

  function Weight(events: seq<Event>): nat
  {
    if events == [] then 0 else Weight(events[..|events| - 1]) + BulletWeight(events[|events| - 1].marker)
  }

  /** Every bullet has one of the five markers. */
  predicate AllMarked(events: seq<Event>)
  {
    forall e <- events :: IsMarker(e.marker)
  }

  lemma {:induction false} EventsAreMarked(lines: seq<string>, headingOf: string -> Option<string>,
                                           bulletOf: string -> Option<char>, from: nat, to: nat)
    requires to <= |lines| && forall l :: bulletOf(l).Some? ==> IsMarker(bulletOf(l).value)
    ensures AllMarked(EventsIn(lines, headingOf, bulletOf, from, to))
  {
    if to > from {
      EventsAreMarked(lines, headingOf, bulletOf, from, to - 1);
    }
  }

  lemma PartIsMarked(lines: seq<string>)
    ensures AllMarked(PartEvents(lines))
  {
    FirstLineBounds(lines, IsPartEnd);
    EventsAreMarked(lines, HeadingOf, BulletOf, PartFrom(lines), FirstLine(lines, IsPartEnd));
  }

  function CountMarked(events: seq<Event>, m: char): nat
  {
    |Having(events, MarkerIn, m)|
  }

  /** The states of a list of bullets add up to its length, and their weights to its weight. */
  lemma {:induction false} StatesAddUp(events: seq<Event>)
    requires AllMarked(events)
    ensures CountMarked(events, 'x') + CountMarked(events, '-') + CountMarked(events, '~')
            + CountMarked(events, '!') + CountMarked(events, ' ') == |events|
    ensures Weight(events) == 80 * CountMarked(events, 'x') + 40 * CountMarked(events, '-')
                              + 25 * (CountMarked(events, '~') + CountMarked(events, '!'))
    ensures Weight(events) <= 80 * |events|
  {
    if events != [] {
      var n := |events| - 1;
      StatesAddUp(events[..n]);
      assert events == events[..n] + [events[n]];
      forall m ensures CountMarked(events, m) == CountMarked(events[..n], m) + if events[n].marker == m then 1 else 0 {
        HavingSnoc(events[..n], events[n], MarkerIn, m);
      }
      assert IsMarker(events[n].marker);
    }
  }

  lemma TallyWeight(t: SectionTally, events: seq<Event>)
    requires Tallies(t, events) && AllMarked(events)
    ensures WeightOf(t.states) == Weight(events)
    ensures t.bullets == State(t.states, 'x') + State(t.states, '-') + State(t.states, '~') + State(t.states, '!') + State(t.states, ' ')
  {
    StatesAddUp(events);
  }

  /** The mean weight of an area's bullets to two decimals, in hundredths; nothing without bullets. */
  function MitigationOf(weighted: nat, bullets: nat): int
  {
    if bullets == 0 then 0 else Rounded(weighted, bullets)
  }

  lemma MitigationBounds(weighted: nat, bullets: nat)
    requires weighted <= 80 * bullets
    ensures 0 <= MitigationOf(weighted, bullets) <= 80
  {
    if bullets > 0 { RoundedAtMost(weighted, bullets, 80); }
  }

  function InArea(matches: string -> bool): Event -> bool
  {
    (e: Event) => matches(e.section)
  }

  /** The events of the sections seen so far that belong to the area. */
  function AreaPart(events: seq<Event>, matches: string -> bool, seen: set<string>): seq<Event>
  {
    Filter(events, (e: Event) => matches(e.section) && e.section in seen)
  }

  /** What the loop has accumulated. */
  ghost predicate Accumulated(bullets: nat, weighted: nat, states: map<char, nat>, events: seq<Event>)
  {
    Tallies(SectionTally(bullets, states), events) && weighted == Weight(events)
  }

  /** One table of states added to another. */
  function AddStates(states: map<char, nat>, more: map<char, nat>): map<char, nat>
  {
    map m | m in states.Keys + more.Keys :: State(states, m) + State(more, m)
  }

  lemma {:induction false} WeightAdds(a: seq<Event>, b: seq<Event>, c: seq<Event>)
    requires AllMarked(a) && AllMarked(b) && AllMarked(c)
    requires forall m :: CountMarked(c, m) == CountMarked(a, m) + CountMarked(b, m)
    ensures Weight(c) == Weight(a) + Weight(b) && |c| == |a| + |b|
  {
    StatesAddUp(a);
    StatesAddUp(b);
    StatesAddUp(c);
  }

  /** One more section: its bullets join those of the area, marker by marker. */
  lemma {:induction false} OneMoreSection(events: seq<Event>, matches: string -> bool, seen: set<string>, section: string, m: char)
    requires section !in seen && matches(section)
    ensures CountMarked(AreaPart(events, matches, seen + {section}), m)
            == CountMarked(AreaPart(events, matches, seen), m) + CountMarked(Having(events, SectionOf, section), m)
  {
    if events != [] {
      OneMoreSection(events[1..], matches, seen, section, m);
      var e := events[0];
      var wide, narrow, own := AreaPart(events[1..], matches, seen + {section}), AreaPart(events[1..], matches, seen),
                               Having(events[1..], SectionOf, section);
      assert ([e] + wide)[1..] == wide && ([e] + narrow)[1..] == narrow && ([e] + own)[1..] == own;
    }
  }

  lemma {:induction false} AreaIsMarked(events: seq<Event>, p: Event -> bool)
    requires AllMarked(events)
    ensures AllMarked(Filter(events, p))
  {
    FilterMembers(events, p);
  }

  lemma SkipSection(events: seq<Event>, matches: string -> bool, seen: set<string>, section: string)
    requires !matches(section)
    ensures AreaPart(events, matches, seen + {section}) == AreaPart(events, matches, seen)
  {
    FilterAgrees(events, (e: Event) => matches(e.section) && e.section in seen + {section},
                 (e: Event) => matches(e.section) && e.section in seen);
  }

  lemma JoinSection(events: seq<Event>, matches: string -> bool, seen: set<string>, section: string,
                    bullets: nat, weighted: nat, states: map<char, nat>, tally: SectionTally)
    requires AllMarked(events) && section !in seen && matches(section)
    requires Accumulated(bullets, weighted, states, AreaPart(events, matches, seen))
    requires Tallies(tally, Having(events, SectionOf, section))
    ensures Accumulated(bullets + tally.bullets, weighted + WeightOf(tally.states), AddStates(states, tally.states),
                        AreaPart(events, matches, seen + {section}))
  {
    var a, b, c := AreaPart(events, matches, seen), Having(events, SectionOf, section), AreaPart(events, matches, seen + {section});
    AreaIsMarked(events, (e: Event) => matches(e.section) && e.section in seen);
    AreaIsMarked(events, HasKey(SectionOf, section));
    AreaIsMarked(events, (e: Event) => matches(e.section) && e.section in seen + {section});
    forall m ensures CountMarked(c, m) == CountMarked(a, m) + CountMarked(b, m) {
      OneMoreSection(events, matches, seen, section, m);
    }
    WeightAdds(a, b, c);
    TallyWeight(tally, b);
    forall m ensures State(AddStates(states, tally.states), m) == |Having(c, MarkerIn, m)| {
      assert State(AddStates(states, tally.states), m) == State(states, m) + State(tally.states, m);
      assert State(states, m) == CountMarked(a, m) && State(tally.states, m) == CountMarked(b, m);
    }
  }

  /** The bullets of an area: every bullet of Part II whose section the area claims. */
  ghost predicate IsAreaOf(r: AreaBullets, events: seq<Event>, matches: string -> bool)
  {
    var part := Filter(events, InArea(matches));
    && Tallies(SectionTally(r.bullets, r.states), part)
    && r.mitigation == MitigationOf(Weight(part), |part|)
  }

  method BulletsForArea(sections: map<string, SectionTally>, matches: string -> bool, ghost events: seq<Event>)
    returns (r: AreaBullets)
    requires TalliesSections(sections, events) && AllMarked(events)
    ensures IsAreaOf(r, events, matches)
  {
    var bullets: nat, weighted: nat, states: map<char, nat> := 0, 0, map[];
    var todo := sections.Keys;
    ghost var seen: set<string> := {};
    FilterNone(events, (e: Event) => matches(e.section) && e.section in seen);
    NoneTally();
    while todo != {}
      invariant todo <= sections.Keys && seen == sections.Keys - todo
      invariant Accumulated(bullets, weighted, states, AreaPart(events, matches, seen))
    {
      var section :| section in todo;
      var tally := sections[section];
      todo := todo - {section};
      if matches(section) {
        JoinSection(events, matches, seen, section, bullets, weighted, states, tally);
        bullets, weighted, states := bullets + tally.bullets, weighted + WeightOf(tally.states), AddStates(states, tally.states);
      } else {
        SkipSection(events, matches, seen, section);
      }
      seen := seen + {section};
    }
    AreaDone(events, matches, sections, seen, bullets, weighted, states);
    r := AreaBullets(bullets, states, MitigationOf(weighted, bullets));
  }

  lemma AreaDone(events: seq<Event>, matches: string -> bool, sections: map<string, SectionTally>, seen: set<string>,
                 bullets: nat, weighted: nat, states: map<char, nat>)
    requires TalliesSections(sections, events) && AllMarked(events) && seen == sections.Keys
    requires Accumulated(bullets, weighted, states, AreaPart(events, matches, seen))
    ensures 0 <= MitigationOf(weighted, bullets) <= 80
    ensures IsAreaOf(AreaBullets(bullets, states, MitigationOf(weighted, bullets)), events, matches)
  {
    var part := Filter(events, InArea(matches));
    WholeArea(events, matches, sections);
    AreaIsMarked(events, InArea(matches));
    StatesAddUp(part);
    MitigationBounds(weighted, bullets);
  }

  lemma WholeArea(events: seq<Event>, matches: string -> bool, sections: map<string, SectionTally>)
    requires TalliesSections(sections, events)
    ensures AreaPart(events, matches, sections.Keys) == Filter(events, InArea(matches))
  {
    forall e <- events ensures e.section in sections.Keys {
      FilterMembers(events, HasKey(SectionOf, e.section));
      assert SectionOf(e) == e.section;
      assert HasKey(SectionOf, e.section)(e);
      assert e in Filter(events, HasKey(SectionOf, e.section));
    }
    FilterAgrees(events, (e: Event) => matches(e.section) && e.section in sections.Keys, InArea(matches));
  }

  /* ---- what the measurement promises ---- */

  /** Every tally keeps its bullets equal to the sum of its states. */
  lemma BulletsAreStates(out: map<string, SectionTally>, lines: seq<string>, s: string)
    requires TalliesSections(out, PartEvents(lines)) && s in out
    ensures var t := out[s];
            t.bullets == State(t.states, 'x') + State(t.states, '-') + State(t.states, '~') + State(t.states, '!') + State(t.states, ' ')
    ensures forall m :: !IsMarker(m) ==> State(out[s].states, m) == 0
  {
    PartIsMarked(lines);
    var own := Having(PartEvents(lines), SectionOf, s);
    AreaIsMarked(PartEvents(lines), HasKey(SectionOf, s));
    TallyWeight(out[s], own);
    forall m | !IsMarker(m) ensures Having(own, MarkerIn, m) == [] {
      forall i | 0 <= i < |own| ensures !HasKey(MarkerIn, m)(own[i]) {
        assert own[i] in own && MarkerIn(own[i]) == own[i].marker;
      }
      FilterNone(own, HasKey(MarkerIn, m));
    }
  }

  /** An area's mitigation lies between nothing and the weight of a fully validated checklist. */
  lemma AreaMitigationBounds(r: AreaBullets, lines: seq<string>, matches: string -> bool)
    requires IsAreaOf(r, PartEvents(lines), matches)
    ensures r.mitigation <= 80
    ensures r.bullets == State(r.states, 'x') + State(r.states, '-') + State(r.states, '~') + State(r.states, '!') + State(r.states, ' ')
    ensures r.mitigation == 80 <==> r.bullets > 0 && 2 * r.bullets * 80 - 2 * WeightOf(r.states) <= r.bullets
  {
    PartIsMarked(lines);
    var part := Filter(PartEvents(lines), InArea(matches));
    AreaIsMarked(PartEvents(lines), InArea(matches));
    StatesAddUp(part);
    TallyWeight(SectionTally(r.bullets, r.states), part);
    MitigationBounds(Weight(part), |part|);
    if |part| > 0 {
      RoundedNonNegative(Weight(part), |part|);
      TopRounds(Weight(part), |part|);
    }
  }

  lemma TopRounds(weighted: nat, bullets: nat)
    requires 0 < bullets && weighted <= 80 * bullets
    ensures Rounded(weighted, bullets) == 80 <==> 2 * bullets * 80 - 2 * weighted <= bullets
  {
    RoundedNonNegative(weighted, bullets);
    RoundedAtMost(weighted, bullets, 80);
    var r := Rounded(weighted, bullets);
    if r < 80 {
      MulMonotone(2 * bullets, r + 1, 80);
    }
  }

  /** Measured bullets always satisfy what a refresh assumes of them. */
  lemma MeasuredAreaRefreshes(r: AreaBullets, lines: seq<string>, matches: string -> bool, measured: Measured, a: Area)
    requires IsAreaOf(r, PartEvents(lines), matches)
    requires a.name in measured.bullets && measured.bullets[a.name] == r && a.judged.mitigationOverride.None?
    ensures var d := Refreshed(measured)(a).derived;
            && r.mitigation <= 2 * d.mitigation && d.mitigation <= r.mitigation <= 80
            && 0 <= d.residualRisk <= a.judged.inherentRisk
  {
    AreaMitigationBounds(r, lines, matches);
    RefreshBounds(measured, a);
  }
}
