/** What the measured half of the matrix counts: lines of the checklist, by what is written on them. */
module MatrixLaws {
  import opened Texts
  import opened Sequences
  import opened MatrixRefresh
  import opened MatrixMeasure

  /* ---- what is written on a line ---- */

  /** Numbers with single dots between them. */
  predicate Dotted(t: string)
  {
    && t != "" && IsDigit(t[0]) && IsDigit(t[|t| - 1])
    && (forall i | 0 <= i < |t| :: IsDigit(t[i]) || t[i] == '.')
    && forall i, j | 0 <= i < |t| && 0 <= j < |t| && j == i + 1 :: IsDigit(t[i]) || IsDigit(t[j])
  }

  /** Behind the leading digits there is no dotted number but one whose next character is a dot. */
  lemma PastDigits(s: string, d: nat, n: nat)
    requires d == RunLength(s, IsDigit) && d < n < |s| && Dotted(s[..n])
    ensures 0 < d && s[d] == '.' && d + 1 < n
  {
    assert s[..n][0] == s[0] && s[..n][d] == s[d] && s[..n][n - 1] == s[n - 1];
  }

  /** Leading digits with whitespace behind them are a dotted number. */
  lemma DigitsAreDotted(s: string, d: nat)
    requires d == RunLength(s, IsDigit) && 0 < d
    ensures Dotted(s[..d])
  {
    assert forall i | 0 <= i < d :: s[..d][i] == s[i];
  }

  /** The dotted number found is a dotted number with whitespace behind it, and any such number is the one found. */
  lemma {:induction false} NumberIff(s: string, n: nat)
    requires 0 < n
    ensures SectionNumber(s) == n <==> n < |s| && Dotted(s[..n]) && IsSpace(s[n])
    decreases |s|, 1
  {
    var d := RunLength(s, IsDigit);
    if 0 < d < |s| && s[d] == '.' && d + 1 < n {
      DottedNumber(s, d, n);
    } else if d < n {
      if n < |s| && Dotted(s[..n]) {
        PastDigits(s, d, n);
      }
    } else if d == n {
      DigitsAreDotted(s, d);
    }
  }

  lemma {:induction false} DottedNumber(s: string, d: nat, n: nat)
    requires d == RunLength(s, IsDigit) && 0 < d < |s| && s[d] == '.' && d + 1 < n
    ensures SectionNumber(s) == n <==> n < |s| && Dotted(s[..n]) && IsSpace(s[n])
    decreases |s|, 0
  {
    NumberAfterDot(s, d, n);
    NumberIff(s[d + 1..], n - d - 1);
    if n < |s| {
      DottedTail(s[..n], d);
      TailAfterDot(s, d, n);
    }
  }

  lemma NumberAfterDot(s: string, d: nat, n: nat)
    requires d == RunLength(s, IsDigit) && 0 < d < |s| && s[d] == '.' && d + 1 < n
    ensures SectionNumber(s) == n <==> SectionNumber(s[d + 1..]) == n - d - 1
  {
  }

  lemma TailAfterDot(s: string, d: nat, n: nat)
    requires d + 1 < n < |s|
    ensures s[..n][d + 1..] == s[d + 1..][..n - d - 1] && s[d + 1..][n - d - 1] == s[n]
  {
  }

  lemma DottedTail(t: string, d: nat)
    requires 0 < d && d + 1 < |t| && t[d] == '.' && forall i | 0 <= i < d :: IsDigit(t[i])
    ensures Dotted(t) <==> Dotted(t[d + 1..])
  {
    var rest := t[d + 1..];
    assert forall i | 0 <= i < |rest| :: rest[i] == t[d + 1 + i];
    assert rest[|rest| - 1] == t[|t| - 1];
    if Dotted(rest) {
      forall i | 0 <= i < |t| ensures IsDigit(t[i]) || t[i] == '.' {
        if i > d { assert rest[i - d - 1] == t[i]; }
      }
      forall i, j | 0 <= i < j < |t| && j == i + 1 ensures IsDigit(t[i]) || IsDigit(t[j]) {
        if i > d {
          assert rest[i - d - 1] == t[i] && rest[j - d - 1] == t[j];
        } else if i == d {
          assert rest[0] == t[j];
        }
      }
    }
    if Dotted(t) {
      assert IsDigit(t[d]) || IsDigit(t[d + 1]);
      forall i, j | 0 <= i < j < |rest| && j == i + 1 ensures IsDigit(rest[i]) || IsDigit(rest[j]) {
        assert rest[i] == t[d + 1 + i] && rest[j] == t[d + 1 + j];
      }
    }
  }

  /** A line of three or four hashes, whitespace, a section number and whitespace again, whatever follows. */
  predicate IsHeading(line: string, hashes: string, blanks: string, section: string, rest: string)
  {
    && line == hashes + (blanks + (section + rest)) && hashes in {"###", "####"}
    && blanks != "" && (forall c <- blanks :: IsSpace(c)) && Dotted(section)
    && rest != "" && IsSpace(rest[0])
  }

  lemma RunIs(s: string, p: char -> bool, n: nat)
    requires n <= |s| && (forall i | 0 <= i < n :: p(s[i])) && (n < |s| ==> !p(s[n]))
    ensures RunLength(s, p) == n
  {
  }

  lemma RunThen(front: string, after: string, p: char -> bool)
    requires (forall c <- front :: p(c)) && (after != "" ==> !p(after[0]))
    ensures RunLength(front + after, p) == |front| && (front + after)[|front|..] == after
  {
    RunIs(front + after, p, |front|);
  }

  /** A line opens a section exactly when it is written so. */
  lemma HeadingIff(line: string, section: string)
    ensures HeadingOf(line) == Some(section) <==> exists hashes, blanks, rest :: IsHeading(line, hashes, blanks, section, rest)
  {
    if HeadingOf(line) == Some(section) {
      var hashes, blanks, rest := HeadingIsWritten(line, section);
    }
    forall hashes, blanks, rest | IsHeading(line, hashes, blanks, section, rest) ensures HeadingOf(line) == Some(section) {
      WrittenIsHeading(line, hashes, blanks, section, rest);
    }
  }

  lemma HeadingIsWritten(line: string, section: string) returns (hashes: string, blanks: string, rest: string)
    requires HeadingOf(line) == Some(section)
    ensures IsHeading(line, hashes, blanks, section, rest)
  {
    var h, s := HeadingParts(line, section);
    var after, numbered := line[h..], line[h + s..];
    hashes, blanks, rest := line[..h], after[..s], numbered[|section|..];
    PiecesOf(line, after, numbered, h, s, section);
  }

  lemma HeadingParts(line: string, section: string) returns (h: nat, s: nat)
    requires HeadingOf(line) == Some(section)
    ensures h + s + |section| < |line| && (h == 3 || h == 4) && 0 < s && Dotted(section)
    ensures section <= line[h + s..] && IsSpace(line[h + s..][|section|])
    ensures (forall i | 0 <= i < h :: IsHash(line[i])) && forall i | 0 <= i < s :: IsSpace(line[h..][i])
  {
    h := RunLength(line, IsHash);
    s := RunLength(line[h..], IsSpace);
    NumberFound(line[h + s..], section);
  }

  lemma NumberFound(rest: string, section: string)
    requires SectionNumber(rest) > 0 && section == rest[..SectionNumber(rest)]
    ensures |section| < |rest| && Dotted(section) && IsSpace(rest[|section|])
  {
    NumberIff(rest, |section|);
  }

  lemma PiecesOf(line: string, after: string, numbered: string, h: nat, s: nat, section: string)
    requires h + s + |section| < |line| && after == line[h..] && numbered == line[h + s..]
    requires (h == 3 || h == 4) && 0 < s && Dotted(section) && section <= numbered && IsSpace(numbered[|section|])
    requires (forall i | 0 <= i < h :: IsHash(line[i])) && forall i | 0 <= i < s :: IsSpace(after[i])
    ensures IsHeading(line, line[..h], after[..s], section, numbered[|section|..])
  {
    assert numbered == section + numbered[|section|..];
    assert after == after[..s] + numbered;
    AllHashes(line[..h]);
  }

  lemma AllHashes(t: string)
    requires (|t| == 3 || |t| == 4) && forall i | 0 <= i < |t| :: t[i] == '#'
    ensures t in {"###", "####"}
  {
    assert t == if |t| == 3 then "###" else "####";
  }

  lemma HeadingFrom(line: string, h: nat, s: nat, numbered: string, section: string)
    requires h == RunLength(line, IsHash) && (h == 3 || h == 4) && s == RunLength(line[h..], IsSpace) && 0 < s
    requires numbered == line[h + s..] && SectionNumber(numbered) == |section| > 0 && section <= numbered
    ensures HeadingOf(line) == Some(section)
  {
    assert numbered[..|section|] == section;
  }

  /** How far the hashes and the whitespace in front of a section number run. */
  lemma RunsBefore(line: string, hashes: string, blanks: string, numbered: string)
    requires line == hashes + (blanks + numbered) && (forall c <- hashes :: IsHash(c)) && blanks != ""
    requires (forall c <- blanks :: IsSpace(c)) && numbered != "" && IsDigit(numbered[0])
    ensures RunLength(line, IsHash) == |hashes| && RunLength(line[|hashes|..], IsSpace) == |blanks|
    ensures line[|hashes| + |blanks|..] == numbered
  {
    assert blanks[0] in blanks && (blanks + numbered)[0] == blanks[0];
    RunThen(hashes, blanks + numbered, IsHash);
    RunThen(blanks, numbered, IsSpace);
  }

  lemma NumberedReads(section: string, rest: string)
    requires Dotted(section) && rest != "" && IsSpace(rest[0])
    ensures SectionNumber(section + rest) == |section| > 0 && section <= section + rest && IsDigit((section + rest)[0])
  {
    var numbered := section + rest;
    assert numbered[..|section|] == section && numbered[|section|] == rest[0];
    assert numbered[0] == section[0];
    NumberIff(numbered, |section|);
  }

  lemma HashesOf(hashes: string)
    requires hashes in {"###", "####"}
    ensures (|hashes| == 3 || |hashes| == 4) && forall c <- hashes :: IsHash(c)
  {
  }

  lemma WrittenIsHeading(line: string, hashes: string, blanks: string, section: string, rest: string)
    requires IsHeading(line, hashes, blanks, section, rest)
    ensures HeadingOf(line) == Some(section)
  {
    HashesOf(hashes);
    NumberedReads(section, rest);
    PartsMakeHeading(line, hashes, blanks, section + rest, section);
  }

  lemma PartsMakeHeading(line: string, hashes: string, blanks: string, numbered: string, section: string)
    requires line == hashes + (blanks + numbered) && (forall c <- hashes :: IsHash(c)) && blanks != ""
    requires (forall c <- blanks :: IsSpace(c)) && numbered != "" && IsDigit(numbered[0])
    requires (|hashes| == 3 || |hashes| == 4) && SectionNumber(numbered) == |section| > 0 && section <= numbered
    ensures HeadingOf(line) == Some(section)
  {
    RunsBefore(line, hashes, blanks, numbered);
    HeadingFrom(line, |hashes|, |blanks|, numbered, section);
  }

  /** A line written as whitespace, a dash or a star, one more whitespace and a bracketed marker. */
  predicate IsBullet(line: string, indent: nat, m: char)
  {
    && indent + 5 <= |line| && (forall i | 0 <= i < indent :: IsSpace(line[i]))
    && (line[indent] == '-' || line[indent] == '*') && IsSpace(line[indent + 1])
    && line[indent + 2] == '[' && line[indent + 3] == m && line[indent + 4] == ']'
  }

  /** A line is a bullet with a marker exactly when it is written so, with one of the five markers. */
  lemma BulletIff(line: string, m: char)
    ensures BulletOf(line) == Some(m) <==> m in "x-~! " && exists indent: nat :: IsBullet(line, indent, m)
  {
    var r := RunLength(line, IsSpace);
    if BulletOf(line) == Some(m) {
      assert IsBullet(line, r, m);
    }
    forall indent: nat | m in "x-~! " && IsBullet(line, indent, m) ensures BulletOf(line) == Some(m) {
      RunIs(line, IsSpace, indent);
    }
  }

  /* ---- what is counted ---- */

  /** A line stands in a claimed section: the nearest heading above it, within the part, opens one. */
  ghost predicate StandsIn(lines: seq<string>, headingOf: string -> Option<string>, from: nat, i: nat, claims: string -> bool)
    requires i <= |lines|
  {
    exists j | from <= j < i ::
      headingOf(lines[j]).Some? && claims(headingOf(lines[j]).value) && forall k | j < k < i :: headingOf(lines[k]).None?
  }

  lemma {:induction false} AboveIff(lines: seq<string>, headingOf: string -> Option<string>, from: nat, i: nat, claims: string -> bool)
    requires i <= |lines|
    ensures var above := SectionAbove(lines, headingOf, from, i);
            above.Some? && claims(above.value) <==> StandsIn(lines, headingOf, from, i, claims)
  {
    if i > from {
      AboveIff(lines, headingOf, from, i - 1, claims);
      var h := headingOf(lines[i - 1]);
      if h.None? && StandsIn(lines, headingOf, from, i - 1, claims) {
        var j :| from <= j < i - 1 && headingOf(lines[j]).Some? && claims(headingOf(lines[j]).value)
                 && forall k | j < k < i - 1 :: headingOf(lines[k]).None?;
        assert forall k | j < k < i :: headingOf(lines[k]).None?;
      }
    }
  }

  /** The lines of a part that are bullets with a marker, in a claimed section. */
  ghost function BulletLines(lines: seq<string>, headingOf: string -> Option<string>, bulletOf: string -> Option<char>,
                             from: nat, to: nat, claims: string -> bool, m: char): set<nat>
    requires to <= |lines|
  {
    set i: nat | from <= i < to && headingOf(lines[i]).None? && bulletOf(lines[i]) == Some(m)
                 && StandsIn(lines, headingOf, from, i, claims)
  }

  function Marked(events: seq<Event>, claims: string -> bool, m: char): seq<Event>
  {
    Having(Filter(events, InArea(claims)), MarkerIn, m)
  }

  lemma MarkedSnoc(events: seq<Event>, e: Event, claims: string -> bool, m: char)
    ensures |Marked(events + [e], claims, m)|
            == |Marked(events, claims, m)| + if claims(e.section) && e.marker == m then 1 else 0
  {
    var claimed := Filter(events, InArea(claims));
    FilterAppend(events, [e], InArea(claims));
    assert InArea(claims)(e) == claims(e.section) && MarkerIn(e) == e.marker;
    if claims(e.section) {
      assert Filter([e], InArea(claims)) == [e];
      HavingSnoc(claimed, e, MarkerIn, m);
    } else {
      assert claimed + [] == claimed;
    }
  }

  /** One more line: a claimed bullet, or none. */
  lemma NextBulletLine(lines: seq<string>, headingOf: string -> Option<string>, bulletOf: string -> Option<char>,
                       from: nat, n: nat, claims: string -> bool, m: char)
    requires from <= n < |lines|
    ensures |BulletLines(lines, headingOf, bulletOf, from, n + 1, claims, m)|
            == |BulletLines(lines, headingOf, bulletOf, from, n, claims, m)|
               + if headingOf(lines[n]).None? && bulletOf(lines[n]) == Some(m) && StandsIn(lines, headingOf, from, n, claims)
                 then 1 else 0
  {
    var before, now := BulletLines(lines, headingOf, bulletOf, from, n, claims, m),
                       BulletLines(lines, headingOf, bulletOf, from, n + 1, claims, m);
    assert now == before + if n in now then {n} else {};
  }

  lemma {:induction false} EventsCountLines(lines: seq<string>, headingOf: string -> Option<string>, bulletOf: string -> Option<char>,
                                            from: nat, to: nat, claims: string -> bool, m: char)
    requires to <= |lines|
    ensures |Marked(EventsIn(lines, headingOf, bulletOf, from, to), claims, m)|
            == |BulletLines(lines, headingOf, bulletOf, from, to, claims, m)|
  {
    if to <= from {
      assert BulletLines(lines, headingOf, bulletOf, from, to, claims, m) == {};
    } else {
      var n := to - 1;
      EventsCountLines(lines, headingOf, bulletOf, from, n, claims, m);
      NextBulletLine(lines, headingOf, bulletOf, from, n, claims, m);
      AboveIff(lines, headingOf, from, n, claims);
      NextEvent(EventsIn(lines, headingOf, bulletOf, from, n), EventsIn(lines, headingOf, bulletOf, from, to),
                headingOf(lines[n]).None?, SectionAbove(lines, headingOf, from, n), bulletOf(lines[n]), claims, m);
    }
  }

  lemma NextEvent(before: seq<Event>, now: seq<Event>, plain: bool, current: Option<string>, bullet: Option<char>,
                  claims: string -> bool, m: char)
    requires now == if plain && bullet.Some? && current.Some? then before + [Event(current.value, bullet.value)] else before
    ensures |Marked(now, claims, m)|
            == |Marked(before, claims, m)|
               + if plain && bullet == Some(m) && current.Some? && claims(current.value) then 1 else 0
  {
    if plain && bullet.Some? && current.Some? {
      MarkedSnoc(before, Event(current.value, bullet.value), claims, m);
    }
  }

  /** Where Part II runs: from its first module heading, or the top, to the Coverage header, or the end. */
  ghost predicate PartRuns(lines: seq<string>, from: nat, to: nat)
  {
    && from <= |lines| && to <= |lines|
    && (forall i | 0 <= i < to :: !("## Coverage Summary" <= lines[i]))
    && (to < |lines| ==> "## Coverage Summary" <= lines[to])
    && (if exists l <- lines :: "## api/ " <= l
        then from < |lines| && "## api/ " <= lines[from] && forall i | 0 <= i < from :: !("## api/ " <= lines[i])
        else from == 0)
  }

  lemma {:induction false} FirstLineIs(lines: seq<string>, p: string -> bool)
    ensures FirstLine(lines, p) <= |lines|
    ensures forall i | 0 <= i < FirstLine(lines, p) :: !p(lines[i])
    ensures FirstLine(lines, p) < |lines| ==> p(lines[FirstLine(lines, p)])
  {
    if lines != [] {
      FirstLineIs(lines[1..], p);
      assert forall i | 0 < i < |lines| :: lines[i] == lines[1..][i - 1];
    }
  }

  lemma PartIs(lines: seq<string>)
    ensures PartRuns(lines, PartFrom(lines), FirstLine(lines, IsPartEnd))
  {
    FirstLineIs(lines, IsPartStart);
    FirstLineIs(lines, IsPartEnd);
    FirstLineBounds(lines, IsPartStart);
  }

  lemma PartIsOne(lines: seq<string>, from: nat, to: nat)
    requires PartRuns(lines, from, to)
    ensures from == PartFrom(lines) && to == FirstLine(lines, IsPartEnd)
  {
    PartIs(lines);
  }

  function Only(section: string): string -> bool
  {
    (s: string) => s == section
  }

  /** A section's count of a marker is how many lines of Part II are its bullets with that marker. */
  lemma TallyCountsLines(out: map<string, SectionTally>, lines: seq<string>, from: nat, to: nat, section: string, m: char)
    requires TalliesSections(out, PartEvents(lines)) && PartRuns(lines, from, to)
    ensures (if section in out then State(out[section].states, m) else 0)
            == |BulletLines(lines, HeadingOf, BulletOf, from, to, Only(section), m)|
  {
    PartIsOne(lines, from, to);
    EventsCountLines(lines, HeadingOf, BulletOf, from, to, Only(section), m);
    var events := PartEvents(lines);
    FilterAgrees(events, HasKey(SectionOf, section), InArea(Only(section)));
    if section !in out {
      assert Having(events, SectionOf, section) == [];
    }
  }

  /** The lines of Part II in the sections an area claims, by marker. */
  ghost function AreaLines(lines: seq<string>, from: nat, to: nat, matches: string -> bool, m: char): nat
    requires to <= |lines|
  {
    |BulletLines(lines, HeadingOf, BulletOf, from, to, matches, m)|
  }

  /** So many bullets in all, and the mean of their weights in hundredths, rounded. */
  predicate IsMeanOf(bullets: nat, mitigation: int, x: nat, dash: nat, tilde: nat, bang: nat, open: nat)
  {
    && bullets == x + dash + tilde + bang + open
    && mitigation == if bullets == 0 then 0 else Rounded(80 * x + 40 * dash + 25 * (tilde + bang), bullets)
  }

  /** An area's bullets are the lines in the sections it claims; its mitigation is their mean weight in hundredths, rounded. */
  lemma AreaWeighsLines(r: AreaBullets, lines: seq<string>, from: nat, to: nat, matches: string -> bool)
    requires IsAreaOf(r, PartEvents(lines), matches) && PartRuns(lines, from, to)
    ensures forall m :: State(r.states, m) == AreaLines(lines, from, to, matches, m)
    ensures IsMeanOf(r.bullets, r.mitigation, AreaLines(lines, from, to, matches, 'x'), AreaLines(lines, from, to, matches, '-'),
                     AreaLines(lines, from, to, matches, '~'), AreaLines(lines, from, to, matches, '!'),
                     AreaLines(lines, from, to, matches, ' '))
  {
    AreaCountsLines(r, lines, from, to, matches);
    AreaAddsUp(r, lines, matches);
    StatesWeigh(r, AreaLines(lines, from, to, matches, 'x'), AreaLines(lines, from, to, matches, '-'),
                AreaLines(lines, from, to, matches, '~'), AreaLines(lines, from, to, matches, '!'),
                AreaLines(lines, from, to, matches, ' '));
  }

  lemma StatesWeigh(r: AreaBullets, x: nat, d: nat, t: nat, e: nat, n: nat)
    requires State(r.states, 'x') == x && State(r.states, '-') == d && State(r.states, '~') == t
    requires State(r.states, '!') == e && State(r.states, ' ') == n
    requires r.bullets == State(r.states, 'x') + State(r.states, '-') + State(r.states, '~') + State(r.states, '!') + State(r.states, ' ')
    requires r.mitigation == MitigationOf(WeightOf(r.states), r.bullets)
    ensures IsMeanOf(r.bullets, r.mitigation, x, d, t, e, n)
  {
  }

  lemma AreaCountsLines(r: AreaBullets, lines: seq<string>, from: nat, to: nat, matches: string -> bool)
    requires IsAreaOf(r, PartEvents(lines), matches) && PartRuns(lines, from, to)
    ensures forall m :: State(r.states, m) == AreaLines(lines, from, to, matches, m)
  {
    PartIsOne(lines, from, to);
    forall m ensures State(r.states, m) == AreaLines(lines, from, to, matches, m) {
      EventsCountLines(lines, HeadingOf, BulletOf, from, to, matches, m);
    }
  }

  lemma AreaAddsUp(r: AreaBullets, lines: seq<string>, matches: string -> bool)
    requires IsAreaOf(r, PartEvents(lines), matches)
    ensures r.bullets == State(r.states, 'x') + State(r.states, '-') + State(r.states, '~') + State(r.states, '!') + State(r.states, ' ')
    ensures r.mitigation == MitigationOf(WeightOf(r.states), r.bullets)
  {
    var part := Filter(PartEvents(lines), InArea(matches));
    PartIsMarked(lines);
    AreaIsMarked(PartEvents(lines), InArea(matches));
    TallyWeight(SectionTally(r.bullets, r.states), part);
  }
}
