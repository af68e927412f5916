/**
 * From failures to text: a file of printed tag arrays, the `@stable` matches found in it, and
 * what a run of the removal leaves of it.
 */
module TagRemoval {
  import opened Texts
  import opened Sequences
  import opened Documents
  import opened FailureClassification
  import opened SpliceTags
  import TA = TagArrays
  import opened StableRemoval

  const STABLE_LITERALS: seq<string> := ["\"@stable\"", "'@stable'", "`@stable`"]

  predicate IsStable(text: string)
  {
    text in STABLE_LITERALS
  }

  /**
   * One tag array of a spec: the title and line of the plain test whose options hold it (an
   * array on a suite, or on a test without a literal title, has no title here), and the text
   * down to the next array.
   */
  datatype Site = Site(title: Option<string>, line: nat, tags: TA.TagArray, after: string)

  ghost predicate WellFormedSites(sites: seq<Site>)
  {
    forall s <- sites :: TA.WellFormed(s.tags)
  }

  /** The first element that is the tag. */
  function StableAt(tags: TA.TagArray): Option<nat>
  {
    FindIn(TA.TextsOf(tags), IsStable, 0, |tags.elements|)
  }

  lemma StableAtMeaning(tags: TA.TagArray)
    ensures var at := StableAt(tags);
            if at.Some? then at.value < |tags.elements| && IsStable(TA.TextsOf(tags)[at.value])
                             && forall i | 0 <= i < at.value :: !IsStable(TA.TextsOf(tags)[i])
            else forall i | 0 <= i < |tags.elements| :: !IsStable(TA.TextsOf(tags)[i])
  {
    FindInMeaning(TA.TextsOf(tags), IsStable, 0, |tags.elements|);
  }

  /* ---- the file as blocks ---- */

  /** The array and text of a site, with its tag to go or to stay. */
  function BlockOf(site: Site, drop: bool): TA.Block
  {
    TA.Block(site.tags, if drop then StableAt(site.tags) else None, site.after)
  }

  function BlocksOf(sites: seq<Site>, drop: seq<bool>): (blocks: seq<TA.Block>)
    requires |drop| == |sites|
    ensures |blocks| == |sites|
  {
    seq(|sites|, k requires 0 <= k < |sites| => BlockOf(sites[k], drop[k]))
  }

  lemma BlocksTail(sites: seq<Site>, drop: seq<bool>)
    requires |drop| == |sites| && sites != []
    ensures BlocksOf(sites, drop)[0] == BlockOf(sites[0], drop[0])
    ensures BlocksOf(sites, drop)[1..] == BlocksOf(sites[1..], drop[1..])
  {
  }

  lemma BlocksAreWellFormed(sites: seq<Site>, drop: seq<bool>)
    requires |drop| == |sites| && WellFormedSites(sites)
    ensures TA.WellFormedBlocks(BlocksOf(sites, drop))
  {
    forall b <- BlocksOf(sites, drop)
      ensures TA.WellFormed(b.tags) && (b.drop.Some? ==> b.drop.value < |b.tags.elements|)
    {
      var k :| 0 <= k < |sites| && BlocksOf(sites, drop)[k] == b;
      assert sites[k] in sites;
      StableAtMeaning(sites[k].tags);
    }
  }

  /** Nothing goes. */
  function Keep(sites: seq<Site>): seq<bool>
  {
    seq(|sites|, k requires 0 <= k < |sites| => false)
  }

  function TextOfSites(sites: seq<Site>): string
  {
    TA.FileText(BlocksOf(sites, Keep(sites)))
  }

  lemma {:induction false} SameText(sites: seq<Site>, drop: seq<bool>)
    requires |drop| == |sites|
    ensures TA.FileText(BlocksOf(sites, drop)) == TextOfSites(sites)
  {
    if sites != [] {
      SameText(sites[1..], drop[1..]);
      BlocksTail(sites, drop);
      BlocksTail(sites, Keep(sites));
      assert Keep(sites)[1..] == Keep(sites[1..]);
    }
  }

  /* ---- what each site would have cut ---- */

  /** The range a removal from this site cuts, when the site starts at `at`. */
  function CutAt(site: Site, at: nat): Option<Range>
  {
    StableAtMeaning(site.tags);
    if StableAt(site.tags).Some? then Some(TA.BlockRange(BlockOf(site, true), at)) else None
  }

  function NextAt(site: Site, at: nat): nat
  {
    TA.After(BlockOf(site, false), at)
  }

  function CutsOf(sites: seq<Site>, at: nat): (cuts: seq<Option<Range>>)
    ensures |cuts| == |sites|
  {
    if sites == [] then [] else [CutAt(sites[0], at)] + CutsOf(sites[1..], NextAt(sites[0], at))
  }

  /** Cuts in file order, each within its own part of the text, and a character behind the last. */
  ghost predicate Laid(cuts: seq<Option<Range>>, from: nat, end: nat)
  {
    && (forall k | 0 <= k < |cuts| && cuts[k].Some? :: from <= cuts[k].value.start < cuts[k].value.end < end)
    && forall j, k | 0 <= j < k < |cuts| && cuts[j].Some? && cuts[k].Some? :: cuts[j].value.end < cuts[k].value.start
  }

  lemma CutAtIsWithin(site: Site, at: nat)
    requires TA.WellFormed(site.tags)
    ensures var cut := CutAt(site, at);
            cut.Some? ==> at <= cut.value.start < cut.value.end < at + |TA.Print(site.tags)|
  {
    StableAtMeaning(site.tags);
    if StableAt(site.tags).Some? {
      TA.RangeWithin(site.tags, StableAt(site.tags).value, at);
    }
  }

  lemma LaidCons(cut: Option<Range>, cuts: seq<Option<Range>>, from: nat, mid: nat, end: nat)
    requires Laid(cuts, mid, end) && from <= mid <= end
    requires cut.Some? ==> from <= cut.value.start < cut.value.end < mid
    ensures Laid([cut] + cuts, from, end)
  {
  }

  lemma {:induction false} CutsAreLaid(sites: seq<Site>, at: nat, end: nat)
    requires WellFormedSites(sites) && end == at + |TextOfSites(sites)|
    ensures Laid(CutsOf(sites, at), at, end)
  {
    if sites != [] {
      var mid := NextAt(sites[0], at);
      assert sites[0] in sites;
      TextNext(sites, at);
      CutsAreLaid(sites[1..], mid, end);
      CutAtIsWithin(sites[0], at);
      LaidCons(CutAt(sites[0], at), CutsOf(sites[1..], mid), at, mid, end);
    }
  }

  lemma TextNext(sites: seq<Site>, at: nat)
    requires sites != []
    ensures at + |TextOfSites(sites)| == NextAt(sites[0], at) + |TextOfSites(sites[1..])|
    ensures at + |TA.Print(sites[0].tags)| <= NextAt(sites[0], at)
  {
    BlocksTail(sites, Keep(sites));
    assert Keep(sites)[1..] == Keep(sites[1..]);
    TA.FileLength(BlocksOf(sites, Keep(sites)));
  }

  /** The listed ranges of a file are the cuts of the sites that lose their tag. */
  lemma {:induction false} ListedCuts(sites: seq<Site>, drop: seq<bool>, at: nat, r: Range)
    requires |drop| == |sites| && TA.WellFormedBlocks(BlocksOf(sites, drop))
    ensures r in TA.FileRanges(BlocksOf(sites, drop), at) <==> DropsRange(CutsOf(sites, at), drop, r)
  {
    if sites != [] {
      ListedHead(sites, drop, at, r);
      ListedCuts(sites[1..], drop[1..], NextAt(sites[0], at), r);
      DropsCons(CutAt(sites[0], at), CutsOf(sites[1..], NextAt(sites[0], at)), drop, r);
    }
  }

  ghost predicate DropsRange(cuts: seq<Option<Range>>, drop: seq<bool>, r: Range)
    requires |drop| == |cuts|
  {
    exists k | 0 <= k < |cuts| :: drop[k] && cuts[k] == Some(r)
  }

  lemma DropsCons(cut: Option<Range>, cuts: seq<Option<Range>>, drop: seq<bool>, r: Range)
    requires |drop| == |cuts| + 1
    ensures DropsRange([cut] + cuts, drop, r) <==> (drop[0] && cut == Some(r)) || DropsRange(cuts, drop[1..], r)
  {
    var all := [cut] + cuts;
    if k :| 0 <= k < |cuts| && drop[1..][k] && cuts[k] == Some(r) {
      assert drop[k + 1] && all[k + 1] == Some(r);
    }
    if k :| 0 <= k < |all| && drop[k] && all[k] == Some(r) && k > 0 {
      assert drop[1..][k - 1] && cuts[k - 1] == Some(r);
    }
    if drop[0] && cut == Some(r) {
      assert all[0] == cut;
    }
  }

  lemma ListedHead(sites: seq<Site>, drop: seq<bool>, at: nat, r: Range)
    requires |drop| == |sites| && sites != [] && TA.WellFormedBlocks(BlocksOf(sites, drop))
    ensures TA.WellFormedBlocks(BlocksOf(sites[1..], drop[1..]))
    ensures r in TA.FileRanges(BlocksOf(sites, drop), at)
       <==> (drop[0] && CutAt(sites[0], at) == Some(r))
            || r in TA.FileRanges(BlocksOf(sites[1..], drop[1..]), NextAt(sites[0], at))
  {
    BlocksTail(sites, drop);
    TA.FileRangesNext(BlocksOf(sites, drop), at);
    StableAtMeaning(sites[0].tags);
  }

  /* ---- from a failure to a site ---- */

  predicate Named(site: Site, title: string)
  {
    site.title == Some(title) && StableAt(site.tags).Some?
  }

  /** The sites, counted from `base`, whose test has this title and carries the tag. */
  function SitesNamed(sites: seq<Site>, title: string, base: nat): (ks: seq<nat>)
  {
    if sites == [] then []
    else (if Named(sites[0], title) then [base] else []) + SitesNamed(sites[1..], title, base + 1)
  }

  function FirstOnLine(sites: seq<Site>, ks: seq<nat>, line: nat): (k: Option<nat>)
  {
    if ks == [] then None
    else if ks[0] < |sites| && sites[ks[0]].line == line then Some(ks[0])
    else FirstOnLine(sites, ks[1..], line)
  }

  /** The site a failure is about: the only tagged one of its title, or the one on its line. */
  function Target(sites: seq<Site>, f: Failure): Option<nat>
  {
    var ks := SitesNamed(sites, f.title, 0);
    if |ks| == 1 then Some(ks[0]) else FirstOnLine(sites, ks, f.line)
  }

  function TargetOn(sites: seq<Site>): Failure -> Option<nat>
  {
    (f: Failure) => Target(sites, f)
  }

  /** What the failures that resolve at all resolve to. */
  function TargetsOf(sites: seq<Site>, failures: seq<Failure>): seq<nat>
  {
    FilterMap(failures, TargetOn(sites))
  }

  /* ---- the matches found in the file ---- */

  function MatchesUnder(byTitle: map<string, seq<Match>>, title: string): seq<Match>
  {
    if title in byTitle then byTitle[title] else []
  }

  function SiteMatches(site: Site, at: nat, title: string): seq<Match>
  {
    StableAtMeaning(site.tags);
    if Named(site, title) then [TA.MatchIn(site.tags, at, StableAt(site.tags).value, site.line)] else []
  }

  /** The matches of one title, in file order. */
  function MatchesOf(sites: seq<Site>, at: nat, title: string): seq<Match>
  {
    if sites == [] then [] else SiteMatches(sites[0], at, title) + MatchesOf(sites[1..], NextAt(sites[0], at), title)
  }

  /** One tag array: a match for its test, if the test has a literal title and the array holds the tag. */
  method VisitSite(site: Site, at: nat, byTitle: map<string, seq<Match>>) returns (after: map<string, seq<Match>>)
    ensures forall title :: MatchesUnder(after, title) == MatchesUnder(byTitle, title) + SiteMatches(site, at, title)
  {
    after := byTitle;
    var idx := StableAt(site.tags);
    StableAtMeaning(site.tags);
    if site.title.Some? && idx.Some? {
      var found := TA.MatchIn(site.tags, at, idx.value, site.line);
      after := byTitle[site.title.value := MatchesUnder(byTitle, site.title.value) + [found]];
    }
  }

  /** The table of matches of a whole file, array by array. */
  method StableTestMatches(sites: seq<Site>, at: nat) returns (byTitle: map<string, seq<Match>>)
    ensures forall title :: MatchesUnder(byTitle, title) == MatchesOf(sites, at, title)
  {
    byTitle := map[];
    var position := at;
    assert sites[0..] == sites;
    for i := 0 to |sites|
      invariant forall title :: MatchesUnder(byTitle, title) + MatchesOf(sites[i..], position, title) == MatchesOf(sites, at, title)
    {
      var before, next := byTitle, NextAt(sites[i], position);
      byTitle := VisitSite(sites[i], position, before);
      forall title
        ensures MatchesUnder(byTitle, title) + MatchesOf(sites[i + 1..], next, title) == MatchesOf(sites, at, title)
      {
        MatchesNext(sites, i, position, title);
        AppendAssoc(MatchesUnder(before, title), SiteMatches(sites[i], position, title), MatchesOf(sites[i + 1..], next, title));
      }
      position := next;
    }
  }

  lemma MatchesNext(sites: seq<Site>, i: nat, at: nat, title: string)
    requires i < |sites|
    ensures MatchesOf(sites[i..], at, title)
            == SiteMatches(sites[i], at, title) + MatchesOf(sites[i + 1..], NextAt(sites[i], at), title)
  {
    assert sites[i..][1..] == sites[i + 1..];
  }

  /** A spec file of printed arrays, with the matches found in it. */
  ghost predicate Describes(spec: SpecFile, lead: string, sites: seq<Site>)
  {
    && spec.text == lead + TextOfSites(sites)
    && forall title :: CandidatesFor(spec, title) == MatchesOf(sites, |lead|, title)
  }

  /** Match by match, the sites it belongs to: what it would cut, and its line. */
  ghost predicate MatchesAt(found: seq<Match>, ks: seq<nat>, base: nat, sites: seq<Site>, cuts: seq<Option<Range>>)
    requires |cuts| == |sites|
  {
    |found| == |ks| && forall i | 0 <= i < |ks| :: base <= ks[i] < base + |sites| && MatchIs(found[i], sites[ks[i] - base], cuts[ks[i] - base])
  }

  ghost predicate MatchIs(m: Match, site: Site, cut: Option<Range>)
  {
    ValidMatch(m) && m.line == site.line && cut == Some(SpliceRange(m).0)
  }

  lemma SiteMatchIs(site: Site, at: nat, title: string)
    ensures |SiteMatches(site, at, title)| == if Named(site, title) then 1 else 0
    ensures Named(site, title) ==> MatchIs(SiteMatches(site, at, title)[0], site, CutAt(site, at))
  {
    StableAtMeaning(site.tags);
  }

  lemma {:induction false} MatchesAreNamed(sites: seq<Site>, at: nat, title: string, base: nat)
    ensures MatchesAt(MatchesOf(sites, at, title), SitesNamed(sites, title, base), base, sites, CutsOf(sites, at))
  {
    if sites != [] {
      SiteMatchIs(sites[0], at, title);
      MatchesAreNamed(sites[1..], NextAt(sites[0], at), title, base + 1);
      MatchesCons(sites, SiteMatches(sites[0], at, title), MatchesOf(sites[1..], NextAt(sites[0], at), title),
                  SitesNamed(sites[1..], title, base + 1), base, CutAt(sites[0], at), CutsOf(sites[1..], NextAt(sites[0], at)));
    }
  }

  lemma MatchesCons(sites: seq<Site>, first: seq<Match>, found: seq<Match>, ks: seq<nat>, base: nat,
                    cut: Option<Range>, cuts: seq<Option<Range>>)
    requires sites != [] && |cuts| == |sites| - 1 && MatchesAt(found, ks, base + 1, sites[1..], cuts)
    requires |first| <= 1 && forall m <- first :: MatchIs(m, sites[0], cut)
    ensures MatchesAt(first + found, (if first == [] then [] else [base]) + ks, base, sites, [cut] + cuts)
  {
  }

  lemma {:induction false} OnLineIs(sites: seq<Site>, cuts: seq<Option<Range>>, ks: seq<nat>, found: seq<Match>, line: nat)
    requires |cuts| == |sites| && MatchesAt(found, ks, 0, sites, cuts)
    ensures var k, m := FirstOnLine(sites, ks, line), OnLine(found, line);
            if k.None? then m.None? else m.Some? && k.value < |sites| && MatchIs(m.value, sites[k.value], cuts[k.value])
  {
    if ks != [] {
      assert MatchIs(found[0], sites[ks[0]], cuts[ks[0]]);
      OnLineIs(sites, cuts, ks[1..], found[1..], line);
    }
  }

  /** Resolving a failure in the file is resolving it to a site. */
  lemma ResolvesToTarget(spec: SpecFile, lead: string, sites: seq<Site>, f: Failure)
    requires Describes(spec, lead, sites)
    ensures var k, m := Target(sites, f), Resolve(spec, f);
            if k.None? then m.None?
            else m.Some? && k.value < |sites| && MatchIs(m.value, sites[k.value], CutsOf(sites, |lead|)[k.value])
  {
    assert CandidatesFor(spec, f.title) == MatchesOf(sites, |lead|, f.title);
    MatchesAreNamed(sites, |lead|, f.title, 0);
    OnLineIs(sites, CutsOf(sites, |lead|), SitesNamed(sites, f.title, 0), CandidatesFor(spec, f.title), f.line);
  }

  /** These ranges are the cuts of these sites. */
  ghost predicate RangesAt(ranges: seq<Range>, cuts: seq<Option<Range>>, ks: seq<nat>)
  {
    |ranges| == |ks| && forall i | 0 <= i < |ks| :: ks[i] < |cuts| && cuts[ks[i]] == Some(ranges[i])
  }

  lemma RangesSnoc(ranges: seq<Range>, cuts: seq<Option<Range>>, ks: seq<nat>, r: Range, k: nat)
    requires RangesAt(ranges, cuts, ks) && k < |cuts| && cuts[k] == Some(r)
    ensures RangesAt(ranges + [r], cuts, ks + [k])
  {
  }

  /** The cuts of a file are those of the sites its failures resolve to. */
  lemma {:induction false} CuttingsAreTargets(spec: SpecFile, lead: string, sites: seq<Site>, failures: seq<Failure>)
    requires WellFormedSpec(spec) && Describes(spec, lead, sites)
    ensures RangesAt(RangesOf(CuttingsOf(spec, failures)), CutsOf(sites, |lead|), TargetsOf(sites, failures))
  {
    if failures != [] {
      var n := |failures| - 1;
      CuttingsAreTargets(spec, lead, sites, failures[..n]);
      ResolvesToTarget(spec, lead, sites, failures[n]);
      CuttingsSnoc(spec, failures);
      if Target(sites, failures[n]).Some? {
        RangesSnoc(RangesOf(CuttingsOf(spec, failures[..n])), CutsOf(sites, |lead|), TargetsOf(sites, failures[..n]),
                   CuttingFor(spec, failures[n]).value.range, Target(sites, failures[n]).value);
      }
    }
  }

  lemma CuttingsSnoc(spec: SpecFile, failures: seq<Failure>)
    requires WellFormedSpec(spec) && failures != []
    ensures var n := |failures| - 1;
            var c := CuttingFor(spec, failures[n]);
            RangesOf(CuttingsOf(spec, failures))
              == if c.Some? then RangesOf(CuttingsOf(spec, failures[..n])) + [c.value.range] else RangesOf(CuttingsOf(spec, failures[..n]))
  {
  }

  /* ---- the text a run leaves ---- */

  /** Which of `n` sites are among those resolved to. */
  function Marks(n: nat, ks: seq<nat>): seq<bool>
  {
    seq(n, k requires 0 <= k < n => k in ks)
  }

  /** The file once each of the sites resolved to has lost its tag and nothing else has changed. */
  function TextWithout(lead: string, sites: seq<Site>, ks: seq<nat>): string
    requires WellFormedSites(sites)
  {
    BlocksAreWellFormed(sites, Marks(|sites|, ks));
    lead + TA.CutFile(BlocksOf(sites, Marks(|sites|, ks)))
  }

  lemma RangesAreDropped(cuts: seq<Option<Range>>, ks: seq<nat>, ranges: seq<Range>, r: Range)
    requires RangesAt(ranges, cuts, ks)
    ensures r in ranges <==> DropsRange(cuts, Marks(|cuts|, ks), r)
  {
    if r in ranges {
      var i :| 0 <= i < |ranges| && ranges[i] == r;
      assert Marks(|cuts|, ks)[ks[i]] && cuts[ks[i]] == Some(r);
    }
    if k :| 0 <= k < |cuts| && Marks(|cuts|, ks)[k] && cuts[k] == Some(r) {
      var i :| 0 <= i < |ks| && ks[i] == k;
      assert ranges[i] == r;
    }
  }

  lemma RangesAreInside(cuts: seq<Option<Range>>, from: nat, end: nat, ks: seq<nat>, ranges: seq<Range>)
    requires Laid(cuts, from, end) && RangesAt(ranges, cuts, ks)
    ensures Inside(ranges, end)
  {
  }

  /** Cuts are apart exactly when no site is cut twice. */
  lemma ApartIffDistinct(cuts: seq<Option<Range>>, from: nat, end: nat, ks: seq<nat>, ranges: seq<Range>)
    requires Laid(cuts, from, end) && RangesAt(ranges, cuts, ks)
    ensures AllApart(ranges) <==> Distinct(ks)
  {
    forall i, j | 0 <= i < j < |ks| ensures Apart(ranges[i], ranges[j]) <==> ks[i] != ks[j] {
      assert cuts[ks[i]] == Some(ranges[i]) && cuts[ks[j]] == Some(ranges[j]);
    }
  }

  lemma RangesAreListed(sites: seq<Site>, at: nat, ks: seq<nat>, ranges: seq<Range>)
    requires RangesAt(ranges, CutsOf(sites, at), ks) && TA.WellFormedBlocks(BlocksOf(sites, Marks(|sites|, ks)))
    ensures forall r :: r in ranges <==> r in TA.FileRanges(BlocksOf(sites, Marks(|sites|, ks)), at)
  {
    forall r ensures r in ranges <==> r in TA.FileRanges(BlocksOf(sites, Marks(|sites|, ks)), at) {
      RangesAreDropped(CutsOf(sites, at), ks, ranges, r);
      ListedCuts(sites, Marks(|sites|, ks), at, r);
    }
  }

  /** Deleting the ranges at once is writing the file without those elements. */
  lemma DeletionIsTheFile(lead: string, sites: seq<Site>, ks: seq<nat>, ranges: seq<Range>, text: string)
    requires WellFormedSites(sites) && RangesAt(ranges, CutsOf(sites, |lead|), ks) && text == lead + TextOfSites(sites)
    ensures DeleteAll(text, ranges) == TextWithout(lead, sites, ks)
  {
    var drop := Marks(|sites|, ks);
    BlocksAreWellFormed(sites, drop);
    SameText(sites, drop);
    TA.FileDeletion(lead, BlocksOf(sites, drop), text);
    RangesAreListed(sites, |lead|, ks, ranges);
    SameDeletion(text, ranges, TA.FileRanges(BlocksOf(sites, drop), |lead|));
  }

  /**
   * The new text of a file is the old one with the tag of every test resolved to gone, and every
   * other element, array and character kept, exactly when no two of its failures resolve to one test.
   */
  lemma FileLosesItsTags(spec: SpecFile, lead: string, sites: seq<Site>, failures: seq<Failure>)
    requires WellFormedSites(sites) && WellFormedSpec(spec) && Describes(spec, lead, sites)
    ensures CutAll(spec.text, BackToFront(RangesOf(CuttingsOf(spec, failures)))) == TextWithout(lead, sites, TargetsOf(sites, failures))
       <==> Distinct(TargetsOf(sites, failures))
  {
    var ranges, ks, cuts := RangesOf(CuttingsOf(spec, failures)), TargetsOf(sites, failures), CutsOf(sites, |lead|);
    CuttingsAreTargets(spec, lead, sites, failures);
    CutsAreLaid(sites, |lead|, |spec.text|);
    RangesAreInside(cuts, |lead|, |spec.text|, ks, ranges);
    ApartIffDistinct(cuts, |lead|, |spec.text|, ks, ranges);
    RightExactlyWhenApart(spec.text, ranges);
    DeletionIsTheFile(lead, sites, ks, ranges, spec.text);
  }

  /* ---- the whole run ---- */

  /** The text of a file once a run is over: what was written, or what was there. */
  function TextAfter(out: Outcome, disk: Disk, file: string): string
    requires file in disk
  {
    if file in out.written then out.written[file] else disk[file].text
  }

  /** The text this file gets from these failures. */
  function NewText(disk: Disk, file: string, failures: seq<Failure>): string
    requires WellFormedDisk(disk) && file in disk
  {
    CutAll(disk[file].text, BackToFront(RangesOf(CuttingsOf(disk[file], failures))))
  }

  lemma TextWithFile(disk: Disk, out: Outcome, file: string, failures: seq<Failure>, other: string)
    requires WellFormedDisk(disk) && other in disk
    ensures file != other ==> TextAfter(WithFile(out, file, FileOutcome(disk, file, failures)), disk, other) == TextAfter(out, disk, other)
    ensures file == other && file !in out.written
            ==> TextAfter(WithFile(out, file, FileOutcome(disk, file, failures)), disk, other) == NewText(disk, file, failures)
  {
  }

  lemma {:induction false} WrittenText(disk: Disk, failures: seq<Failure>, files: seq<string>, file: string)
    requires WellFormedDisk(disk) && Distinct(files) && file in disk
    ensures TextAfter(FilesFrom(disk, failures, files), disk, file)
            == if file in files then NewText(disk, file, Having(failures, FileOf, file)) else disk[file].text
    ensures file !in files ==> file !in FilesFrom(disk, failures, files).written
  {
    if files != [] {
      var n := |files| - 1;
      WrittenText(disk, failures, files[..n], file);
      assert files == files[..n] + [files[n]];
      TextWithFile(disk, FilesFrom(disk, failures, files[..n]), files[n], Having(failures, FileOf, files[n]), file);
      if files[n] == file {
        assert file !in files[..n];
      }
    }
  }

  /**
   * From failures to text, for a whole run the guard lets through: a file of printed tag arrays
   * reads afterwards exactly as before without the tags of the tests its removal candidates
   * resolve to, if and only if no two of those candidates resolve to the same test.
   */
  lemma RunLosesExactlyTheTags(all: seq<Failure>, attributable: seq<Failure>, threshold: Option<int>, disk: Disk,
                               file: string, lead: string, sites: seq<Site>)
    requires WellFormedDisk(disk) && !Trips(all, threshold) && file in disk
    requires WellFormedSites(sites) && Describes(disk[file], lead, sites)
    ensures var targets := TargetsOf(sites, Having(attributable, FileOf, file));
            (TextAfter(Remove(all, attributable, threshold, disk), disk, file) == TextWithout(lead, sites, targets)
             <==> Distinct(targets))
  {
    var candidates := Having(attributable, FileOf, file);
    FileLosesItsTags(disk[file], lead, sites, candidates);
    DedupMembers(MapSeq(attributable, FileOf));
    WrittenText(disk, attributable, KeysOf(attributable, FileOf), file);
    if file !in KeysOf(attributable, FileOf) {
      NoneHave(attributable, FileOf, file);
    }
  }

  /* ---- what the file says about a removed test ---- */

  predicate HoldsTwice(texts: seq<string>)
  {
    exists i, j | 0 <= i < j < |texts| :: IsStable(texts[i]) && IsStable(texts[j])
  }

  predicate HoldsStable(texts: seq<string>)
  {
    exists t <- texts :: IsStable(t)
  }

  lemma FirstGone(texts: seq<string>, idx: nat)
    requires idx < |texts| && IsStable(texts[idx]) && forall i | 0 <= i < idx :: !IsStable(texts[i])
    ensures HoldsStable(TA.RemoveAt(texts, idx)) <==> HoldsTwice(texts)
  {
    var left := TA.RemoveAt(texts, idx);
    if i, j :| 0 <= i < j < |texts| && IsStable(texts[i]) && IsStable(texts[j]) {
      assert left[j - 1] == texts[j] && left[j - 1] in left;
    }
    if t :| t in left && IsStable(t) {
      var j :| 0 <= j < |left| && left[j] == t;
      assert j >= idx && texts[j + 1] == t;
    }
  }

  /** A test whose tag was cut out reads back without it exactly when its array held the tag once. */
  lemma RemovedReadsUnstable(tags: TA.TagArray, idx: nat)
    requires TA.WellFormed(tags) && StableAt(tags) == Some(idx)
    ensures idx < |tags.elements|
    ensures HoldsStable(TA.Read(TA.CutContent(tags, idx))) <==> HoldsTwice(TA.TextsOf(tags))
  {
    StableAtMeaning(tags);
    TA.CutReadsBack(tags, idx);
    FirstGone(TA.TextsOf(tags), idx);
    if |tags.elements| == 1 && tags.trailing.Some? {
      assert !HoldsStable([""]);
    }
  }
}
