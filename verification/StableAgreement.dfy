/** Where the three walks over a spec agree, and what the grep string gives away. */
module StableAgreement {
  import opened Texts
  import opened Sequences
  import opened Declarations
  import opened SpecTree

  /* ---- Phase 0 and the backlog ---- */

  /** The backlog's notion: the daily runs it. */
  predicate IsStable(t: DeclaredTest)
  {
    t.stable && !t.fixme
  }

  function AsListed(t: DeclaredTest): Listed
  {
    Listed(t.title, t.relativePath, t.line)
  }

  /** The backlog's stable tests, as Phase 0 would list them. */
  function StableRows(rows: seq<DeclaredTest>): seq<Listed>
  {
    MapSeq(Filter(rows, IsStable), AsListed)
  }

  /** A test the daily runs and Phase 0 cannot see: the tag is on a suite only. */
  predicate Hidden(o: Occurrence)
  {
    Titled(o) && o.test.modifier == Plain && StableOn(o.path) && STABLE_TAG !in Own(o.test.tag)
  }

  lemma StableRowsSnoc(rows: seq<DeclaredTest>, row: DeclaredTest)
    ensures StableRows(rows + [row]) == StableRows(rows) + if IsStable(row) then [AsListed(row)] else []
  {
    FilterAppend(rows, [row], IsStable);
  }

  /** Phase 0 lists a part of what the backlog calls stable, and all of it exactly when nothing is hidden. */
  lemma {:induction false} ListedAmongStable(rel: string, os: seq<Occurrence>)
    ensures |ListedFor(rel, os)| <= |StableRows(RowsFor(rel, os))|
    ensures ListedFor(rel, os) == StableRows(RowsFor(rel, os)) <==> forall o <- os :: !Hidden(o)
    ensures (exists o <- os :: Hidden(o)) ==> |ListedFor(rel, os)| < |StableRows(RowsFor(rel, os))|
  {
    if os != [] {
      var n := |os| - 1;
      ListedAmongStable(rel, os[..n]);
      assert os == os[..n] + [os[n]];
      assert (exists o <- os :: Hidden(o)) <==> Hidden(os[n]) || exists o <- os[..n] :: Hidden(o);
      if Titled(os[n]) {
        StableRowsSnoc(RowsFor(rel, os[..n]), RowFor(rel, os[n]));
      }
    }
  }

  lemma {:induction false} ListedMember(rel: string, os: seq<Occurrence>, l: Listed)
    requires l in ListedFor(rel, os)
    ensures exists row <- RowsFor(rel, os) :: IsStable(row) && AsListed(row) == l
  {
    var n := |os| - 1;
    if l in ListedFor(rel, os[..n]) {
      ListedMember(rel, os[..n], l);
      var row :| row in RowsFor(rel, os[..n]) && IsStable(row) && AsListed(row) == l;
      assert row in RowsFor(rel, os);
    } else {
      var row := RowFor(rel, os[n]);
      assert RowsFor(rel, os) == RowsFor(rel, os[..n]) + [row];
      assert row in RowsFor(rel, os);
    }
  }

  /** Whatever Phase 0 lists is stable and not skipped to the backlog, on every tree. */
  lemma ListedIsStable(rel: string, source: Node, l: Listed)
    requires l in ListedIn(rel, source)
    ensures exists row <- DeclaredIn(rel, source) :: IsStable(row) && AsListed(row) == l
  {
    ListedMember(rel, Occurrences([], source), l);
  }

  /** A suite tag that reaches a test was warned about. */
  lemma {:induction false} HiddenIsWarned(path: seq<Suite>, node: Node, o: Occurrence)
    requires o in Occurrences(path, node) && StableOn(o.path) && !StableOn(path)
    ensures exists w <- WarningsOf(node) :: w.StableOnDescribe?
    decreases node, |node.children| + 1
  {
    if node.Describe? && STABLE_TAG in Own(node.tag) {
      var w := StableOnDescribe(node.line);
      assert OwnWarnings(node) == [w];
      assert w in WarningsOf(node);
    } else {
      BelowUntagged(path, node);
      assert o in OccurrencesIn(Below(path, node), node, |node.children|) by {
        assert o !in OwnOccurrence(path, node);
      }
      HiddenInIsWarned(Below(path, node), node, |node.children|, o);
    }
  }

  lemma BelowUntagged(path: seq<Suite>, node: Node)
    requires !StableOn(path) && !(node.Describe? && STABLE_TAG in Own(node.tag))
    ensures !StableOn(Below(path, node))
  {
    if node.Describe? {
      PathSnoc(path, Suite(node.title, node.tag));
    }
  }

  lemma {:induction false} HiddenInIsWarned(path: seq<Suite>, node: Node, k: nat, o: Occurrence)
    requires k <= |node.children| && o in OccurrencesIn(path, node, k) && StableOn(o.path) && !StableOn(path)
    ensures exists w <- WarningsIn(node, k) :: w.StableOnDescribe?
    decreases node, k
  {
    if o in OccurrencesIn(path, node, k - 1) {
      HiddenInIsWarned(path, node, k - 1, o);
    } else {
      HiddenIsWarned(path, node.children[k - 1], o);
    }
  }

  /**
   * The two notions differ on a file exactly when it holds a hidden test, and then the Phase 0
   * parser has warned: no warning means one definition of `@stable`.
   */
  lemma NotionsDifferOnlyWithWarning(rel: string, source: Node)
    ensures ListedIn(rel, source) == StableRows(DeclaredIn(rel, source))
            <==> forall o <- Occurrences([], source) :: !Hidden(o)
    ensures ListedIn(rel, source) != StableRows(DeclaredIn(rel, source)) ==> exists w <- WarningsOf(source) :: w.StableOnDescribe?
  {
    ListedAmongStable(rel, Occurrences([], source));
    if o :| o in Occurrences([], source) && Hidden(o) {
      HiddenIsWarned([], source, o);
    }
  }

  /* ---- @enterprise ---- */

  lemma {:induction false} LaneOnMembers(path: seq<Suite>, tag: string)
    ensures tag in LaneOn(path) <==> IsLaneTag(tag) && exists s <- path :: tag in Own(s.tag)
  {
    if path != [] {
      var n := |path| - 1;
      LaneOnMembers(path[..n], tag);
      FilterMembers(Own(path[n].tag), IsLaneTag);
      assert path == path[..n] + [path[n]];
    }
  }

  /** A lane tag is in a row exactly when the test or one of its suites carries it. */
  lemma LaneTagReaches(rel: string, o: Occurrence, tag: string)
    requires Titled(o) && IsLaneTag(tag)
    ensures tag in RowFor(rel, o).tags <==> tag in Own(o.test.tag) || exists s <- o.path :: tag in Own(s.tag)
  {
    var own := Own(o.test.tag);
    LaneOnMembers(o.path, tag);
    FilterMembers(LaneOn(o.path), Absent(own));
  }

  /** The test's own tag option, or that of one of its suites, is no readable list. */
  predicate UnreadableReaches(o: Occurrence)
    requires Titled(o)
  {
    o.test.tag == Unreadable || exists s <- o.path :: s.tag == Unreadable
  }

  /** A row is flagged exactly when the test's own tag option, or that of one of its suites, could not be read. */
  lemma UnparseableIff(rel: string, o: Occurrence)
    requires Titled(o)
    ensures RowFor(rel, o).unparseableTags <==> UnreadableReaches(o)
  {
  }

  /** A row is stable exactly when the test or one of its suites carries the tag in a readable list. */
  lemma StableIff(rel: string, o: Occurrence)
    requires Titled(o)
    ensures RowFor(rel, o).stable
            <==> CarriesTag(o.test.tag, STABLE_TAG) || exists s <- o.path :: CarriesTag(s.tag, STABLE_TAG)
  {
  }

  predicate CarriesTag(option: TagOption, tag: string)
  {
    match option case Tags(tags) => tag in tags case NoTag => false case Unreadable => false
  }

  lemma {:induction false} RowsHold(rel: string, os: seq<Occurrence>, o: Occurrence)
    requires o in os && Titled(o)
    ensures RowFor(rel, o) in RowsFor(rel, os)
  {
    var n := |os| - 1;
    assert os == os[..n] + [os[n]];
    if o != os[n] {
      RowsHold(rel, os[..n], o);
    }
  }

  /** Every titled test of a file has its row. */
  lemma RowIsDeclared(rel: string, source: Node, o: Occurrence)
    requires o in Occurrences([], source) && Titled(o)
    ensures RowFor(rel, o) in DeclaredIn(rel, source)
  {
    RowsHold(rel, Occurrences([], source), o);
  }

  predicate PlainEnterpriseRow(t: DeclaredTest)
  {
    t.modifier == "" && ENTERPRISE_TAG in t.tags
  }

  predicate PlainRow(t: DeclaredTest)
  {
    t.modifier == ""
  }

  predicate UntitledPlain(o: Occurrence)
  {
    IsPlain(o) && !Titled(o)
  }

  predicate UntitledEnterprise(o: Occurrence)
  {
    IsEnterprise(o) && !Titled(o)
  }

  lemma EnterpriseIsLane()
    ensures IsLaneTag(ENTERPRISE_TAG)
  {
    assert LANE_TAGS[1] == ENTERPRISE_TAG;
  }

  /** The two counts, made up of rows and of calls whose title is no literal. */
  predicate CountsMatch(rel: string, os: seq<Occurrence>)
  {
    && PlainIn(os) == |Filter(RowsFor(rel, os), PlainRow)| + |Filter(os, UntitledPlain)|
    && EnterpriseIn(os) == |Filter(RowsFor(rel, os), PlainEnterpriseRow)| + |Filter(os, UntitledEnterprise)|
  }

  lemma {:induction false} CountsMatchRows(rel: string, os: seq<Occurrence>)
    ensures CountsMatch(rel, os)
  {
    if os != [] {
      var n := |os| - 1;
      CountsMatchRows(rel, os[..n]);
      CountsMatchNext(rel, os[..n], os[n]);
      assert os == os[..n] + [os[n]];
    }
  }

  lemma CountsMatchNext(rel: string, front: seq<Occurrence>, o: Occurrence)
    requires CountsMatch(rel, front)
    ensures CountsMatch(rel, front + [o])
  {
    OneMoreCounted(rel, front, o);
  }

  lemma OneMoreCounted(rel: string, front: seq<Occurrence>, o: Occurrence)
    ensures PlainIn(front + [o]) == PlainIn(front) + if IsPlain(o) then 1 else 0
    ensures EnterpriseIn(front + [o]) == EnterpriseIn(front) + if IsEnterprise(o) then 1 else 0
    ensures |Filter(front + [o], UntitledPlain)| == |Filter(front, UntitledPlain)| + if UntitledPlain(o) then 1 else 0
    ensures |Filter(front + [o], UntitledEnterprise)| == |Filter(front, UntitledEnterprise)| + if UntitledEnterprise(o) then 1 else 0
    ensures |Filter(RowsFor(rel, front + [o]), PlainRow)|
            == |Filter(RowsFor(rel, front), PlainRow)| + if Titled(o) && IsPlain(o) then 1 else 0
    ensures |Filter(RowsFor(rel, front + [o]), PlainEnterpriseRow)|
            == |Filter(RowsFor(rel, front), PlainEnterpriseRow)| + if Titled(o) && IsEnterprise(o) then 1 else 0
  {
    FilterAppend(front, [o], IsPlain);
    FilterAppend(front, [o], IsEnterprise);
    FilterAppend(front, [o], UntitledPlain);
    FilterAppend(front, [o], UntitledEnterprise);
    assert (front + [o])[..|front|] == front;
    if Titled(o) {
      EnterpriseIsLane();
      LaneTagReaches(rel, o, ENTERPRISE_TAG);
      FilterAppend(RowsFor(rel, front), [RowFor(rel, o)], PlainRow);
      FilterAppend(RowsFor(rel, front), [RowFor(rel, o)], PlainEnterpriseRow);
    }
  }

  /**
   * The counts agree with the rows: the Enterprise tests counted are the plain rows whose tags
   * hold `@enterprise`, plus the calls whose title is no literal, which have no row.
   */
  lemma CountsAgreeOnEnterprise(rel: string, source: Node)
    ensures var counts, os := CountsIn(source), Occurrences([], source);
            && counts.total == |Filter(DeclaredIn(rel, source), PlainRow)| + |Filter(os, UntitledPlain)|
            && counts.enterprise == |Filter(DeclaredIn(rel, source), PlainEnterpriseRow)| + |Filter(os, UntitledEnterprise)|
            && counts.oss >= 0
  {
    CountsMatchRows(rel, Occurrences([], source));
    EnterpriseAmongPlain(Occurrences([], source));
  }

  lemma {:induction false} EnterpriseAmongPlain(os: seq<Occurrence>)
    ensures EnterpriseIn(os) <= PlainIn(os)
  {
    if os != [] {
      EnterpriseAmongPlain(os[1..]);
    }
  }

  /* ---- the grep string ---- */

  /** Every segment Playwright joins: suite titles and tags, then the test's own. */
  function SegmentsOf(o: Occurrence): seq<string>
    requires Titled(o)
  {
    GrepOn(o.path) + [o.test.title.value] + Own(o.test.tag)
  }

  /** What a normal run leaves out: a lane tag anywhere in the file path or the grep string. */
  predicate Excluded(rel: string, grepTitle: string)
  {
    exists tag <- LANE_TAGS :: Contains(rel + [' '] + grepTitle, tag)
  }

  predicate HasUnresolvedTitleSegment(grepTitle: string)
  {
    Contains(grepTitle, UNRESOLVED_TITLE) || Contains(grepTitle, "${")
  }

  lemma GrepSees(rel: string, o: Occurrence, pat: string)
    requires Titled(o) && ' ' !in pat && pat != []
    ensures Contains(RowFor(rel, o).grepTitle, pat) <==> exists s <- SegmentsOf(o) :: Contains(s, pat)
  {
    assert [' '] == " ";
    ContainsJoin(SegmentsOf(o), ' ', pat);
  }

  lemma GrepSeesWithPath(rel: string, grepTitle: string, pat: string)
    requires ' ' !in pat && pat != []
    ensures Contains(rel + [' '] + grepTitle, pat) <==> Contains(rel, pat) || Contains(grepTitle, pat)
  {
    var parts := [rel, grepTitle];
    assert parts[1..] == [grepTitle];
    assert Join(parts, [' ']) == rel + [' '] + grepTitle;
    ContainsJoin(parts, ' ', pat);
    assert parts[0] in parts && parts[1] in parts;
  }

  lemma TagsHaveNoSpace()
    ensures forall tag <- LANE_TAGS :: ' ' !in tag && tag != []
  {
  }

  /** A normal listing leaves a test out exactly when its path or one segment holds a lane tag. */
  lemma ExcludedIff(rel: string, o: Occurrence)
    requires Titled(o)
    ensures Excluded(rel, RowFor(rel, o).grepTitle)
            <==> exists tag <- LANE_TAGS :: Contains(rel, tag) || exists s <- SegmentsOf(o) :: Contains(s, tag)
  {
    TagsHaveNoSpace();
    forall tag <- LANE_TAGS
      ensures Contains(rel + [' '] + RowFor(rel, o).grepTitle, tag)
              <==> Contains(rel, tag) || exists s <- SegmentsOf(o) :: Contains(s, tag)
    {
      GrepSeesWithPath(rel, RowFor(rel, o).grepTitle, tag);
      GrepSees(rel, o, tag);
    }
  }

  lemma {:induction false} GrepOnHolds(path: seq<Suite>, s: Suite, tag: string)
    requires s in path && tag in Own(s.tag)
    ensures tag in GrepOn(path)
  {
    var n := |path| - 1;
    assert path == path[..n] + [path[n]];
    if s in path[..n] {
      GrepOnHolds(path[..n], s, tag);
    }
  }

  /** What the reconciler calls lane-gated, the listing excludes: a lane tag always reaches the grep string. */
  lemma LaneGatedIsExcluded(rel: string, o: Occurrence)
    requires Titled(o) && LaneGated(RowFor(rel, o))
    ensures Excluded(rel, RowFor(rel, o).grepTitle)
  {
    var row := RowFor(rel, o);
    var gate := (t: string) => t in row.tags;
    FilterMembers(LANE_TAGS, gate);
    var tag := LaneTagsOf(row)[0];
    assert tag in Filter(LANE_TAGS, gate);
    LaneTagReaches(rel, o, tag);
    if tag in Own(o.test.tag) {
      assert tag in SegmentsOf(o);
    } else {
      var s :| s in o.path && tag in Own(s.tag);
      GrepOnHolds(o.path, s, tag);
      assert tag in SegmentsOf(o);
    }
    ContainsEnd([], tag);
    assert [] + tag == tag;
    ExcludedIff(rel, o);
  }

  lemma UnresolvedHasNoSpace()
    ensures ' ' !in UNRESOLVED_TITLE && UNRESOLVED_TITLE != []
  {
  }

  /** A test is flagged exactly when one of its titles or tags holds the marker or a placeholder. */
  lemma UnresolvedIff(rel: string, o: Occurrence)
    requires Titled(o)
    ensures HasUnresolvedTitleSegment(RowFor(rel, o).grepTitle)
            <==> exists s <- SegmentsOf(o) :: Contains(s, UNRESOLVED_TITLE) || Contains(s, "${")
  {
    UnresolvedHasNoSpace();
    GrepSees(rel, o, UNRESOLVED_TITLE);
    GrepSees(rel, o, "${");
  }

  /** A suite title that is no literal always flags every test below it. */
  lemma {:induction false} UnreadableTitleIsFlagged(rel: string, o: Occurrence, s: Suite)
    requires Titled(o) && s in o.path && s.title.None?
    ensures HasUnresolvedTitleSegment(RowFor(rel, o).grepTitle)
  {
    MarkerOnPath(o.path, s);
    assert UNRESOLVED_TITLE in SegmentsOf(o);
    ContainsEnd([], UNRESOLVED_TITLE);
    assert [] + UNRESOLVED_TITLE == UNRESOLVED_TITLE;
    UnresolvedIff(rel, o);
  }

  lemma {:induction false} MarkerOnPath(path: seq<Suite>, s: Suite)
    requires s in path && s.title.None?
    ensures UNRESOLVED_TITLE in GrepOn(path)
  {
    var n := |path| - 1;
    assert path == path[..n] + [path[n]];
    if s in path[..n] {
      MarkerOnPath(path[..n], s);
    } else {
      assert Segments(path[n])[0] == UNRESOLVED_TITLE;
      assert UNRESOLVED_TITLE in Segments(path[n]);
    }
  }
}
