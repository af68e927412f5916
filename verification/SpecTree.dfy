/**
 * The three walks over a spec's syntax tree, and the three notions of "is `@stable`".
 *
 * Each walk carries what it inherits down as parameters. Here every test is also given the
 * list of suites it stands in, and each walk is proved to report what that list says.
 */
module SpecTree {
  import opened Texts
  import opened Sequences
  import opened Declarations

  const UNRESOLVED_TITLE := "\U{27E8}unresolved\U{27E9}"

  /** The `tag` option of a call: absent, a readable list, or something else. */
  datatype TagOption = NoTag | Tags(tags: seq<string>) | Unreadable

  /** How a test is declared: `test(...)`, `test.fixme(...)` or `test.skip(...)`. */
  datatype Modifier = Plain | Fixme | Skip

  /**
   * A call or other node of the tree. A title is `None` when it is not a literal; a suite
   * call with fewer than two arguments is an `Other`.
   */
  datatype Node =
    | Describe(title: Option<string>, tag: TagOption, line: nat, children: seq<Node>)
    | Test(modifier: Modifier, title: Option<string>, tag: TagOption, line: nat, children: seq<Node>)
    | Other(children: seq<Node>)

  /** One enclosing suite. */
  datatype Suite = Suite(title: Option<string>, tag: TagOption)

  function Own(tag: TagOption): seq<string>
  {
    if tag.Tags? then tag.tags else []
  }

  predicate IsLaneTag(tag: string)
  {
    tag in LANE_TAGS
  }

  /* ---- by the path: what a test's suites say about it ---- */

  predicate StableOn(path: seq<Suite>)
  {
    exists s <- path :: STABLE_TAG in Own(s.tag)
  }

  predicate EnterpriseOn(path: seq<Suite>)
  {
    exists s <- path :: ENTERPRISE_TAG in Own(s.tag)
  }

  predicate UnreadableOn(path: seq<Suite>)
  {
    exists s <- path :: s.tag.Unreadable?
  }

  function LaneOn(path: seq<Suite>): seq<string>
  {
    if path == [] then [] else LaneOn(path[..|path| - 1]) + Filter(Own(path[|path| - 1].tag), IsLaneTag)
  }

  function Segments(s: Suite): seq<string>
  {
    [if s.title.Some? then s.title.value else UNRESOLVED_TITLE] + Own(s.tag)
  }

  function GrepOn(path: seq<Suite>): seq<string>
  {
    if path == [] then [] else GrepOn(path[..|path| - 1]) + Segments(path[|path| - 1])
  }

  /* ---- every test, in source order, with its suites ---- */

  datatype Occurrence = Occurrence(path: seq<Suite>, test: Node)

  function Below(path: seq<Suite>, node: Node): seq<Suite>
  {
    if node.Describe? then path + [Suite(node.title, node.tag)] else path
  }

  function OwnOccurrence(path: seq<Suite>, node: Node): seq<Occurrence>
  {
    if node.Test? then [Occurrence(path, node)] else []
  }

  function Occurrences(path: seq<Suite>, node: Node): seq<Occurrence>
    decreases node, |node.children| + 1
  {
    OwnOccurrence(path, node) + OccurrencesIn(Below(path, node), node, |node.children|)
  }

  /** The tests below the first `k` children. */
  function OccurrencesIn(path: seq<Suite>, node: Node, k: nat): seq<Occurrence>
    requires k <= |node.children|
    decreases node, k
  {
    if k == 0 then [] else OccurrencesIn(path, node, k - 1) + Occurrences(path, node.children[k - 1])
  }

  lemma {:induction false} OccurrencesAreTests(path: seq<Suite>, node: Node)
    ensures forall o <- Occurrences(path, node) :: o.test.Test?
    decreases node, |node.children| + 1
  {
    OccurrencesInAreTests(Below(path, node), node, |node.children|);
  }

  lemma {:induction false} OccurrencesInAreTests(path: seq<Suite>, node: Node, k: nat)
    requires k <= |node.children|
    ensures forall o <- OccurrencesIn(path, node, k) :: o.test.Test?
    decreases node, k
  {
    if k > 0 {
      OccurrencesInAreTests(path, node, k - 1);
      OccurrencesAreTests(path, node.children[k - 1]);
    }
  }

  /* ---- parseDeclaredTests ---- */

  function Word(m: Modifier): string
  {
    match m case Plain => "" case Fixme => "fixme" case Skip => "skip"
  }

  predicate Titled(o: Occurrence)
  {
    o.test.Test? && o.test.title.Some?
  }

  function Absent(own: seq<string>): string -> bool
  {
    (t: string) => t !in own
  }

  /** The row of a titled test, from its suites and its own options. */
  function RowFor(relativePath: string, o: Occurrence): DeclaredTest
    requires Titled(o)
  {
    var own := Own(o.test.tag);
    DeclaredTest(
      o.test.title.value, relativePath, o.test.line,
      own + Filter(LaneOn(o.path), Absent(own)),
      STABLE_TAG in own || StableOn(o.path),
      o.test.modifier != Plain,
      Word(o.test.modifier),
      o.test.tag.Unreadable? || UnreadableOn(o.path),
      Join(GrepOn(o.path) + [o.test.title.value] + own, " "))
  }

  function RowsFor(relativePath: string, os: seq<Occurrence>): seq<DeclaredTest>
  {
    if os == [] then []
    else
      var n := |os| - 1;
      var front := RowsFor(relativePath, os[..n]);
      if Titled(os[n]) then front + [RowFor(relativePath, os[n])] else front
  }

  lemma {:induction false} RowsAppend(relativePath: string, a: seq<Occurrence>, b: seq<Occurrence>)
    ensures RowsFor(relativePath, a + b) == RowsFor(relativePath, a) + RowsFor(relativePath, b)
  {
    if b == [] {
      assert a + b == a;
    } else {
      assert (a + b)[..|a + b| - 1] == a + b[..|b| - 1];
      RowsAppend(relativePath, a, b[..|b| - 1]);
    }
  }

  /** What a walk has listed once it has seen the first `k` children. */
  ghost predicate Rowed(relativePath: string, path: seq<Suite>, node: Node, k: nat, out0: seq<DeclaredTest>, out: seq<DeclaredTest>)
    requires k <= |node.children|
  {
    out == out0 + RowsFor(relativePath, OccurrencesIn(path, node, k))
  }

  lemma NothingRowed(relativePath: string, path: seq<Suite>, node: Node, out: seq<DeclaredTest>)
    ensures Rowed(relativePath, path, node, 0, out, out)
  {
  }

  lemma RowedNext(relativePath: string, path: seq<Suite>, node: Node, k: nat, out0: seq<DeclaredTest>, out: seq<DeclaredTest>)
    requires k < |node.children| && Rowed(relativePath, path, node, k, out0, out)
    ensures Rowed(relativePath, path, node, k + 1, out0, out + RowsFor(relativePath, Occurrences(path, node.children[k])))
  {
    RowsAppend(relativePath, OccurrencesIn(path, node, k), Occurrences(path, node.children[k]));
    AppendAssoc(out0, RowsFor(relativePath, OccurrencesIn(path, node, k)),
                RowsFor(relativePath, Occurrences(path, node.children[k])));
  }

  lemma RowedNode(relativePath: string, path: seq<Suite>, node: Node, out0: seq<DeclaredTest>, mid: seq<DeclaredTest>,
                  out: seq<DeclaredTest>)
    requires mid == out0 + RowsFor(relativePath, OwnOccurrence(path, node))
    requires Rowed(relativePath, Below(path, node), node, |node.children|, mid, out)
    ensures out == out0 + RowsFor(relativePath, Occurrences(path, node))
  {
    var own, below := OwnOccurrence(path, node), OccurrencesIn(Below(path, node), node, |node.children|);
    RowsAppend(relativePath, own, below);
    AppendAssoc(out0, RowsFor(relativePath, own), RowsFor(relativePath, below));
  }

  lemma NoRow(relativePath: string, path: seq<Suite>, node: Node, out: seq<DeclaredTest>)
    requires !(node.Test? && node.title.Some?)
    ensures out == out + RowsFor(relativePath, OwnOccurrence(path, node))
  {
  }

  lemma PathSnoc(path: seq<Suite>, s: Suite)
    ensures StableOn(path + [s]) == (StableOn(path) || STABLE_TAG in Own(s.tag))
    ensures EnterpriseOn(path + [s]) == (EnterpriseOn(path) || ENTERPRISE_TAG in Own(s.tag))
    ensures UnreadableOn(path + [s]) == (UnreadableOn(path) || s.tag.Unreadable?)
    ensures LaneOn(path + [s]) == LaneOn(path) + Filter(Own(s.tag), IsLaneTag)
    ensures GrepOn(path + [s]) == GrepOn(path) + Segments(s)
  {
    var longer := path + [s];
    assert longer[..|path|] == path;
    assert forall t :: t in longer <==> t in path || t == s;
  }

  /** The walk that lists every declared test. */
  class DeclaredTestsWalk {
    const relativePath: string
    var out: seq<DeclaredTest>

    constructor (relativePath: string)
      ensures this.relativePath == relativePath && out == []
    {
      this.relativePath := relativePath;
      out := [];
    }

    /** The inherited values always agree with the suites on the path. */
    method Visit(node: Node, inheritedStable: bool, inheritedLane: seq<string>, inheritedGrep: seq<string>,
                 inheritedUnparseable: bool, ghost path: seq<Suite>)
      requires Inherited(inheritedStable, inheritedLane, inheritedGrep, inheritedUnparseable, path)
      modifies this`out
      ensures out == old(out) + RowsFor(relativePath, Occurrences(path, node))
      decreases node, 3
    {
      var childrenStable, childrenLane := inheritedStable, inheritedLane;
      var childrenGrep, childrenUnparseable := inheritedGrep, inheritedUnparseable;
      if node.Describe? {
        var tags := Own(node.tag);
        if STABLE_TAG in tags { childrenStable := true; }
        var lane := Filter(tags, IsLaneTag);
        if |lane| > 0 { childrenLane := inheritedLane + lane; }
        if node.tag.Unreadable? { childrenUnparseable := true; }
        childrenGrep := inheritedGrep + ([if node.title.Some? then node.title.value else UNRESOLVED_TITLE] + tags);
        PathSnoc(path, Suite(node.title, node.tag));
      }
      Declare(node, inheritedStable, inheritedLane, inheritedGrep, inheritedUnparseable, path);
      ghost var mid := out;
      VisitChildren(node, childrenStable, childrenLane, childrenGrep, childrenUnparseable, Below(path, node));
      RowedNode(relativePath, path, node, old(out), mid, out);
    }

    method VisitChildren(node: Node, stable: bool, lane: seq<string>, grep: seq<string>, unparseable: bool,
                         ghost path: seq<Suite>)
      requires Inherited(stable, lane, grep, unparseable, path)
      modifies this`out
      ensures Rowed(relativePath, path, node, |node.children|, old(out), out)
      decreases node, 2
    {
      NothingRowed(relativePath, path, node, out);
      for i := 0 to |node.children|
        invariant Rowed(relativePath, path, node, i, old(out), out)
      {
        VisitChild(node, i, stable, lane, grep, unparseable, path, old(out));
      }
    }

    method VisitChild(node: Node, i: nat, stable: bool, lane: seq<string>, grep: seq<string>, unparseable: bool,
                      ghost path: seq<Suite>, ghost before: seq<DeclaredTest>)
      requires i < |node.children| && Inherited(stable, lane, grep, unparseable, path)
      requires Rowed(relativePath, path, node, i, before, out)
      modifies this`out
      ensures Rowed(relativePath, path, node, i + 1, before, out)
      decreases node, 1
    {
      RowedNext(relativePath, path, node, i, before, out);
      Visit(node.children[i], stable, lane, grep, unparseable, path);
    }

    /** The row of a titled test; nothing for any other node. */
    method Declare(node: Node, inheritedStable: bool, inheritedLane: seq<string>, inheritedGrep: seq<string>,
                   inheritedUnparseable: bool, ghost path: seq<Suite>)
      requires Inherited(inheritedStable, inheritedLane, inheritedGrep, inheritedUnparseable, path)
      modifies this`out
      ensures out == old(out) + RowsFor(relativePath, OwnOccurrence(path, node))
    {
      if !(node.Test? && node.title.Some?) {
        NoRow(relativePath, path, node, out);
        return;
      }
      var own := Own(node.tag);
      out := out + [DeclaredTest(
        node.title.value, relativePath, node.line, own + Filter(inheritedLane, Absent(own)),
        STABLE_TAG in own || inheritedStable, node.modifier != Plain, Word(node.modifier),
        node.tag.Unreadable? || inheritedUnparseable, Join(inheritedGrep + [node.title.value] + own, " "))];
    }
  }

  /** What the walk carries down is what the path says. */
  ghost predicate Inherited(stable: bool, lane: seq<string>, grep: seq<string>, unparseable: bool, path: seq<Suite>)
  {
    stable == StableOn(path) && lane == LaneOn(path) && grep == GrepOn(path) && unparseable == UnreadableOn(path)
  }

  /** The rows of a whole file. */
  function DeclaredIn(relativePath: string, source: Node): seq<DeclaredTest>
  {
    RowsFor(relativePath, Occurrences([], source))
  }

  method ParseDeclaredTests(relativePath: string, source: Node) returns (rows: seq<DeclaredTest>)
    ensures rows == DeclaredIn(relativePath, source)
  {
    var walk := new DeclaredTestsWalk(relativePath);
    walk.Visit(source, false, [], [], false, []);
    rows := walk.out;
  }

  /* ---- parseStableTests ---- */

  /** A `@stable` test as Phase 0 lists it. */
  datatype Listed = Listed(title: string, relativePath: string, line: nat)

  datatype Warning = StableOnDescribe(line: nat) | UnreadableTag(line: nat)

  predicate IsListed(o: Occurrence)
  {
    Titled(o) && o.test.modifier == Plain && STABLE_TAG in Own(o.test.tag)
  }

  function ListedFor(relativePath: string, os: seq<Occurrence>): seq<Listed>
  {
    if os == [] then []
    else
      var n := |os| - 1;
      var front := ListedFor(relativePath, os[..n]);
      if IsListed(os[n]) then front + [Listed(os[n].test.title.value, relativePath, os[n].test.line)] else front
  }

  lemma {:induction false} ListedAppend(relativePath: string, a: seq<Occurrence>, b: seq<Occurrence>)
    ensures ListedFor(relativePath, a + b) == ListedFor(relativePath, a) + ListedFor(relativePath, b)
  {
    if b == [] {
      assert a + b == a;
    } else {
      assert (a + b)[..|a + b| - 1] == a + b[..|b| - 1];
      ListedAppend(relativePath, a, b[..|b| - 1]);
    }
  }

  /** What one call warns about. */
  function OwnWarnings(node: Node): seq<Warning>
  {
    if node.Describe? && STABLE_TAG in Own(node.tag) then [StableOnDescribe(node.line)]
    else if node.Test? && node.modifier == Plain && node.tag.Unreadable? then [UnreadableTag(node.line)]
    else []
  }

  function WarningsOf(node: Node): seq<Warning>
    decreases node, |node.children| + 1
  {
    OwnWarnings(node) + WarningsIn(node, |node.children|)
  }

  function WarningsIn(node: Node, k: nat): seq<Warning>
    requires k <= |node.children|
    decreases node, k
  {
    if k == 0 then [] else WarningsIn(node, k - 1) + WarningsOf(node.children[k - 1])
  }

  /** What a walk has reported once it has seen the first `k` children. */
  ghost predicate Reported(relativePath: string, path: seq<Suite>, node: Node, k: nat, out0: seq<Listed>, out: seq<Listed>,
                           warnings0: seq<Warning>, warnings: seq<Warning>)
    requires k <= |node.children|
  {
    && out == out0 + ListedFor(relativePath, OccurrencesIn(path, node, k))
    && warnings == warnings0 + WarningsIn(node, k)
  }

  lemma NothingReported(relativePath: string, path: seq<Suite>, node: Node, out: seq<Listed>, warnings: seq<Warning>)
    ensures Reported(relativePath, path, node, 0, out, out, warnings, warnings)
  {
  }

  lemma ReportedNext(relativePath: string, path: seq<Suite>, node: Node, k: nat, out0: seq<Listed>, out: seq<Listed>,
                     warnings0: seq<Warning>, warnings: seq<Warning>)
    requires k < |node.children| && Reported(relativePath, path, node, k, out0, out, warnings0, warnings)
    ensures Reported(relativePath, path, node, k + 1,
                     out0, out + ListedFor(relativePath, Occurrences(path, node.children[k])),
                     warnings0, warnings + WarningsOf(node.children[k]))
  {
    ListedAppend(relativePath, OccurrencesIn(path, node, k), Occurrences(path, node.children[k]));
    AppendAssoc(out0, ListedFor(relativePath, OccurrencesIn(path, node, k)),
                ListedFor(relativePath, Occurrences(path, node.children[k])));
    AppendAssoc(warnings0, WarningsIn(node, k), WarningsOf(node.children[k]));
  }

  lemma ReportedNode(relativePath: string, path: seq<Suite>, node: Node, out0: seq<Listed>, out1: seq<Listed>, out: seq<Listed>,
                     warnings0: seq<Warning>, warnings1: seq<Warning>, warnings: seq<Warning>)
    requires out1 == out0 + ListedFor(relativePath, OwnOccurrence(path, node)) && warnings1 == warnings0 + OwnWarnings(node)
    requires Reported(relativePath, Below(path, node), node, |node.children|, out1, out, warnings1, warnings)
    ensures out == out0 + ListedFor(relativePath, Occurrences(path, node)) && warnings == warnings0 + WarningsOf(node)
  {
    var own, below := OwnOccurrence(path, node), OccurrencesIn(Below(path, node), node, |node.children|);
    ListedAppend(relativePath, own, below);
    AppendAssoc(out0, ListedFor(relativePath, own), ListedFor(relativePath, below));
    AppendAssoc(warnings0, OwnWarnings(node), WarningsIn(node, |node.children|));
  }

  /** The walk that lists the tests Phase 0 publishes. */
  class StableTestsWalk {
    const relativePath: string
    var out: seq<Listed>
    var warnings: seq<Warning>

    constructor (relativePath: string)
      ensures this.relativePath == relativePath && out == [] && warnings == []
    {
      this.relativePath := relativePath;
      out, warnings := [], [];
    }

    method Visit(node: Node, ghost path: seq<Suite>)
      modifies this
      ensures out == old(out) + ListedFor(relativePath, Occurrences(path, node))
      ensures warnings == old(warnings) + WarningsOf(node)
      decreases node, 1
    {
      Inspect(node, path);
      ghost var out1, warnings1 := out, warnings;
      VisitChildren(node, Below(path, node));
      ReportedNode(relativePath, path, node, old(out), out1, out, old(warnings), warnings1, warnings);
    }

    method VisitChildren(node: Node, ghost path: seq<Suite>)
      modifies this
      ensures Reported(relativePath, path, node, |node.children|, old(out), out, old(warnings), warnings)
      decreases node, 0
    {
      NothingReported(relativePath, path, node, out, warnings);
      for i := 0 to |node.children|
        invariant Reported(relativePath, path, node, i, old(out), out, old(warnings), warnings)
      {
        ReportedNext(relativePath, path, node, i, old(out), out, old(warnings), warnings);
        Visit(node.children[i], path);
      }
    }

    /** What one call adds to the two lists. */
    method Inspect(node: Node, ghost path: seq<Suite>)
      modifies this
      ensures out == old(out) + ListedFor(relativePath, OwnOccurrence(path, node))
      ensures warnings == old(warnings) + OwnWarnings(node)
    {
      if node.Describe? && STABLE_TAG in Own(node.tag) {
        warnings := warnings + [StableOnDescribe(node.line)];
      }
      if node.Test? && node.modifier == Plain {
        if node.tag.Unreadable? {
          warnings := warnings + [UnreadableTag(node.line)];
        }
        if node.title.Some? && STABLE_TAG in Own(node.tag) {
          out := out + [Listed(node.title.value, relativePath, node.line)];
        }
      }
    }
  }

  function ListedIn(relativePath: string, source: Node): seq<Listed>
  {
    ListedFor(relativePath, Occurrences([], source))
  }

  method ParseStableTests(relativePath: string, source: Node) returns (tests: seq<Listed>, warnings: seq<Warning>)
    ensures tests == ListedIn(relativePath, source) && warnings == WarningsOf(source)
  {
    var walk := new StableTestsWalk(relativePath);
    walk.Visit(source, []);
    tests, warnings := walk.out, walk.warnings;
  }

  /* ---- parseDeclaredCounts ---- */

  predicate IsPlain(o: Occurrence)
  {
    o.test.Test? && o.test.modifier == Plain
  }

  predicate IsEnterprise(o: Occurrence)
  {
    IsPlain(o) && (EnterpriseOn(o.path) || ENTERPRISE_TAG in Own(o.test.tag))
  }

  /** The walk that counts. */
  class DeclaredCountsWalk {
    var total: nat
    var enterprise: nat

    constructor ()
      ensures total == 0 && enterprise == 0
    {
      total, enterprise := 0, 0;
    }

    method Visit(node: Node, inheritedEnterprise: bool, ghost path: seq<Suite>)
      requires inheritedEnterprise == EnterpriseOn(path)
      modifies this
      ensures total == old(total) + PlainIn(Occurrences(path, node))
      ensures enterprise == old(enterprise) + EnterpriseIn(Occurrences(path, node))
      decreases node, 1
    {
      var childrenInherit := inheritedEnterprise;
      if node.Describe? {
        if ENTERPRISE_TAG in Own(node.tag) { childrenInherit := true; }
        PathSnoc(path, Suite(node.title, node.tag));
      } else if node.Test? && node.modifier == Plain {
        total := total + 1;
        var isEnterprise := inheritedEnterprise;
        if !isEnterprise && ENTERPRISE_TAG in Own(node.tag) { isEnterprise := true; }
        if isEnterprise { enterprise := enterprise + 1; }
      }
      VisitChildren(node, childrenInherit, Below(path, node));
      OwnCounts(path, node);
    }

    method VisitChildren(node: Node, inheritedEnterprise: bool, ghost path: seq<Suite>)
      requires inheritedEnterprise == EnterpriseOn(path)
      modifies this
      ensures total == old(total) + PlainIn(OccurrencesIn(path, node, |node.children|))
      ensures enterprise == old(enterprise) + EnterpriseIn(OccurrencesIn(path, node, |node.children|))
      decreases node, 0
    {
      for i := 0 to |node.children|
        invariant total == old(total) + PlainIn(OccurrencesIn(path, node, i))
        invariant enterprise == old(enterprise) + EnterpriseIn(OccurrencesIn(path, node, i))
      {
        Visit(node.children[i], inheritedEnterprise, path);
        CountsOfNext(path, node, i);
      }
    }
  }

  function PlainIn(os: seq<Occurrence>): nat
  {
    |Filter(os, IsPlain)|
  }

  function EnterpriseIn(os: seq<Occurrence>): nat
  {
    |Filter(os, IsEnterprise)|
  }

  lemma CountsAdd(a: seq<Occurrence>, b: seq<Occurrence>)
    ensures PlainIn(a + b) == PlainIn(a) + PlainIn(b) && EnterpriseIn(a + b) == EnterpriseIn(a) + EnterpriseIn(b)
  {
    FilterAppend(a, b, IsPlain);
    FilterAppend(a, b, IsEnterprise);
  }

  lemma CountsOfNext(path: seq<Suite>, node: Node, i: nat)
    requires i < |node.children|
    ensures PlainIn(OccurrencesIn(path, node, i + 1))
            == PlainIn(OccurrencesIn(path, node, i)) + PlainIn(Occurrences(path, node.children[i]))
    ensures EnterpriseIn(OccurrencesIn(path, node, i + 1))
            == EnterpriseIn(OccurrencesIn(path, node, i)) + EnterpriseIn(Occurrences(path, node.children[i]))
  {
    CountsAdd(OccurrencesIn(path, node, i), Occurrences(path, node.children[i]));
  }

  lemma OwnCounts(path: seq<Suite>, node: Node)
    ensures var below := OccurrencesIn(Below(path, node), node, |node.children|);
            && PlainIn(Occurrences(path, node)) == PlainIn(below) + (if node.Test? && node.modifier == Plain then 1 else 0)
            && EnterpriseIn(Occurrences(path, node))
               == EnterpriseIn(below) + (if node.Test? && IsEnterprise(Occurrence(path, node)) then 1 else 0)
  {
    CountsAdd(OwnOccurrence(path, node), OccurrencesIn(Below(path, node), node, |node.children|));
  }

  datatype DeclaredCounts = DeclaredCounts(total: nat, enterprise: nat, oss: int)

  function CountsIn(source: Node): DeclaredCounts
  {
    var os := Occurrences([], source);
    var total, enterprise := PlainIn(os), EnterpriseIn(os);
    DeclaredCounts(total, enterprise, total - enterprise)
  }

  method ParseDeclaredCounts(source: Node) returns (counts: DeclaredCounts)
    ensures counts == CountsIn(source)
  {
    var walk := new DeclaredCountsWalk();
    walk.Visit(source, false, []);
    counts := DeclaredCounts(walk.total, walk.enterprise, walk.total - walk.enterprise);
  }
}
