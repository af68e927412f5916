/**
 * The rows of a spec, by the nodes of its tree: every walk reports exactly the calls that can be
 * reached from the root, with what the suites on the way say.
 */
module TreePaths {
  import opened Texts
  import opened Sequences
  import opened Declarations
  import opened SpecTree
  import opened StableAgreement
  import opened DeclaredSpecs

  /* ---- chains of nodes ---- */

  /** A way down the tree, from its root: each node is a child of the one before. */
  ghost predicate Chain(root: Node, ns: seq<Node>)
  {
    ns != [] && ns[0] == root && forall i | 0 <= i < |ns| - 1 :: ns[i + 1] in ns[i].children
  }

  /** The suites among some nodes, outermost first. */
  function SuitesOf(ns: seq<Node>): seq<Suite>
  {
    if ns == [] then []
    else (if ns[0].Describe? then [Suite(ns[0].title, ns[0].tag)] else []) + SuitesOf(ns[1..])
  }

  /** The chain ends at the test of an occurrence, and its suites are the occurrence's path below `path`. */
  ghost predicate LeadsTo(path: seq<Suite>, root: Node, ns: seq<Node>, o: Occurrence)
  {
    && Chain(root, ns) && ns[|ns| - 1] == o.test && o.test.Test?
    && o.path == path + SuitesOf(ns[..|ns| - 1])
  }

  lemma BelowIs(path: seq<Suite>, node: Node)
    ensures Below(path, node) == path + SuitesOf([node])
  {
    assert SuitesOf([node][1..]) == [];
  }

  lemma LongerChain(path: seq<Suite>, node: Node, child: Node, ns: seq<Node>, o: Occurrence)
    requires child in node.children && LeadsTo(Below(path, node), child, ns, o)
    ensures LeadsTo(path, node, [node] + ns, o)
  {
    var longer := [node] + ns;
    forall i | 0 <= i < |longer| - 1 ensures longer[i + 1] in longer[i].children {
      if i > 0 { assert longer[i] == ns[i - 1] && longer[i + 1] == ns[i]; }
    }
    var front := ns[..|ns| - 1];
    assert longer[..|longer| - 1] == [node] + front;
    BelowIs(path, node);
    SuitesCons(node, front);
    AppendAssoc(path, SuitesOf([node]), SuitesOf(front));
  }

  lemma SuitesCons(node: Node, ns: seq<Node>)
    ensures SuitesOf([node] + ns) == SuitesOf([node]) + SuitesOf(ns)
  {
    assert ([node] + ns)[1..] == ns;
    assert SuitesOf([node][1..]) == [];
  }

  lemma ShorterChain(path: seq<Suite>, node: Node, ns: seq<Node>, o: Occurrence)
    requires LeadsTo(path, node, ns, o) && |ns| > 1
    ensures ns[1] in node.children && LeadsTo(Below(path, node), ns[1], ns[1..], o)
  {
    var rest := ns[1..];
    assert ns[0 + 1] in ns[0].children;
    forall i | 0 <= i < |rest| - 1 ensures rest[i + 1] in rest[i].children {
      assert ns[i + 1 + 1] in ns[i + 1].children;
    }
    var front := rest[..|rest| - 1];
    assert ns[..|ns| - 1] == [node] + front;
    BelowIs(path, node);
    SuitesCons(node, front);
    AppendAssoc(path, SuitesOf([node]), SuitesOf(front));
  }

  /* ---- every occurrence is a chain, and every chain to a test an occurrence ---- */

  lemma {:induction false} InSomeChild(path: seq<Suite>, node: Node, k: nat, o: Occurrence) returns (j: nat)
    requires k <= |node.children| && o in OccurrencesIn(path, node, k)
    ensures j < k && o in Occurrences(path, node.children[j])
  {
    if o in Occurrences(path, node.children[k - 1]) {
      j := k - 1;
    } else {
      j := InSomeChild(path, node, k - 1, o);
    }
  }

  lemma {:induction false} FromChild(path: seq<Suite>, node: Node, k: nat, j: nat, o: Occurrence)
    requires j < k <= |node.children| && o in Occurrences(path, node.children[j])
    ensures o in OccurrencesIn(path, node, k)
  {
    if j < k - 1 {
      FromChild(path, node, k - 1, j, o);
    }
  }

  lemma {:induction false} ChainOf(path: seq<Suite>, node: Node, o: Occurrence) returns (ns: seq<Node>)
    requires o in Occurrences(path, node)
    ensures LeadsTo(path, node, ns, o)
    decreases node
  {
    if o in OwnOccurrence(path, node) {
      ns := [node];
      assert ns[..0] == [];
      assert path + [] == path;
    } else {
      var j := InSomeChild(Below(path, node), node, |node.children|, o);
      var rest := ChainOf(Below(path, node), node.children[j], o);
      LongerChain(path, node, node.children[j], rest, o);
      ns := [node] + rest;
    }
  }

  lemma {:induction false} OfChain(path: seq<Suite>, node: Node, ns: seq<Node>, o: Occurrence)
    requires LeadsTo(path, node, ns, o)
    ensures o in Occurrences(path, node)
    decreases node
  {
    if |ns| == 1 {
      assert ns[..0] == [];
      assert path + [] == path;
      assert o in OwnOccurrence(path, node);
    } else {
      ShorterChain(path, node, ns, o);
      var j :| 0 <= j < |node.children| && node.children[j] == ns[1];
      OfChain(Below(path, node), node.children[j], ns[1..], o);
      FromChild(Below(path, node), node, |node.children|, j, o);
    }
  }

  /** A test occurs with a list of suites exactly when some way down the tree leads to it through those suites. */
  lemma OccursIff(source: Node, o: Occurrence)
    ensures o in Occurrences([], source) <==> exists ns :: LeadsTo([], source, ns, o)
  {
    if o in Occurrences([], source) {
      var ns := ChainOf([], source, o);
    }
    if ns :| LeadsTo([], source, ns, o) {
      OfChain([], source, ns, o);
    }
  }

  /* ---- what a row says ---- */

  lemma {:induction false} SuitesMembers(ns: seq<Node>, s: Suite)
    ensures s in SuitesOf(ns) <==> exists n <- ns :: n.Describe? && s == Suite(n.title, n.tag)
  {
    if ns != [] {
      SuitesMembers(ns[1..], s);
      assert ns == [ns[0]] + ns[1..];
    }
  }

  /** The tag stands in the readable tag list of a suite or test on the way. */
  ghost predicate TaggedOnTheWay(ns: seq<Node>, tag: string)
  {
    exists n <- ns :: (n.Describe? || n == ns[|ns| - 1]) && !n.Other? && n.tag.Tags? && tag in n.tag.tags
  }

  /** The tag option of a suite on the way, or of the test itself, is no readable list. */
  ghost predicate UnreadableOnTheWay(ns: seq<Node>)
  {
    exists n <- ns :: (n.Describe? || n == ns[|ns| - 1]) && !n.Other? && n.tag == Unreadable
  }

  /** Everything but the order of the tags and of the grep string that a row says of the test a chain leads to. */
  ghost predicate RowSays(rel: string, ns: seq<Node>, row: DeclaredTest)
    requires ns != [] && ns[|ns| - 1].Test?
  {
    var test := ns[|ns| - 1];
    && test.title == Some(row.title) && row.relativePath == rel && row.line == test.line
    && (row.stable <==> TaggedOnTheWay(ns, STABLE_TAG))
    && (forall tag | tag in LANE_TAGS :: tag in row.tags <==> TaggedOnTheWay(ns, tag))
    && (forall tag | tag !in LANE_TAGS :: tag in row.tags <==> test.tag.Tags? && tag in test.tag.tags)
    && (row.fixme <==> test.modifier == Fixme || test.modifier == Skip)
    && row.modifier == (match test.modifier case Plain => "" case Fixme => "fixme" case Skip => "skip")
    && (row.unparseableTags <==> UnreadableOnTheWay(ns))
  }

  lemma FrontMembers(ns: seq<Node>)
    requires ns != []
    ensures forall n :: n in ns <==> n in ns[..|ns| - 1] || n == ns[|ns| - 1]
  {
    assert ns == ns[..|ns| - 1] + [ns[|ns| - 1]];
  }

  lemma TaggedIff(source: Node, ns: seq<Node>, o: Occurrence, tag: string)
    requires LeadsTo([], source, ns, o)
    ensures TaggedOnTheWay(ns, tag) <==> tag in Own(o.test.tag) || exists s <- o.path :: tag in Own(s.tag)
  {
    var front := ns[..|ns| - 1];
    FrontMembers(ns);
    forall s ensures s in o.path <==> exists n <- front :: n.Describe? && s == Suite(n.title, n.tag) { SuitesMembers(front, s); }
    if n :| n in front && n.Describe? && tag in Own(n.tag) {
      assert Suite(n.title, n.tag) in o.path;
    }
  }

  lemma UnreadableIff(source: Node, ns: seq<Node>, o: Occurrence)
    requires LeadsTo([], source, ns, o) && Titled(o)
    ensures UnreadableOnTheWay(ns) <==> UnreadableReaches(o)
  {
    var front := ns[..|ns| - 1];
    FrontMembers(ns);
    forall s ensures s in o.path <==> exists n <- front :: n.Describe? && s == Suite(n.title, n.tag) { SuitesMembers(front, s); }
    if n :| n in front && n.Describe? && n.tag == Unreadable {
      assert Suite(n.title, n.tag) in o.path;
    }
  }

  lemma OwnTags(rel: string, o: Occurrence, tag: string)
    requires Titled(o) && tag !in LANE_TAGS
    ensures tag in RowFor(rel, o).tags <==> tag in Own(o.test.tag)
  {
    var own := Own(o.test.tag);
    LaneOnMembers(o.path, tag);
    FilterMembers(LaneOn(o.path), Absent(own));
  }

  lemma RowIsSaid(rel: string, source: Node, ns: seq<Node>, o: Occurrence)
    requires LeadsTo([], source, ns, o) && Titled(o)
    ensures RowSays(rel, ns, RowFor(rel, o))
  {
    var row := RowFor(rel, o);
    TaggedIff(source, ns, o, STABLE_TAG);
    StableIff(rel, o);
    UnreadableIff(source, ns, o);
    UnparseableIff(rel, o);
    forall tag | tag in LANE_TAGS ensures tag in row.tags <==> TaggedOnTheWay(ns, tag) {
      LaneTagReaches(rel, o, tag);
      TaggedIff(source, ns, o, tag);
    }
    forall tag | tag !in LANE_TAGS ensures tag in row.tags <==> o.test.tag.Tags? && tag in o.test.tag.tags {
      OwnTags(rel, o, tag);
    }
  }

  /** Every row of a file stands for a titled test, and says what the nodes on the way to it say. */
  lemma RowHasTest(rel: string, source: Node, row: DeclaredTest) returns (ns: seq<Node>)
    requires row in DeclaredIn(rel, source)
    ensures Chain(source, ns) && ns[|ns| - 1].Test? && RowSays(rel, ns, row)
  {
    var o := RowOccurrence(rel, Occurrences([], source), row);
    ns := ChainOf([], source, o);
    RowIsSaid(rel, source, ns, o);
  }

  /** Every titled test that a way down the tree leads to has a row. */
  lemma TestHasRow(rel: string, source: Node, ns: seq<Node>) returns (row: DeclaredTest)
    requires Chain(source, ns) && ns[|ns| - 1].Test? && ns[|ns| - 1].title.Some?
    ensures row in DeclaredIn(rel, source) && RowSays(rel, ns, row)
  {
    var o := Occurrence([] + SuitesOf(ns[..|ns| - 1]), ns[|ns| - 1]);
    OfChain([], source, ns, o);
    RowIsSaid(rel, source, ns, o);
    RowIsDeclared(rel, source, o);
    row := RowFor(rel, o);
  }

  /* ---- what Phase 0 lists, and what it warns about ---- */

  lemma {:induction false} ListedIff(rel: string, os: seq<Occurrence>, l: Listed)
    ensures l in ListedFor(rel, os)
            <==> exists o <- os :: Titled(o) && o.test.modifier == Plain && STABLE_TAG in Own(o.test.tag)
                                   && l == Listed(o.test.title.value, rel, o.test.line)
  {
    if os != [] {
      var n := |os| - 1;
      ListedIff(rel, os[..n], l);
      assert os == os[..n] + [os[n]];
    }
  }

  /** A way down the tree to a node. */
  ghost predicate Reaches(root: Node, n: Node)
  {
    exists ns :: Chain(root, ns) && ns[|ns| - 1] == n
  }

  /** Phase 0 lists exactly the tests declared plainly, with a literal title and the tag in their own list. */
  lemma PhaseZeroListsIff(rel: string, source: Node, l: Listed)
    ensures l in ListedIn(rel, source)
            <==> exists test :: Reaches(source, test) && test.Test? && test.modifier == Plain && test.title == Some(l.title)
                                && test.tag.Tags? && STABLE_TAG in test.tag.tags && l.relativePath == rel && l.line == test.line
  {
    ListedIff(rel, Occurrences([], source), l);
    if o :| o in Occurrences([], source) && Titled(o) && o.test.modifier == Plain && STABLE_TAG in Own(o.test.tag)
            && l == Listed(o.test.title.value, rel, o.test.line) {
      var ns := ChainOf([], source, o);
      assert Reaches(source, o.test);
    }
    if test :| Reaches(source, test) && test.Test? && test.modifier == Plain && test.title == Some(l.title)
               && test.tag.Tags? && STABLE_TAG in test.tag.tags && l.relativePath == rel && l.line == test.line {
      var ns :| Chain(source, ns) && ns[|ns| - 1] == test;
      OfChain([], source, ns, Occurrence([] + SuitesOf(ns[..|ns| - 1]), test));
    }
  }

  /** What a node itself is warned for. */
  predicate WarnedFor(n: Node, w: Warning)
  {
    match w
    case StableOnDescribe(line) => n.Describe? && line == n.line && n.tag.Tags? && STABLE_TAG in n.tag.tags
    case UnreadableTag(line) => n.Test? && n.modifier == Plain && line == n.line && n.tag == Unreadable
  }

  lemma OwnWarningIff(node: Node, w: Warning)
    ensures w in OwnWarnings(node) <==> WarnedFor(node, w)
  {
  }

  lemma ReachesBelow(node: Node, child: Node, n: Node)
    requires child in node.children && Reaches(child, n)
    ensures Reaches(node, n)
  {
    var ns :| Chain(child, ns) && ns[|ns| - 1] == n;
    var longer := [node] + ns;
    forall i | 0 <= i < |longer| - 1 ensures longer[i + 1] in longer[i].children {
      if i > 0 { assert longer[i] == ns[i - 1] && longer[i + 1] == ns[i]; }
    }
    assert Chain(node, longer) && longer[|longer| - 1] == n;
  }

  lemma ReachedBelow(node: Node, n: Node) returns (j: nat)
    requires Reaches(node, n) && n != node
    ensures j < |node.children| && Reaches(node.children[j], n)
  {
    var ns: seq<Node> :| Chain(node, ns) && ns[|ns| - 1] == n;
    assert ns[0 + 1] in ns[0].children;
    j :| 0 <= j < |node.children| && node.children[j] == ns[1];
    var rest := ns[1..];
    forall i | 0 <= i < |rest| - 1 ensures rest[i + 1] in rest[i].children {
      assert ns[i + 1 + 1] in ns[i + 1].children;
    }
    assert Chain(node.children[j], rest) && rest[|rest| - 1] == n;
  }

  lemma {:induction false} WarnedInChild(node: Node, k: nat, w: Warning) returns (j: nat)
    requires k <= |node.children| && w in WarningsIn(node, k)
    ensures j < k && w in WarningsOf(node.children[j])
  {
    if w in WarningsOf(node.children[k - 1]) {
      j := k - 1;
    } else {
      j := WarnedInChild(node, k - 1, w);
    }
  }

  lemma {:induction false} WarnedByChild(node: Node, k: nat, j: nat, w: Warning)
    requires j < k <= |node.children| && w in WarningsOf(node.children[j])
    ensures w in WarningsIn(node, k)
  {
    if j < k - 1 {
      WarnedByChild(node, k - 1, j, w);
    }
  }

  lemma {:induction false} WarningHasNode(node: Node, w: Warning) returns (n: Node)
    requires w in WarningsOf(node)
    ensures Reaches(node, n) && WarnedFor(n, w)
    decreases node
  {
    OwnWarningIff(node, w);
    if w in OwnWarnings(node) {
      n := node;
      assert Chain(node, [node]) && [node][|[node]| - 1] == n;
    } else {
      var j := WarnedInChild(node, |node.children|, w);
      n := WarningHasNode(node.children[j], w);
      ReachesBelow(node, node.children[j], n);
    }
  }

  lemma {:induction false} NodeHasWarning(node: Node, n: Node, w: Warning)
    requires Reaches(node, n) && WarnedFor(n, w)
    ensures w in WarningsOf(node)
    decreases node
  {
    OwnWarningIff(node, w);
    if n != node {
      var j := ReachedBelow(node, n);
      NodeHasWarning(node.children[j], n, w);
      WarnedByChild(node, |node.children|, j, w);
    }
  }

  /** Phase 0 warns about exactly the suites that carry the tag and the plain tests whose own tag option is no readable list. */
  lemma WarnsIff(source: Node, w: Warning)
    ensures w in WarningsOf(source) <==> exists n :: Reaches(source, n) && WarnedFor(n, w)
  {
    if w in WarningsOf(source) {
      var n := WarningHasNode(source, w);
    }
    if n :| Reaches(source, n) && WarnedFor(n, w) {
      NodeHasWarning(source, n, w);
    }
  }

  /* ---- source order ---- */

  /** The calls of a subtree stand on the lines `lo..hi`, those of each child before those of the next. */
  ghost predicate InSource(node: Node, lo: nat, hi: nat)
    decreases node
  {
    && (!node.Other? ==> lo <= node.line <= hi)
    && exists cuts: seq<nat> | |cuts| == |node.children| + 1 ::
         && lo <= cuts[0] && (!node.Other? ==> node.line <= cuts[0])
         && (forall i, j | 0 <= i < j < |cuts| :: cuts[i] <= cuts[j]) && cuts[|cuts| - 1] <= hi
         && forall k | 0 <= k < |node.children| :: InSource(node.children[k], cuts[k], cuts[k + 1])
  }

  ghost predicate ByLine(os: seq<Occurrence>, lo: nat, hi: nat)
  {
    && (forall o <- os :: !o.test.Other? && lo <= o.test.line <= hi)
    && forall i, j | 0 <= i < j < |os| :: !os[i].test.Other? && !os[j].test.Other? && os[i].test.line <= os[j].test.line
  }

  lemma ByLineAppend(a: seq<Occurrence>, b: seq<Occurrence>, lo: nat, mid: nat, hi: nat)
    requires ByLine(a, lo, mid) && ByLine(b, mid, hi) && lo <= mid <= hi
    ensures ByLine(a + b, lo, hi)
  {
    var os := a + b;
    forall i | 0 <= i < |os| ensures !os[i].test.Other? && lo <= os[i].test.line <= hi
                                     && (i < |a| ==> os[i].test.line <= mid) && (i >= |a| ==> mid <= os[i].test.line) {
      assert if i < |a| then os[i] == a[i] && a[i] in a else os[i] == b[i - |a|] && b[i - |a|] in b;
    }
  }

  lemma {:induction false} ChildrenByLine(path: seq<Suite>, node: Node, cuts: seq<nat>, k: nat)
    requires |cuts| == |node.children| + 1 && k <= |node.children|
    requires forall i, j | 0 <= i < j < |cuts| :: cuts[i] <= cuts[j]
    requires forall i | 0 <= i < |node.children| :: InSource(node.children[i], cuts[i], cuts[i + 1])
    ensures ByLine(OccurrencesIn(path, node, k), cuts[0], cuts[k])
    decreases node, k
  {
    if k > 0 {
      ChildrenByLine(path, node, cuts, k - 1);
      OccursByLine(path, node.children[k - 1], cuts[k - 1], cuts[k]);
      ByLineAppend(OccurrencesIn(path, node, k - 1), Occurrences(path, node.children[k - 1]), cuts[0], cuts[k - 1], cuts[k]);
    }
  }

  /** The walks visit the tests in source order: in a tree whose calls stand line after line, so do its occurrences. */
  lemma {:induction false} OccursByLine(path: seq<Suite>, node: Node, lo: nat, hi: nat)
    requires InSource(node, lo, hi)
    ensures ByLine(Occurrences(path, node), lo, hi)
    decreases node, |node.children| + 1
  {
    var cuts :| |cuts| == |node.children| + 1
         && lo <= cuts[0] && (!node.Other? ==> node.line <= cuts[0])
         && (forall i, j | 0 <= i < j < |cuts| :: cuts[i] <= cuts[j]) && cuts[|cuts| - 1] <= hi
         && forall k | 0 <= k < |node.children| :: InSource(node.children[k], cuts[k], cuts[k + 1]);
    var n := |node.children|;
    ChildrenByLine(Below(path, node), node, cuts, n);
    var mid := if node.Other? then lo else node.line;
    assert ByLine(OwnOccurrence(path, node), lo, mid);
    assert ByLine(OccurrencesIn(Below(path, node), node, n), mid, hi);
    ByLineAppend(OwnOccurrence(path, node), OccurrencesIn(Below(path, node), node, n), lo, mid, hi);
  }

  lemma {:induction false} RowsByLine(rel: string, os: seq<Occurrence>, lo: nat, hi: nat)
    requires ByLine(os, lo, hi)
    ensures forall row <- RowsFor(rel, os) :: exists o <- os :: Titled(o) && row.line == o.test.line
    ensures forall i, j | 0 <= i < j < |RowsFor(rel, os)| :: RowsFor(rel, os)[i].line <= RowsFor(rel, os)[j].line
  {
    if os != [] {
      var n := |os| - 1;
      RowsByLine(rel, os[..n], lo, hi);
      assert os == os[..n] + [os[n]];
      forall row <- RowsFor(rel, os[..n]) ensures row.line <= os[n].test.line {
        var o :| o in os[..n] && Titled(o) && row.line == o.test.line;
        var i :| 0 <= i < n && os[i] == o;
        assert os[i].test.line <= os[n].test.line;
      }
    }
  }

  /** So the rows of a file stand in line order. */
  lemma RowsInOrder(rel: string, source: Node, lo: nat, hi: nat)
    requires InSource(source, lo, hi)
    ensures forall i, j | 0 <= i < j < |DeclaredIn(rel, source)| :: DeclaredIn(rel, source)[i].line <= DeclaredIn(rel, source)[j].line
  {
    OccursByLine([], source, lo, hi);
    RowsByLine(rel, Occurrences([], source), lo, hi);
  }
}
