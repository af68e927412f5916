/** The verdict on one title, told by the revisions, their blobs and what is declared in them. */
module WalkVerdicts {
  import opened Texts
  import opened Sequences
  import opened Declarations
  import opened HistoryWalk

  /** The first declaration with a title stands at `i`. */
  ghost predicate FirstWith(declared: seq<DeclaredTest>, title: string, i: int)
  {
    0 <= i < |declared| && declared[i].title == title && forall j | 0 <= j < i :: declared[j].title != title
  }

  lemma {:induction false} FirstTitledIs(declared: seq<DeclaredTest>, title: string)
    ensures var found := FirstTitled(declared, title);
            if found.Some? then exists i | 0 <= i < |declared| :: FirstWith(declared, title, i) && declared[i] == found.value
            else forall d <- declared :: d.title != title
  {
    if declared != [] && declared[0].title == title {
      assert FirstWith(declared, title, 0);
    } else if declared != [] {
      FirstTitledIs(declared[1..], title);
      if FirstTitled(declared, title).Some? {
        var i :| 0 <= i < |declared[1..]| && FirstWith(declared[1..], title, i) && declared[1..][i] == FirstTitled(declared, title).value;
        assert FirstWith(declared, title, i + 1);
      } else {
        assert declared == [declared[0]] + declared[1..];
      }
    }
  }

  /** The first declaration with the title carries the tag, or carries none. */
  ghost predicate DeclaresAs(declared: seq<DeclaredTest>, title: string, stable: bool)
  {
    exists i | 0 <= i < |declared| :: FirstWith(declared, title, i) && declared[i].stable == stable
  }

  /** The revisions the walk looks at, and what it reads of them. */
  datatype Walk = Walk(revs: seq<Revision>, blobs: map<string, string>, parsed: string -> seq<DeclaredTest>)

  /** The revision can be read, and declares the title without the tag: the walk goes on below it. */
  ghost predicate GoesOn(w: Walk, title: string, k: int)
    requires 0 <= k < |w.revs|
  {
    w.revs[k].blob in w.blobs && DeclaresAs(w.parsed(w.blobs[w.revs[k].blob]), title, false)
  }

  /** What the first revision that stops the walk says. */
  ghost predicate StopsWith(w: Walk, title: string, k: int, verdict: HistoryVerdict)
    requires 0 <= k < |w.revs|
  {
    var rev := w.revs[k];
    if rev.blob !in w.blobs then verdict == Unknown(BlobUnreadable(rev.commit))
    else if forall d <- w.parsed(w.blobs[rev.blob]) :: d.title != title then verdict == Never
    else
      && DeclaresAs(w.parsed(w.blobs[rev.blob]), title, true)
      && (if k == 0 then verdict == Unknown(RemovalUncommitted)
          else verdict == Removed(RemovalEvidence(w.revs[k - 1].commit, w.revs[k - 1].date, w.revs[k - 1].subject)))
  }

  /** What is concluded when no revision stops it: nothing certain past the cap or in a shallow clone. */
  ghost predicate RunsOut(total: nat, deps: WalkDeps, verdict: HistoryVerdict)
  {
    if total > deps.maxRevisions then verdict == Unknown(RevisionCapHit(deps.maxRevisions))
    else if deps.shallow then verdict == Unknown(ShallowClone)
    else verdict == Never
  }

  /** The walk goes on down to its `k`-th revision, and the verdict is what that one says, or the end of the list. */
  ghost predicate Decides(w: Walk, title: string, k: int, total: nat, deps: WalkDeps, verdict: HistoryVerdict)
  {
    && 0 <= k <= |w.revs| && (forall i | 0 <= i < k :: GoesOn(w, title, i))
    && (if k == |w.revs| then RunsOut(total, deps, verdict) else StopsWith(w, title, k, verdict))
  }

  /** What the walk of a path looks at: at most so many revisions, newest first, and the blobs git gave for them. */
  function WalkOf(path: string, revs: seq<Revision>, deps: WalkDeps): Walk
  {
    var walked := if |revs| <= deps.maxRevisions then revs else revs[..deps.maxRevisions];
    Walk(walked, deps.readBlobs(MapSeq(walked, (r: Revision) => r.blob)), (text: string) => deps.parse(path, text))
  }

  lemma SightIs(w: Walk, path: string, rs: seq<Reading>, title: string, deps: WalkDeps, k: nat)
    requires k < |rs| == |w.revs| && rs == ReadingsOf(path, w.revs, w.blobs, deps.parse)
    requires forall text :: w.parsed(text) == deps.parse(path, text)
    ensures match Sight(rs[k], title)
            case Unreadable => w.revs[k].blob !in w.blobs
            case Absent => w.revs[k].blob in w.blobs && forall d <- w.parsed(w.blobs[w.revs[k].blob]) :: d.title != title
            case Untagged => GoesOn(w, title, k)
            case Tagged => w.revs[k].blob in w.blobs && DeclaresAs(w.parsed(w.blobs[w.revs[k].blob]), title, true)
  {
    if w.revs[k].blob in w.blobs {
      var declared := deps.parse(path, w.blobs[w.revs[k].blob]);
      assert rs[k].declared == Some(declared);
      FirstTitledIs(declared, title);
    }
  }

  lemma SomeDeclared(declared: seq<DeclaredTest>, title: string, stable: bool)
    requires DeclaresAs(declared, title, stable)
    ensures exists d <- declared :: d.title == title
  {
    var i :| 0 <= i < |declared| && FirstWith(declared, title, i) && declared[i].stable == stable;
    assert declared[i] in declared;
  }

  lemma {:induction false} WalkedFrom(w: Walk, path: string, rs: seq<Reading>, title: string, total: nat, deps: WalkDeps, k: nat)
    returns (stop: nat)
    requires k <= |rs| == |w.revs| && rs == ReadingsOf(path, w.revs, w.blobs, deps.parse)
    requires forall text :: w.parsed(text) == deps.parse(path, text)
    requires forall i | 0 <= i < k :: GoesOn(w, title, i)
    ensures Decides(w, title, stop, total, deps, SoloFrom(rs, k, Exhausted(total, deps.maxRevisions, deps.shallow), title))
    decreases |rs| - k
  {
    if k == |rs| {
      stop := k;
    } else {
      SightIs(w, path, rs, title, deps, k);
      assert rs[k].rev == w.revs[k];
      if Sight(rs[k], title) == Untagged {
        stop := WalkedFrom(w, path, rs, title, total, deps, k + 1);
      } else {
        stop := k;
        if Sight(rs[k], title) == Tagged {
          SomeDeclared(w.parsed(w.blobs[w.revs[k].blob]), title, true);
          assert k > 0 ==> rs[k - 1].rev == w.revs[k - 1];
        }
      }
    }
  }

  /**
   * The whole verdict: why a log that failed or is empty decides nothing, and else which revision
   * the walk stops at and what that one says.
   */
  lemma VerdictSays(path: string, title: string, deps: WalkDeps)
    ensures match deps.revisionsOf(REGRESSION_PREFIX + path)
            case Err(message) => VerdictOf(path, title, deps) == Unknown(LogFailed(Split(message, '\n')[0]))
            case Ok(revs) =>
              if revs == [] then VerdictOf(path, title, deps) == Unknown(NoHistory)
              else exists k | 0 <= k <= |revs| :: Decides(WalkOf(path, revs, deps), title, k, |revs|, deps, VerdictOf(path, title, deps))
  {
    var log := deps.revisionsOf(REGRESSION_PREFIX + path);
    if log.Ok? && log.value != [] {
      var revs, w := log.value, WalkOf(path, log.value, deps);
      assert w.revs == Take(revs, deps.maxRevisions);
      assert MapSeq(w.revs, (r: Revision) => r.blob) == BlobsOf(w.revs);
      var rs := ReadingsOf(path, w.revs, w.blobs, deps.parse);
      var stop := WalkedFrom(w, path, rs, title, |revs|, deps, 0);
      assert w.blobs == deps.readBlobs(BlobsOf(Take(revs, deps.maxRevisions)));
      assert VerdictOf(path, title, deps) == SoloFrom(rs, 0, Exhausted(|revs|, deps.maxRevisions, deps.shallow), title);
      assert Decides(w, title, stop, |revs|, deps, VerdictOf(path, title, deps));
    }
  }
}
