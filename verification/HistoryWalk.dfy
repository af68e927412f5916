/**
 * Dating a `@stable` removal by walking a spec's revisions from newest to oldest.
 *
 * `WalkSpec` is the batch loop with its pending set and parse cache. `SoloFrom` is the
 * verdict of one title on its own, and `Ledger` is what a bookkeeper who watched every
 * commit go by, oldest first, would have written down. The lemmas connect the three.
 */
module HistoryWalk {
  import opened Texts
  import opened Declarations

  /* ---- inputs and verdicts ---- */

  datatype Revision = Revision(commit: string, date: string, subject: string, blob: string)

  datatype RemovalEvidence = RemovalEvidence(commit: string, date: string, subject: string)

  datatype UnknownCause =
    | LogFailed(message: string)
    | NoHistory
    | BlobUnreadable(commit: string)
    | RemovalUncommitted
    | RevisionCapHit(cap: nat)
    | ShallowClone

  datatype HistoryVerdict = Removed(removal: RemovalEvidence) | Never | Unknown(cause: UnknownCause)

  datatype WalkDeps = WalkDeps(
    revisionsOf: string -> Result<seq<Revision>, string>,
    readBlobs: seq<string> -> map<string, string>,
    parse: (string, string) -> seq<DeclaredTest>,
    maxRevisions: nat,
    shallow: bool)

  const REGRESSION_PREFIX := "tests/tests-automations/regression/"

  function Evidence(rev: Revision): RemovalEvidence
  {
    RemovalEvidence(rev.commit, rev.date, rev.subject)
  }

  /* ---- what one revision says about one title ---- */

  datatype Sighting = Unreadable | Absent | Untagged | Tagged

  /** One walked revision with the declarations parsed from its blob, if the blob could be read. */
  datatype Reading = Reading(rev: Revision, declared: Option<seq<DeclaredTest>>)

  /** The first declaration with that title, the only one the walk looks at. */
  function FirstTitled(declared: seq<DeclaredTest>, title: string): Option<DeclaredTest>
  {
    if declared == [] then None
    else if declared[0].title == title then Some(declared[0])
    else FirstTitled(declared[1..], title)
  }

  function Sight(r: Reading, title: string): Sighting
  {
    if r.declared.None? then Unreadable
    else
      var found := FirstTitled(r.declared.value, title);
      if found.None? then Absent else if found.value.stable then Tagged else Untagged
  }

  function ReadingsOf(path: string, revs: seq<Revision>, blobs: map<string, string>,
                      parse: (string, string) -> seq<DeclaredTest>): (rs: seq<Reading>)
    ensures |rs| == |revs|
  {
    seq(|revs|, i requires 0 <= i < |revs| =>
      Reading(revs[i], if revs[i].blob in blobs then Some(parse(path, blobs[revs[i].blob])) else None))
  }

  /* ---- one title on its own ---- */

  /** What an exhausted walk concludes. */
  function Exhausted(total: nat, cap: nat, shallow: bool): HistoryVerdict
  {
    if total > cap then Unknown(RevisionCapHit(cap)) else if shallow then Unknown(ShallowClone) else Never
  }

  function SoloFrom(rs: seq<Reading>, k: nat, ending: HistoryVerdict, title: string): HistoryVerdict
    requires k <= |rs|
    decreases |rs| - k
  {
    if k == |rs| then ending
    else match Sight(rs[k], title)
      case Unreadable => Unknown(BlobUnreadable(rs[k].rev.commit))
      case Absent => Never
      case Tagged => if k == 0 then Unknown(RemovalUncommitted) else Removed(Evidence(rs[k - 1].rev))
      case Untagged => SoloFrom(rs, k + 1, ending, title)
  }

  function Take<T>(xs: seq<T>, cap: nat): seq<T>
  {
    if |xs| <= cap then xs else xs[..cap]
  }

  /** The walk of a non-empty revision list. */
  function WalkVerdict(path: string, title: string, revs: seq<Revision>, blobs: map<string, string>,
                       parse: (string, string) -> seq<DeclaredTest>, cap: nat, shallow: bool): HistoryVerdict
  {
    SoloFrom(ReadingsOf(path, Take(revs, cap), blobs, parse), 0, Exhausted(|revs|, cap, shallow), title)
  }

  function BlobsOf(revs: seq<Revision>): seq<string>
  {
    seq(|revs|, i requires 0 <= i < |revs| => revs[i].blob)
  }

  function VerdictOf(path: string, title: string, deps: WalkDeps): HistoryVerdict
  {
    match deps.revisionsOf(REGRESSION_PREFIX + path)
    case Err(message) => Unknown(LogFailed(Split(message, '\n')[0]))
    case Ok(revs) =>
      if revs == [] then Unknown(NoHistory)
      else WalkVerdict(path, title, revs, deps.readBlobs(BlobsOf(Take(revs, deps.maxRevisions))),
                       deps.parse, deps.maxRevisions, deps.shallow)
  }

  /* ---- the batch loop ---- */

  /** Give one verdict to every title of a set. */
  method AssignAll(path: string, titles: set<string>, verdict: HistoryVerdict, result: map<string, HistoryVerdict>)
    returns (out: map<string, HistoryVerdict>)
    ensures out.Keys == result.Keys + set t <- titles :: HistoryKey(path, t)
    ensures forall t <- titles :: out[HistoryKey(path, t)] == verdict
    ensures forall key <- result :: (forall t <- titles :: HistoryKey(path, t) != key) ==> out[key] == result[key]
  {
    out := result;
    var todo := titles;
    while todo != {}
      invariant todo <= titles
      invariant out.Keys == result.Keys + set t | t in titles && t !in todo :: HistoryKey(path, t)
      invariant forall t | t in titles && t !in todo :: out[HistoryKey(path, t)] == verdict
      invariant forall key <- result :: (forall t <- titles :: HistoryKey(path, t) != key) ==> out[key] == result[key]
    {
      var t :| t in todo;
      out := out[HistoryKey(path, t) := verdict];
      todo := todo - {t};
    }
  }

  /** Every decided title holds its own verdict, every pending one has been untagged so far. */
  ghost predicate Progress(path: string, titles: set<string>, pending: set<string>, k: nat, rs: seq<Reading>,
                           ending: HistoryVerdict, result: map<string, HistoryVerdict>)
    requires k <= |rs|
  {
    && pending <= titles
    && result.Keys == (set t | t in titles && t !in pending :: HistoryKey(path, t))
    && (forall t | t in titles && t !in pending :: result[HistoryKey(path, t)] == SoloFrom(rs, 0, ending, t))
    && (forall t <- pending :: SoloFrom(rs, 0, ending, t) == SoloFrom(rs, k, ending, t))
  }

  ghost predicate Settled(path: string, titles: set<string>, rs: seq<Reading>, ending: HistoryVerdict,
                          result: map<string, HistoryVerdict>)
  {
    && result.Keys == (set t <- titles :: HistoryKey(path, t))
    && forall t <- titles :: result[HistoryKey(path, t)] == SoloFrom(rs, 0, ending, t)
  }

  lemma ProgressSettle(path: string, titles: set<string>, pending: set<string>, k: nat, rs: seq<Reading>,
                       ending: HistoryVerdict, result: map<string, HistoryVerdict>, title: string)
    requires k <= |rs| && Progress(path, titles, pending, k, rs, ending, result) && title in pending
    ensures Progress(path, titles, pending - {title}, k, rs, ending,
                     result[HistoryKey(path, title) := SoloFrom(rs, 0, ending, title)])
  {
    forall t ensures HistoryKey(path, t) == HistoryKey(path, title) <==> t == title {
      SamePathKeys(path, t, title);
    }
  }

  lemma ProgressDone(path: string, titles: set<string>, pending: set<string>, k: nat, rs: seq<Reading>,
                     ending: HistoryVerdict, before: map<string, HistoryVerdict>,
                     after: map<string, HistoryVerdict>, verdict: HistoryVerdict)
    requires k <= |rs| && Progress(path, titles, pending, k, rs, ending, before)
    requires forall t <- pending :: SoloFrom(rs, k, ending, t) == verdict
    requires after.Keys == before.Keys + set t <- pending :: HistoryKey(path, t)
    requires forall t <- pending :: after[HistoryKey(path, t)] == verdict
    requires forall key <- before :: (forall t <- pending :: HistoryKey(path, t) != key) ==> after[key] == before[key]
    ensures Settled(path, titles, rs, ending, after)
  {
    forall t, u ensures HistoryKey(path, t) == HistoryKey(path, u) <==> t == u {
      SamePathKeys(path, t, u);
    }
    forall t <- titles ensures after[HistoryKey(path, t)] == SoloFrom(rs, 0, ending, t) {
      if t !in pending {
        assert HistoryKey(path, t) in before;
      }
    }
  }

  /**
   * Date the removal of every candidate title of one spec. The batch answers each title
   * exactly as a walk for that title alone would.
   */
  method WalkSpec(path: string, titles: seq<string>, deps: WalkDeps) returns (result: map<string, HistoryVerdict>)
    ensures result.Keys == set t <- titles :: HistoryKey(path, t)
    ensures forall t <- titles :: result[HistoryKey(path, t)] == VerdictOf(path, t, deps)
  {
    var wanted := set t <- titles;
    result := map[];
    var log := deps.revisionsOf(REGRESSION_PREFIX + path);
    if log.Err? {
      result := AssignAll(path, wanted, Unknown(LogFailed(Split(log.error, '\n')[0])), result);
      return;
    }
    var revs := log.value;
    if revs == [] {
      result := AssignAll(path, wanted, Unknown(NoHistory), result);
      return;
    }
    var walked := Take(revs, deps.maxRevisions);
    var blobs := deps.readBlobs(BlobsOf(walked));
    var ending := Exhausted(|revs|, deps.maxRevisions, deps.shallow);
    result := WalkRevisions(path, wanted, walked, blobs, deps.parse, ending);
  }

  /** The outer loop, newest revision first. */
  method WalkRevisions(path: string, wanted: set<string>, walked: seq<Revision>, blobs: map<string, string>,
                       parse: (string, string) -> seq<DeclaredTest>, ending: HistoryVerdict)
    returns (result: map<string, HistoryVerdict>)
    ensures Settled(path, wanted, ReadingsOf(path, walked, blobs, parse), ending, result)
  {
    ghost var rs := ReadingsOf(path, walked, blobs, parse);
    result := map[];
    var pending := wanted;
    var parseCache: map<string, seq<DeclaredTest>> := map[];
    var previous: Option<Revision> := None;
    var k := 0;
    while k < |walked|
      invariant 0 <= k <= |walked|
      invariant previous == if k == 0 then None else Some(walked[k - 1])
      invariant forall b <- parseCache :: b in blobs && parseCache[b] == parse(path, blobs[b])
      invariant Progress(path, wanted, pending, k, rs, ending, result)
    {
      if pending == {} { break; }
      var rev := walked[k];
      if rev.blob !in blobs {
        var unread := Unknown(BlobUnreadable(rev.commit));
        var all := AssignAll(path, pending, unread, result);
        ProgressDone(path, wanted, pending, k, rs, ending, result, all, unread);
        return all;
      }
      var declared;
      if rev.blob in parseCache {
        declared := parseCache[rev.blob];
      } else {
        declared := parse(path, blobs[rev.blob]);
        parseCache := parseCache[rev.blob := declared];
      }
      pending, result := DecideAt(path, pending, declared, previous, result, wanted, k, rs, ending);
      previous := Some(rev);
      k := k + 1;
    }
    var all := AssignAll(path, pending, ending, result);
    ProgressDone(path, wanted, pending, k, rs, ending, result, all, ending);
    return all;
  }

  /** The inner loop: settle every pending title this revision decides. */
  method DecideAt(path: string, titles: set<string>, declared: seq<DeclaredTest>, previous: Option<Revision>,
                  before: map<string, HistoryVerdict>,
                  ghost wanted: set<string>, ghost k: nat, ghost rs: seq<Reading>, ghost ending: HistoryVerdict)
    returns (pending: set<string>, result: map<string, HistoryVerdict>)
    requires k < |rs| && rs[k].declared == Some(declared)
    requires previous == if k == 0 then None else Some(rs[k - 1].rev)
    requires Progress(path, wanted, titles, k, rs, ending, before)
    ensures Progress(path, wanted, pending, k + 1, rs, ending, result)
  {
    pending, result := titles, before;
    var todo := titles;
    while todo != {}
      invariant todo <= pending <= titles
      invariant Progress(path, wanted, pending, k, rs, ending, result)
      invariant forall t | t in pending && t !in todo :: Sight(rs[k], t) == Untagged
    {
      var title :| title in todo;
      todo := todo - {title};
      var found := FirstTitled(declared, title);
      if found.None? {
        ProgressSettle(path, wanted, pending, k, rs, ending, result, title);
        result := result[HistoryKey(path, title) := Never];
        pending := pending - {title};
      } else if found.value.stable {
        ProgressSettle(path, wanted, pending, k, rs, ending, result, title);
        if previous.None? {
          result := result[HistoryKey(path, title) := Unknown(RemovalUncommitted)];
        } else {
          result := result[HistoryKey(path, title) := Removed(Evidence(previous.value))];
        }
        pending := pending - {title};
      }
    }
  }

  /* ---- the declarative reading of a verdict ---- */

  /** Revision `k` carries the tag and every newer walked one declares the title without it. */
  ghost predicate LastTaggedAt(rs: seq<Reading>, k: int, title: string)
  {
    && 0 <= k < |rs|
    && Sight(rs[k], title) == Tagged
    && forall j | 0 <= j < k :: Sight(rs[j], title) == Untagged
  }

  ghost predicate FirstDecisive(rs: seq<Reading>, k: int, title: string)
  {
    && 0 <= k < |rs|
    && Sight(rs[k], title) != Untagged
    && forall j | 0 <= j < k :: Sight(rs[j], title) == Untagged
  }

  /** The walk stops at the first revision that is not a plain untagged declaration. */
  lemma {:induction false} SoloStops(rs: seq<Reading>, k: nat, ending: HistoryVerdict, title: string)
    returns (stop: nat)
    requires k <= |rs| && forall j | 0 <= j < k :: Sight(rs[j], title) == Untagged
    ensures k <= stop <= |rs|
    ensures stop < |rs| ==> FirstDecisive(rs, stop, title) && SoloFrom(rs, k, ending, title) == SoloFrom(rs, stop, ending, title)
    ensures stop == |rs| ==> SoloFrom(rs, k, ending, title) == ending
                             && forall j | 0 <= j < |rs| :: Sight(rs[j], title) == Untagged
    decreases |rs| - k
  {
    if k == |rs| || Sight(rs[k], title) != Untagged {
      stop := k;
    } else {
      stop := SoloStops(rs, k + 1, ending, title);
    }
  }

  /**
   * `removed` names revision k-1 exactly when some k >= 1 is the newest walked revision
   * carrying the tag and every newer one declares the title without it.
   */
  lemma RemovedNamesTheCommitAfterTheLastTag(rs: seq<Reading>, ending: HistoryVerdict, title: string,
                                             removal: RemovalEvidence)
    requires !ending.Removed?
    ensures SoloFrom(rs, 0, ending, title) == Removed(removal)
       <==> exists k :: k >= 1 && LastTaggedAt(rs, k, title) && removal == Evidence(rs[k - 1].rev)
  {
    var stop := SoloStops(rs, 0, ending, title);
    if SoloFrom(rs, 0, ending, title) == Removed(removal) {
      assert LastTaggedAt(rs, stop, title);
    }
    forall k | k >= 1 && LastTaggedAt(rs, k, title)
      ensures SoloFrom(rs, 0, ending, title) == Removed(Evidence(rs[k - 1].rev))
    {
      if stop < k { assert false; }
      if k < stop { assert false; }
    }
  }

  /**
   * `never` is an observation — the title is missing from a revision that was read, with
   * every newer one untagged — or the end of a walk allowed to conclude it.
   */
  lemma NeverIsObservedOrEarned(rs: seq<Reading>, ending: HistoryVerdict, title: string)
    ensures SoloFrom(rs, 0, ending, title) == Never
       <==> (exists k :: FirstDecisive(rs, k, title) && Sight(rs[k], title) == Absent)
            || (ending == Never && forall j | 0 <= j < |rs| :: Sight(rs[j], title) == Untagged)
  {
    var stop := SoloStops(rs, 0, ending, title);
    forall k | FirstDecisive(rs, k, title) ensures stop == k {
      if stop < k { assert false; }
      if k < stop { assert false; }
    }
  }

  /* ---- truncation ---- */

  /**
   * Less evidence never changes a decided verdict. Shorten the history, lower the cap or
   * lose blobs — as long as a shortened history is walked as shallow — and each title's
   * verdict is either `unknown` or exactly what the full walk says.
   */
  lemma LessEvidenceIsUnknownOrUnchanged(path: string, title: string, revs: seq<Revision>, n: nat,
      blobs: map<string, string>, fewer: map<string, string>, parse: (string, string) -> seq<DeclaredTest>,
      cap: nat, lowerCap: nat, shallow: bool, truncated: bool)
    requires n <= |revs| && lowerCap <= cap
    requires forall b <- fewer :: b in blobs && fewer[b] == blobs[b]
    requires shallow ==> truncated
    requires n < |revs| ==> truncated
    ensures var less := WalkVerdict(path, title, revs[..n], fewer, parse, lowerCap, truncated);
            less.Unknown? || less == WalkVerdict(path, title, revs, blobs, parse, cap, shallow)
  {
    var few := ReadingsOf(path, Take(revs[..n], lowerCap), fewer, parse);
    var all := ReadingsOf(path, Take(revs, cap), blobs, parse);
    assert |few| <= |all|;
    forall i | 0 <= i < |few| ensures few[i].declared.None? || few[i] == all[i] {}
    SoloAgrees(few, all, 0, Exhausted(n, lowerCap, truncated), Exhausted(|revs|, cap, shallow), title);
  }

  lemma {:induction false} SoloAgrees(few: seq<Reading>, all: seq<Reading>, k: nat,
      fewEnding: HistoryVerdict, ending: HistoryVerdict, title: string)
    requires k <= |few| <= |all|
    requires forall i | 0 <= i < |few| :: few[i].declared.None? || few[i] == all[i]
    requires forall i | 0 <= i < |few| :: few[i].rev == all[i].rev
    requires fewEnding.Unknown? || (|few| == |all| && fewEnding == ending)
    ensures SoloFrom(few, k, fewEnding, title).Unknown?
            || SoloFrom(few, k, fewEnding, title) == SoloFrom(all, k, ending, title)
    decreases |few| - k
  {
    if k < |few| && Sight(few[k], title) == Untagged {
      SoloAgrees(few, all, k + 1, fewEnding, ending, title);
    }
  }

  /* ---- no removal is silently lost ---- */

  /**
   * In the complete history the first declaration with the title once carried the tag, and
   * every newer revision still declares the title.
   */
  ghost predicate LostTheTag(path: string, title: string, history: seq<Revision>, contents: map<string, string>,
                             parse: (string, string) -> seq<DeclaredTest>, at: nat)
  {
    && at < |history|
    && var rs := ReadingsOf(path, history, contents, parse);
       Sight(rs[at], title) == Tagged
       && forall j | 0 <= j < at :: Sight(rs[j], title) in {Untagged, Tagged}
  }

  /**
   * Whatever part of the history is visible, whichever of its blobs can be read and
   * whatever the cap: a title that lost the tag is never answered `never`.
   */
  lemma NoRemovalReadsAsNever(path: string, title: string, history: seq<Revision>, contents: map<string, string>,
      parse: (string, string) -> seq<DeclaredTest>, at: nat,
      visible: nat, blobs: map<string, string>, cap: nat, shallow: bool)
    requires LostTheTag(path, title, history, contents, parse, at)
    requires visible <= |history| && (visible < |history| ==> shallow)
    requires forall b <- blobs :: b in contents && blobs[b] == contents[b]
    ensures WalkVerdict(path, title, history[..visible], blobs, parse, cap, shallow) != Never
  {
    var rs := ReadingsOf(path, Take(history[..visible], cap), blobs, parse);
    var whole := ReadingsOf(path, history, contents, parse);
    var ending := Exhausted(visible, cap, shallow);
    forall i | 0 <= i < |rs| ensures rs[i].declared.None? || rs[i] == whole[i] {}
    NeverIsObservedOrEarned(rs, ending, title);
    assert at < |rs| ==> (rs[at].declared.None? || rs[at] == whole[at]) && Sight(rs[at], title) != Untagged;
    assert ending == Never ==> |rs| == |history|;
    assert forall k | FirstDecisive(rs, k, title) && Sight(rs[k], title) == Absent :: k <= at && rs[k] == whole[k];
  }

  /* ---- titles declared more than once ---- */

  predicate Declares(declared: seq<DeclaredTest>, title: string)
  {
    exists d <- declared :: d.title == title
  }

  /** Some declaration of the title carries the tag, whether or not it is the first. */
  predicate TaggedSomewhere(declared: seq<DeclaredTest>, title: string)
  {
    exists d <- declared :: d.title == title && d.stable
  }

  predicate DeclaredOnce(declared: seq<DeclaredTest>, title: string)
  {
    forall i, j | 0 <= i < j < |declared| :: declared[i].title != title || declared[j].title != title
  }

  lemma {:induction false} FirstTitledMeaning(declared: seq<DeclaredTest>, title: string)
    ensures FirstTitled(declared, title).Some? <==> Declares(declared, title)
    ensures FirstTitled(declared, title).Some? && FirstTitled(declared, title).value.stable ==> TaggedSomewhere(declared, title)
    ensures DeclaredOnce(declared, title) && TaggedSomewhere(declared, title)
            ==> FirstTitled(declared, title).Some? && FirstTitled(declared, title).value.stable
  {
    if declared != [] {
      FirstTitledMeaning(declared[1..], title);
      assert declared == [declared[0]] + declared[1..];
      if declared[0].title == title && DeclaredOnce(declared, title) {
        forall d <- declared[1..] ensures d.title != title {
          var j :| 0 <= j < |declared[1..]| && declared[1..][j] == d;
          assert declared[0].title != title || declared[j + 1].title != title;
        }
      }
    }
  }

  /** The first declaration is tagged at `k`, and no revision above declares the title nowhere. */
  ghost predicate FirstTaggedAt(rs: seq<Reading>, k: int, title: string)
  {
    && 0 <= k < |rs|
    && Sight(rs[k], title) == Tagged
    && forall j | 0 <= j < k :: Sight(rs[j], title) != Absent
  }

  /** On a complete, readable history the walk finds something exactly when a first declaration was tagged. */
  lemma NeverIffNoFirstTag(rs: seq<Reading>, title: string)
    requires forall r <- rs :: r.declared.Some?
    ensures SoloFrom(rs, 0, Never, title) != Never <==> exists k :: FirstTaggedAt(rs, k, title)
  {
    var stop := SoloStops(rs, 0, Never, title);
    if stop < |rs| {
      assert rs[stop] in rs;
      if Sight(rs[stop], title) == Tagged { assert FirstTaggedAt(rs, stop, title); }
    }
    forall k | FirstTaggedAt(rs, k, title) ensures stop < |rs| && Sight(rs[stop], title) == Tagged {
      assert stop <= k;
      assert stop < k ==> Sight(rs[stop], title) != Absent;
    }
  }

  /** Some declaration of the title was tagged at `at`, and every newer revision declares the title. */
  ghost predicate LostSomewhere(path: string, title: string, history: seq<Revision>, contents: map<string, string>,
                                parse: (string, string) -> seq<DeclaredTest>, at: nat)
  {
    && at < |history|
    && var rs := ReadingsOf(path, history, contents, parse);
       rs[at].declared.Some? && TaggedSomewhere(rs[at].declared.value, title)
       && forall j | 0 <= j < at :: rs[j].declared.Some? && Declares(rs[j].declared.value, title)
  }

  /** Where a revision declares the title once, its tag is the tag of the first declaration. */
  lemma DeclaredOnceLostTheTag(path: string, title: string, history: seq<Revision>, contents: map<string, string>,
                               parse: (string, string) -> seq<DeclaredTest>, at: nat)
    requires LostSomewhere(path, title, history, contents, parse, at)
    requires DeclaredOnce(ReadingsOf(path, history, contents, parse)[at].declared.value, title)
    ensures LostTheTag(path, title, history, contents, parse, at)
  {
    var rs := ReadingsOf(path, history, contents, parse);
    FirstTitledMeaning(rs[at].declared.value, title);
    forall j | 0 <= j < at ensures Sight(rs[j], title) in {Untagged, Tagged} {
      FirstTitledMeaning(rs[j].declared.value, title);
    }
  }

  /* ---- the ledger: the same question answered forwards in time ---- */

  /** What a bookkeeper knows about one title after some commits. */
  datatype LedgerEntry = Gone | Carried | TakenOff(removal: Revision) | NeverTagged

  /** One commit goes by. */
  function LedgerStep(entry: LedgerEntry, r: Reading, title: string): LedgerEntry
  {
    match Sight(r, title)
    case Tagged => Carried
    case Untagged =>
      (match entry
       case Carried => TakenOff(r.rev)
       case TakenOff(removal) => TakenOff(removal)
       case Gone => NeverTagged
       case NeverTagged => NeverTagged)
    case Absent => Gone
    case Unreadable => Gone
  }

  /** The entry after the whole history, given newest first. */
  function Ledger(rs: seq<Reading>, title: string): LedgerEntry
  {
    if rs == [] then Gone else LedgerStep(Ledger(rs[1..], title), rs[0], title)
  }

  function LedgerVerdict(entry: LedgerEntry): HistoryVerdict
  {
    match entry
    case Gone => Never
    case NeverTagged => Never
    case Carried => Unknown(RemovalUncommitted)
    case TakenOff(removal) => Removed(Evidence(removal))
  }

  /**
   * On a complete, readable history the backward walk says what the ledger kept forwards:
   * each removal, restore and re-removal is dated to its own commit.
   */
  lemma WalkAgreesWithLedger(rs: seq<Reading>, title: string)
    requires forall r <- rs :: r.declared.Some?
    ensures SoloFrom(rs, 0, Never, title) == LedgerVerdict(Ledger(rs, title))
  {
    if rs != [] && Sight(rs[0], title) == Untagged {
      LedgerBelowUntagged(rs, 1, title);
    }
  }

  /** With everything newer than `k` untagged, the entry at `k` decides the entry at the head. */
  lemma {:induction false} LedgerBelowUntagged(rs: seq<Reading>, k: nat, title: string)
    requires 1 <= k <= |rs| && forall r <- rs :: r.declared.Some?
    requires forall j | 0 <= j < k :: Sight(rs[j], title) == Untagged
    ensures SoloFrom(rs, k, Never, title) == LedgerVerdict(LedgerStep(Ledger(rs[k..], title), rs[k - 1], title))
    ensures Ledger(rs, title) == LedgerStep(Ledger(rs[k..], title), rs[k - 1], title)
    decreases |rs| - k
  {
    LedgerThroughUntagged(rs, k, title);
    if k < |rs| {
      assert rs[k..][0] == rs[k] && rs[k..][1..] == rs[k + 1..];
      assert rs[k] in rs;
      if Sight(rs[k], title) == Untagged {
        LedgerBelowUntagged(rs, k + 1, title);
      }
    }
  }

  lemma {:induction false} LedgerThroughUntagged(rs: seq<Reading>, k: nat, title: string)
    requires 1 <= k <= |rs|
    requires forall j | 0 <= j < k :: Sight(rs[j], title) == Untagged
    ensures Ledger(rs, title) == LedgerStep(Ledger(rs[k..], title), rs[k - 1], title)
  {
    if k > 1 {
      LedgerThroughUntagged(rs, k - 1, title);
      assert rs[k - 1..][0] == rs[k - 1] && rs[k - 1..][1..] == rs[k..];
    }
  }

  /**
   * Over any further run of commits that keep the title declared without the tag, the walk
   * keeps naming the same removal.
   */
  lemma {:induction false} RemovalDateIsStable(newer: seq<Reading>, removal: Reading, older: seq<Reading>, title: string)
    requires forall r <- newer :: Sight(r, title) == Untagged
    requires Sight(removal, title) == Untagged
    requires older != [] && Sight(older[0], title) == Tagged
    ensures forall ending :: SoloFrom(newer + [removal] + older, 0, ending, title) == Removed(Evidence(removal.rev))
  {
    var rs := newer + [removal] + older;
    var k := |newer| + 1;
    assert rs[k] == older[0] && rs[k - 1] == removal;
    assert forall j | 0 <= j < k :: Sight(rs[j], title) == Untagged;
    forall ending ensures SoloFrom(rs, 0, ending, title) == Removed(Evidence(removal.rev)) {
      var stop := SoloStops(rs, 0, ending, title);
      assert stop == k;
    }
  }
}
