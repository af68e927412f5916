# Verified model of the `@stable` governance scripts

A Playwright suite is run every night over the tests tagged `@stable`. This project models,
in Dafny, the scripts that decide which tests carry that tag, strip it after failures, date
each removal in history, ask who owns its restore, and keep the generated documents in step
with it, and proves what those scripts promise.

The modules follow the scripts:

- **Removal.** `FailureClassification` splits a run's failures into exempt and attributable;
  `SpliceTags` and `TagArrays` cut tag elements out of a file back to front and read what is
  left; `StableRemoval` is the run with its mass-failure guard, `RemovalRows` says what its rows
  report, and `TagRemoval` follows it from failures to the text of a spec.
- **History and reconciliation.** `GitLog` and `BatchFrames` read `git`'s output; `HistoryWalk`
  dates a removal by walking revisions newest first, `WalkVerdicts` says what each verdict rests
  on, and `HistoryRuns` follows one over later commits; `StableOrphans` puts every candidate on
  one bucket and `OrphanLaws` says which; `References`, `GateJustifications`, `GateVerdicts`,
  `GateLaws` and `RefStates` decide whether a written reason still stands; `Trackers`,
  `Ownership` and `WeeklyLoop` join the checks with the open issues, their own reports included,
  and `LoopVerdicts` follows those issues to what stands in a report.
- **The specs.** `SpecTree` holds the three walks over a spec's syntax tree and `TreePaths` says
  what they find on the way down to a test; `StableAgreement`, `DeclaredSpecs` and `Backlog`
  compare the notions of "stable" they yield.
- **The documents.** `CoverageSummary`, `CoverageIdempotence`, `CoverageFiles` and
  `CoverageCells` cover the checklist generator, `PhaseZero`, `PhaseZeroLaws`,
  `PhaseZeroContents` and `PhaseZeroFiles` the Phase 0 generator, `StopReasons` the landmarks
  both of them look for, and `ChecklistCommutes`, `ChecklistOrders`, `ChecklistWitness` and
  `CoverageModules`, which holds the generator's own module list, the two run in either order;
  `KeepAlive` the scanner of polling intervals; `MatrixMeasure`, `MatrixLaws`, `TestHealth` and
  `MatrixRefresh` the coverage matrix.
- `Texts`, `Sequences`, `Documents` and `Declarations` are the shared ground.

Loops and walks of the scripts are methods (the tree walks, methods of classes that fill their
fields), each proved to compute a function; the lemmas are about those functions.

Where code and comments part, the model follows the code:

- A sole tag followed by a trailing comma is not left as `[]` but as an array with a hole
  (`TagArrays.CutReadsBack`).
- The splice loop does not look for ranges that meet; a test failing twice in one report loses
  text behind its tag (`StableRemoval.FailingTwiceCutsTwice`).
- A lookup error whose first line is empty is taken for an answer
  (`StableOrphans.OutageIsReportedIff`), and its run overwrites the standing report
  (`WeeklyLoop.FailedRunIsQuietIff`).
- A failed reference lookup does not make every gate row unknown, only those that cite the
  reference (`GateLaws.ExpiredIff`); that it is always a finding is true
  (`GateLaws.FailedReferenceIsAFinding`).
- A mass-failure threshold that is not a number never trips (`StableRemoval.RemoveStable`).
- The walk reads the first declaration with a title. When two tests of a file share a title, a
  tag lost by the second one is counted as never carried, and nothing lists the removal
  (`StableOrphans.SecondDeclarationIsLost`); it is listed exactly when a first declaration was
  tagged (`StableOrphans.ListedIffFirstDeclarationTagged`).
- The Phase 0 generator calls itself idempotent. It is not when a title with a newline hides a
  Phase 1 header in the section, nor when the second run finds another Note than the first:
  because the Note or the Coverage header stood in the section and was cut out with it, or
  because a title brings in a Coverage header of its own. `PhaseZeroFiles.RefreshTwice` has the
  exact condition. With the Coverage header above the section and the Note outside it, the
  hidden header is the only way (`PhaseZeroFiles.NoteOutsideTheSection`).
- A title with a newline can also hide a Phase header from the other generator, and then the
  order of the two matters (`ChecklistWitness.CommuteIffHarmless`, and for the generator's own
  modules `CoverageModules.OwnModulesCommuteIffHarmless`).
- A tag that an array holds twice is removed once (`TagRemoval.RemovedReadsUnstable`).
- The file-name boundary guards only paths with a directory (`Trackers.NamesFileIff`).
- A qualified reference of eight or more digits never matches its own declaration
  (`References.DeclaredLabelIff`).

## Model

| member | source | states |
|---|---|---|
| `HistoryWalk.WalkSpec` | scripts/reconcile-stable-orphans.ts:295-407 | The batch walk over any list of titles gives each of them exactly the verdict of a walk of its own: log failure, empty history, unreadable blob, cap and shallow clone included; no other key is written |
| `HistoryWalk.WalkRevisions` | scripts/reconcile-stable-orphans.ts:327-404 | The loop over revisions with its pending set, its moving predecessor and its parse cache; every cached parse equals a fresh parse of that blob, and every settled title holds its solo verdict |
| `HistoryWalk.DecideAt` | scripts/reconcile-stable-orphans.ts:347-383 | One revision settles exactly the pending titles it decides, from the first declaration with each title, and leaves the others pending |
| `HistoryWalk.AssignAll` | scripts/reconcile-stable-orphans.ts:303-324 | One verdict given to every title of a set, under that title's own key, and to nothing else |
| `HistoryWalk.RemovedNamesTheCommitAfterTheLastTag` | scripts/reconcile-stable-orphans.ts:347-383 | `removed` names revision k-1 if and only if k >= 1 is the first walked revision with the tag and every newer one declares the title without it |
| `HistoryWalk.NeverIsObservedOrEarned` | scripts/reconcile-stable-orphans.ts:353-404 | `never` if and only if the title was seen missing below untagged declarations, or a walk entitled to conclude it ran out |
| `HistoryWalk.LessEvidenceIsUnknownOrUnchanged` | scripts/reconcile-stable-orphans.ts:327-404 | Truncation soundness: with a shorter shallow history, a lower cap or fewer readable blobs the verdict is `unknown` or exactly the full one |
| `HistoryWalk.NoRemovalReadsAsNever` | scripts/reconcile-stable-orphans.ts:335-404 | A title whose first declaration lost the tag while the title stayed declared is never answered `never`, for any visible prefix, blobs, cap and honest shallow flag |
| `HistoryWalk.NeverIffNoFirstTag` | scripts/reconcile-stable-orphans.ts:347-404 | On a complete, readable history a title is answered `never` if and only if no revision tags the first declaration with it above the first revision that lacks the title |
| `HistoryWalk.DeclaredOnceLostTheTag` | scripts/reconcile-stable-orphans.ts:352-352 | A revision that declares a title once tags its first declaration whenever it tags any, so a tag lost from such a title was lost from the first declaration |
| `HistoryWalk.WalkAgreesWithLedger` | scripts/reconcile-stable-orphans.ts:327-404 | On a readable complete history the backward walk equals an independent forward definition that books every tagging, removal and restore in commit order |
| `HistoryWalk.RemovalDateIsStable` | scripts/reconcile-stable-orphans.ts:347-383 | Later commits that keep the title untagged never move the commit a removal is dated to |
| `WalkVerdicts.VerdictSays` | scripts/reconcile-stable-orphans.ts:295-404 | The whole verdict in terms of the revisions: why a log that failed or is empty decides nothing, and else at which revision the walk stops and what that one makes of the title |
| `HistoryRuns.RemovalStaysDated` | scripts/reconcile-stable-orphans.ts:327-404 | A commit takes the tag off and any number of later commits keep the title declared without it: every later walk dates the removal to that commit if and only if the cap reaches back that far, and otherwise says the cap was hit |
| `HistoryRuns.RemovalStaysListed` | scripts/lib/stable-orphans.ts:227-310 | Every later report then lists the test with that commit, whatever the issues and declarations of the week, a failed lookup included |
| `Declarations.HistoryKeyInjective` | scripts/lib/stable-orphans.ts:166-173 | Two tests share a history key only when they share path and title, as long as no path holds a NUL |
| `StableOrphans.Reconcile` | scripts/lib/stable-orphans.ts:203-362 | The whole verdict: every bucket is the candidate rows of its state in candidate order, both lists of declaration problems, and all four counters |
| `StableOrphans.Classify` | scripts/lib/stable-orphans.ts:226-310 | The candidate loop: each test that never had the tag is counted, every other one is pushed on exactly one bucket |
| `StableOrphans.RowOf` | scripts/lib/stable-orphans.ts:226-309 | One turn of that loop against the decision table: unreadable tags, missing or unknown history, never, exempt, failed lookup, owned, orphaned, in that order |
| `StableOrphans.JudgeExemptions` | scripts/lib/stable-orphans.ts:312-358 | The declarations judged the other way: no such test, stable again, lane-gated, unverifiable, never carried |
| `StableOrphans.ExemptionIndex` | scripts/lib/stable-orphans.ts:206-209 | The index of declarations holds the last one for each key |
| `OrphanLaws.BucketIff` | scripts/lib/stable-orphans.ts:226-310 | For any verdict the loop can give: a candidate with readable tags is owned, orphaned, exempt or unknown if and only if its dated history, the declaration of its key, the lookup and the issues naming it put it there, each condition stated over the inputs |
| `OrphanLaws.RowsReport` | scripts/lib/stable-orphans.ts:226-310 | Every row stands on the bucket of its state and reports on a candidate: path, title, lanes, removing commit, issues, reason and declaration as they are in the inputs |
| `OrphanLaws.OwnedByIssueIff` | scripts/reconcile-stable-orphans.ts:479-538 | From the open issues to the verdict: a dated, undeclared removal is owned if and only if an open issue that is no pull request and no report names its file, whether or not it quotes the title; orphaned if and only if none does; as long as no path holds a NUL |
| `OrphanLaws.UnreadableTagsAreUnknown` | scripts/lib/stable-orphans.ts:241-250 | A candidate whose tags could not be read is always undecided, and the row says why |
| `OrphanLaws.UnreadableOptionIsUnknown` | scripts/lib/stable-tests.ts:544-594 | From the tree to the verdict: a tag option that could not be read, on the test or on any suite around it, leaves that candidate undecided |
| `OrphanLaws.DeclarationIff` | scripts/lib/stable-orphans.ts:312-358 | A declaration is listed with a fault if and only if that is its fault, stated over tests and histories: as unverified when the history cannot say, else as stale |
| `StableOrphans.NothingIsDropped` | scripts/lib/stable-orphans.ts:218-310 | Conservation: declared = stable + lane-gated + never + orphaned + owned + exempt + unknown |
| `StableOrphans.OutageMovesOnlyOwnership` | scripts/lib/stable-orphans.ts:286-310 | A failed issue lookup empties owned and orphaned, moves exactly those rows to unknown in place, and changes nothing else |
| `StableOrphans.EmptyErrorReadsAsAnswered` | scripts/lib/stable-orphans.ts:289-300 | Where the code parts from its own rule: an error whose first line is empty is not seen as one, and every owned removal reads as orphaned |
| `StableOrphans.OutageIsReportedIff` | scripts/lib/stable-orphans.ts:289-300 | An outage that touches a row is reported as one if and only if its message has a non-empty first line |
| `StableOrphans.UnverifiedComesWithUnknownRow` | scripts/lib/stable-orphans.ts:312-380 | A declaration that cannot be verified always comes with an unknown row for its own test |
| `StableOrphans.UnverifiedClauseIsRedundant` | scripts/lib/stable-orphans.ts:364-380 | That clause of the findings test never decides it, as the comment beside it claims |
| `StableOrphans.DateRemovals` | scripts/reconcile-stable-orphans.ts:970-994 | The pipeline step: candidates grouped by spec, each spec walked once, every candidate dated by its own walk |
| `StableOrphans.LostRemovalIsAlwaysListed` | scripts/lib/stable-orphans.ts:227-310 | End to end: a test now out of the daily, the first declaration of whose title once carried the tag while the title stayed declared, has a row in the report, whatever part of the history git shows |
| `StableOrphans.UniqueTitlesAreAlwaysListed` | scripts/lib/stable-orphans.ts:227-310 | The same for a tag on any declaration, as long as the revision that carried it declares the title once |
| `StableOrphans.ListedIffFirstDeclarationTagged` | scripts/lib/stable-orphans.ts:227-310 | When the walk sees the whole history, a title has a row if and only if some revision tags the first declaration with it and no newer one lacks the title |
| `StableOrphans.SecondDeclarationIsLost` | scripts/reconcile-stable-orphans.ts:347-383 | The failing input: two tests of one file share a title and the second loses the tag; the walk answers `never` and no row is written |
| `BatchFrames.ReadBlobs` | scripts/reconcile-stable-orphans.ts:250-262 | The framing loop over any bytes ends, with the remaining bytes as measure, and computes the recursive reader |
| `BatchFrames.ReaderInvertsWriter` | scripts/reconcile-stable-orphans.ts:239-264 | Reading what the batch protocol writes gives exactly the found objects, for arbitrary payload bytes and any mix of missing ones |
| `BatchFrames.ReadsWhatWasWritten` | scripts/reconcile-stable-orphans.ts:250-262 | The same at any offset of a larger buffer, on top of anything read before |
| `BatchFrames.ReadsOneAnswer` | scripts/reconcile-stable-orphans.ts:250-262 | One turn of the reader consumes exactly one written answer, whatever bytes follow |
| `BatchFrames.EachObjectItsOwnPayload` | scripts/reconcile-stable-orphans.ts:239-264 | With each object asked for once, an object is in the map if and only if it was found, with its own payload |
| `GitLog.ParseGitLogRaw` | scripts/reconcile-stable-orphans.ts:171-195 | The record loop computes the revisions of the separated records |
| `GitLog.LogReadsBack` | scripts/reconcile-stable-orphans.ts:143-195 | Parsing a printed log gives back its commits that leave content behind; merges, empty commits and deletions leave none |
| `GitLog.EntryReadsBack` | scripts/reconcile-stable-orphans.ts:175-192 | One printed record reads back as its revision with the first kept blob, or as none |
| `GitLog.KeptBlobMeaning` | scripts/reconcile-stable-orphans.ts:171-195 | The object a commit leaves behind is that of its first change that is no deletion |
| `FailureClassification.LoadCorroboration` | scripts/remove-stable-from-failures.ts:444-486 | Every way of not having a payload gives no corroboration; keys come only from a payload that both measured and read |
| `FailureClassification.CollectKeys` | scripts/remove-stable-from-failures.ts:472-477 | The keys are those of the entries that name a file and a title |
| `FailureClassification.ClassifyFailures` | scripts/remove-stable-from-failures.ts:537-609 | The three lists, each the failures of its decision in report order, with the attempt and signature that decided |
| `FailureClassification.ExemptIff` | scripts/remove-stable-from-failures.ts:543-586 | A failure is exempt if and only if its last attempt classifies, or an earlier one classifies and is itself corroborated; a disagreement is exactly a classifying earlier attempt with none corroborated |
| `FailureClassification.NoFailureIsLost` | scripts/remove-stable-from-failures.ts:537-609 | Exempt and attributable split all failures, each once, keeping the order |
| `FailureClassification.DisagreementsAreAttributable` | scripts/remove-stable-from-failures.ts:588-606 | Every declined exemption is about a removal candidate, and every candidate with a classifying earlier attempt has one |
| `FailureClassification.MoreCorroborationRemovesLess` | scripts/remove-stable-from-failures.ts:576-586 | More corroboration keys only shrink the attributable list |
| `FailureClassification.UncountedIsTheLastAttemptRule` | scripts/remove-stable-from-failures.ts:434-486 | A payload that did not both measure and read gives exactly the last-attempt rule |
| `FailureClassification.CorroborationNeverWidens` | scripts/remove-stable-from-failures.ts:434-443 | No payload whatever adds a removal candidate to that rule |
| `FailureClassification.AttemptsSplit` | scripts/remove-stable-from-failures.ts:292-328 | The earlier attempts and the last failed one are together the failed attempts, in order |
| `FailureClassification.AttemptKeyInjective` | scripts/remove-stable-from-failures.ts:431-433 | One key names one attempt of one test of one spec |
| `FailureClassification.EarlierExemptionIsNamed` | scripts/remove-stable-from-failures.ts:472-586 | An exemption by an earlier attempt comes from a payload entry naming that very attempt |
| `FailureClassification.ExemptIffNamed` | scripts/remove-stable-from-failures.ts:472-586 | From the payload to the decision: a failure whose last attempt does not classify is exempt if and only if the payload was measured and read and one of its entries, normalised, names a classifying earlier attempt by spec, title and retry, as long as no path holds a NUL; no entry is dropped and none added |
| `FailureClassification.AttributableIffUnnamed` | scripts/remove-stable-from-failures.ts:537-609 | So, for what the loop returns, the removal candidates are exactly the failures that neither rule excuses, by what the payload says, as long as no path holds a NUL |
| `FailureClassification.DecidingAttempt` | scripts/remove-stable-from-failures.ts:543-606 | Which attempt and signature decide: the last attempt's own, else the first earlier attempt that classifies and is named, else the first that classifies |
| `FailureClassification.DeclinedIff` | scripts/remove-stable-from-failures.ts:489-512 | The reason a classifying attempt was not believed, over what was loaded: no payload, unreadable, no array, report not read, no shard claims the spec, the last claim says unmeasured, or it measured and saw nothing |
| `FailureClassification.DisagreementSays` | scripts/remove-stable-from-failures.ts:588-606 | Each disagreement row names a failure of the run, its first classifying earlier attempt with its signature, and its own spec's reason |
| `StableRemoval.RemoveStable` | scripts/remove-stable-from-failures.ts:712-886 | The run: classification, guard, grouping by file, resolution and splice, tied to a functional definition of what is removed, skipped and written; the guard trips if and only if a numeric threshold is exceeded, and then nothing is removed, skipped or written |
| `StableRemoval.CollectCuttings` | scripts/remove-stable-from-failures.ts:848-876 | Each failure of a file is resolved to one tag element or skipped with its reason |
| `StableRemoval.CutFile` | scripts/remove-stable-from-failures.ts:878-884 | The ranges sorted latest first and cut one after another, the removals reported in that order |
| `StableRemoval.OnLineMeaning` | scripts/remove-stable-from-failures.ts:852-858 | Duplicate titles are told apart by the reported line: the match found is on it, and none is found only if no candidate is |
| `StableRemoval.RemovalsAreBounded` | scripts/remove-stable-from-failures.ts:766-884 | Removals in one run are at most the threshold plus the candidates that are unexpected passes |
| `StableRemoval.EveryCandidateIsAccountedFor` | scripts/remove-stable-from-failures.ts:828-886 | When the guard lets a run through every candidate is removed or skipped, once; status follows the removals |
| `StableRemoval.ExemptionsProtect` | scripts/remove-stable-from-failures.ts:537-586 | No removal is made on account of an exempt failure |
| `StableRemoval.SameTitleSameRange` | scripts/remove-stable-from-failures.ts:849-876 | Two failures with one title and one candidate resolve to the same range |
| `StableRemoval.FailingTwiceCutsTwice` | scripts/remove-stable-from-failures.ts:849-884 | Such a pair is cut twice: as many characters again vanish from what follows the tag |
| `StableRemoval.FileTextIsTheDeletion` | scripts/remove-stable-from-failures.ts:878-884 | With no resolved range at the very end of the file, the new text is the old one with exactly those ranges deleted if and only if no two of them meet |
| `RemovalRows.RunSays` | scripts/remove-stable-from-failures.ts:828-886 | Row by row: a removal row names its own target's line and whether that was its only tag, a skip the reason that holds, and the rows together are about the candidates, each as often as it was reported |
| `RemovalRows.RemovedIffTarget` | scripts/remove-stable-from-failures.ts:849-876 | When the guard lets a run through, a candidate is removed if and only if its file is there and it has a target: the only tagged test of its title, or the first on the reported line |
| `RemovalRows.GuardIff` | scripts/remove-stable-from-failures.ts:766-821 | The run stops at the guard if and only if more failures than a numeric threshold are no unexpected passes, exempt ones counted; then nothing is removed, skipped or written |
| `RemovalRows.WrittenIff` | scripts/remove-stable-from-failures.ts:865-884 | A run writes exactly the files of its removal rows |
| `SpliceTags.SpliceAll` | scripts/remove-stable-from-failures.ts:878-884 | The sort and the loop compute the successive cuts |
| `SpliceTags.BackToFrontDeletesAll` | scripts/remove-stable-from-failures.ts:879-884 | Cutting back to front pairwise disjoint ranges, found in any order, is deleting all of them at once from the original text |
| `SpliceTags.RightExactlyWhenApart` | scripts/remove-stable-from-failures.ts:879-884 | As long as no range reaches the end of the text, the loop deletes exactly the given ranges if and only if no two share a character |
| `SpliceTags.RangeTwiceEatsOn` | scripts/remove-stable-from-failures.ts:879-884 | The concrete failure: one range given twice deletes the same number of characters behind it |
| `TagArrays.CutPrinted` | scripts/remove-stable-from-failures.ts:683-708 | The splice range of any element leaves the text before and after untouched and a printed array of the other elements between |
| `TagArrays.PrintedReadsBack` | scripts/remove-stable-from-failures.ts:683-708 | A printed tag array reads back as its elements, whatever the padding and trailing comma |
| `TagArrays.CutReadsBack` | scripts/remove-stable-from-failures.ts:690-707 | Read again, the array holds its other elements in order, if and only if it is not a sole element with a trailing comma; then it holds a hole |
| `TagArrays.LiteralIsElement` | scripts/remove-stable-from-failures.ts:613-624 | Any plain string literal, in any of the three quotes, is an element, commas and brackets inside it included |
| `TagArrays.SpliceKeepsTheRest` | scripts/remove-stable-from-failures.ts:848-884 | Over a whole file with any number of tag arrays every chosen element goes and every other element, array and character stays |
| `TagRemoval.StableTestMatches` | scripts/remove-stable-from-failures.ts:659-681 | The table of matches of a file of printed tag arrays: for each title, in file order, the tests with that title whose own array holds the tag |
| `TagRemoval.ResolvesToTarget` | scripts/remove-stable-from-failures.ts:849-858 | Resolving a failure to a match is resolving it to a test: the only tagged one of its title, or the one on the reported line |
| `TagRemoval.RunLosesExactlyTheTags` | scripts/remove-stable-from-failures.ts:828-886 | From failures to text, for a whole run: a file reads afterwards as before without the tags of the tests its candidates resolve to, everything else kept, if and only if no two candidates resolve to the same test |
| `TagRemoval.RemovedReadsUnstable` | scripts/remove-stable-from-failures.ts:633-708 | A test whose tag was cut out reads back without it if and only if its array held the tag once |
| `SpecTree.DeclaredTestsWalk.Visit` | scripts/lib/stable-tests.ts:525-604 | Whatever path the walk stands on, it appends the pre-order rows of the subtree, each computed from the list of enclosing suites and its own options |
| `SpecTree.DeclaredTestsWalk.Declare` | scripts/lib/stable-tests.ts:566-599 | The row of one titled test: stable, lane tags, unreadable flag and grep string from what was inherited |
| `SpecTree.ParseDeclaredTests` | scripts/lib/stable-tests.ts:511-608 | The whole file: the rows by the path-based definition |
| `SpecTree.PathSnoc` | scripts/lib/stable-tests.ts:532-565 | How each inherited value grows when one more suite is entered |
| `TreePaths.RowHasTest` | scripts/lib/stable-tests.ts:511-608 | Every row stands for a titled test at the end of a chain of nodes from the file down, each a child of the one before, and says what those nodes say: title, line, modifier, stable and unreadable flags, and each tag, a lane tag from any suite on the way too |
| `TreePaths.TestHasRow` | scripts/lib/stable-tests.ts:511-608 | Every titled test that such a chain leads to has that row |
| `TreePaths.RowsInOrder` | scripts/lib/stable-tests.ts:511-608 | The rows of a file stand in line order |
| `SpecTree.StableTestsWalk.Visit` | scripts/lib/stable-tests.ts:182-237 | The Phase 0 walk appends exactly the plain tests tagged on their own array, and the warnings of the subtree |
| `SpecTree.ParseStableTests` | scripts/lib/stable-tests.ts:170-258 | The whole file: the listed tests and the warnings |
| `TreePaths.PhaseZeroListsIff` | scripts/lib/stable-tests.ts:182-237 | Phase 0 lists exactly the tests declared plainly, with a literal title and the tag in their own list |
| `TreePaths.WarnsIff` | scripts/lib/stable-tests.ts:182-237 | It warns about exactly the suites that carry the tag and the plain tests whose own tag option is no readable list |
| `SpecTree.DeclaredCountsWalk.Visit` | scripts/lib/stable-tests.ts:324-346 | The counting walk adds the plain tests of the subtree and, of those, the ones an `@enterprise` reaches on the path |
| `SpecTree.ParseDeclaredCounts` | scripts/lib/stable-tests.ts:313-347 | The whole file: totals, and the difference as the OSS count |
| `StableAgreement.NotionsDifferOnlyWithWarning` | scripts/lib/inherited-backlog.ts:133-200 | What Phase 0 lists equals what the backlog calls stable if and only if no test inherits the tag from a suite alone; when they differ the parser has warned |
| `StableAgreement.ListedIsStable` | scripts/lib/stable-tests.ts:219-231 | Whatever Phase 0 lists is stable and not skipped to the backlog, on every tree |
| `StableAgreement.HiddenIsWarned` | scripts/lib/stable-tests.ts:182-208 | A suite tag that reaches a test is warned about |
| `StableAgreement.LaneTagReaches` | scripts/lib/stable-tests.ts:540-592 | A lane tag is in a row if and only if the test or one of its suites carries it |
| `StableAgreement.UnparseableIff` | scripts/lib/stable-tests.ts:544-594 | A row is flagged unreadable if and only if the test's own tag option, or that of one of its suites, could not be read |
| `StableAgreement.StableIff` | scripts/lib/stable-tests.ts:540-592 | A row is stable if and only if the test or one of its suites carries the tag in a readable list |
| `StableAgreement.CountsAgreeOnEnterprise` | scripts/lib/stable-tests.ts:313-347 | The counts equal the plain rows, and those with `@enterprise` in their tags, plus the calls whose title is no literal |
| `StableAgreement.ExcludedIff` | scripts/lib/stable-tests.ts:742-755 | A normal listing leaves a test out if and only if its path or one single title or tag on it holds a lane tag |
| `StableAgreement.LaneGatedIsExcluded` | scripts/lib/stable-tests.ts:370-429 | What the reconciler calls lane-gated the listing always excludes |
| `StableAgreement.UnresolvedIff` | scripts/lib/stable-tests.ts:467-486 | A test is flagged if and only if one of its titles or tags holds the marker or a placeholder |
| `StableAgreement.UnreadableTitleIsFlagged` | scripts/lib/stable-tests.ts:552-565 | A suite title that is no literal flags every test below it |
| `DeclaredSpecs.DeclaredStableSpecFiles` | scripts/lib/stable-tests.ts:722-783 | The loop over files fills the four lists as sorted filters of the files |
| `DeclaredSpecs.Sort` | scripts/lib/stable-tests.ts:757-774 | One file goes on each list if and only if it belongs there |
| `DeclaredSpecs.NoStableFileIsDropped` | scripts/lib/stable-tests.ts:676-721 | Undecidable is never clean: a file with a selected stable test is expected, lane-only or unparseable, and never both of the first two |
| `DeclaredSpecs.ExpectedIff` | scripts/lib/stable-tests.ts:759-774 | A file is expected if and only if a selected, readable test escapes every lane tag |
| `DeclaredSpecs.UnparseableFileIff` | scripts/lib/stable-tests.ts:544-774 | From the tree: a file is on the unparseable list if and only if the tag option of one of its titled tests, or of a suite around one, could not be read |
| `DeclaredSpecs.LaneOnlyIff` | scripts/lib/stable-tests.ts:757-774 | A file is lane-only if and only if some selected test is readable and a lane tag excludes every one of those |
| `DeclaredSpecs.UnresolvedFileIff` | scripts/lib/stable-tests.ts:757-774 | A file has unresolved titles if and only if a selected test of it does |
| `DeclaredSpecs.LaneGatedFileIsNotExpected` | scripts/lib/stable-tests.ts:742-774 | A file whose selected tests are all gated by declared lane tags is never expected |
| `Backlog.ClassifyBacklog` | scripts/lib/inherited-backlog.ts:202-259 | The whole backlog: scope, specs in order with their tests by line, tiers and title collisions |
| `Backlog.CountTitles` | scripts/lib/inherited-backlog.ts:222-235 | The collision list is the sorted in-scope titles with more than one declaration |
| `Backlog.PhaseZeroAndBacklogAreDisjoint` | scripts/lib/inherited-backlog.ts:206-219 | No file Phase 0 lists a test of is a backlog file |
| `Backlog.BacklogCounts` | scripts/lib/inherited-backlog.ts:210-258 | Every declaration is in the backlog or out of it for one of three reasons, and the specs hold exactly the counted tests |
| `Backlog.CollisionIff` | scripts/lib/inherited-backlog.ts:120-131 | A title collides if and only if two declarations carry it and one of them is in scope |
| `Backlog.SpecsSay` | scripts/lib/inherited-backlog.ts:236-258 | Every spec of the backlog says its own facts, tier T2 if and only if it has neither a mirrored document nor an id-scoped cleanup, and its own in-scope tests by line, each once for each time it is declared |
| `Backlog.ListedIff` | scripts/lib/inherited-backlog.ts:206-219 | A declared test is listed under its file if and only if it carries no lane selector and no test of its file is stable and unskipped |
| `Documents.FindLineIndex` | scripts/coverage-summary.ts:132-142 | The first line in range that satisfies the predicate, or none |
| `CoverageSummary.ComputeModuleCounts` | scripts/coverage-summary.ts:149-200 | Each module's bullets by state, from its heading to the next, with the same errors for a missing or misplaced section |
| `CoverageSummary.RenderCoverageTable` | scripts/coverage-summary.ts:213-252 | The table: one row a module, excluded modules marked and left out of the totals and shares |
| `CoverageSummary.RegenerateCoverageTable` | scripts/coverage-summary.ts:254-291 | The run of rows from the table header on is replaced and nothing else |
| `CoverageSummary.RegeneratePhaseTables` | scripts/coverage-summary.ts:293-366 | Both Phase tables rewritten row by row from the labels they hold, with the same errors |
| `CoverageSummary.GenerateChecklist` | scripts/coverage-summary.ts:381-404 | The whole generator on a file's text |
| `CoverageIdempotence.CountsDependOnProjection` | scripts/coverage-summary.ts:149-200 | The counts depend only on the lines that are neither table rows nor the date line |
| `CoverageIdempotence.RunKeepsCounts` | scripts/coverage-summary.ts:381-392 | A run leaves every module's counts unchanged |
| `CoverageIdempotence.CoverageAgain` | scripts/coverage-summary.ts:254-291 | Regenerating the Coverage table twice is regenerating it once |
| `CoverageIdempotence.StepAgain` | scripts/coverage-summary.ts:302-365 | A Phase step on its own result changes nothing |
| `CoverageIdempotence.StepKeepsSettledPhase` | scripts/coverage-summary.ts:302-365 | The other Phase step keeps a settled Phase table |
| `CoverageIdempotence.StepKeepsCoverage` | scripts/coverage-summary.ts:293-366 | A Phase step keeps a settled Coverage table |
| `CoverageIdempotence.TablesApart` | scripts/coverage-summary.ts:275-360 | A settled table and a Phase table are the same run of rows or do not touch |
| `CoverageIdempotence.RewriteAgain` | scripts/coverage-summary.ts:389-392 | The three rewrites with fixed counts are idempotent |
| `CoverageIdempotence.RunIsIdempotent` | scripts/coverage-summary.ts:381-404 | Whatever document a first run accepts, a second run on the same day returns the same lines |
| `CoverageFiles.GenerateIsIdempotent` | scripts/coverage-summary.ts:381-404 | The same on whole file texts, with or without a trailing newline |
| `CoverageFiles.EveryBulletIsCountedOnce` | scripts/coverage-summary.ts:149-200 | The counts of all modules add up to the bullets between the first module heading and the Coverage Summary |
| `CoverageFiles.TotalIsSumOfIncluded` | scripts/coverage-summary.ts:221-237 | The total row is the sum of the rows it does not exclude |
| `CoverageCells.CountsAreBullets` | scripts/coverage-summary.ts:149-200 | Each module's number of each state is how many lines of its range begin with that state's literal bullet text, the range running from the first line with its prefix to the next module's or the Coverage header |
| `CoverageCells.CoverageTells` | scripts/coverage-summary.ts:213-290 | From the document to the table a run leaves: the row of each module reads, column by column under the header, its label, the total and how many lines of its range begin with the bullets of that column |
| `CoverageCells.PhasesTell` | scripts/coverage-summary.ts:293-366 | The same for both Phase tables: every row tells what is left to validate and to create of the module its label names |
| `CoverageCells.TotalRowReads` | scripts/coverage-summary.ts:213-250 | The total row reads the sum and each state's number with its share |
| `CoverageCells.PercentMeaning` | scripts/coverage-summary.ts:144-147 | A share is the nearest whole percentage, a half rounded up; of nothing it is 0 |
| `StopReasons.CountsStop` | scripts/coverage-summary.ts:149-200 | The generator stops for counting only when Part II, the Coverage header or a module's section is missing where it looks for it, or stands out of order, and the error names the first such |
| `StopReasons.TableStops` | scripts/coverage-summary.ts:254-291 | The Coverage table is looked for at or below the Coverage header, and which landmark is missing decides the error |
| `StopReasons.PhaseTableStops` | scripts/coverage-summary.ts:302-330 | A Phase table is looked for between its header and the next one, with the same |
| `StopReasons.DateStops` | scripts/coverage-summary.ts:368-379 | The date line is the first that begins as one, and is replaced whole |
| `CoverageCells.CoverageTotals` | scripts/coverage-summary.ts:213-290 | From the document to the total a run leaves: below the modules stands the row that tells, state by state with its share, the bullets of all modules it includes |
| `PhaseZero.BuildPhase0Block` | scripts/stable-tests.ts:45-77 | The block: intro with both totals, then one group a module in first-seen order with its tests in order |
| `PhaseZero.ReplaceNoteBlock` | scripts/stable-tests.ts:98-124 | The Note's run of quoted lines is replaced, with the same errors |
| `PhaseZero.ReplacePhase0Block` | scripts/stable-tests.ts:126-158 | The section up to its separator is replaced, with the same errors |
| `PhaseZero.RefreshChecklist` | scripts/stable-tests.ts:187-208 | The whole script from the text of the checklist to the text it leaves: section built, Note replaced, section replaced, with the same errors and the same last newline |
| `PhaseZeroContents.SectionReads` | scripts/stable-tests.ts:47-87 | The section, read as a document of headings and bullets, gives its tests: module by module in first-seen order, each module's tests in their own order |
| `PhaseZeroContents.SectionListsEveryTest` | scripts/stable-tests.ts:47-87 | Every stable test is listed once for each time it is declared, under its own module, and nothing else is |
| `PhaseZeroContents.TitleIsShown` | scripts/stable-tests.ts:36-43 | However texts and placeholders alternate in a title, it is shown with each placeholder's expression in its place |
| `StopReasons.RefreshOrStop` | scripts/stable-tests.ts:98-158 | The generator stops for the first landmark missing, in the order it looks for them, and else replaces the Note's quoted run and then the section above its separator |
| `PhaseZeroContents.IntroTells` | scripts/stable-tests.ts:45-60 | The intro tells how many tests there are and in how many spec files they are declared |
| `PhaseZeroLaws.NoteAgain` | scripts/stable-tests.ts:98-124 | Replacing the Note twice is replacing it once, in any document that has one |
| `PhaseZeroLaws.SectionAgain` | scripts/stable-tests.ts:126-158 | Replacing the section twice is replacing it once if and only if no line of the new section below its first trims to the Phase 1 header |
| `PhaseZeroLaws.SectionHidesNothing` | scripts/stable-tests.ts:45-77 | Line by line the generated section never hides that header, whatever the tests |
| `PhaseZeroFiles.RefreshTwice` | scripts/stable-tests.ts:98-208 | The whole generator, file to file: a second run writes the same text if and only if the section as read back hides no Phase 1 header and the Note found in the written document stands in the section or is the generated one; in terms a caller can check before the run: `PhaseZeroFiles.NoteOutsideTheSection` and `PhaseZeroFiles.OneLineRefreshTwice` |
| `PhaseZeroFiles.NoteOutsideTheSection` | scripts/stable-tests.ts:98-208 | With the Coverage header above the section and the Note anywhere outside it, a second run writes the same text if and only if the section hides no header |
| `PhaseZeroFiles.OneLineRefreshTwice` | scripts/stable-tests.ts:98-208 | When every title is on one line, it does if and only if the document without its section has a Note and that is the generated one; so a Note inside the section makes the second run rewrite the next one, or stop |
| `PhaseZeroFiles.SectionHidesIff` | scripts/stable-tests.ts:41-87 | The section hides a header if and only if a line it is made of breaks at its newlines into one that trims to the header |
| `PhaseZeroFiles.SmuggledHeader` | scripts/stable-tests.ts:41-158 | The failing input: a title with the Phase 1 header on a line of its own; the first run writes it, the second finds no separator and stops |
| `ChecklistCommutes.RunOfLayout` | scripts/coverage-summary.ts:149-404 | On a well-laid document the checklist generator rewrites the date line, the Coverage table and the tail, and copies everything else |
| `ChecklistCommutes.RunOfOpen` | scripts/coverage-summary.ts:149-404 | The same when the section may hold anything: what becomes of section and tail together is what the phase loop makes of them |
| `ChecklistCommutes.RunKeepsLayout` | scripts/coverage-summary.ts:293-379 | That run keeps the layout, and in the tail only table rows change |
| `ChecklistCommutes.RefreshOfLayout` | scripts/stable-tests.ts:98-158 | There the Phase 0 generator rewrites the Note and the section and copies everything else |
| `ChecklistOrders.OrdersAgreeIff` | scripts/coverage-summary.ts:293-404 | From file to file, each generator reading back what the other wrote: on a well-laid checklist the orders leave the same text if and only if the phase loop treats the tail below the section it reads back as it treats the tail alone |
| `ChecklistOrders.GeneratorsCommute` | scripts/stable-tests.ts:187-208 | With a section that does no harm when read back, either order leaves the same text on every well-laid checklist, and a stopping checklist run stops with the same error |
| `ChecklistOrders.OneLineIsHarmless` | scripts/stable-tests.ts:41-87 | Titles, modules and spec names on one line each do no harm |
| `ChecklistWitness.CommuteIffHarmless` | scripts/coverage-summary.ts:293-379 | For any one module list and any one set of tests, the order never matters on any well-laid checklist if and only if the section does no harm (no line of it, read back, trims to the Phase 2 header, and no Phase table begins in it below a line that trims to the Phase 1 header) or no head lets the list be counted at all |
| `ChecklistWitness.OrdersPart` | scripts/coverage-summary.ts:293-379 | Harm makes the orders part on every countable head of the list, on any day: a checklist with one row of the first module in each Phase table |
| `ChecklistWitness.SmuggledPhase2` | scripts/coverage-summary.ts:299-330 | The failing input: a title with the Phase 2 header on a line of its own; on that checklist both orders end without an error, the last line, the row of the Phase 2 table, stale when the Phase 0 generator has run first and fresh when it has run last |
| `CoverageModules.ModulesFit` | scripts/coverage-summary.ts:48-79 | The twenty-five modules of the generator: every label fits a table cell, every prefix can stand as a heading of its own, and none begins the heading of an earlier module |
| `CoverageModules.HeadIsCounted` | scripts/coverage-summary.ts:129-182 | Whatever list has that property can be counted below its own headings |
| `CoverageModules.OwnModulesCommuteIffHarmless` | scripts/coverage-summary.ts:48-79 | So with the list the generator has, the order of the two never matters if and only if the section does no harm |
| `KeepAlive.ArrayBody` | scripts/lib/poll-keepalive-cadence.ts:74-82 | The scan computes the text up to the bracket that closes the array |
| `KeepAlive.TopLevelElements` | scripts/lib/poll-keepalive-cadence.ts:85-99 | The scan computes the trimmed non-empty pieces between commas at depth 0 |
| `KeepAlive.BodyNeverBelow` | scripts/lib/poll-keepalive-cadence.ts:74-82 | Inside a scanned body the depth never goes negative, whatever the source |
| `KeepAlive.DepthCounts` | scripts/lib/poll-keepalive-cadence.ts:74-82 | The depth of a text is its opening brackets less its closing ones, of all three kinds alike |
| `KeepAlive.BodyOfPrinted` | scripts/lib/poll-keepalive-cadence.ts:74-82 | A balanced body before a closing bracket is cut out exactly |
| `KeepAlive.ElementsOfPrinted` | scripts/lib/poll-keepalive-cadence.ts:85-99 | Scanning a printed array gives back its elements, whatever the padding and trailing comma |
| `KeepAlive.ScanReadsBack` | scripts/lib/poll-keepalive-cadence.ts:74-99 | Both scans together, anywhere in a source |
| `KeepAlive.FlaggedIff` | scripts/lib/poll-keepalive-cadence.ts:111-121 | An element is flagged if and only if it is not a whole number with single underscores between digits, or lies strictly between 1000 and 2100 |
| `KeepAlive.FindKeepAliveEdgeIntervals` | scripts/lib/poll-keepalive-cadence.ts:105-125 | Every flagged element of every matched array, in order, with its line and value |
| `KeepAlive.ReportedIff` | scripts/lib/poll-keepalive-cadence.ts:105-125 | From source to report: of a printed array exactly the flagged elements are reported |
| `KeepAlive.ReportsAre` | scripts/lib/poll-keepalive-cadence.ts:105-125 | The rows of any source are exactly the flagged elements of its matched arrays: the line counts the newlines before the match, and the value is there if and only if the element is a whole number |
| `References.CollectRefs` | scripts/lib/gate-justifications.ts:300-317 | The loop with its seen set gives the references once each in first-seen order |
| `References.RefKeyInjective` | scripts/lib/gate-justifications.ts:278-281 | No two references share a key |
| `References.LabelIsRead` | scripts/lib/gate-justifications.ts:276-286 | A label is matched as its own reference if and only if its number has at most seven digits, whatever follows it |
| `References.LabelsReadBack` | scripts/lib/gate-justifications.ts:276-317 | Whatever prose stands around them, labels are read back as their references, once each, in first-seen order |
| `References.JoinCitesIff` | scripts/lib/gate-justifications.ts:300-317 | Joining texts line by line loses no reference and makes none: the whole cites exactly what some one text cites |
| `References.RepoIff` | scripts/lib/gate-justifications.ts:304-309 | The repository a matched reference names: this one without a slug or by its own, the two others by theirs, the destination's in any case |
| `References.DeclaredLabelIff` | scripts/lib/gate-justifications.ts:570-573 | A declared label is joined on its own key if and only if its number has at most seven digits or it is written without a slug |
| `GateJustifications.SelectSpecs` | scripts/lib/gate-justifications.ts:393-407 | The sorted files with no stable test that are not gated by lanes throughout |
| `GateJustifications.ClassifyGates` | scripts/lib/gate-justifications.ts:411-562 | The whole verdict: four buckets as filters of the candidate rows, stale declarations and three counters |
| `GateJustifications.RowOf` | scripts/lib/gate-justifications.ts:439-521 | One turn of the loop against the decision table |
| `GateVerdicts.CandidateIff` | scripts/lib/gate-justifications.ts:393-407 | A spec must explain itself if and only if it declares a test, none of its tests is stable, and lanes do not gate all of them |
| `GateVerdicts.CitedIff` | scripts/lib/gate-justifications.ts:436-442 | A spec cites a reference if and only if one of its sources, read on its own, cites it |
| `GateVerdicts.SpecBucketIff` | scripts/lib/gate-justifications.ts:436-521 | For any verdict the loop can give: a spec stands on a bucket if and only if it must explain itself and its sources, the lookup, the reference states and the declarations put it there, each condition stated over the inputs |
| `GateVerdicts.OneOpenSourceIsEnough` | scripts/lib/gate-justifications.ts:508-512 | A spec any of whose sources cites an open reference is never expired, whatever the others cite |
| `GateVerdicts.RowsReport` | scripts/lib/gate-justifications.ts:436-521 | Every row stands on the bucket of its state and reports its spec's references, states, trackers, declaration and reason as they are in the inputs |
| `GateVerdicts.DeclarationListedIff` | scripts/lib/gate-justifications.ts:525-559 | A declaration is listed as stale with a fault if and only if that is its fault |
| `GateLaws.CitationsAreConserved` | scripts/lib/gate-justifications.ts:436-521 | withRefs = expired + live + declared + the unknown rows that carry references |
| `GateLaws.TrackersDecideNothing` | scripts/lib/gate-justifications.ts:436-521 | With any other tracker index every bucket holds the same rows and only the trackers beside them change |
| `GateLaws.ExpiredIff` | scripts/lib/gate-justifications.ts:469-521 | A spec is expired if and only if its justification was read, cites something, the lookup answered, it is undeclared and every cited reference is closed or merged |
| `GateLaws.OneOpenReferenceIsEnough` | scripts/lib/gate-justifications.ts:508-512 | One reference still open or unresolved keeps a spec out of the expired bucket |
| `GateLaws.OutageDecidesNothing` | scripts/lib/gate-justifications.ts:469-486 | A failed lookup leaves no row expired, live or declared |
| `GateLaws.FailedReferenceIsAFinding` | scripts/lib/gate-justifications.ts:580-593 | When the states asked for are those of what the specs cite, one that could not be asked about is a finding |
| `GateLaws.SilentDeclarationIff` | scripts/lib/gate-justifications.ts:525-559 | A declaration is honoured in silence if and only if its spec still needs a reason and its text is unreadable or still cites every declared reference |
| `GateLaws.CitedLabelsHold` | scripts/lib/gate-justifications.ts:547-559 | Declared labels of references the spec cites are never called stale |
| `RefStates.ResolveRefStates` | scripts/reconcile-stable-orphans.ts:743-805 | Each cited reference gets the state its own repository answered for its own number, and nothing else is keyed |
| `RefStates.NoFalseExpiry` | scripts/reconcile-stable-orphans.ts:743-805 | From the queries to the verdict: an expired spec's every reference was answered closed or merged by the repository it names |
| `RefStates.StateIff` | scripts/reconcile-stable-orphans.ts:743-805 | A reference is in a state if and only if its own repository, asked once for all its distinct numbers, said so of its own number: open, merged, closed, unknown, unrecognised, or the first line of a failed call |
| `RefStates.LookupFailedIff` | scripts/reconcile-stable-orphans.ts:743-805 | The run counts a lookup as failed if and only if some cited reference's repository could not be asked |
| `RefStates.ExpiredIffSaidGone` | scripts/reconcile-stable-orphans.ts:743-805 | From the queries to the verdict, both ways: a candidate spec is expired if and only if its justification was read, the issue lookup answered, nothing declares it, it cites something, and of everything it cites the repository named said closed or merged |
| `Trackers.BuildTrackerIndex` | scripts/reconcile-stable-orphans.ts:479-519 | The index holds, for each removal, the issues that name its file, with title matches marked |
| `Trackers.BuildSpecTrackerIndex` | scripts/reconcile-stable-orphans.ts:648-673 | The same per spec |
| `Trackers.NamesFileIff` | scripts/reconcile-stable-orphans.ts:486-505 | A path with a directory is named if and only if its base name stands where a file name begins; a path without one is a bare substring |
| `Trackers.LongerNameOwnsNothing` | scripts/reconcile-stable-orphans.ts:489-499 | An issue about a longer file name does not own the shorter one |
| `Trackers.OwnedIff` | scripts/reconcile-stable-orphans.ts:479-519 | A removal is owned if and only if an open issue that is no pull request and not the check's own report names its file |
| `Trackers.TrackersSay` | scripts/reconcile-stable-orphans.ts:479-519 | The trackers of a removal are exactly the open issues that name its file, each with its number and repository, marked as a title match if and only if it quotes the title |
| `Trackers.SpecTrackersSay` | scripts/reconcile-stable-orphans.ts:648-673 | The same for a spec |
| `WeeklyLoop.RunReconciliation` | scripts/reconcile-stable-orphans.ts:992-1070 | The weekly script, its sweep answered or failed: both checks from one list of issues equal a function of the tree, the reference states and the issues that are no report |
| `WeeklyLoop.RunOwnership` | scripts/check-stable-ownership.ts:250-266 | The daily ownership script, its sweep answered or failed, likewise |
| `WeeklyLoop.ReportsAreTheLastAnswers` | scripts/orphan-report.mjs:63-78 | No memory: over any history of weekly and daily runs, on any trees and issues, any of them failing, each report is what the last published run of its script made of its own tree and of everyone else's issues |
| `WeeklyLoop.NoOscillation` | scripts/reconcile-stable-orphans.ts:521-538 | With the tree, the references and everyone else's issues fixed and any runs failing, a report stands untouched until a run of its script is answered; from then on it is open if and only if the one verdict has findings, with that verdict's text under the label of the last answered run |
| `WeeklyLoop.FailedRunIsQuietIff` | scripts/reconcile-stable-orphans.ts:1006-1010 | A weekly run whose sweep failed leaves every report alone if and only if the message's first line is not empty or a reference lookup failed too |
| `WeeklyLoop.GateClauseNeverDecidesClose` | scripts/orphan-report.mjs:63-78 | The guard on failed references never decides whether a report is closed, as the comment beside the step that closes the report claims |
| `WeeklyLoop.ActionIff` | scripts/orphan-report.mjs:63-78 | Which action is taken: none when a lookup failed, else create, refresh or close by the findings and by what is open |
| `LoopVerdicts.OrphanFindingsIff` | scripts/lib/stable-orphans.ts:364-380 | The reconciliation has findings if and only if some candidate is unowned, undecided or unreadable, or some declaration has a fault |
| `LoopVerdicts.GateFindingsIff` | scripts/lib/gate-justifications.ts:586-593 | The gate check has findings if and only if some spec's reason expired or cannot be judged, or some declaration has a fault |
| `LoopVerdicts.WeeklyReportIff` | scripts/reconcile-stable-orphans.ts:992-1070 | From what a weekly run reads to its report: once it publishes, the report stands open if and only if either check has a finding, stated over tree, histories, declarations, justifications, reference states and issues |
| `LoopVerdicts.WeeklyOwnedIff` | scripts/reconcile-stable-orphans.ts:992-1018 | A weekly run, from the issues it fetched: a dated, undeclared removal is owned if and only if one that is no pull request and no report names its file, and orphaned if and only if none does, as long as no path holds a NUL |
| `LoopVerdicts.WeeklyOutage` | scripts/reconcile-stable-orphans.ts:1004-1070 | A weekly run whose sweep failed with something to say decides no ownership and no reason: such a removal is unknown, and no spec is expired, live or declared |
| `LoopVerdicts.OutageIsNamed` | scripts/reconcile-stable-orphans.ts:1004-1070 | Every row that a failed sweep left undecided carries the first line of what it said |
| `LoopVerdicts.WeeklyTrackersSay` | scripts/reconcile-stable-orphans.ts:1052-1070 | The issues beside a gate row are exactly those of the sweep that name its spec |
| `LoopVerdicts.DailyUnownedIff` | scripts/check-stable-ownership.ts:248-268 | A daily run, from the issues it fetched: an undeclared spec is unowned if and only if none of them that is no pull request and no report names it |
| `WeeklyLoop.NaiveOscillates` | scripts/check-stable-ownership.ts:250-266 | Without the exclusion the ownership report owns its own finding and alternates for ever |
| `Ownership.OwnershipReport` | scripts/lib/stable-ownership.ts:92-166 | Rows, failures, warnings, notices and counts for the sorted distinct specs |
| `Ownership.EverySpecOnce` | scripts/lib/stable-ownership.ts:92-166 | Each spec has one row, each row one count and one list |
| `Ownership.FailsIff` | scripts/lib/stable-ownership.ts:100-151 | A run fails if and only if an undeclared spec could not be asked about, or the diff touched one outside the baseline that nobody owns |
| `Ownership.DailyNeverFails` | scripts/lib/stable-ownership.ts:75-79 | Without a diff an answered lookup never fails the run |
| `Ownership.OutageIsNoPass` | scripts/lib/stable-ownership.ts:109-120 | A failed lookup keeps the declared rows and leaves every other one undecided and failing |
| `Ownership.FindingsIff` | scripts/lib/stable-ownership.ts:168-171 | There is a finding if and only if some undeclared spec has no owner or could not be asked about |
| `Ownership.RowsIff` | scripts/lib/stable-ownership.ts:92-151 | The rows are exactly those that say, of a spec without `@stable`, what the declarations, the lookup, the issues, the baseline and the diff make of it; in text order |
| `Ownership.ListsIff` | scripts/lib/stable-ownership.ts:109-151 | A row fails the run if it could not be decided or the diff touched it, warns if it stands outside the baseline untouched, and is a notice if it stands in it |
| `Ownership.CountsSay` | scripts/lib/stable-ownership.ts:153-164 | Each number counts the rows of its own verdict |
| `MatrixMeasure.ParseChecklistSections` | scripts/lib/coverage-matrix-measure.ts:22-41 | Every section's tally counts exactly the bullets standing in it, by state |
| `MatrixMeasure.BulletsForArea` | scripts/lib/coverage-matrix-measure.ts:90-104 | An area's bullets, states and mitigation are those of all bullets of the sections it claims |
| `MatrixMeasure.BulletsAreStates` | scripts/lib/coverage-matrix-measure.ts:34-38 | A tally keeps its bullets equal to the sum of its five states |
| `MatrixMeasure.AreaMitigationBounds` | scripts/lib/coverage-matrix-measure.ts:90-104 | Bullet mitigation lies in 0..0.80, and reaches 0.80 exactly when the shortfall rounds away |
| `MatrixLaws.HeadingIff` | scripts/lib/coverage-matrix-measure.ts:32-33 | A line opens a section if and only if it is three or four hashes, whitespace, numbers with single dots between them, and whitespace again |
| `MatrixLaws.BulletIff` | scripts/lib/coverage-matrix-measure.ts:34-34 | A line is a bullet if and only if, behind whitespace, it is a dash or a star, one whitespace and one of five markers in brackets |
| `MatrixLaws.TallyCountsLines` | scripts/lib/coverage-matrix-measure.ts:22-41 | From the document: a section's count of a marker is how many lines of Part II are bullets with it whose nearest heading above, within the part, is that section's |
| `MatrixLaws.AreaWeighsLines` | scripts/lib/coverage-matrix-measure.ts:90-104 | From the document: an area's states count the lines in the sections it claims, and its mitigation is their mean weight in hundredths, rounded |
| `MatrixMeasure.MeasuredAreaRefreshes` | scripts/lib/coverage-matrix-measure.ts:90-104 | From checklist to matrix: measured bullets keep mitigation and residual risk within their bounds |
| `TestHealth.MeasureTestHealth` | scripts/lib/coverage-matrix-measure.ts:135-157 | Chronic counts per area: the tests red on enough distinct days since the start date |
| `TestHealth.OneDayIsNotChronic` | scripts/lib/coverage-matrix-measure.ts:130-134 | However often a test is red on one day, one day is not chronic |
| `TestHealth.MoreHistoryMoreChronic` | scripts/lib/coverage-matrix-measure.ts:135-157 | A longer history never lowers a chronic count |
| `TestHealth.MoreHistoryMoreRisk` | scripts/lib/coverage-matrix-measure.ts:135-163 | And so never lowers an area's residual risk |
| `TestHealth.ChronicIff` | scripts/lib/coverage-matrix-measure.ts:135-157 | A test is chronic in its area if and only if it was red, in its kind, on enough distinct days from the start date on |
| `TestHealth.HealthSays` | scripts/lib/coverage-matrix-measure.ts:135-157 | An area's two numbers count exactly its tests that are chronic by failing and those chronic by being flaky |
| `MatrixRefresh.RefreshAreas` | scripts/lib/coverage-matrix-refresh.ts:55-112 | The refresh: derived fields, changes and warnings per area, the check of the judged fields, which never fires, and the sort |
| `MatrixRefresh.RefreshPermutes` | scripts/lib/coverage-matrix-refresh.ts:99-111 | The output is the areas with their judged fields, by descending residual risk |
| `MatrixRefresh.RefreshIsIdempotent` | scripts/lib/coverage-matrix-refresh.ts:55-112 | Refreshing the output again reports no change and keeps the order |
| `MatrixRefresh.RefreshBounds` | scripts/lib/coverage-matrix-refresh.ts:84-91 | Without an override mitigation stays between half the gross value and all of it, and residual risk between nothing and the inherent risk |
| `MatrixRefresh.MoreChronicMoreRisk` | scripts/lib/coverage-matrix-refresh.ts:52-91 | More chronic failures never lower residual risk or raise mitigation |
| `MatrixRefresh.PenaltyBounds` | scripts/lib/coverage-matrix-refresh.ts:52-53 | The penalty takes at most half of the mitigation |
| `MatrixRefresh.NoChangeNoMove` | scripts/lib/coverage-matrix-refresh.ts:93-96 | An area reports no change if and only if the refresh leaves it as it is |
| `MatrixRefresh.PenaltyMeaning` | scripts/lib/coverage-matrix-refresh.ts:52-53 | The penalty is nothing without a chronic failure or a stable spec, else the nearest thousandth to half the mitigation times the share of chronic specs, and exactly half once all are |
| `MatrixRefresh.RefreshedSays` | scripts/lib/coverage-matrix-refresh.ts:63-91 | A measured area after a refresh, field by field: bullets and health as measured, mitigation nearest to the gross one less the penalty, residual risk nearest to what that leaves of the inherent one, judged fields as they were |
| `MatrixRefresh.WarnedIff` | scripts/lib/coverage-matrix-refresh.ts:63-83 | An override is reported as stale if and only if the measured mitigation has overtaken it, and an area if and only if it has no sections |
| `MatrixRefresh.ChangedIff` | scripts/lib/coverage-matrix-refresh.ts:93-96 | A change row stands for one derived field of one area that moved, with the values before and after, and every such field has one |

## Left out

- Processes, the network, file reads and writes, arguments, environment and exit codes: their results are parameters.
- The TypeScript parser: a spec is a tree of suites, tests and other nodes with optional literal titles and a tag option; a tag array is a list of element texts separated by commas, with whitespace but no comments between them, and a tag is a plain literal without escapes.
- The infrastructure-error patterns, spec-path normalisation, lane resolution, directory-to-area patterns and the checklist sections an area claims: functions passed in as parameters.
- Hard failures are a given list; walking the JSON report to collect them, and telling an unexpected pass, are not part of this model.
- Rendered reports, annotations and error prose: reasons are datatypes.
- Floating point: weights, penalties, shares and risk are exact fractions rounded half away from zero, so ties that binary fractions break differently are not modelled; inherent risk has one decimal.
- Locale collation: sorting of listed files takes an order as a parameter; other sorts use code-unit order over `char`, which orders characters outside the basic plane by code point.
- Key order of JSON objects: the refresh compares tables of states as maps, so a change of order alone, which the script would report, is not one here.
- Names inherited by JavaScript objects (`constructor` and the like) as map keys.
- Reading the documentation sections and checklist bullets that justify a gate, and parsing the exemption and declaration files: validation and text extraction.
- KeepAlive.FindKeepAliveEdgeIntervals: the positions at which the pattern over identifiers finds polling arrays are a parameter, and the `text` column of a violation is dropped.
- The measured-health history is keyed by file and test joined with `::`, as the script does; two tests whose joined names coincide are one test in both.
- Baseline writers, numeric arguments, the feed builder, regression summaries and API coverage: shallow validation or counting.
- FailureClassification.AttemptKey: retry numbers are natural numbers, because the reader's conversion of other values is not modelled.
- BatchFrames.ReadBlobs: the size field is read as decimal digits only; other spellings JavaScript would convert end the read, and the protocol never sends them.
- ChecklistOrders.GeneratorsCommute: stated for documents cut into the blocks the generators own, which is the layout both of them look for.
- StableOrphans.LostRemovalIsAlwaysListed: speaks of the first declaration with a title, the only one the walk reads; `StableOrphans.SecondDeclarationIsLost` shows what happens to a later one.
- TagRemoval.RunLosesExactlyTheTags: every tag array of the file is one the model prints; a spec with comments inside an array is not covered.
- Publishing a report: the calls that open, refresh, label or close an issue succeed, at most one open issue carries a report's title, and no report text is blank.
