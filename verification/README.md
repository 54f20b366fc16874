# Shipyard landing gate and evidence stores: a Dafny model

Shipyard decides when a pull request may enter a GitHub merge queue, and keeps the evidence those
decisions rest on. This project models that logic and proves what it keeps. Commits, trees, check
runs and clocks are abstract data. Every answer from GitHub, git or the file system is an input.

`dafny verify dfyconfig.toml` checks the whole project.

## What is modelled

- **The queue-arm guard** (`QueueTimeline`, `QueueGuard`, `QueueRuns`, `QueueTruncation`). One pass
  over a pull request's timeline classifies it and counts its requeues and ejections. The guard then
  admits or refuses a re-enqueue. The classifier is proved equal to a declarative meaning, the
  guard's answer is characterised exactly, and a transition system with guarded adds is shown to
  bound how often a failing head is put back.
- **Approval carry and rollup** (`CommitGraph`, `MergeCarry`, `CarryForks`, `CrissCross`,
  `RollupTrees`, `Rollup`). Commits form an acyclic graph whose trees map a path to a blob and a mode. A comparison
  lists what changed since a best common ancestor, without modes. From truthful answers, acceptance
  is shown to mean that what lands is the approved change applied to the new base.
- **Carry exclusions** (`Glob`, `CarryPolicy`, `CarryTables`). The glob matcher is proved equal to a
  declarative language. The allow list is shown not to reach protected paths.
- **The pass history** (`PassLog`, `PassSummary`, `PassMeaning`, `PassCoverage`, `PassHistory`). A log trimmed after
  every append stands in for an unbounded one, and gap arithmetic decides coverage. Times are
  integer seconds.
- **Review verdicts and job logs** (`ReviewVerdicts`, `JobLog`).
- **Shared files** (`Handoff`, `QueueNonce`, `FleetJournal`, `ReleaseManifest`). Handoff and nonce
  are transition systems over interleaved steps. Journal and manifest are updated in place.

## What turned out not to hold

The model keeps the code as it is. For each of these a lemma gives a failing input, and another says
for all inputs exactly when the code does meet the property.

- A timeline that is not known to be complete, and shows no removal, can admit what the whole
  timeline refuses: when it is cut off but shows a push, and when its completeness could not be read,
  whatever it shows (`QueueTruncation.HiddenEjectionRefuses`,
  `QueueTruncation.UnreadableWindowIsAdmitted`, `QueueTruncation.TruncationSafeExactly`).
- When histories cross, two commits can have several best common ancestors. The merge carry can then
  accept although the base changed an approved file between the two merge bases it was given
  (`CrissCross.CarryMissesBaseChange`). That happens in exactly the histories whose two merge bases
  fork before the old one (`CarryForks.BaseKeptExactly`), which the comparison the guard makes of
  them shows. The head is still the approved change applied to the new merge base
  (`MergeCarry.CarryKeepsApprovedChange`).
- A replacement exclusion list can let a protected path carry (`CarryTables.ReplacementCanLoseProtection`,
  `CarryPolicy.ProtectedUnderReplacement`).
- Trimming can lose a failing interval (`PassCoverage.TrimmingCanLoseAFailure`,
  `PassCoverage.TrimmedFailingExactly`).
- An empty pass history reports the whole window missing twice, so the missing intervals are not
  disjoint then, and only then (`PassCoverage.MissingIsProperExactly`).
- The order of the verdicts can decide which earlier approval carries, when the newest verdicts on
  other heads tie (`ReviewVerdicts.TieIsSeen`, `ReviewVerdicts.GateIgnoresOrderExactly`).
- A guard unlinks a nonce by its path, so two guards can honour one good record if another is written
  in between (`QueueNonce.OneGoodRecordHonouredTwice`, `QueueNonce.TakenIsCheckedExactly`).

Two branches of the pass summary never add an interval: the gap at the window's start, and the one
marked defensive at the window's end. Clipping leaves nothing of either
(`PassCoverage.StartGapIsWholeWindow`).

## Model

| member | source | states |
|---|---|---|
| `QueueTimeline.Classify` | scripts/ghapp_queue_arm_guard.py:559-689 | the single pass gives the declarative classification: class, requeue count, ejections charged to the current head and last ejection, for every timeline |
| `QueueTimeline.ScanTimeline` | scripts/ghapp_queue_arm_guard.py:596-635 | the loop's counter is the number of adds whose latest queue event is a hazard removal of the same head, by SHA when known and otherwise by no push between; its positions are the last removal and the last push |
| `QueueTimeline.EjectionsOfHead` | scripts/ghapp_queue_arm_guard.py:521-556 | the loop counts exactly the hazard removals charged to the current head, and 0 when the head is unknown |
| `QueueTimeline.ChargedExactly` | scripts/ghapp_queue_arm_guard.py:521-556 | a removal is charged to a head if and only if it is a hazard that names that head, or names none and the head was pushed before it or never seen pushed |
| `QueueTimeline.AgainExactly` | scripts/ghapp_queue_arm_guard.py:440-463 | the pending-hazard test at an add holds if and only if some removal is re-enqueued by that add in the declarative sense |
| `QueueTimeline.RequeuedExactly` | scripts/ghapp_queue_arm_guard.py:596-635 | an add counts as a requeue if and only if it is the first queue event after a hazard removal and the heads around it are known and equal, or not both known with nothing pushed in between |
| `QueueTimeline.SameHeadExactly` | scripts/ghapp_queue_arm_guard.py:440-463 | the SHA comparison answers exactly when the removed head and the head then queued, by the next removal or the current head, are both known, and answers whether they are equal |
| `QueueTimeline.RemovedHeadExactly` | scripts/ghapp_queue_arm_guard.py:415-437 | a removal is read as naming a head if and only if that head is known and is the group commit, or its second of two parents when the group commit is not a known head |
| `QueueTimeline.RequeuesWithinHazards` | scripts/ghapp_queue_arm_guard.py:596-635 | at every point of every timeline the requeues, plus one if a hazard is still pending, never exceed the hazard removals |
| `QueueTimeline.EjectedHazardIsCharged` | scripts/ghapp_queue_arm_guard.py:521-556 | a pull request classified as ejected by a hazard, with a known head and no new head, has at least one ejection charged to that head |
| `QueueTimeline.LastEjectionExactly` | scripts/ghapp_queue_arm_guard.py:623-635 | the last ejection is the last removal unless that was a merge, and it reports a new head if and only if the removal names another head, or names none and the head was pushed later in the timeline or has a suite created strictly after it |
| `QueueTruncation.RemovedHeadWidens` | scripts/ghapp_queue_arm_guard.py:415-437 | knowing more heads never un-names a removed head, and never turns a removal of another or unknown head into one of the current head |
| `QueueTruncation.NewHeadSurvives` | scripts/ghapp_queue_arm_guard.py:466-497 | a new head seen in a window that holds a removal is also seen in every timeline the window is a suffix of |
| `QueueTruncation.EjectionSurvives` | scripts/ghapp_queue_arm_guard.py:586-635 | a window with a removal agrees with the whole timeline on whether the last removal was an ejection, and on its reason |
| `QueueTruncation.TruncationNeverLoosens` | scripts/ghapp_queue_arm_guard.py:692-779 | what the guard admits on a window not marked complete that holds a removal it admits on every whole timeline ending in that window |
| `QueueTruncation.HiddenEjectionRefuses` | scripts/ghapp_queue_arm_guard.py:586-635 | for any idle window without a removal there is a hidden ejection that makes the guard refuse the whole timeline |
| `QueueTruncation.TruncationSafeExactly` | scripts/ghapp_queue_arm_guard.py:692-779 | on any window not marked complete, truncation loosens nothing whatever was hidden if and only if the window holds a removal, is not idle, or is known to be cut off and shows no push |
| `QueueTruncation.UnreadableWindowIsAdmitted` | scripts/ghapp_queue_arm_guard.py:559-689 | an empty window whose completeness could not be read is admitted, although some hidden part makes the guard refuse |
| `QueueGuard.ReadEvidence` | scripts/ghapp_queue_arm_guard.py:4051-4217 | the loop over failing checks collects all readings, or gives up as soon as one check cannot be read |
| `QueueGuard.EvidenceMeaning` | scripts/ghapp_queue_arm_guard.py:4051-4217 | the collected evidence explains the ejection if and only if every failing check is explained on its own, and shows an interruption if and only if some check does |
| `QueueGuard.AssessAdmits` | scripts/ghapp_queue_arm_guard.py:4051-4217 | the environment rule admits a same-head `failed_checks` ejection exactly when opted in, complete, ejected once or twice, with a known batch and every check explained, and the second time only with an interruption |
| `QueueGuard.JudgeExactly` | scripts/ghapp_queue_arm_guard.py:4626-4641 | over every timeline the queue rules admit a request if and only if the pull request is idle and either nothing was removed and the window is not known to be cut off and blank, or the last removal was a merge, of another head, an invalid merge commit, or failed checks that are certified or cleared by evidence |
| `QueueRuns.GuardedReAddAdmissible` | scripts/ghapp_queue_arm_guard.py:692-779 | an add the guard admits directly after a removal naming the same head has the authority and the number of earlier ejections that admission needs |
| `QueueRuns.StepKeepsInvariant` | scripts/ghapp_queue_arm_guard.py:692-779 | every wait, push, ejection and guarded add keeps the invariant that all adds in the log were admissible and justified, and that pushes and removals are in order |
| `QueueRuns.RunsReAddOnlyWithAuthority` | scripts/ghapp_queue_arm_guard.py:4051-4217 | in every state of every run each direct re-add was admissible when it happened |
| `QueueRuns.GuardedAddJustified` | scripts/ghapp_queue_arm_guard.py:4626-4641 | an add the guard admits on an accurate view is the first queue event, or follows a removal that was a merge, was GitHub's own failure, named another head, came before the head was pushed, or was cleared by evidence |
| `QueueRuns.RunsAddOnlyJustified` | scripts/ghapp_queue_arm_guard.py:466-497 | in every run each add admitted on an accurate view is so justified; one let in as a new head after a removal that named no other is of a head pushed after that removal, or first pushed in its very second |
| `QueueRuns.NewHeadIsAdmitted` | scripts/ghapp_queue_arm_guard.py:466-497 | a head first pushed in a later second than the last removal, which does not name it, is admitted once the view shows its check suite |
| `QueueRuns.ReAddsSpendHazards` | scripts/ghapp_queue_arm_guard.py:521-556 | in every log the direct re-adds of a head after failed checks never exceed the hazard removals naming it, and are strictly fewer right after such a removal |
| `QueueRuns.SameHeadReAddsAreBounded` | scripts/ghapp_queue_arm_guard.py:4051-4217 | in every run a head is put back directly after a `failed_checks` removal naming it at most twice, and on network evidence at most once |
| `QueueRuns.NetworkReAddIsFirst` | scripts/ghapp_queue_arm_guard.py:4051-4217 | in any log whose direct re-adds were admissible, at most one rested on network evidence |
| `QueueRuns.StarvedIsAdmitted` | scripts/ghapp_queue_arm_guard.py:4051-4217 | a head whose last event is its own ejection from a starved batch is admitted while it has been ejected once or twice |
| `QueueRuns.BoundIsReached` | scripts/ghapp_queue_arm_guard.py:3872 | some run puts one head back exactly as often as the limit allows, so the bound is tight |
| `Glob.SegmentLanguage` | scripts/ghapp_queue_arm_guard.py:1814-1819 | a segment matches a pattern if and only if it is a concatenation of one piece per pattern character: any piece for a star, one character for a question mark, the character itself otherwise |
| `Glob.PathLanguage` | scripts/ghapp_queue_arm_guard.py:1800-1811 | a path matches if and only if its segments divide into one group per pattern segment: any group for a double star, one matching segment otherwise |
| `Glob.SplitThenJoin` | scripts/ghapp_queue_arm_guard.py:1800-1811 | splitting at slashes and joining gives the text back, and no part holds a slash |
| `Glob.SplitJoin` | scripts/ghapp_queue_arm_guard.py:1876-1907 | joining slash-free parts and splitting gives the parts back |
| `Glob.LiteralPath` | scripts/ghapp_queue_arm_guard.py:1800-1819 | a pattern without wildcards matches exactly itself |
| `Glob.TreeBelow` | scripts/ghapp_queue_arm_guard.py:1800-1811 | a pattern followed by a double star matches everything at or below what the pattern matches |
| `Glob.PlainTree` | scripts/ghapp_queue_arm_guard.py:1800-1811 | whatever a plain pattern followed by a double star matches has an ancestor that the plain pattern matches |
| `CarryPolicy.CarryPaths` | scripts/ghapp_queue_arm_guard.py:1841-1873 | the configuration is refused exactly when a glob is written as an allow or an allow is not acceptable, is absent exactly when none of the three lists is set, and otherwise is the replacement or the defaults, then the extras, then the allows |
| `CarryPolicy.RefusesExactly` | scripts/ghapp_queue_arm_guard.py:1822-1838 | a change to a path is refused if and only if a listed glob matches it and a protected glob does or no allow does |
| `CarryPolicy.ProtectedIsExcludedByDefault` | scripts/ghapp_queue_arm_guard.py:222-264 | in well-shaped tables every protected path is excluded by default |
| `CarryPolicy.ProtectedNeverCarries` | scripts/ghapp_queue_arm_guard.py:1822-1838 | without a replacement list no extra and no allow entries let a change to a protected path carry |
| `CarryPolicy.ProtectedUnderReplacement` | scripts/ghapp_queue_arm_guard.py:1822-1838 | under any replacement, extra and allow lists, every change set with a protected path is refused if and only if the replacement and extra globs match all protected paths |
| `CarryPolicy.AllowStaysInsideDefaults` | scripts/ghapp_queue_arm_guard.py:1876-1907 | every path an accepted allow matches is inside a default exclusion |
| `CarryPolicy.AllowedFileExactly` | scripts/ghapp_queue_arm_guard.py:1876-1907 | a file may be allowed if and only if it is a plain repository path, a default matches it and no protected glob matches it or a directory it is in |
| `CarryPolicy.AllowedNeverClimbs` | scripts/ghapp_queue_arm_guard.py:1876-1907 | no segment of an accepted allow is empty or a dot or two dots |
| `CarryPolicy.AllowedTreeIsAccepted` | scripts/ghapp_queue_arm_guard.py:1876-1907 | a directory in or below a default tree is accepted when all protected globs go by name |
| `CarryPolicy.OverlapIsSeen` | scripts/ghapp_queue_arm_guard.py:1876-1907 | a glob with a double star at most at its end that matches anything below an allowed directory is caught by the overlap test |
| `CarryPolicy.AllowedTreeAvoidsProtected` | scripts/ghapp_queue_arm_guard.py:1876-1907 | no path under an accepted directory allow matches a protected glob that does not start with a double star |
| `CarryTables.ShippedTablesAreWellShaped` | scripts/ghapp_queue_arm_guard.py:222-264 | the shipped default and protected tables have the shape the policy theorems need |
| `CarryTables.ShippedProtectedNeverCarries` | scripts/ghapp_queue_arm_guard.py:222-264 | with the shipped tables and no replacement list, a change to a protected path never carries |
| `CarryTables.ShippedCarryKeepsProtected` | scripts/ghapp_queue_arm_guard.py:1984-1988 | with the shipped tables, no replacement list and any extra and allow lists, no accepted merge carry changes a path that matches a protected glob |
| `CarryTables.ReplacementCanLoseProtection` | scripts/ghapp_queue_arm_guard.py:1841-1873 | with the shipped tables an accepted replacement list lets a protected file carry |
| `CarryTables.ShippedAllowIsContained` | scripts/ghapp_queue_arm_guard.py:222-264 | with the shipped tables an accepted allow stays inside the defaults, and a directory allow meets no anchored protected glob |
| `CommitGraph.MergeBaseOfAncestor` | scripts/ghapp_queue_arm_guard.py:1933-2034 | the only best common ancestor of a commit and its descendant is the commit itself |
| `CommitGraph.SameListingSameResult` | scripts/ghapp_queue_arm_guard.py:2121-2134 | two truthful listings of the same change, with equal modes, change the same paths, to the same contents |
| `MergeCarry.MergeOnlyCarry` | scripts/ghapp_queue_arm_guard.py:1933-2034 | the walk accepts with a result satisfying the whole carry condition, and refuses only when no result satisfies it |
| `MergeCarry.ChainAddsOnlyMerges` | scripts/ghapp_queue_arm_guard.py:1933-2034 | the commits the chain walk steps over are the only ones the head adds to the approved commit and the base |
| `MergeCarry.CarriedHistory` | scripts/ghapp_queue_arm_guard.py:1933-2034 | an accepted head adds to the approved commit and the base exactly as many merges of the base as recorded, at most three, and every commit it adds was listed by the comparison |
| `MergeCarry.OldBasePrecedesNew` | scripts/ghapp_queue_arm_guard.py:1933-2034 | on acceptance, in any history, the comparison of the two merge bases answers the old one exactly when it is an ancestor of the new one, and it is whenever base and head have one best common ancestor |
| `MergeCarry.BaseKeptSinceFork` | scripts/ghapp_queue_arm_guard.py:2977-2992 | a base move that touches none of the paths leaves each as it was where old and new base fork |
| `MergeCarry.BaseKeptPath` | scripts/ghapp_queue_arm_guard.py:2977-2992 | when the old base precedes the new one, such a move leaves each path as it was at the old base |
| `MergeCarry.CarryKeepsApprovedChange` | scripts/ghapp_queue_arm_guard.py:1933-2034 | on acceptance the difference from new merge base to head equals that from old merge base to approved, path for path with modes, and the head is that change applied to the new merge base |
| `MergeCarry.CarryAvoidsExclusions` | scripts/ghapp_queue_arm_guard.py:1984-1988 | on acceptance no path of the approved change, or of the change at the head, is refused by the exclusion list |
| `MergeCarry.CarryKeepsProtected` | scripts/ghapp_queue_arm_guard.py:1984-1988 | in well-shaped tables, without a replacement list, no accepted carry changes a protected path |
| `MergeCarry.CarryChangesNoBinary` | scripts/ghapp_queue_arm_guard.py:1989-1991 | on acceptance no file the approved change leaves is binary |
| `MergeCarry.CarryBaseUnchanged` | scripts/ghapp_queue_arm_guard.py:1933-2034 | on acceptance, in any history, when that comparison answers the old merge base the base changed none of the approved paths between the two |
| `CarryForks.ForkHidesBaseChange` | scripts/ghapp_queue_arm_guard.py:1933-2034 | in every history that can carry and whose merge bases fork before the old one, there are trees and truthful answers under which the carry accepts although an approved file differs between the merge bases |
| `CarryForks.BaseKeptExactly` | scripts/ghapp_queue_arm_guard.py:1933-2034 | over all trees, answers and exclusions of a history, an accepted carry has its approved paths unchanged by the base if and only if the merge bases fork at the old one or the history cannot carry at all |
| `CrissCross.CarryMissesBaseChange` | scripts/ghapp_queue_arm_guard.py:1933-2034 | a six-commit criss-cross history in which the carry accepts, on truthful answers, although an approved file differs between the merge bases, whichever file the exclusions let carry |
| `Rollup.WalkLinks` | scripts/ghapp_queue_arm_guard.py:2201-2217 | the first-parent walk gives the chain of two-parent merges back to the base, or nothing when it is longer than the member limit or holds another kind of commit |
| `Rollup.JoinMembers` | scripts/ghapp_queue_arm_guard.py:2218-2267 | the loop succeeds exactly when every link passes, and then its two tables are the owners and the union of all members' files |
| `Rollup.RollupAcceptance` | scripts/ghapp_queue_arm_guard.py:2168-2297 | accepts only with links satisfying the whole acceptance condition, and refuses only when no links satisfy it |
| `Rollup.LinksAreMerges` | scripts/ghapp_queue_arm_guard.py:2201-2217 | each link is a two-parent merge of its member onto the previous link, and the last one is the head |
| `Rollup.MembersAreDisjoint` | scripts/ghapp_queue_arm_guard.py:2244-2250 | the members of an accepted rollup touch pairwise disjoint sets of paths |
| `Rollup.RollupStepIsItsMember` | scripts/ghapp_queue_arm_guard.py:2258-2262 | each merge of an accepted rollup changes only paths its own member touches, and gives every path that member changes the blob the member has there, or its absence |
| `Rollup.RollupHeadIsItsMembers` | scripts/ghapp_queue_arm_guard.py:2168-2297 | at an accepted head each path has the blob and mode of the one member that touches it, or the base commit's entry when none does |
| `Rollup.RollupLandsApprovedChanges` | scripts/ghapp_queue_arm_guard.py:2168-2297 | a three-way merge of an accepted head onto any current tip gives, path by path, the tip overlaid with exactly the members' approved changes or a conflict, and no conflict when the comparison shows the base only moved forward |
| `Rollup.RollupChangesAreReviewed` | scripts/ghapp_queue_arm_guard.py:2241-2243 | whatever path an accepted rollup changes is touched by a member that is open and whose review counts at the head that was merged |
| `Rollup.RollupMembersAreDistinct` | scripts/ghapp_queue_arm_guard.py:2239-2240 | an accepted rollup merges at least one and at most the allowed number of members, no two of them the same pull request |
| `Rollup.OneMemberExactly` | scripts/ghapp_queue_arm_guard.py:2168-2297 | a rollup of one member that adds a file is accepted if and only if the member is open and reviewed and neither exclusion list refuses the file |
| `Rollup.RollupAvoidsExclusions` | scripts/ghapp_queue_arm_guard.py:2272-2276 | no path touched by an accepted member is refused by the train's or the carry's exclusion list |
| `Rollup.RollupHotFilesHaveOneOwner` | scripts/ghapp_queue_arm_guard.py:2277-2281 | all paths matching one hot-file pattern are touched by a single member |
| `Rollup.HotOkExactly` | scripts/ghapp_queue_arm_guard.py:2277-2281 | the hot-file rule holds if and only if each pattern has at most one member among those that touch a path it matches |
| `RollupTrees.AssembledLands` | scripts/ghapp_queue_arm_guard.py:2168-2297 | whenever a head is assembled from disjoint members, its three-way merge onto any tip is the tip with their changes, and conflicts exactly where the tip changed a member's path to something else |
| `RollupTrees.ChangesMakeTheHead` | scripts/ghapp_queue_arm_guard.py:2168-2297 | the members' changes together are exactly what turns the base commit into the assembled head |
| `RollupTrees.ChangesAt` | scripts/ghapp_queue_arm_guard.py:2121-2134 | the combined change at a path is the change of the one member that touches it |
| `PassLog.Trim` | scripts/baseline_pass_history.py:359-373 | trimming keeps the suffix that starts at the anchor before the cutoff, or at the cap when that is later |
| `PassLog.TrimBounds` | scripts/baseline_pass_history.py:359-373 | what is kept is nonempty, ordered, within the cap, ends with the newest observation and holds at most one older than the cutoff |
| `PassLog.TrimKeepsExactly` | scripts/baseline_pass_history.py:359-373 | an observation is kept if and only if it is among the last of the cap and it, or the next one, is not older than the newest by more than the retention |
| `PassLog.TrimIgnoresDropped` | scripts/baseline_pass_history.py:359-373 | having already dropped any part of what a trim drops does not change its result |
| `PassLog.AppendToTrimmed` | scripts/baseline_pass_history.py:375-405 | appending to a trimmed log and trimming gives the trim of the untrimmed log with that observation |
| `PassLog.OnlineEqualsBatch` | scripts/baseline_pass_history.py:375-405 | trimming after every append leaves exactly what one trim of the whole sequence leaves |
| `PassLog.TrimIdempotent` | scripts/baseline_pass_history.py:359-373 | a second trim changes nothing |
| `PassLog.DefaultCapNeverBites` | scripts/baseline_pass_history.py:293-305 | with observations at least the interval minus the slack apart, the default cap drops neither the anchor nor anything in the retention window |
| `PassSummary.Summarize` | scripts/baseline_pass_history.py:530-672 | the loops give the declarative summary of the window, and an error exactly for an empty or reversed window |
| `PassSummary.FindMissing` | scripts/baseline_pass_history.py:551-608 | the missing intervals found are the start gap, the cadence gaps and the end gap, clipped to the window |
| `PassSummary.FindFailing` | scripts/baseline_pass_history.py:610-624 | the failing intervals are those of failed passes that reach into the window, and a failure exactly at its end is none |
| `PassSummary.FindTrailingRun` | scripts/baseline_pass_history.py:629-646 | the loop gives the length of the run that ends with the last observation of the window |
| `PassMeaning.SeenIsTheWindow` | scripts/baseline_pass_history.py:542-546 | the observations seen are the stretch of the log that lies in the window |
| `PassMeaning.CountsExactly` | scripts/baseline_pass_history.py:653-672 | the count is of that stretch, a pass is seen if and only if one in it did not fail, and the tail is unobserved if and only if nothing is later than the window |
| `PassMeaning.TrailingRunMeaning` | scripts/baseline_pass_history.py:629-646 | the run reported is the time spanned by the longest unbroken stretch up to the last observation in the window, and 0 when there is none or it failed |
| `PassMeaning.FiveDaysExactly` | scripts/baseline_pass_history.py:667 | five days are reported if and only if some unbroken stretch up to the last observation in the window spans five days |
| `PassMeaning.MissingExactly` | scripts/baseline_pass_history.py:551-608 | a second of the window is reported missing if and only if nothing was observed up to the window's end, it lies beyond the cadence between two observations, or nothing was observed from it on |
| `PassMeaning.MissingReasons` | scripts/baseline_pass_history.py:551-608 | the reason given for each missing interval is right, and the gap at the window's start is never given |
| `PassMeaning.FailingExactly` | scripts/baseline_pass_history.py:610-624 | the failing intervals are exactly the nonempty parts inside the window of failed passes, each standing for one interval, with their errors |
| `PassMeaning.DoubtsExactly` | scripts/baseline_pass_history.py:565-608 | each uncertainty is raised if and only if the history starts inside the window, starts after a gap, does not go on past it, or has nothing in it |
| `PassCoverage.TrailingRunIsLongest` | scripts/baseline_pass_history.py:629-646 | that run is unbroken, and no run starting earlier is |
| `PassCoverage.TrimmedSummaryAgrees` | scripts/collect_baseline.py:1042-1046 | for a window inside the retention and a cap not reached, trimmed and full history agree on missing intervals, trailing run, counts and uncertainty |
| `PassCoverage.TrimmedFailingExactly` | scripts/baseline_pass_history.py:610-624 | trimming keeps the failing intervals if and only if no dropped observation failed into the window |
| `PassCoverage.TrimmedSummaryExactly` | scripts/baseline_pass_history.py:530-672 | for such a window the whole summary is that of the full history if and only if no dropped failure reaches into the window |
| `PassCoverage.TrimmingCanLoseAFailure` | scripts/baseline_pass_history.py:610-624 | a concrete history whose trim loses a failing interval |
| `PassCoverage.StartGapIsWholeWindow` | scripts/baseline_pass_history.py:565-587 | the start rules report the whole window when nothing was observed up to its end, and otherwise nothing |
| `PassCoverage.MissingIsProperExactly` | scripts/baseline_pass_history.py:551-608 | the missing intervals are nonempty, ordered, disjoint and inside the window if and only if the history is not empty |
| `PassCoverage.NothingMissingExactly` | scripts/baseline_pass_history.py:551-608 | with an observation in the window, nothing is missing if and only if the history reaches its end and every instant from the start, or the first observation, has one at most interval plus slack earlier |
| `PassCoverage.FullCoverageExactly` | scripts/baseline_pass_history.py:648-652 | full coverage is reported if and only if the window holds an observation, is covered to its end in that sense and no failure reaches into it |
| `PassCoverage.FullCoveragePasses` | scripts/baseline_pass_history.py:610-652 | under full coverage every observation from the window's start up to its end passed |
| `PassHistory.SortedAscends` | scripts/baseline_pass_history.py:306-313 | the sort at load returns the same observations in time order |
| `PassHistory.LoadedExactly` | scripts/baseline_pass_history.py:283-313 | a document loads if and only if its schema, identity, retention, slack and cap are valid, every observation is the history's own with an error exactly when it failed, and no two share a time |
| `PassHistory.LoadedIsConsistent` | scripts/baseline_pass_history.py:283-313 | whatever loads satisfies the history's invariant: valid settings, own observations, strictly ordered and trimmed |
| `PassHistory.RoundTrip` | scripts/baseline_pass_history.py:407-471 | writing any consistent history and reading it back returns it unchanged |
| `PassHistory.FromDict` | scripts/baseline_pass_history.py:421-471 | a history is built exactly when the document loads and has the repository, source and config asked for; it is then valid and holds what was loaded |
| `PassHistory.AdmitsExactly` | scripts/baseline_pass_history.py:375-405 | the append checks on the trimmed log accept exactly the observations that belong here, were taken near now and are newer than everything ever recorded |
| `PassHistory.AppendKeeps` | scripts/baseline_pass_history.py:375-405 | after an append the log is still one trim of everything recorded |
| `PassHistory.History.Append` | scripts/baseline_pass_history.py:375-405 | succeeds exactly for acceptable observations, records them and stays valid; otherwise records nothing |
| `PassHistory.History.ToDict` | scripts/baseline_pass_history.py:407-419 | the document written loads back to this history |
| `PassHistory.History.Report` | scripts/baseline_pass_history.py:530-672 | the summary is refused exactly for an empty or reversed window; for a window inside the retention and a cap not reached it answers for everything ever recorded, fully if and only if no dropped failure reaches into the window |
| `ReviewVerdicts.LatestOnMeaning` | scripts/ghapp_queue_arm_guard.py:1561-1574 | a HOLD on the head decides if there is one; a head is approved if and only if no HOLD and some dated APPROVE names it, and the newest such one is chosen |
| `ReviewVerdicts.OrderDoesNotMatter` | scripts/ghapp_queue_arm_guard.py:1596-1629 | the verdict on a head is the same for every order of the same verdicts |
| `ReviewVerdicts.TieIsSeen` | scripts/ghapp_queue_arm_guard.py:1759-1777 | two newest verdicts on other heads that offer different approvals give two orders of the same verdicts on which the gate differs |
| `ReviewVerdicts.GateIgnoresOrderExactly` | scripts/ghapp_queue_arm_guard.py:3285-3375 | the whole gate is independent of order if and only if a verdict decides the head itself or the newest verdicts on other heads do not tie between different offers |
| `ReviewVerdicts.EarlierHeadMeaning` | scripts/ghapp_queue_arm_guard.py:1759-1777 | the earlier head offered for a carry is another head, is approved, is named by a newest other verdict, and nothing decides the head itself |
| `ReviewVerdicts.HoldIsFinal` | scripts/ghapp_queue_arm_guard.py:3285-3375 | once a HOLD names a head no later verdicts make the gate allow it, and no head carries an approval from it |
| `ReviewVerdicts.GateExactly` | scripts/ghapp_queue_arm_guard.py:3285-3375 | the gate allows a head if and only if no HOLD names it and it is approved under the receipt rules, accepted as a rollup, or carries from an earlier approved head |
| `JobLog.Segments` | scripts/ghapp_queue_arm_guard.py:3891-3910 | the segments' error flags are right, and for every start time the eligible ones hold exactly the output of the steps started since |
| `JobLog.FailingStepOutput` | scripts/ghapp_queue_arm_guard.py:3913-3928 | returns the output of steps started since, through its first error line, and nothing when there is none |
| `JobLog.OutputExactly` | scripts/ghapp_queue_arm_guard.py:3891-3910 | the output read is that of exactly the lines after the end of the echo of the last run line before them, when that started no earlier, in order |
| `JobLog.FailureFoundExactly` | scripts/ghapp_queue_arm_guard.py:3913-3928 | a failing step is found if and only if some such line is an error |
| `JobLog.OutputAroundEcho` | scripts/ghapp_queue_arm_guard.py:3891-3910 | the lines of a script echo contribute no output and change no later reading |
| `JobLog.EchoCannotAffectOutput` | scripts/ghapp_queue_arm_guard.py:3891-3928 | replacing the lines inside any script echo leaves the failing output of every log unchanged |
| `JobLog.FailingOutputEndsInItsError` | scripts/ghapp_queue_arm_guard.py:3913-3928 | every output found holds exactly one error line, and it is last |
| `Handoff.ReadHandoff` | scripts/merge_receipt_handoff.py:248-282 | the loop accepts exactly the files whose lines all read, with distinct receipt ids and one identity per pull request, and returns every line in order |
| `Handoff.ConsistentExactly` | scripts/merge_receipt_handoff.py:248-282 | a file is accepted if and only if it is not empty, every line reads, there are as many receipt ids as lines, and each repository and pull request has one project, base, head and merge commit |
| `Handoff.LineOrderDoesNotMatter` | scripts/merge_receipt_handoff.py:248-282 | consistency does not depend on the order of the lines |
| `Handoff.FreshPinsPayload` | scripts/merge_receipt_handoff.py:594-665 | with an injective digest, a file answered fresh is the payload its health record was made for |
| `Handoff.FreshRecordDescribesFile` | scripts/merge_receipt_handoff.py:638-659 | whoever wrote the record and whatever the digest, a fresh answer means the file is consistent and has the number of receipts and bytes, the digest and the latest merge time the record says |
| `Handoff.StepKeepsInvariant` | scripts/merge_receipt_handoff.py:491-501 | every stage, replace, health write, crash and read keeps published files validated and every writer's health that of its own payload |
| `Handoff.FreshAnswersAreGenuine` | scripts/merge_receipt_handoff.py:594-665 | in every interleaving of crashing writers and checkers, a fresh answer means one writer of that run validated exactly the bytes read, put them in place and then wrote exactly the health record read, no writer ever wrote that record for other bytes, and by the checker's clock its export and source are within the threshold it was written for and none of its times is ahead by over five minutes |
| `Handoff.FileIsAlwaysConsistent` | scripts/merge_receipt_handoff.py:545-560 | in every state of every run the published file is a consistent handoff |
| `Handoff.PublishIsSeen` | scripts/merge_receipt_handoff.py:545-560 | an undisturbed publish is answered fresh if and only if its threshold is the one asked for, its times are recent enough and not ahead, and no receipt is ahead |
| `Handoff.CrashBetweenWrites` | scripts/merge_receipt_handoff.py:491-501 | after a crash between the two writes a check answers fresh only if an earlier writer of the run published the old health for the very same bytes |
| `ReleaseManifest.NormalizeMeaning` | scripts/release_artifact_manifest.py:129-180 | fails if and only if two entries of one asset disagree; otherwise each asset appears once, no metadata remains and the facts and nameless entries are preserved |
| `ReleaseManifest.NormalizeIsIdempotent` | scripts/release_artifact_manifest.py:129-180 | a second normalisation changes nothing and notes nothing |
| `ReleaseManifest.NormalizedInPlace` | scripts/release_artifact_manifest.py:129-180 | normalising only thins out file lists: artifact by artifact what is left was there, and an asset stays with the first artifact that names it |
| `ReleaseManifest.NotesAreRemovals` | scripts/release_artifact_manifest.py:129-180 | as many removals are noted as entries are gone |
| `ReleaseManifest.MergeConverges` | scripts/release_macos_local.py:608-642 | merging one build and then another of the same name gives the same manifest as merging the second alone, and neither choice affects whether merging fails |
| `ReleaseManifest.MergeFailsExactly` | scripts/release_macos_local.py:608-642 | merging fails if and only if two entries outside the macOS artifact, under another name than the new file's, name one asset with different contents |
| `ReleaseManifest.MergedExactly` | scripts/release_macos_local.py:608-642 | a merge leaves one macOS artifact, last, with just the new file at the bytes and digest given, and of the rest exactly the facts listed elsewhere under other names |
| `ReleaseManifest.MergedNamesOnce` | scripts/release_macos_local.py:608-642 | after a merge each asset is named once and no metadata remains |
| `ReleaseManifest.Manifest.Normalize` | scripts/release_artifact_manifest.py:129-180 | the in-place loops leave the normalised artifacts, succeed exactly when no two entries clash, and report how many entries are gone |
| `ReleaseManifest.Manifest.MergeMac` | scripts/release_macos_local.py:608-642 | the in-place rewriting gives the merged manifest, and fails exactly when the rest disagrees with itself |
| `FleetJournal.Journal.Persist` | scripts/collect_fleet_capacity.py:332-374 | writes the longest suffix of the recent rows that fits with the record describing it, and fails, leaving the journal as it was, exactly when none fits |
| `FleetJournal.RecentExactly` | scripts/collect_fleet_capacity.py:332-345 | ageing keeps every row not older than the cutoff, as often as it was there, and no other |
| `FleetJournal.AgedOutExactly` | scripts/collect_fleet_capacity.py:332-345 | as many rows are aged out as are older than the cutoff |
| `FleetJournal.NextJournalIsLongest` | scripts/collect_fleet_capacity.py:358-374 | the file written is within the byte limit, and every file that kept more of the recent rows, with the record describing it, would be over it |
| `FleetJournal.RefusedExactly` | scripts/collect_fleet_capacity.py:358-374 | a pass is refused if and only if every such file is over the limit |
| `FleetJournal.NextJournalIsDescribed` | scripts/collect_fleet_capacity.py:358-374 | the new record keeps its identity and time, its counts and oldest time describe the journal written, its age count is the number of rows too old, and the rows dropped by age and by size plus those kept account for every row |
| `FleetJournal.JournalStaysDescribed` | scripts/collect_fleet_capacity.py:332-374 | after any sequence of passes, each with its own byte limit, the journal is empty or stands as some pass wrote it: within that pass's limit and described by its last record |
| `QueueNonce.StepKeepsInvariant` | scripts/ghapp_queue_removal_guard.py:213-245 | every write, discard, wait, open, check and unlink keeps honours plus standing records within what was written, and every honour on a check that passed |
| `QueueNonce.HonouredAtMostOncePerIssue` | scripts/ghapp_queue_removal_guard.py:213-245 | in every interleaving of any number of guards and writers a nonce is honoured at most once per record written for it |
| `QueueNonce.HonouredForItsPurpose` | scripts/ghapp_queue_removal_guard.py:206-245 | whatever records were written, every honour rests on a check of a trusted record that names its purpose and was within the age limit when it was checked |
| `QueueNonce.TakenIsCheckedExactly` | scripts/ghapp_queue_removal_guard.py:213-245 | the record a guard unlinks is the one it checked if and only if nothing was written under that name between its opening and its unlinking |
| `QueueNonce.RecordsAreTakenOnce` | scripts/ghapp_queue_removal_guard.py:213-245 | no two honours of a nonce unlinked the same record |
| `QueueNonce.WrittenOnceIsHonouredOnce` | scripts/ghapp_queue_removal_guard.py:213-245 | a nonce written once is honoured at most once, and by unlinking the record that was checked |
| `QueueNonce.OneGoodRecordHonouredTwice` | scripts/ghapp_queue_removal_guard.py:213-245 | a run of two guards in which one good record is honoured twice, the second time by unlinking an untrusted record of other content |
| `QueueNonce.FreshRecordIsHonoured` | scripts/ghapp_queue_removal_guard.py:213-245 | a trusted record that is young enough is honoured by a guard that meets no other |

## Left out

- Subprocess calls to gh, git and ssh, REST pagination and JSON shape checks: their results are inputs.
- Detection of arm requests on command lines and in GraphQL, the direct-merge path, the deferred-tier and admission gates, overrides and message wording.
- Attributor internals: its ruling is an input.
- Stamp, signer and session rules, the TOML configuration and environment switches: which verdicts count is an input.
- Carry limits other than the merge count, such as age and an explicit opt-out in an approval.
- Timestamp parsing: times are integers, and so are the stamps of job log lines, so a start stamp too short to compare is not modelled.
- The text search for environment and interruption signatures: each failing step's reading is an input, as is the choice of failing required checks.
- The rebase carry, patch ids and binary probing: which blobs are binary is an input.
- Train configuration, stop switches, branch prefixes and the lookup of a rollup member's pull request and approval: these are inputs.
- Handoff schema, repository, producer and source host fields, and the paths of the two files.
- Malformed manifest shapes, which file names are release metadata, locking and atomic file replacement.
- The journal's comparison of identities between passes and its encoding of rows: the encoder is an input.
- Nonce environment and directory checks: whether a record is trusted is an input.
- QueueRuns.RunsAddOnlyJustified: an accurate view sorts no push too late, and its check suites are within a second of the first push.
- QueueRuns.SameHeadReAddsAreBounded: covers runs without override or attributor, on complete timelines, in which merge-group commits are never pushed as heads.
- Rollup.RollupLandsApprovedChanges: the merge is taken from the commit the rollup was formed on; both branch names are read as fixed commits.
- CommitGraph.MergeBaseOfAncestor: commits are numbered so that parents precede children; the graph is otherwise arbitrary.
- Handoff.FreshAnswersAreGenuine: takes the digest as injective.
- PassHistory.LoadedIsConsistent: a blank identity is one of ASCII blanks only.
- Fractions of a second in the pass history: all its times are whole seconds.
