# The backup pipeline of poor-man-cluster, modelled and proved

This project models how pmcluster names, writes, ships, ages out and restores volume
backups, and two state machines beside it: the leadership watcher with its control loops,
and credential rotation. `dafny verify dfyconfig.toml` checks all of it.

| file | models |
|---|---|
| `Common.dfy`, `Calendar.dfy`, `Artifacts.dfy`, `Grammar.dfy` | shared vocabulary, UTC stamps, the artifact record, and the name grammar `backup-<node>-<ts>[-stack-<stack>].tar.gz` |
| `Markers.dfy`, `Names.dfy` | when sanitising leaves the stack marker in a name and how a hidden marker is read back; names as text: their look, their order, sanitising character by character |
| `Retention.dfy` | the retention verdict on a history of artifacts, and its laws |
| `Prune.dfy` | the planner's loops and the local and bucket pruners over any listing, proved against the verdict |
| `SharedBucket.dfy` | many nodes uploading to and pruning one bucket from stale listings |
| `Ship.dfy`, `Pipeline.dfy` | shipping one artifact leg by leg; the whole pipeline as steps with failures, crashes and torn writes |
| `Tree.dfy`, `Restore.dfy`, `Paths.dfy`, `Matching.dfy`, `Volume.dfy` | the destination tree, what a restore does to it, member names and the target's boundary, the volume filter on strings, and the restore as it runs |
| `Backup.dfy` | archiving one stack of a snapshot, whole or narrowed to volumes, and backup followed by restore |
| `EndToEnd.dfy` | the pipeline with what its files hold: from a stack's snapshot to its restore |
| `Drain.dfy`, `Plan.dfy` | pausing a stack around a restore; deriving a plan and adopting orphans |
| `Leadership.dfy`, `Credentials.dfy` | the leadership watcher and its consumer; credential scripts cut off anywhere |

## Main results

- **Retention is path independent** (`HistoryIndependent`): any interleaving of arrivals and
  prunes, at clocks in any order and with any deletions failing, followed by one last prune,
  equals that prune applied to everything ever written. The core is `Confluence`.
- **Concurrent pruning is safe** (`FloorUnderInterleaving`, `ConcurrentPruneConverges`): listings
  may be stale and incomplete; the newest artifacts ever uploaded stay, and with one policy
  nothing is lost that a single prune of everything would keep.
- **Durability, and its exact condition** (`NewestArtifactIsDurable`, `DurableIffCareful`): runs may
  lose acknowledgements, fail at any call, crash anywhere and leave any number of torn files. If
  every local retention plan is careful, the newest complete artifact of each (node, stack) is on
  its node or in every destination throughout the run; and no local deletion that is due at any
  moment of a run can lose one if and only if every plan so far was careful: it condemned no newest
  complete artifact that was not in every destination. Carefulness is decided by counting
  (`CarefulByCounting`): a newest complete artifact is condemned exactly when it is aged out and at
  least KeepLast torn names are listed above it. Runs without torn writes are always careful
  (`TearlessRunIsCareful`); `TornWriteLosesNewest` is a run that is not, and loses the artifact.
- **From snapshot to restore** (`NewestBackupRestores`): in every such careful run the newest complete
  artifact of each (node, stack) has a copy, and every copy, on the node or in a destination,
  restores the stack to the snapshot it was taken from.
- **Provenance, exactly** (`ProvenanceIffSidecarsArrive`): at every state of a run an archive shipped
  with a sidecar is in a destination, or next in line to be sent there, only if its sidecar is
  there, if and only if every acknowledged sidecar was stored or was there already.
- **Restore replaces exactly** (`RestoreReplacesExactly`; `RequestRestores` for every stack and volume
  asked for; `RestoreTarget.Run`, which performs it), **writes nothing outside its target**
  (`NothingLeavesTarget`), and **backup then restore is the identity** (`BackupThenRestore`,
  `WholeStackRoundTrip`), succeeding exactly where nothing of another kind stands in the way
  (`RestoreSucceedsIff`).
- **The name grammar** is unambiguous (`ParsedNameIsRebuilt`, `OneNamePerInstant`), carries exactly
  the seconds of the years 0 to 9999 (`RepresentableIff`), sorts each (node, stack) by time
  (`NamesSortByTime`), and its round trip holds exactly under a condition on the sanitised node (`RoundTrip`). A sanitised name holds
  the marker, and sanitising is not idempotent, exactly under a condition on the scan of the raw
  name (`MarkerSurvivesIff`, `IdempotentIff`).

## Where the code and its comments part ways

The model follows the code; each point is a lemma.

- Sanitising does not remove every marker (`SanitiseLeavesMarker`; `MarkerSurvivesIff` says when), and
  a node whose name ends in a stamp and `-stack` is read back as another node (`HiddenMarkerExample`,
  `HiddenMarkerMisread`); `RoundTrip` gives the exact condition.
- A crash while an archive is written leaves a torn file under its final name, which local
  retention counts as an artifact (`TornWriteLosesNewest`, `DurableIffCareful`).
- Two listed keys with the same leaf count as two artifacts, so the floor can be spent on one
  (`RepeatedLeafBreaksFloor`); the planner follows the rules exactly when none is repeated
  (`ExactIffNoRepeats`).
- A node finds its own older copies by comparing parsed fields with raw names, which works
  exactly for names that sanitising leaves unchanged (`OwnArtifactRecognised`). `Pipeline` speaks
  of such names.
- The entry set is not read in full before anything is written: when an archive is refused, the
  destination is as it was exactly when it already held what the earlier archives say
  (`RefusalKeepsEarlierWrites`); and the "nothing was restored" error comes after the prune (`EmptySnapshotStillPrunes`).
- Restoring a volume of more than one segment removes what lies beside it (`VolumeRestore`), a
  whole-disk volume filter empties every app directory that holds a match at any depth
  (`WholeDiskVolumeRestore`), and an archive narrowed to volumes, restored without a filter, empties
  the stack's other volumes (`NarrowedRestoreEmptiesSiblings`).
- A restore that stops has removed exactly what a symlink that broke off after the unlink was to
  replace (`ArchiveLosesExactly`, `StoppedRestoreRemovesNothing`), so nothing without symlinks
  (`WithoutLinksNothingIsLost`). What the prune cannot remove stays under a report of success
  (`LeftoversAreSilent`).
- Bucket retention never deletes a sidecar, orphaned or not (`Bucket.Prune`), and only the archive is
  confirmed after its upload (`LostSidecarBreaksProvenance`); `ProvenanceIffSidecarsArrive` is the exact
  condition.
- A sidecar that cannot be removed is reported as a failed deletion although the archive is
  gone (`ArchiveDir.RemoveArtifact`).
- The leadership watcher announces neither follower-to-unreachable nor leader-to-worker
  (`LoopsFollowPolls` is the exact condition).
- During a rotation there is one window in which the store and the swarm disagree
  (`RotationWindow`), the console reveals the old password until the last call, also after a failed
  restart (`ConsoleWindow`), `ensure` with a changed user name can leave them disagreeing
  (`EnsureWindow`), and a minting cut in two leaves a row without its secret (`MintWindow`) until
  healing finishes it (`MaterialiseFinishesMint`).

## Model

| member | source | states |
|---|---|---|
| Calendar.SameDateSameDay | pmcluster/internal/backups/prune_remote.go:33 | two stamps have the same formatted UTC date exactly when their instants lie on the same day number |
| Calendar.SecondsInjective | pmcluster/internal/backups/artifact.go:103-110 | distinct valid stamps are distinct instants, leap years included |
| Calendar.SecondsInOrder | pmcluster/internal/backups/artifact.go:103-110 | an instant is earlier exactly when its stamp is, field by field from the year down |
| Calendar.NextDateIsADayLater | pmcluster/internal/backups/artifact.go:103-110 | the next date, over month ends, leap days and the turn of the year, is 86400 seconds later |
| Calendar.NextWithinDay | pmcluster/internal/backups/artifact.go:103-110 | the next second, minute and hour are 1, 60 and 3600 seconds later |
| Calendar.UnixEpoch | pmcluster/internal/backups/artifact.go:103-110 | 1970-01-01 lies where Unix time has it |
| Calendar.RepresentableIff | pmcluster/internal/backups/artifact.go:33-35 | the instants a name can carry are exactly the seconds of the years 0 to 9999 |
| Grammar.Sanitise | pmcluster/internal/backups/artifact.go:77-92 | a sanitised segment is non-empty, uses only the segment alphabet and neither starts nor ends with a dash |
| Grammar.FormatThenRead | pmcluster/internal/backups/artifact.go:33-35 | a formatted stamp has the pattern's shape and reads back as itself |
| Grammar.ParsedNameIsRebuilt | pmcluster/internal/backups/artifact.go:94-113 | every accepted name is rebuilt byte for byte by printing its parsed fields |
| Grammar.OneNamePerInstant | pmcluster/internal/backups/artifact.go:46-65 | within one (node, stack) the instant identifies the artifact, so ranking a group meets no tie |
| Grammar.SearchStopsAtNode | pmcluster/internal/backups/artifact.go:50-52 | the lazy node match ends at the printed node exactly when that node hides no stamp followed by the marker |
| Grammar.RoundTrip | pmcluster/internal/backups/artifact.go:67-113 | printing then parsing returns the sanitised fields and the instant if and only if the sanitised node starts alphanumeric and hides no stamped marker |
| Grammar.OwnArtifactRecognised | pmcluster/internal/backupagent/agent.go:1084-1087 | the parsed fields equal the raw node and stack exactly when sanitising leaves both unchanged |
| Names.NamesSortByTime | pmcluster/internal/backups/prune_remote.go:30 | within one (node, stack) the name with the later stamp text is the one with the larger instant |
| Names.SpelledName | pmcluster/internal/backups/artifact.go:67-113 | one artifact name in full, as printed and as read back, with its sidecar |
| Names.LegacyRoundTrip | pmcluster/internal/backups/artifact.go:46-65 | a name without a stack is read back with none, under the same exact condition on the node |
| Names.LineBreakNeverParses | pmcluster/internal/backups/artifact.go:46-65 | a name with a line break is nobody's artifact |
| Names.BaseOfPath | pmcluster/internal/backups/artifact.go:97-98 | a key is read by its last segment |
| Names.SanitisedPointwise | pmcluster/internal/backups/artifact.go:77-92 | without markers and dashes at the ends, exactly the characters that are not letters, digits, dot, underscore or dash become dashes |
| Names.BlankBecomesUnknown | pmcluster/internal/backups/artifact.go:87-92 | a name of which nothing is left becomes `unknown` |
| Markers.DropLeavesMarker | pmcluster/internal/backups/artifact.go:67-92 | replacing the markers leaves one exactly when the left-to-right scan meets a marker directly followed by `stack-` |
| Markers.MarkerSurvivesIff | pmcluster/internal/backups/artifact.go:67-92 | a sanitised name holds the marker exactly when the scan of the mapped name meets such a marker after one character that is kept and before another |
| Markers.IdempotentIff | pmcluster/internal/backups/artifact.go:77-92 | sanitising twice is sanitising once exactly when no marker is kept |
| Markers.NoDoubleMarkerIsClean | pmcluster/internal/backups/artifact.go:67-69 | a name whose mapped form holds no `-stack-stack-` is sanitised free of the marker, once and for all |
| Markers.SanitiseLeavesMarker | pmcluster/internal/backups/artifact.go:67-92 | `a-stack-stack-b` is sanitised to `a-stack-b`, and that to `a-b` |
| Markers.HiddenMarkerMisread | pmcluster/internal/backups/artifact.go:94-113 | a node that hides a stamped marker is read back cut off at the first one, or refused when the digits there are no date |
| Markers.HiddenMarkerExample | pmcluster/internal/backups/artifact.go:67-73 | a concrete node name that sanitising leaves alone and whose every artifact, for every stack and instant, is read back as node `a` |
| Grammar.SidecarNeverParses | pmcluster/internal/backups/artifact.go:124-127 | a sidecar name or key is never taken for an artifact, whatever directory it names |
| Grammar.GroupKeySeparates | pmcluster/internal/backups/prune_remote.go:66 | the map key node/stack separates exactly the (node, stack) pairs |
| Retention.DoomedIsFinal | pmcluster/internal/backups/prune.go:115-125 | a deletion verdict stands in every larger history and at every later clock |
| Retention.Confluence | pmcluster/internal/backups/prune_remote.go:25-51 | a store that lost only condemned artifacts is pruned to exactly what the full history is pruned to |
| Retention.PathIndependent | pmcluster/internal/backups/prune_remote.go:25-51 | prune, possibly failing in part, let anything arrive, prune later: the result is one prune of everything |
| Retention.HistoryIndependent | pmcluster/internal/backups/prune_remote.go:14-20 | any interleaving of arrivals and partly failed prunes followed by a prune equals that prune of everything ever written |
| Retention.CoverageAndFloor | pmcluster/internal/backups/prune.go:11-34 | the dense window and the newest KeepLast survive, and every day with an unexpired artifact keeps one at least as new |
| Retention.SurvivesIff | pmcluster/internal/backups/prune.go:66-125 | the verdict in plain numbers: fewer than KeepLast (and one) newer, or younger than KeepHours hours, or at most KeepDays days old and the newest of its UTC day |
| Retention.WindowsInNumbers | pmcluster/internal/backups/prune.go:115-125 | everything younger than KeepHours hours survives, and every UTC day with something at most KeepDays days old keeps one at least as new |
| Retention.GroupsAreIndependent | pmcluster/internal/backups/prune.go:62-65 | a verdict depends on nothing outside the artifact's own (node, stack) |
| Retention.SizeBound | pmcluster/internal/backups/prune_remote.go:29-49 | after a prune a group holds at most the floor, the dense artifacts, and one artifact per sparse day |
| Retention.SparseDaysAtMost | pmcluster/internal/backups/prune.go:115-125 | the sparse window touches at most KeepDays + 1 days |
| Prune.ListingSizeBound | pmcluster/internal/backups/prune_remote.go:25-51 | after a prune of a listing a group keeps at most the floor, its dense artifacts and KeepDays + 1 more |
| Prune.SortKeepsGroup | pmcluster/internal/backups/prune_remote.go:30 | sorting yields the same artifacts, newest first |
| Prune.IndexDays | pmcluster/internal/backups/prune_remote.go:31-37 | the day map holds, for each day present, that day's newest artifact |
| Prune.Condemns | pmcluster/internal/backups/prune_remote.go:38-46 | the planner's index and day tests decide exactly the verdict |
| Prune.PlanGroup | pmcluster/internal/backups/prune_remote.go:29-49 | over any group, repeated entries included, the selection is exactly the artifacts with an entry beyond the floor that are aged out, and every other entry is counted as kept |
| Prune.PlanPrune | pmcluster/internal/backups/prune_remote.go:25-51 | the selection over all groups is exactly what the planner picks in the whole listing |
| Prune.ExactIffNoRepeats | pmcluster/internal/backups/prune_remote.go:38-46 | the planner agrees with the retention rules at every policy and clock if and only if the listing names no artifact twice |
| Prune.RepeatedLeafBreaksFloor | pmcluster/internal/backups/prune_remote.go:86-89 | with a nested key of the same leaf the only artifact of a stack is deleted although the rules keep it |
| Prune.DistinctListingIsExact | pmcluster/internal/backups/prune_remote.go:86-89 | over distinct leaves a prune deletes exactly the condemned names |
| Prune.ListingIsConsistent | pmcluster/internal/backups/artifact.go:46-65 | in any listing at all an instant within a group, and a name, identify the artifact |
| Prune.GroupArtifacts | pmcluster/internal/backups/prune_remote.go:54-70 | for any listing the groups partition the parsed, non-skipped artifacts in listing order, and skipped legacy archives are counted |
| Prune.JudgedOrSkipped | pmcluster/internal/backups/prune_remote.go:57-68 | every parsed name is either judged or counted as skipped |
| Prune.CandidatesMeaning | pmcluster/internal/backups/prune_remote.go:57-68 | every name that parses is judged, except that a name without a stack is left alone unless legacy archives are included |
| Prune.LegacyLeftAlone | pmcluster/internal/backups/prune_remote.go:62 | without includeLegacy no name without a stack is ever selected |
| Prune.Select | pmcluster/internal/backups/prune_remote.go:86-89 | the names to delete are exactly the picked names; kept plus selected is the number judged |
| Prune.Bucket.DeleteAll | pmcluster/internal/backups/prune_remote.go:90-101 | a dry run deletes nothing, a refused DELETE is reported as failed, everything else is deleted |
| Prune.Bucket.Prune | pmcluster/internal/backups/prune_remote.go:72-103 | deleted and failed together are the picked names, the bucket loses exactly the deleted ones, and no sidecar goes |
| Prune.ArchiveDir.RemoveArtifact | pmcluster/internal/backups/prune.go:127-143 | archive first, then sidecar; which file is gone in each failure |
| Prune.ArchiveDir.Prune | pmcluster/internal/backups/prune.go:60-111 | the local leg deletes exactly the picked archives and their sidecars, up to what cannot be removed, and counts the skipped legacy archives |
| Prune.SameArtifactsWithoutSidecars | pmcluster/internal/backups/prune.go:79-86 | leaving sidecars out of the listing changes no artifact |
| Prune.DryRunPredicts | pmcluster/internal/backups/prune.go:92-100 | from the same names, policy and clock each leg's dry run names exactly the real run's deleted and failed artifacts |
| Prune.ArchiveDir.PruneLocalToNewestOfStack | pmcluster/internal/backupagent/agent.go:1059-1099 | only other artifacts of this node and stack, and their sidecars, are removed; it fails exactly when one of them cannot be, and otherwise all of them go |
| Prune.OlderCopyMeaning | pmcluster/internal/backupagent/agent.go:1074-1087 | those are exactly the other names that parse to this node and stack |
| SharedBucket.StepKeepsInv | pmcluster/internal/backups/prune_remote.go:73-103 | every upload, stale plan and late deletion keeps: what is gone or planned to go is condemned in the full upload history |
| SharedBucket.FloorUnderInterleaving | pmcluster/internal/backups/prune_remote.go:73-103 | under every interleaving the newest KeepLast artifacts ever uploaded for each (node, stack) are still there |
| SharedBucket.ConcurrentPruneConverges | pmcluster/internal/backups/prune_remote.go:73-103 | with one policy nothing is lost that one prune of everything would keep, and a last prune yields exactly that |
| SharedBucket.FullPruneLeavesSurvivors | pmcluster/internal/backups/prune_remote.go:73-103 | a pruner that lists the whole bucket and deletes what it planned, in any order, leaves exactly what the rules keep |
| Ship.Destinations.ShipLeg | pmcluster/internal/cli/backupagent.go:770-796 | exactly what a leg leaves in its destination, and that it succeeds if and only if every call was acknowledged and the archive is there |
| Ship.Destinations.Ship | pmcluster/internal/cli/backupagent.go:762-799 | it succeeds if and only if every leg does; destinations up to the failing one are as their legs leave them, later ones untouched, and an archive arrives only with its sidecar |
| Pipeline.StepKeepsInv | pmcluster/internal/backupagent/agent.go:622-722 | every step of writing, tearing, shipping, local clean-up, retention and crashing keeps the pipeline invariant |
| Pipeline.StepKeepsSafe | pmcluster/internal/backupagent/agent.go:650-676 | every step but a careless local plan keeps each newest complete artifact on disk or backed, and the pending plan harmless |
| Pipeline.NewestArtifactIsDurable | pmcluster/internal/backupagent/agent.go:650-676 | at every moment of every run with careful local plans, torn writes included, the newest complete artifact of each (node, stack) is on the node's disk or in every destination, and on disk unless the mode keeps nothing when plans spare it there |
| Pipeline.DurableIffCareful | pmcluster/internal/backupagent/agent.go:707-722 | throughout a run no due local deletion can lose a newest complete artifact if and only if every local plan of the run was careful |
| Pipeline.CarefulByCounting | pmcluster/internal/backups/prune_remote.go:38-46 | a local plan is careful exactly when each newest complete artifact it lists that is not backed has fewer than KeepLast torn names listed above it or is not aged out |
| Pipeline.TearlessRunIsCareful | pmcluster/internal/backupagent/agent.go:794-799 | a run in which no write is torn is careful |
| Pipeline.TornWriteLosesNewest | pmcluster/internal/backupagent/agent.go:875-878 | a run from the initial state: failed upload, torn write, prune keeping one; the newest complete artifact is then on no disk and in no destination |
| Pipeline.OnlyCompleteArchivesShip | pmcluster/internal/backupagent/agent.go:631-638 | no destination ever receives a torn archive |
| Pipeline.BackupGoesWell | pmcluster/internal/backupagent/agent.go:622-676 | from any state, a backup all of whose calls go through puts the artifact in every destination with its sidecar and reaches the clean-up its mode asks for |
| Pipeline.CleanUpGoesWell | pmcluster/internal/backupagent/agent.go:655-676 | that clean-up leaves of the group only the artifact itself, and not even that if the mode keeps nothing |
| Pipeline.FailureEndsShip | pmcluster/internal/cli/backupagent.go:776-795 | a failed call, a missing confirmation and a crash each end the ship: the node is idle, its disk as it was, no later leg contacted |
| Pipeline.NewestUploadStays | pmcluster/internal/cli/backupagent.go:802-828 | each destination keeps the newest artifact it ever received of each (node, stack), whatever policies and clocks the pruners use |
| Pipeline.ProvenanceIffSidecarsArrive | pmcluster/internal/cli/backupagent.go:771-795 | at every state of a run an archive shipped with a sidecar is in a destination, or on its way, only together with it, if and only if every acknowledged sidecar was stored or was already there |
| Pipeline.StepProvenance | pmcluster/internal/cli/backupagent.go:771-795 | a step keeps that exactly when the sidecar it saw acknowledged has arrived |
| Pipeline.MissingSidecarHarms | pmcluster/internal/cli/backupagent.go:784-795 | a sidecar that did not arrive is one upload away from an archive in the destination without it |
| Pipeline.ArchiveImpliesSidecar | pmcluster/internal/cli/backupagent.go:771-783 | destinations that keep what they acknowledge hold, at every crash point, no archive without the sidecar it was shipped with |
| Pipeline.LostSidecarBreaksProvenance | pmcluster/internal/cli/backupagent.go:784-795 | a run from the initial state: a sidecar acknowledged but not stored leaves a shipped archive without one, since only the archive is confirmed |
| Tree.WriteFileEffect | pmcluster/internal/backups/browse.go:771-790 | a file is written exactly where every ancestor is a directory or missing and nothing but a file stands; nothing else changes |
| Tree.MakeLinkEffect | pmcluster/internal/backups/browse.go:744-755 | a link is made exactly where every ancestor is a directory or missing and nothing lies below; nothing else changes |
| Restore.AnchorTestOnStrings | pmcluster/internal/backups/browse.go:313-320 | the string test equal-or-prefix-with-slash is the prefix test on path segments |
| Matching.VolumeTestOnStrings | pmcluster/internal/backups/browse.go:546-558 | the four string tests of the whole-disk filter together are the test that the volume's segments occur next to each other in the path |
| Restore.KeepMeaning | pmcluster/internal/backups/browse.go:327-360 | the keep set is exactly the selected paths and their ancestors |
| Restore.KeepIsPrefixClosed | pmcluster/internal/backups/browse.go:350-357 | every ancestor of a kept path is kept |
| Restore.AllEntriesMeaning | pmcluster/internal/backups/browse.go:689-735 | what a run acts on is exactly what its archives hold and the filter includes |
| Paths.CleanCancels | pmcluster/internal/backups/browse.go:605-619 | two dots take back the segment before them; with CleanIgnores, CleanAtRoot and CleanIsIdempotent, the laws of cleaning |
| Paths.CleanIsClean | pmcluster/internal/backups/browse.go:605-619 | a cleaned name holds no empty segment, no dot, and two dots only in front of a relative one |
| Paths.RelPathMeaning | pmcluster/internal/backups/browse.go:605-619 | a clean name below `backup/data` is mapped to what follows, any other is taken as it is |
| Paths.NothingLeavesTarget | pmcluster/internal/backups/browse.go:736-741 | whatever the archives name and however the restore ends, no path climbs out of the target |
| Restore.ExtractionOverlays | pmcluster/internal/backups/browse.go:689-794 | a successful extraction makes each kept path its last entry or a directory and leaves the rest as it was |
| Restore.EntrySucceedsIff | pmcluster/internal/backups/browse.go:736-793 | when one entry can be applied, by kind |
| Restore.RunSucceedsIff | pmcluster/internal/backups/browse.go:252-282 | a run is extracted in full exactly when every archive passes its gates, holds an entry and does not break, and the entries apply |
| Restore.RestoreReplacesExactly | pmcluster/internal/backups/browse.go:180-304 | for every filter the scope holds the snapshot and nothing else but what cannot be removed, and outside it only the snapshot's own paths differ |
| Restore.LeftoversAreSilent | pmcluster/internal/backups/browse.go:414-418 | a path the snapshot does not hold and that cannot be removed is still there after a restore that reports success |
| Restore.RequestRestores | pmcluster/internal/backups/browse.go:284-325 | for every stack and volume asked for, the filter and prune depth give: no volume, the covered stacks rewound; a volume of a stack, that volume; a volume of a whole-disk run, its matches |
| Restore.ReportMeaning | pmcluster/internal/backups/browse.go:288-303 | the report counts the files and links restored, or says whether the archives held nothing but directories |
| Restore.StuckStays | pmcluster/internal/backups/browse.go:414-418 | what cannot be removed is there after every restore, with the directories above it |
| Restore.WholeRunRestore | pmcluster/internal/backups/browse.go:362-376 | each stack the snapshot covers is rewound exactly, every other stack is untouched |
| Restore.VolumeRestore | pmcluster/internal/backups/browse.go:381-421 | the volume becomes the snapshot's, and an unrelated path survives exactly when it is not under the volume's first segment or cannot be removed; archives without the volume change nothing |
| Restore.WholeDiskVolumeRestore | pmcluster/internal/backups/browse.go:322-324 | under a segment filter a path outside the snapshot is removed exactly when some selected entry shares its first two segments |
| Restore.SiblingVolumesSurvive | pmcluster/internal/backups/browse.go:308-320 | with a one-segment volume every other path is left as it was |
| Restore.StoppedRestoreRemovesNothing | pmcluster/internal/backups/browse.go:252-282 | a restore that stops early, wherever it breaks, touches only what the archives name and their ancestors, and of the paths it found exactly those are gone that a broken symlink was to replace |
| Restore.ArchiveLosesExactly | pmcluster/internal/backups/browse.go:719-755 | a path is gone after an archive if and only if the archive broke off at a symlink for it, the entries before it were extracted and the old entry was unlinked |
| Restore.WithoutLinksNothingIsLost | pmcluster/internal/backups/browse.go:252-282 | archives without symlinks lose no path, wherever the restore stops |
| Restore.BrokenLinkLosesEntry | pmcluster/internal/backups/browse.go:744-755 | a break between unlinking and linking loses exactly the entry that stood there |
| Restore.BrokenFileIsPartial | pmcluster/internal/backups/browse.go:779-784 | a file that breaks off is left with what was written of it |
| Restore.RestoreLosesBrokenLink | pmcluster/internal/backups/browse.go:744-755 | the whole restore then stops with the archive extracted up to the link and that one path gone |
| Restore.LaterArchivesUntouched | pmcluster/internal/backups/browse.go:252-282 | the first failing archive decides; later ones are not looked at |
| Restore.RefusalKeepsEarlierWrites | pmcluster/internal/backups/browse.go:197-200 | when any archive of a run is refused, what the earlier ones wrote stays and later ones do not matter; the destination is as it was if and only if it already held what the earlier ones say |
| Restore.EmptySnapshotStillPrunes | pmcluster/internal/backups/browse.go:284-302 | the report that nothing was restored comes after the scope was emptied |
| Volume.CollectArchivedPaths | pmcluster/internal/backups/browse.go:333-360 | the loop adds exactly the keep set and counts the entries that are not directories |
| Volume.MarkedMeaning | pmcluster/internal/backups/browse.go:395-413 | below a scope root a path lies in a doomed subtree exactly when it is not kept |
| Volume.RestoreTarget.Extract | pmcluster/internal/backups/browse.go:719-793 | entry by entry, stopping at the first that fails |
| Volume.RestoreTarget.PruneToSnapshot | pmcluster/internal/backups/browse.go:381-421 | the walk and removals leave exactly the pruned tree, failed removals included, whatever order the roots are visited in |
| Volume.RestoreTarget.Run | pmcluster/internal/backups/browse.go:242-304 | the running restore computes the specified tree and report, which for the stack and volume asked for is what was asked for; siblings of a one-segment volume stay as they were |
| Backup.AddTree | pmcluster/internal/backupagent/agent.go:934-987 | one header per path that is not a socket, and a count of regular files |
| Backup.ArchiveStack | pmcluster/internal/backupagent/agent.go:782-870 | a missing stack or volume fails, roots without a regular file yield no artifact, any other yields the archive of exactly what lies below them; it stays when verification or the sidecar fails, and the report is green only if neither did |
| Backup.WriteTar | pmcluster/internal/backupagent/agent.go:893-916 | the roots are written one after the other; a missing one stops the archive |
| Backup.MemberMapsBack | pmcluster/internal/backups/browse.go:605-619 | a member name maps back to its path: the stack name appears once |
| Backup.ArchiveKeeps | pmcluster/internal/backupagent/agent.go:900-916 | the archive keeps exactly the paths below its roots and the directories above them, sockets excepted |
| Backup.KeptAsInSnapshot | pmcluster/internal/backupagent/agent.go:946-970 | each kept path is expected as the snapshot has it, however often overlapping roots repeat it |
| Backup.WalksListRoots | pmcluster/internal/backupagent/agent.go:893-916 | any walk orders of the roots, without the sockets, list exactly what lies below the roots |
| Backup.BackupThenRestore | pmcluster/internal/backupagent/agent.go:872-987 | archiving a stack, whole or narrowed, and restoring it over any destination makes the stack's directory exactly what the archive speaks of, and leaves everything else alone |
| Backup.WholeStackRoundTrip | pmcluster/internal/backupagent/agent.go:872-987 | for the whole stack that is the identity on its subtree, sockets excepted |
| Backup.NarrowedRestoreEmptiesSiblings | pmcluster/internal/backupagent/agent.go:893-906 | an archive narrowed to volumes, restored without a filter, removes the stack's other volumes |
| Backup.RestoreSucceedsIff | pmcluster/internal/backups/browse.go:742-793 | the restore of a stack's archive succeeds exactly when what stands in the destination where the archive speaks is of the same kind, and nothing lies below a link |
| Backup.RestoreOverAbsentStackSucceeds | pmcluster/internal/backupagent/agent.go:800-820 | an artifact with a regular file restores with success where the stack is absent |
| EndToEnd.ArchiveThenRestore | pmcluster/internal/backupagent/agent.go:782-870 | the agent's archive of a stack, restored by the running restore, reproduces what the archive speaks of; no archive leaves the destination alone |
| EndToEnd.StepKeepsIntact | pmcluster/internal/backupagent/agent.go:622-722 | every step keeps: each file and object under a complete name holds what was written from its snapshot |
| EndToEnd.NewestBackupRestores | pmcluster/internal/backupagent/agent.go:650-676 | in every run with careful local plans the newest complete artifact of each (node, stack) has a copy, and every copy restores the stack to its snapshot, with success where the stack is absent |
| Drain.Swarm.Choose | pmcluster/internal/backups/drain.go:80-101 | exactly the replicated, long-running, non-zero services of the stack are paused, with their counts, and its global services are reported |
| Drain.Swarm.Undo | pmcluster/internal/backups/drain.go:106-114 | only paused services change, and each whose call is not lost has its count back |
| Drain.Swarm.WaitQuiet | pmcluster/internal/backups/drain.go:126-176 | waiting succeeds exactly when some answer shows no paused service running and every answer before it is one |
| Drain.Swarm.Drain | pmcluster/internal/backups/drain.go:52-154 | it succeeds exactly when the services are listed and there is nothing to pause, or every scale-down goes through and the stack is quiet in time; on failure every count is what it was, and nothing else is ever scaled |
| Drain.Swarm.DrainedRestore | pmcluster/internal/backups/browse.go:226-304 | the restore runs exactly when there are archives and the drain asked for succeeds, does what was asked for while the paused services are at zero, and whatever it reports every replica count is then what it was |
| Drain.Swarm.UndoTwice | pmcluster/internal/backups/drain.go:67-68 | after an undo whose calls took effect a second one changes nothing, whatever becomes of its calls |
| Plan.ListDirs | pmcluster/internal/backupagent/agent.go:259-273 | the stack directories not already known, each once, in listing order |
| Plan.OrphanDirs | pmcluster/internal/backupagent/agent.go:300-319 | the same, sorted |
| Plan.SortedIsUnique | pmcluster/internal/backupagent/agent.go:317 | the sorted list of a set of names is unique, so a report is determined by its names |
| Plan.LeMeaning | pmcluster/internal/backupagent/agent.go:317 | the order is Go's: a prefix, or the smaller character at the first difference |
| Plan.PartitionInPlace | pmcluster/internal/backupagent/agent.go:287-295 | filtering over the same array loses nothing: live stacks in front, the rest are orphans |
| Plan.Derive | pmcluster/internal/backupagent/agent.go:281-298 | the directories split into stacks, in listing order, and sorted orphans, without loss, overlap or repetition |
| Plan.MountedDirs | pmcluster/internal/backupagent/plan_mounts.go:47-64 | a directory counts as mounted exactly when a mount lies below it and its name does not start with two dots |
| Plan.PlanFromMounts | pmcluster/internal/backupagent/plan_mounts.go:22-81 | a directory is planned exactly when it is mounted, recently archived or recently changed |
| Plan.AdoptOrphans | pmcluster/internal/cli/backupagent.go:169-189 | every directory changed since a dated plan is planned exactly once, what was planned stays, and the plan is sorted if something was taken in and untouched otherwise |
| Plan.UnplannedAfterAdoption | pmcluster/internal/backupagent/agent.go:448-469 | after adoption the unplanned report is exactly the unchanged leftovers |
| Leadership.WatchSwarmLeadership | pmcluster/internal/cli/leader.go:144-198 | the polling loop emits the specified sequence |
| Leadership.EmitsExactlyTheEdges | pmcluster/internal/cli/leader.go:170-192 | over leader and follower polls the emitted sequence is the poll sequence without repeats |
| Leadership.ControlLoops.Consume | pmcluster/internal/cli/serve.go:355-382 | for every emission sequence at most one loop context is uncancelled, and one is exactly when the last value was true |
| Leadership.LoopsFollowPolls | pmcluster/internal/cli/leader.go:148-192 | the loops follow the polls throughout a run if and only if no unreachable follows follower or worker and no worker follows leader or unreachable |
| Leadership.LiveIffLeader | pmcluster/internal/cli/leader.go:170-192 | over leader and follower polls the loops are live exactly when the last poll said leader |
| Credentials.SecretsOnlyAccumulate | pmcluster/internal/cluster/credentials.go:157-178 | whatever operations run and wherever each is cut off, no secret is removed or altered |
| Credentials.RotationNeverDangles | pmcluster/internal/cluster/credentials.go:350-367 | at every point of a rotation the row names an existing secret |
| Credentials.RotationCompletes | pmcluster/internal/cluster/credentials.go:350-376 | once the row names the new secret it holds the new password, and no later failure takes that back |
| Credentials.RotationWindow | pmcluster/internal/cluster/credentials.go:360-387 | row and secret disagree in exactly one window, between the two store writes, also when the restart or the console update fails |
| Credentials.RotationRestarts | pmcluster/internal/cluster/credentials.go:372-376 | the consuming service is restarted once, right after the row names the new secret, and nothing else ever is |
| Credentials.ConsoleWindow | pmcluster/internal/cluster/credentials.go:372-387 | the console's copy is stale exactly from the storing of the password to the last call |
| Credentials.EnsureWindow | pmcluster/internal/cluster/credentials.go:210-267 | an ensure cut off anywhere over an existing secret keeps agreement exactly when what it stored so far is what the secret holds |
| Credentials.EnsureKeepsAgreement | pmcluster/internal/cluster/credentials.go:210-267 | a complete ensure over an existing secret keeps agreement exactly when the value to store is the one the secret holds |
| Credentials.MintWindow | pmcluster/internal/cluster/credentials.go:272-305 | minting cut off anywhere: the row dangles exactly between its two calls when no secret of that name was there, and when row and secret agree |
| Credentials.EnsureMints | pmcluster/internal/cluster/credentials.go:272-305 | a newly minted credential agrees with its secret |
| Credentials.MaterialiseFinishesMint | pmcluster/internal/cluster/credentials.go:149-178 | healing an interrupted minting reaches the state minting would have reached |
| Credentials.MaterialiseHeals | pmcluster/internal/cluster/credentials.go:149-178 | a missing secret comes back with the row's value and the row is not touched |
| Credentials.Manager.Rotate | pmcluster/internal/cluster/credentials.go:321-398 | the daemon token, unknown and missing credentials are refused before any call; otherwise the calls up to the failing one stand, and success means all were made: the consumer restarted, the console updated |

## Left out

- S3 transport and request signing, HTTP handlers, command-line output, telemetry: a bucket is a set of keys with put, head, list and delete.
- gzip and tar encoding, hashing, database integrity checks, encryption: an archive is a sequence of entries, verification is a gate that passes or not.
- Snapshots, freezing, mounting and the run lock: the snapshot is a frozen tree and one run at a time writes.
- File modes, ownership, hard links and following symlinks in the destination: where the program would follow a link the model stops with an error; an entry path that leaves the target and re-enters it through the target's own name is treated as leaving it.
- The status of the run a restore starts from (only succeeded and offsite-missing runs are restorable).
- Raw-directory backups, which are copied tree to tree instead of extracted.
- Retention.ShouldDelete: integers are unbounded; Go's duration product overflows beyond about 106751 days.
- Prune.PruneResult: freed bytes and message texts are not modelled.
- Pipeline.Node: each node has an archive directory of its own; one shared with other nodes' artifacts is not modelled (`Prune.ArchiveDir.PruneLocalToNewestOfStack` shows that the clean-up leaves those alone).
- Pipeline.Write: clocks increase across the runs of a node, so no write is cut off over a name that is already there; and the destinations do not lose objects on their own.
- Pruning of control-plane archives, cron schedules, settings, the wizard, joining, update and reconcile: outside the backup pipeline or settled by reading one function.
- Leadership.WatchSwarmLeadership: cancellation of the context, which ends the loop early, and logging.
- Credentials.Manager: password generation, hashing and the content-addressed secret name are inputs.
