# A verified model of Project Snow's operations helper and review pipeline

This project models, in Dafny, the parts of Project Snow that must never lose something:
the maintenance helper that archives, restores, stages, promotes and cleans up releases on
one host (`App/ops`), the pipeline that keeps human review decisions across rebuilds
(`App/pipelines`), and a few exact algorithms both depend on. Code that rewrites files or
fields step by step is a class with those fields, its loops written out; each such method
is proved against a specification function, and the lemmas prove what runs of those
functions keep. Docker, systemd, the disk and the network are non-deterministic methods:
a command may succeed, fail without effect, or fail after it has taken effect.

`dafny verify dfyconfig.toml` checks everything.

## Map

| file | content |
|---|---|
| `Prelude.dfy`, `Text.dfy`, `Sorting.dfy` | options, digests, identifiers, string operations, a canonical order |
| `ReleaseModel.dfy`, `Baselines.dfy`, `Retention.dfy`, `ReleaseHost.dfy`, `HostRules.dfy` | anchors, index, baseline registry, retirement, restore: specification, runs, methods, and when each operation is accepted |
| `RestoreCrash.dfy`, `DanglingSettings.dfy` | a restore killed between two of its writes; what a restored slot depends on and how it can lose it |
| `ImageGc.dfy` | image collection beside everything else that uses the Docker daemon |
| `Candidates.dfy`, `Acceptance.dfy`, `AcceptanceRules.dfy`, `AcceptanceDesk.dfy`, `AutoStage.dfy` | reservation, receipts and approvals, automatic staging |
| `FieldFiles.dfy`, `SharedGate.dfy`, `GateRules.dfy`, `SwapHistory.dfy` | key=value files, the shared-dependency gate, grants over time |
| `Sandbox.dfy`, `Installer.dfy`, `Routing.dfy` | updates under partial failure |
| `Segmentation.dfy`, `ReviewJobs.dfy`, `JobSplitting.dfy`, `ReviewMerge.dfy`, `ReviewQueue.dfy`, `ReviewRules.dfy`, `ReviewStore.dfy`, `ProfileReviews.dfy` | review jobs, candidates and profiles |
| `Chunking.dfy`, `TextShape.dfy`, `ChunkLimit.dfy`, `ChunkOverlap.dfy`, `UnicodeRanges.dfy`, `Monitor.dfy` | exact algorithms |

## Assumptions

- SHA-256 of a canonical document, and `stable_id` built on it, are injective. They are
  datatype constructors, so two digests are equal exactly when the documents are.
- `os.replace` and `os.rename` are atomic, and operations under the release lock do not overlap.
- `docker image rm` without force refuses an image that a container uses.
- The Docker daemon gives every new container and network a fresh identifier, refuses a
  second container or network of the same name, and leaves an existing volume as it is.
- The review lock is one re-entrant lock over the review directory, and one extraction worker runs at a time.
- One automatic staging runs at a time and nothing else writes its inbox files; the release
  runner calls `record_candidate` under the release lock.
- Decimal digits are those of Unicode 15, as in Python 3.12.
- Paths, owners and modes are as the helper requires them (root-controlled, no links).

## Findings

- **Repeating an interrupted restore.** The comment at `App/ops/release_state.py:372-373`
  says that an interrupted preparation can be repeated from the anchor. The code archives
  the slot first (lines 359-360), and that refuses a half-written slot. `RetryVerdict`
  gives the exact condition; for another application or embedding image no part of the
  writes, once begun and unfinished, can be repeated. Into a slot without a marker a repeat always works (`FreshSlotRetry`).
- **A restored slot can lose its settings.** Restoring points the slot's environment into
  the anchor. Once that slot has been archived under its new name, the first anchor is no
  longer protected and may be retired, after which the slot's settings files are gone
  (`RestoreThenRetire` for every such host, `PointsOutsideHappens` for a run from a new
  host; exact conditions `IndexingPointsOutside` and `RetireReadable`).
- **Split children can collide.** A child job is named by its page and evidence alone, so
  splitting may repeat the id of an existing row (`SplitCanCollide`; exactly when:
  `SplitDistinctIff`). Merging then refuses the queue.
- **A second split is not always idle.** Distinct ids in the queue do not suffice: a row
  called like a new child gains a parent link in the second split
  (`SecondSplitCanChange`; exactly when: `SplitTwiceIff`).
- **Recording twice in the same instant.** Re-recording a reservation revokes earlier
  receipts through `recorded_at`; a receipt survives it if and only if the recording time
  is the same (`SameInstantKeeps`).
- **A missing profile stays marked.** When the sources of a profile return, its
  `source_missing_from_build` flag is copied from the stored row and stays set
  (`MissingMarkStays`, in general `BuiltRow`).
- **`max_chars` is no bound** on a chunk: for texts with sentences of up to n characters it
  is one exactly when the longest stripped tail, a blank line and n characters fit into it
  (`LimitHoldsIff`; the bound in general is `ChunksAreBounded`).
- **An overlap of zero is no overlap of zero.** The slice `[-0:]` is the whole chunk, so
  every chunk repeats all of the one before, up to blanks (`NoOverlapRepeatsAll`), except after a first
  sentence that had to be cut, whose rest simply follows (`NoOverlapCutsFirst`, for
  instance `NoOverlapCanDiffer`; exactly when all chunks repeat: `NoOverlapIff`).

## Model

| member | source | states |
|---|---|---|
| `Baselines.RegistryIsRecentFirst` | App/ops/release_state.py:488-519 | after any marks from an empty registry, active followed by retirable lists every id ever marked exactly once, most recent mark first, and active holds the first two |
| `Baselines.MarkMovesToFront` | App/ops/release_state.py:508-516 | one mark moves its id to the front of the combined list and drops only its older entry |
| `Retention.ArchiveGrows` | App/ops/release_state.py:255-310 | archiving a colour only adds an anchor, and the id it returns is installed and verifies |
| `Retention.StepReady` | App/ops/release_state.py:420-447 | one operation keeps every anchor named by the index and every active baseline intact, and loses or alters no archived bytes |
| `Retention.RunReady` | App/ops/release_state.py:255-326 | the same over every run of archive, mark, retire, unretire, restore, staging and promotion steps, killed ones included |
| `Retention.RetireReady` | App/ops/release_state.py:617-646 | retirement never touches a protected anchor and keeps the bytes in the retired area |
| `Retention.MarkReady` | App/ops/release_state.py:488-519 | marking keeps every protected anchor intact: only a verified, installed anchor enters the active set |
| `Retention.RestoreReady` | App/ops/release_state.py:329-382 | restoring, killed after any number of writes, keeps every protected anchor and all archived bytes |
| `RestoreCrash.RunGenuine` | App/ops/release_state.py:255-310 | in every reachable state every anchor is named by its content, is consistent, carries the settings it points to and never points into itself |
| `RestoreCrash.ArchiveSucceeds` | App/ops/release_state.py:290-293 | an existing anchor of the same name never makes archiving fail: it succeeds exactly when the slot agrees with itself |
| `RestoreCrash.MixedAgrees` | App/ops/release_state.py:255-276 | a slot with the first k of the four files replaced agrees with itself exactly in the listed cases |
| `RestoreCrash.PrefixVerdict` | App/ops/release_state.py:361-376 | archiving accepts the slot left by a killed restore if and only if the prefix passes (nothing or everything written, or equal images and, from the manifest on, equal commit); the active release does not move |
| `RestoreCrash.HalfRestoredIsStuck` | App/ops/release_state.py:359-360 | from a rejected prefix, after any further steps that do not stage into the slot, the slot is as the crash left it, archiving it is refused without a change, archive_colours fails as a whole, and every restore into it is refused |
| `RestoreCrash.RetryVerdict` | App/ops/release_state.py:359-376 | repeating a killed restore succeeds if and only if the prefix passes |
| `RestoreCrash.FreshSlotRetry` | App/ops/release_state.py:359-376 | into a slot without a marker a repeat after any number of writes succeeds and leaves the slots of an uninterrupted restore, and before the marker is written the same host |
| `DanglingSettings.RetireReadable` | App/ops/release_state.py:617-646 | retiring an anchor keeps a slot's settings readable if and only if its environment does not point into that anchor |
| `DanglingSettings.RestoreNamesAnchor` | App/ops/release_state.py:361-364 | a restore leaves the slot pointing into the anchor whenever the anchor carries settings |
| `RestoreCrash.RestoreRoundTrip` | App/ops/release_state.py:329-382 | archiving a completely restored slot captures the anchor's own manifest, settings, images and configuration again; the environment differs in its upstream alone and the other slot is untouched |
| `DanglingSettings.IndexingPointsOutside` | App/ops/release_state.py:313-326 | archiving a slot that points into an anchor leaves that anchor unprotected exactly when it is neither retired nor an active baseline, both slots have a marker and the other one is not saved under the anchor's id |
| `DanglingSettings.RetireCanDangle` | App/ops/release_state.py:529-532 | in that situation the anchor can be retired, and the slot can then no longer be archived |
| `DanglingSettings.RestoreThenRetire` | App/ops/release_state.py:329-382 | for every host on which a restore of an anchor with settings and then archiving succeed, and whose other slot holds another commit: the anchor is unprotected, can be retired, and the slot is then lost to archiving, while the retention guarantees hold |
| `DanglingSettings.PointsOutsideHappens` | App/ops/release_state.py:313-382 | it happens in a run from a new, sound host: archive, restore the staged release into its own slot, archive, retire; the retention guarantees hold all along and the slot ends without its settings |
| `DanglingSettings.IndexOfEnvironments` | App/ops/release_state.py:313-326 | a successful archive_colours names, per colour, an anchor of the slot's present environment, and changes only the index and the anchors |
| `ReleaseHost.HostState.ArchiveColour` | App/ops/release_state.py:255-310 | the in-place method does what the specification says, verification of an existing anchor included |
| `ReleaseHost.HostState.ArchiveAll` | App/ops/release_state.py:313-326 | the loop over the colours, killed after any effect, reaches the specified host |
| `ReleaseHost.HostState.BaselineMark` | App/ops/release_state.py:488-519 | filter, insert and the popping loop give exactly the specified registry |
| `ReleaseHost.HostState.AnchorRetire` | App/ops/release_state.py:617-646 | all refusals, then the move, as specified |
| `ReleaseHost.HostState.AnchorUnretire` | App/ops/release_state.py:649-665 | moves first and verifies afterwards |
| `ReleaseHost.HostState.PublishSlot` | App/ops/release_state.py:367-381 | killed after k writes, exactly the first k files are new, marker fourth, stage receipt removed last |
| `ReleaseHost.HostState.RestoreColour` | App/ops/release_state.py:329-382 | the whole restore, refusals and killed runs included, is the specified step, which `RestoreAcceptedIff` and `RunningIsNotRestored` characterise |
| `HostRules.RunningIsNotRestored` | App/ops/release_state.py:329-332 | without a running release nothing is restored, and into the running release's own colour nothing ever is |
| `HostRules.RunningSlotStays` | App/ops/release_state.py:329-382 | no operation but staging into it changes the running release's slot |
| `HostRules.ActiveReleaseIff` | App/ops/maintenance.py:123-137 | the running release is what colour file, marker, manifest and environment all say |
| `HostRules.VerifiedContent` | App/ops/release_state.py:137-160 | two directories that verify under one id hold the same files for the same commit |
| `HostRules.RestoreAcceptedIff` | App/ops/release_state.py:329-382 | on a reachable host a restore runs to its end exactly for the colour that is not running, an installed verified anchor with the running shared images and its released configuration, and a slot that can be saved first |
| `HostRules.RestoredFiles` | App/ops/release_state.py:361-381 | after k effects of an accepted restore, file by file: environment with the new upstream and settings inside the anchor, manifest, binding, marker, and last no stage receipt |
| `HostRules.ArchiveAcceptedIff` | App/ops/release_state.py:255-293 | on a reachable host a colour is archived exactly when its four files name one commit and its images and every settings pointer can be followed |
| `HostRules.ArchivedFiles` | App/ops/release_state.py:277-310 | the archived anchor holds the slot's files and the texts behind its settings pointers; an anchor that is already there is left as it is |
| `HostRules.ArchiveColoursIff` | App/ops/release_state.py:313-326 | the index is written exactly when the running colour has a marker and every colour that has one is archived, and then names just their anchors; otherwise it stays |
| `HostRules.MarkAcceptedIff` | App/ops/release_state.py:488-519 | a baseline is marked exactly for an installed verified anchor of a feature version x.y.0, or of 1.0.0 for the one grandfathered anchor; only the registry changes |
| `HostRules.RetireAcceptedIff` | App/ops/release_state.py:617-646 | an anchor is retired exactly while the index is fresh and it is verified, backed up and neither indexed nor an active baseline; then it is moved and nothing else changes |
| `HostRules.UnretireUndoesRetire` | App/ops/release_state.py:617-665 | bringing back what was just retired restores the host |
| `HostRules.UnretireAcceptedIff` | App/ops/release_state.py:649-665 | bringing back happens exactly while the place is free, and is reported as a success exactly when the anchor then verifies |
| `ImageGc.CandidatesAreFree` | App/ops/release_state.py:846-887 | no candidate is used by a container or is what a protected reference resolves to, and every coordinate of one is a Snow repository, alone or followed by `@` and a digest or by `:` and a tag |
| `ImageGc.CandidatesIff` | App/ops/release_state.py:846-887 | with all anchors known and verified and every protected reference installed, exactly the unused, unprotected images whose coordinates are all Snow's are offered |
| `ImageGc.ProtectedReferenceIff` | App/ops/release_state.py:758-795 | a reference is protected exactly when the running environment, a slot, a manifest, a retained anchor or the legacy baseline names it |
| `ImageGc.CandidatesAreUnpinned` | App/ops/release_state.py:758-795 | file by file, no candidate is an image that the runtime, a slot, a manifest, a retained anchor or the legacy baseline pins |
| `ImageGc.EventResolves` | App/ops/release_state.py:758-795 | no event of the host or the daemon unresolves a reference protected at that moment or uninstalls its image |
| `ImageGc.RollbackImagesStay` | App/ops/release_state.py:890-902 | while an anchor stays protected, under every interleaving of release operations, container starts, pulls and planned deletions each image its environment pins stays installed and named |
| `ImageGc.RemovalKeepsCandidates` | App/ops/release_state.py:890-902 | removing a candidate leaves exactly the other candidates and every protected reference resolved |
| `ImageGc.SparedRemoval` | App/ops/release_state.py:895-901 | a planned image is still safe to remove after others pulled images and started containers in between |
| `ImageGc.Collector.ImageGcPlan` | App/ops/release_state.py:846-887 | the loops that collect protected ids compute exactly the specified plan, or refuse when a retained image is missing; `CandidatesIff` says which images that is |
| `ImageGc.Collector.DeletePlannedImages` | App/ops/release_state.py:890-902 | with others active between all commands, protected references and running containers keep their images and only requested images disappear |
| `Sandbox.Drill.Open` | App/ops/restore_drill.py:336-344 | whatever the network command does, the drill can still find what it made, and others are untouched |
| `Sandbox.Drill.Create` | App/ops/restore_drill.py:346-389 | volume and container names are planned before the command, so a lost answer leaves nothing untracked |
| `Sandbox.Drill.Discover` | App/ops/restore_drill.py:394-430 | complete discovery records every labelled resource, and records nothing that is not the drill's |
| `Sandbox.Drill.Close` | App/ops/restore_drill.py:394-442 | an empty report means no labelled container, network or volume is left; everybody else's are exactly as before |
| `Sandbox.Drill.Perform` | App/ops/restore_drill.py:582-594 | over any script and any failures the work directory is deleted exactly when nothing is reported, and then nothing is left |
| `AcceptanceDesk.Desk.PrepareReceipt` | App/ops/candidate_acceptance.py:283-341 | a new receipt is stored only when all checks pass now; otherwise nothing changes |
| `AcceptanceDesk.Desk.ApproveReceipt` | App/ops/candidate_acceptance.py:344-361 | an approval is recorded exactly when the receipt is stored under its id, expects the named release, describes what is there now and is open now and after the probes; otherwise nothing changes |
| `AcceptanceDesk.Desk.VerifyCandidate` | App/ops/candidate_acceptance.py:364-388 | the sequence of checks returns a receipt exactly when the specification does |
| `AcceptanceDesk.Desk.RecordCandidate` | App/ops/release_state.py:811-827 | the reservation is written or refused as specified, at a later time than everything before |
| `AcceptanceDesk.Desk.DiscardCandidate` | App/ops/release_state.py:830-843 | the reservation is removed only for its own commit, and as completed only when that commit is active |
| `AcceptanceRules.RecordAcceptedIff` | App/ops/release_state.py:811-827 | a reservation is accepted exactly for a complete commit and the inactive colour, with no third commit reserved and no other bytes of the same commit |
| `AcceptanceRules.SnapshotIff` | App/ops/candidate_acceptance.py:169-244 | a snapshot can be taken exactly when the candidate is reserved and staged on the expected running release, both APIs run exactly their images, both settings files are readable and the build is the manifest's |
| `AcceptanceRules.ReceiptIssuedIff` | App/ops/candidate_acceptance.py:283-341 | a receipt is issued exactly for a lifetime of a minute to a day, passing evidence for this candidate and release, and a snapshot that can be taken |
| `AcceptanceRules.ApprovalGrantedIff` | App/ops/candidate_acceptance.py:344-361 | an approval is granted exactly for a stored receipt whose window is open now and after the probes, for the expected release, with nothing bound changed; it carries the present time |
| `AcceptanceRules.ApprovalsAreGranted` | App/ops/candidate_acceptance.py:344-361 | every approval found after a run was there before or was granted in a world in which its receipt was stored and still held |
| `AcceptanceRules.VerifiedIff` | App/ops/candidate_acceptance.py:364-388 | verification succeeds exactly for an approval of a stored receipt of this colour and commit that still holds, approved between preparation and now |
| `AcceptanceRules.UndisturbedIsVerified` | App/ops/candidate_acceptance.py:283-388 | a candidate that nothing disturbs gets through: prepared, approved and verified within the lifetime, whatever waiting lies between |
| `Acceptance.EqualSnapshots` | App/ops/candidate_acceptance.py:169-244 | equal snapshots mean equal bound files, public settings and both API containers |
| `Acceptance.ReceiptsAreIssued` | App/ops/candidate_acceptance.py:247-258 | every receipt found after a run was there before or was issued at some moment of it |
| `Acceptance.VerifyMeansUnchanged` | App/ops/candidate_acceptance.py:261-280 | a successful verify means: at some earlier moment every check passed, nothing bound has changed since, the expected release is active, the window holds even after the probes, and the approval lies in between |
| `Acceptance.SupersededForever` | App/ops/release_state.py:811-843 | once no reservation as old as t is left, none ever appears again |
| `Acceptance.EndedReservationRevokes` | App/ops/release_state.py:811-843 | after completion, discard or re-recording no earlier receipt ever verifies |
| `Acceptance.SameInstantKeeps` | App/ops/release_state.py:823-827 | a receipt that holds still holds after its candidate was recorded again if and only if the recording time is the same |
| `AutoStage.ReservationStays` | App/ops/release_state.py:811-827 | while its commit is neither active nor released by name, a reservation keeps its commit and manifest bytes under every interleaving |
| `AutoStage.LaunchesAreVerified` | App/ops/auto_stage.py:116-142 | the runner is only launched on manifest bytes that the installed verifier accepted for that commit |
| `AutoStage.NoSilentRerun` | App/ops/auto_stage.py:106-110 | without retry a failed or interrupted commit is not launched again until the attempt file stops naming it |
| `AutoStage.RetryDecides` | App/ops/auto_stage.py:103-110 | from a held commit the same steps launch the runner exactly when retry was given |
| `AutoStage.ChosenIff` | App/ops/auto_stage.py:98-115 | main is chosen exactly when it is a complete commit other than the running one, no third commit is reserved, and the same commit's reservation or unfinished attempt only on retry |
| `AutoStage.PublishedIff` | App/ops/auto_stage.py:129-138 | the second section publishes exactly after a gap without promotion or another reservation, for the colour that is not running; otherwise nothing but the invocation changes |
| `AutoStage.LaunchesAreRightful` | App/ops/auto_stage.py:129-148 | under every interleaving the runner is only launched for publications that were for a colour not running at that moment, while no third commit was reserved |
| `AutoStage.WholeInvocation` | App/ops/auto_stage.py:90-148 | an undisturbed invocation launches once, for the idle colour, leaves the candidate reserved on the running release and the runner's verdict in the attempt file |
| `AutoStage.Stager.Choose` | App/ops/auto_stage.py:98-110 | the first locked section: every reason to stop, and otherwise the choice |
| `AutoStage.Stager.Publish` | App/ops/auto_stage.py:129-138 | the second locked section: publishes exactly when the running release is the one chosen on and no third commit has been reserved; otherwise file, inbox and publications stay |
| `AutoStage.Stager.Finish` | App/ops/auto_stage.py:139-148 | the attempt file names the commit as staged or failed, by the runner's verdict |
| `FieldFiles.ParseFields` | App/ops/maintenance.py:67-76 | the line loop computes the specified map, or refuses an invalid or repeated key; lines end at every character at which the program ends them |
| `FieldFiles.RoundTrip` | App/ops/maintenance.py:442-449 | written fields read back exactly |
| `FieldFiles.RewriteRoundTrip` | App/ops/release_state.py:361-369 | an environment read from a file, with fields replaced and written back in any order, reads back as just that |
| `FieldFiles.ReadIff` | App/ops/maintenance.py:67-76 | a file is read exactly when every meaningful line sets a proper key and no key twice |
| `FieldFiles.ReadIs` | App/ops/maintenance.py:67-76 | what is read are exactly the settings of the meaningful lines |
| `FieldFiles.CutText` | App/ops/maintenance.py:450-457 | of a file whose writing stopped early, the last field is never read in full unless only the final line break is missing |
| `SharedGate.WrittenGrantAuthorizes` | App/ops/maintenance.py:319-353 | a grant as written authorizes exactly the swap it names and is an error for any other |
| `SharedGate.TornGrantRefused` | App/ops/maintenance.py:450-457 | a grant whose writing stopped early authorizes nothing |
| `SharedGate.GateIff` | App/ops/maintenance.py:356-403 | the gate opens exactly when all other shared items are well formed and unchanged and each of the two special ones is unchanged or authorized |
| `GateRules.OthersSameIff` | App/ops/maintenance.py:356-384 | the items that no grant covers are four images and two files, each present, well formed and equal in both releases |
| `GateRules.AuthorizedIff` | App/ops/maintenance.py:319-353 | a swap is authorized exactly by a file under the destination's digest with just the five fields, the right schema, proof and the swap's two references |
| `GateRules.GrantText` | App/ops/maintenance.py:442-449 | what a grant file says, byte by byte |
| `GateRules.FileNameIs` | App/ops/maintenance.py:301-309 | grants are filed under the digest alone, whatever the repository |
| `SwapHistory.AskIff` | App/ops/maintenance.py:500-536 | the answer of a grant directory is what the history of calls says |
| `SwapHistory.GrantDirectory.Write` | App/ops/maintenance.py:442-457 | writing replaces exactly the grant file of the same destination |
| `SwapHistory.GateOverHistory` | App/ops/maintenance.py:428-472 | over every sequence of authorizations, clears, interrupted ones of both, and promotions the gate accepts exactly candidates whose changes are covered by the surviving grant for that destination, naming what runs and what comes |
| `SwapHistory.EmbeddingGrantedIff` | App/ops/maintenance.py:428-442 | an embedding grant is written exactly for two different immutable references of which the first one runs, with a passing probe of just these |
| `SwapHistory.EgressGrantedIff` | App/ops/maintenance.py:539-576 | an egress grant is written exactly after a passing parse, for the two different digests that both releases name |
| `SwapHistory.CoverWasAskedFor` | App/ops/maintenance.py:428-472 | a surviving grant goes back to a call that was accepted while its source was running, for exactly that swap |
| `SwapHistory.CallsAre` | App/ops/maintenance.py:442-457 | an accepted call changes the file of its destination alone, an interrupted one leaves the beginning of the text there |
| `SwapHistory.GrantDirectory.Clear` | App/ops/maintenance.py:461-472 | removes every grant, or stops, at the first foreign entry or when killed, with exactly the earlier ones removed |
| `SwapHistory.GrantsAreCleared` | App/ops/maintenance.py:461-472 | clearing never stops at a file that the helper wrote |
| `Installer.StepForward` | App/ops/install_maintenance.py:175-182 | each publication step extends the published prefix by one destination |
| `Installer.Transaction.Publish` | App/ops/install_maintenance.py:175-182 | publication stops at a prefix of the plan, and the pointer is new only when everything else is |
| `Installer.Transaction.Undo` | App/ops/install_maintenance.py:186-192 | without a failed undo step every destination has its original value again; with failures it goes on |
| `Installer.Transaction.Install` | App/ops/install_maintenance.py:98-206 | committed means all new, rolled back means all old, and every state in between is between old and new |
| `Installer.CommittedIs` | App/ops/install_maintenance.py:98-206 | after a committed installation every helper entry goes through `current`, every unit has its new text and `current` is the new generation |
| `Installer.CommittedIsOneGeneration` | App/ops/install_maintenance.py:98-182 | after a committed installation every helper entry resolves to the new generation |
| `Installer.NeverAMixture` | App/ops/install_maintenance.py:176-182 | entries that were links through `current` always resolve to one generation, the old or the new |
| `Routing.FingerprintIff` | App/ops/routing.py:52-65 | fingerprints agree exactly when the fixed fields and networks agree and the mounts are equal as a multiset |
| `Routing.RoutingDirectory.Prepare` | App/ops/routing.py:113-150 | the route ends at the requested colour, or with the previous content when the reload fails, or untouched when refused |
| `Routing.RoutingDirectory.RecordServices` | App/ops/routing.py:153-173 | all named services are bound to what runs now, or nothing is |
| `Routing.PrepareAcceptedIff` | App/ops/routing.py:113-150 | preparing goes ahead exactly for known services, a release that imports the route, one read-only mount of the routing directory and readable models and bindings |
| `Routing.RecordAcceptedIff` | App/ops/routing.py:153-173 | recording goes ahead exactly when the route is the target's and every named service has a model and a running container |
| `Routing.RoutingDirectory.SelectLegacy` | App/ops/routing.py:33-43 | the startup route is rewritten only for a release that does not import it, and only where a routing directory exists |
| `Routing.SelectPartitions` | App/ops/routing.py:127-136 | every requested service is either retained or recreated, as often as requested |
| `Routing.RetainedIff` | App/ops/routing.py:127-136 | over every history a service is retained exactly when model and container are those of the last record that bound it |
| `Sorting.SortIsCanonical` | App/ops/routing.py:59-60 | sorted lists are equal exactly when the lists are equal as multisets |
| `Segmentation.ContinueIsSegmentation` | App/pipelines/build_graph.py:355-374 | the groups concatenate to the input and each is non-empty and within the limit, or one document |
| `Segmentation.SegmentsAreMinimal` | App/pipelines/build_graph.py:355-374 | no order-preserving partition with that rule has fewer groups |
| `Segmentation.AllowedStaysWhole` | App/pipelines/build_graph.py:355-374 | a group the cutting made is not cut again |
| `Segmentation.SplitEvidence` | App/pipelines/build_graph.py:355-374 | the loop with its running size returns such a minimal partition; a limit below one is the error |
| `ReviewJobs.SplitPending` | App/pipelines/build_graph.py:419-476 | the loop over the queue rewrites it as specified, parent links and the error included |
| `ReviewJobs.SplitConserves` | App/pipelines/build_graph.py:447-474 | only a targeted job is split; its children carry its available evidence in order and are listed by the superseded row |
| `JobSplitting.QueueConserves` | App/pipelines/build_graph.py:447-474 | following a split parent's child ids through the rewritten queue gives rows that together carry exactly its available evidence, in order |
| `ReviewRules.RewrittenRowIs` | App/pipelines/build_graph.py:419-476 | every row of the rewritten queue is a row of the queue, possibly linked to its parent, a superseded parent or a queued child of one |
| `ReviewRules.SplitAcceptedIff` | App/pipelines/build_graph.py:355-448 | splitting is refused exactly for a limit below one, and only when some row is to be cut |
| `JobSplitting.SplitDistinctIff` | App/pipelines/build_graph.py:386-388 | the split queue has distinct ids if and only if the queue has, no row is already called like a segment of an oversized targeted job, and no two such segments share page and documents |
| `JobSplitting.SplitCanCollide` | App/pipelines/build_graph.py:386-388 | a concrete queue with distinct ids whose split repeats one |
| `JobSplitting.SplitTwiceIff` | App/pipelines/build_graph.py:432-445 | a second split changes no row if and only if no row without parent and not listed by a superseded row is called like a segment of an oversized targeted job |
| `JobSplitting.SecondSplitCanChange` | App/pipelines/build_graph.py:432-445 | a concrete queue with distinct ids on which the second split gives a completed row a parent |
| `JobSplitting.SplitIsIdempotent` | App/pipelines/build_graph.py:419-476 | a split that leaves distinct ids is stable: the second one changes no row |
| `ReviewMerge.IndexRows` | App/pipelines/review_state.py:20-23 | the dictionary is as large as the queue exactly when no id repeats |
| `ReviewMerge.PreserveReviewJobs` | App/pipelines/review_state.py:19-38 | the merge loop computes the specified queue, or the error for repeated stored ids |
| `ReviewMerge.PreserveKeeps` | App/pipelines/review_state.py:19-38 | every earlier row stays unchanged in its place and ids stay distinct |
| `ReviewMerge.PreserveRepresents` | App/pipelines/review_state.py:28-34 | every generated evidence set has a row of its job or of a revision of it |
| `ReviewRules.MergedRowIs` | App/pipelines/review_state.py:24-37 | every added row is a generated one or a revision of one that names it as its predecessor |
| `ReviewMerge.PreserveIsIdempotent` | App/pipelines/review_state.py:24-37 | merging the same rows again changes nothing |
| `ReviewQueue.RunKeepsMarks` | App/pipelines/extract_relation_candidates.py:458-530 | under every interleaving of worker, people, splitting and builds no row's evidence and no outcome is lost |
| `ReviewQueue.ClosedForever` | App/pipelines/extract_relation_candidates.py:470-471 | a completed, resolved or superseded row is found with the same outcome after any further steps |
| `ReviewQueue.FinishSwapsOrSaves` | App/pipelines/review_state.py:87-112 | a worker result replaces exactly the row it read, if that is still unchanged, and otherwise touches neither jobs nor candidates and is saved; the statuses are in `FailureCanBeRetried` and `SuccessIsFinal` |
| `ReviewRules.FailureCanBeRetried` | App/pipelines/extract_relation_candidates.py:470-490 | after a failed call the row found under the id is the same one with status failed and the call's details, and the next read takes it up again |
| `ReviewRules.SuccessIsFinal` | App/pipelines/extract_relation_candidates.py:470-530 | after a completed call the row is completed, every claim is a candidate, new ones still to be reviewed, and no read takes the row up again |
| `ReviewRules.ClosedIsNotReopened` | App/pipelines/extract_relation_candidates.py:470-471 | after any further steps a read of a closed row is refused |
| `ReviewRules.TornCanBeRetried` | App/pipelines/review_state.py:107-112 | a checkpoint stopped between its two writes leaves the row to be taken up again and every claim a candidate |
| `ReviewRules.CollapseIs` | App/pipelines/review_state.py:107-111 | rewriting the candidates keeps exactly the last row of every id |
| `ReviewRules.CollapseKeepsPlaces` | App/pipelines/review_state.py:107-111 | rewriting the candidates keeps each id at the place of its first row |
| `ReviewQueue.ConflictsAreKept` | App/pipelines/review_state.py:97-104 | no saved result is ever dropped |
| `ReviewQueue.EvidenceStaysRepresented` | App/pipelines/review_state.py:19-38 | evidence generated by an accepted build stays represented whatever happens before and after |
| `ReviewQueue.ReviewedRowsStay` | App/pipelines/extract_relation_candidates.py:612-635 | apart from a person's decision no step alters, drops or reorders a reviewed candidate |
| `ReviewQueue.DecisionsAreFinal` | App/backend/snow_app/repository.py:902-936 | every approval and rejection stays as one unaltered row over any run |
| `ReviewRules.ResolvedIff` | App/pipelines/extract_relation_candidates.py:551-571 | resolving closes exactly the first row of the id, and only while queued or failed; all others stay |
| `ReviewRules.DecidedIff` | App/backend/snow_app/repository.py:902-936 | a decision reaches exactly the candidate it names, and only while that is still to be decided |
| `ReviewRules.RevalidatedIff` | App/pipelines/extract_relation_candidates.py:599-638 | revalidation keeps reviewed candidates, refreshes the allowed pending ones and drops the others |
| `ReviewRules.RefusedAreKept` | App/pipelines/extract_relation_candidates.py:599-638 | every dropped candidate is found among the rejected ones, which only grow |
| `ReviewQueue.TornIsRepaired` | App/pipelines/review_state.py:107-112 | a checkpoint stopped between its two writes is completed by the same result: the state is as if it had never stopped |
| `ReviewStore.Files.CheckpointExtraction` | App/pipelines/review_state.py:87-112 | the in-place checkpoint succeeds exactly when the row is unchanged, and is the specified step either way |
| `ReviewStore.Files.ResolveNoEligibleRelation` | App/pipelines/extract_relation_candidates.py:551-571 | resolves exactly the first row with the id, and only if queued or failed |
| `ReviewStore.Files.RevalidateExisting` | App/pipelines/extract_relation_candidates.py:599-638 | the loop keeps, refreshes or rejects each candidate as specified, and rejects none twice |
| `ProfileReviews.PreserveProfiles` | App/pipelines/review_state.py:53-83 | the loop that pops stored profiles computes the specified merge |
| `ProfileReviews.ProfileContinues` | App/pipelines/review_state.py:53-83 | one build continues every stored profile, with its annotations and all its evidence values |
| `ProfileReviews.BuiltRow` | App/pipelines/review_state.py:63-79 | a built profile has the new source fields and evidence, is flagged exactly when its evidence changed now or before, and keeps its missing flag |
| `ProfileReviews.BuiltRowsAre` | App/pipelines/review_state.py:58-80 | the built profiles come first, in the build's order; built sources win over stored ones, stored notes over built ones, and only changed evidence enters the history, once |
| `ProfileReviews.UnbuiltRowsAre` | App/pipelines/review_state.py:80-82 | the other stored profiles follow in their order, unaltered but for the mark |
| `ProfileReviews.PreserveIff` | App/pipelines/review_state.py:55-57 | a build is refused exactly when the stored file repeats a profile |
| `ProfileReviews.MissingMarkStays` | App/pipelines/review_state.py:60-81 | three builds, with, without and again with the same profile: it ends marked as missing |
| `ProfileReviews.MergeDistinctIff` | App/pipelines/review_state.py:55-57 | the stored file stays acceptable if and only if the build names no profile twice |
| `ProfileReviews.ProfilesOutliveBuilds` | App/pipelines/review_state.py:53-83 | over any sequence of builds every profile lives on with annotations and evidence |
| `ProfileReviews.EvidenceIsNeverLost` | App/pipelines/review_state.py:72-79 | every evidence value ever built for a profile is its current one or in its history |
| `Chunking.ChunkText` | App/pipelines/common.py:652-773 | normalisation and the nested loops compute the specified chunks for any limit and overlap |
| `Chunking.NormalizeKeepsInk` | App/pipelines/common.py:652-656 | normalising changes white space only |
| `TextShape.NormalizedShape` | App/pipelines/common.py:652-656 | a normalised text has line feeds only, no two blanks or three line feeds together and nothing blank at its ends |
| `TextShape.LineEndsAre` | App/pipelines/common.py:653 | line ends of all three kinds become one line feed each |
| `TextShape.ParagraphsAreCut` | App/pipelines/common.py:748 | paragraphs joined by blank lines are the text, and none holds a blank line |
| `TextShape.SentencesAreCut` | App/pipelines/common.py:752-753 | a paragraph is cut after every sentence mark and nowhere else |
| `TextShape.SentencesOfText` | App/pipelines/common.py:748-759 | what is packed are exactly the non-empty stripped parts of the stripped paragraphs |
| `Chunking.SentencesJoin` | App/pipelines/common.py:752-753 | cutting after sentence marks loses no character |
| `Chunking.SentencesAreCovered` | App/pipelines/common.py:752-772 | every sentence but an oversized first one lies whole inside some chunk |
| `Chunking.LongSentencesSurvive` | App/pipelines/common.py:773 | the final filter costs no sentence of 24 characters or more |
| `Chunking.OversizedIsCovered` | App/pipelines/common.py:768-770 | an oversized first sentence is two pieces that share exactly the overlap and make up the whole, the second up to leading blanks |
| `Chunking.ChunksAreBounded` | App/pipelines/common.py:760-770 | no chunk is longer than the limit, or than overlap, blank line and longest sentence together |
| `ChunkLimit.LimitIsNoBound` | App/pipelines/common.py:764-767 | whenever overlap, blank line and sentence together exceed the limit, any two paragraphs of that length give a chunk of exactly that many characters |
| `ChunkLimit.LimitHoldsIff` | App/pipelines/common.py:744-773 | the limit bounds the chunks of every text whose sentences have at most n characters if and only if the longest stripped tail (the overlap, or a little less for sentences of one or two characters), a blank line and n characters fit into it |
| `ChunkOverlap.NoOverlapRepeatsAll` | App/pipelines/common.py:760-772 | with overlap zero every chunk of a text begins with all of the one before, up to blanks, except the second chunk after an oversized first sentence |
| `ChunkOverlap.NoOverlapCutsFirst` | App/pipelines/common.py:768-770 | in that case the first chunk is the first max_chars characters of the sentence and the second one goes on with its rest |
| `ChunkOverlap.NoOverlapIff` | App/pipelines/common.py:760-772 | with overlap zero all chunks repeat the one before if and only if the first sentence is not oversized or its rest begins with its first part |
| `ChunkOverlap.NoOverlapCanDiffer` | App/pipelines/common.py:768-770 | for every limit, a text whose two chunks have no common beginning |
| `ChunkOverlap.ChunksResume` | App/pipelines/common.py:764-770 | every chunk resumes with the last characters of the one before, up to blanks |
| `UnicodeRanges.SubtractExcluded` | App/scripts/build_snow_adv_fonts.py:68-84 | the nested loops compute the specified pieces |
| `UnicodeRanges.SubtractDenotes` | App/scripts/build_snow_adv_fonts.py:68-84 | the result denotes exactly the input without the excluded set, for arbitrary ranges |
| `UnicodeRanges.SubtractIsOrdered` | App/scripts/build_snow_adv_fonts.py:68-84 | increasing disjoint ranges stay so, without empty pieces |
| `UnicodeRanges.SubtractIsIdempotent` | App/scripts/build_snow_adv_fonts.py:41-84 | a second subtraction of the real exclusions returns the identical list |
| `UnicodeRanges.FontRanges` | App/scripts/build_snow_adv_fonts.py:41-48 | for the real exclusions: an ordered result that avoids exactly the emoji ranges |
| `UnicodeRanges.ExcludedAre` | App/scripts/build_snow_adv_fonts.py:41-48 | the excluded code points |
| `UnicodeRanges.Parse` | App/scripts/build_snow_adv_fonts.py:55-65 | the loop over the items computes the specified ranges or the error, with Python's integers: signs, prefixes, underscores, blanks and decimal digits of every script |
| `UnicodeRanges.ItemIs` | App/scripts/build_snow_adv_fonts.py:55-65 | an item is the low number, and the high one when it is not empty; a question mark is refused |
| `UnicodeRanges.Underscores` | App/scripts/build_snow_adv_fonts.py:64 | one underscore between digits changes nothing; at the end, or twice, it is an error |
| `UnicodeRanges.SignIsRead` | App/scripts/build_snow_adv_fonts.py:64 | a sign changes nothing but the sign |
| `UnicodeRanges.PrefixIsSkipped` | App/scripts/build_snow_adv_fonts.py:64 | a prefix of either case changes nothing |
| `UnicodeRanges.FormatRoundTrip` | App/scripts/build_snow_adv_fonts.py:55-88 | a printed list parses to itself exactly when every low end is a natural number, and otherwise is an error |
| `Monitor.CollectIsTotal` | App/ops/monitor.py:38-84 | whatever the probes do, every round reports the same seven checks once |
| `Monitor.StateFile.Run` | App/ops/monitor.py:87-108 | one run computes the specified states and transitions, or refuses a foreign state file |
| `Monitor.DebounceRefinesRule` | App/ops/monitor.py:95-101 | over every history the streak is the length of the failing run and the severity is what the stateless rule says |
| `Monitor.AlertsWhen` | App/ops/monitor.py:95-101 | disk and backup alert in the first failing round, every other check in the third in a row |
| `Monitor.CollectedDiskIs` | App/ops/monitor.py:70-75 | the fuller volume decides: critical from nine tenths on, warning from its lower limit on |
| `Monitor.CollectedQueueIs` | App/ops/monitor.py:58-65 | the queue is a warning when it cannot be judged or both its limits are used up |
| `Monitor.JournalIsComplete` | App/ops/monitor.py:102-105 | folding all transitions ever emitted, from ok, gives the current severity |

## Left out

- File owners, modes, links, inodes and directory syncs: assumed as the helper demands them.
- The legacy 0.9.6 baseline's own field-by-field validation is one flag, `intact`; origin-edge snapshots and their retirement are not modelled.
- The backup precondition of retirement (timestamps in `last-success.json`) is one flag, `backedUp`.
- Retirement's dry-run report (`retire_plan`) and the command-line front ends.
- JSON and JSONL encoding, regular expressions beyond the identifier forms, and the colour-name parsing of command-line arguments; colours are a datatype where the code checks the name.
- Unsafe relative paths in a recovery binding are not modelled: a binding names files of its configuration by name.
- Temporary `.anchor-*` directories of a killed archive are not host anchors; for image collection they are `strays`, which disable it.
- Rollout and interface flags inside the public settings: the settings' digest covers them.
- The download, the proof check and the recheck of `main` in automatic staging are one step with a verdict; the attempt file and the inbox are written in one step, and an inbox file that already holds other bytes is not modelled.
- `promote.sh` and the release runner are not part of this model; a promotion is an environment step.
- Sandbox: container start, exec and the database restore are not modelled, nor the images' digests; a lost or malformed answer is one case.
- Installer: writing the immutable generation directory and the copies of the originals in the recovery receipt; they precede the transaction.
- Sorting: mounts are sorted by a key made of their fields, not by their JSON text; only that it is a total order on whole records matters for the fingerprint.
- Routing.RoutingDirectory.Prepare: computing the service models is an input; which of several refusals is reported is not distinguished.
- ReviewJobs.SplitPending: time stamps, reasons, character context and the children's segment index and count are not modelled.
- ReviewQueue.DecisionsAreFinal: an approval's further conditions on graph nodes and the edge it writes are not modelled; a refused decision changes nothing.
- ReviewStore.Files.ResolveNoEligibleRelation: the separate audit file of resolutions is not modelled.
- The provider call, its retries, prompts and the content policy of `validate_relation_candidate`: a call is an outcome, the policy a map.
- SwapHistory.GateOverHistory: an interruption that loses only the final line break of a grant is not a step, since the grant is then complete; a manifest whose hashes are not strings is not modelled.
- Monitor.CollectIsTotal: rounding of the reported percentage and the free-text reasons.
