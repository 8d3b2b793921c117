# Release, lakehouse and pipeline control: a verified model

This project models the parts of the repository whose state has to survive crashes, races or hostile answers, and
proves what they promise. `dafny verify dfyconfig.toml` checks all of it.

| component | modules |
|---|---|
| pipeline-run reconciler | `Reconciliation`, `ReconciliationLaws`, `ReconciliationConnection`, `ReconciliationHistory`, `ReconciliationConcurrency`, `ReconciliationProgress` |
| release promotion | `ReleaseIdentity`, `Promotion`, `PromotionRegistry`, `PromotionProtocol`, `PromotionIntents` |
| release evidence | `ReleaseManifest`, `ReleaseCandidate`, `PackageRecovery` |
| release inspector | `ReleaseInspection`, `ReleaseServer` |
| previous-release selector | `SemVer`, `CommitHistory`, `PreviousRelease`, `TransitionRelease` |
| disk reclaimer | `DiskTree`, `DiskReclaim`, `DiskCleanup` |
| lakehouse store | `ObjectKeys`, `Lakehouse`, `GcsStorage`, `GenerationChain`, `StorageScope`, `Retention`, `RetentionExecution` |
| SQL guard | `SqlTree`, `SqlGuard` |
| script upload | `SsmUpload` |
| shared | `Wrappers`, `Text`, `Sorting`, `Listing`, `Sets`, `Json` |

Objects that change in place are classes (`Connection`, `Registry`, `FileSystem`, `Bucket`, `S3Storage`, `GcsStorage`,
`Host`); their methods are proved against functions and predicates over values, and the laws are lemmas about those.
Concurrent parts are state machines whose runs are quantified over: reconcilers, promoters, store clients, a release
server that moves while it is read. Fixed inventories (services, cleanup targets, ledger entries) are arbitrary
sequences with the distinctness the source has.

Assumptions, each stated where it is used:

- SHA-256 is any function in the evidence and store models, and a theorem that would need it to be free of collisions
  says "or this is a collision" instead; digests and fingerprints in the promotion and reconciler models are the bytes
  they name.
- JSON text is any printer and parser. A written manifest is assumed to be read back as it was printed (`ReadsBack`, of
  that one value), and the empty text not to parse. A stored receipt is taken as the value that was written, so the
  round trip of its text is assumed too. Decoded values compare as Python compares them: `True == 1` and `2 == 2.0`.
- A registry PUT with `If-None-Match: *` is atomic (section 13.1.2 of RFC 9110); a GCS write with a generation
  precondition is atomic; a PostgreSQL row update under a row lock is atomic.
- A store accepts a copy of an object onto itself, which then changes nothing; a service that refuses such a copy turns
  the self-publication below into an error before anything is deleted.
- Git answers ancestor and count queries truthfully for an acyclic history.
- The file system is quiet: nothing but the reclaimer changes it, and no call fails by itself.

Where the code does less than its name suggests, the model follows the code and a lemma shows it:

- A dry run can promise an update that apply loses: `DryRunPromisesTooMuch`, with the exact condition in
  `ApplyAgainstDryRun`.
- Publishing onto another spelling of the same key with overwrite deletes the published object: `PublishOntoItself`,
  with the exact condition in both stores' `Publish`.
- Deleting a prefix leaves behind a key whose validated spelling differs from itself: `BlankOutlivesDeletion`, with the
  exact condition in `DeletionIsExact`.
- On GCS such a key makes the deletion stop part way instead: `BlankStopsDeletion`, with the exact
  condition in `GcsStorage.DeletePrefix`.
- A retention run takes the objects of a batch that is to be kept when a planned prefix is shorter than its own:
  `ShorterPrefixTakesTheRest`, with the exact condition in `ExecutionKeepsTheRest`.
- A newest debug batch empties its retention group: `DebugEmptiesGroup`, with the exact condition in
  `GroupKeepsLatest`.
- Manifests of a repository with an upper-case owner load but are never selected: `ReadersDisagree`.
- A chunked upload of 10000 parts or more comes back out of order: `FailingTextFails`, with the exact bound in
  `ReassemblyBound`.

## Model

| member | source | states |
|---|---|---|
| `Reconciliation.LoadExpectation` | scripts/reconcile_pipeline_runs.py:244-318 | a loaded expectation has a target that ranks strictly above its expected status, is failed exactly when the reason is not the aggregate one, and carries evidence that supports its reason |
| `Reconciliation.LoadManifest` | scripts/reconcile_pipeline_runs.py:321-347 | a loaded manifest names each run once and every expectation in it is well formed |
| `Reconciliation.SortedManifest` | scripts/reconcile_pipeline_runs.py:344-346 | the processing order is strictly ascending by run id and loses nothing |
| `ReconciliationLaws.StatusReadsBack` | scripts/reconcile_pipeline_runs.py:97-102 | every known status survives being written to the column and normalized again |
| `ReconciliationLaws.GuardsAgreeOnStatus` | scripts/reconcile_pipeline_runs.py:375-380 | the status guard of the UPDATE and the Python guard see the same status if and only if the column is NULL or non-empty text without outer blanks |
| `ReconciliationLaws.ApplyAllEffect` | scripts/reconcile_pipeline_runs.py:444-512 | a transaction over ascending runs succeeds if and only if each expectation would succeed on the starting table; on success each row and result is given in terms of the starting table, other rows are untouched |
| `ReconciliationLaws.CommittedTransaction` | scripts/reconcile_pipeline_runs.py:528-558 | after a successful apply every named row is at its target with its fingerprint recorded, applied rows moved their fence by one, there is one audit row per applied result, and no other row changed |
| `ReconciliationLaws.ReapplyKeepsEverything` | scripts/reconcile_pipeline_runs.py:360-389 | applying the same manifest again, by anyone at any time, changes nothing and reports only already-applied runs |
| `ReconciliationLaws.ApplyAgainstDryRun` | scripts/reconcile_pipeline_runs.py:515-525 | apply succeeds if and only if the dry run does and every row it would change has an unpadded non-empty status, a non-NULL fence, an object or NULL extra column, and the audit table exists; then both agree run by run |
| `ReconciliationLaws.DryRunPromisesTooMuch` | scripts/reconcile_pipeline_runs.py:461-505 | concrete rows, a padded status and a NULL fence, for which the dry run promises an update that apply then loses |
| `ReconciliationConnection.Connection.ApplyOne` | scripts/reconcile_pipeline_runs.py:444-512 | one locked row verified, updated under compare-and-swap and audited, equal to the specification step on the open transaction |
| `ReconciliationConnection.Connection.AppendAudit` | scripts/reconcile_pipeline_runs.py:416-441 | one audit row exactly when the audit table exists |
| `ReconciliationConnection.Connection.RunAll` | scripts/reconcile_pipeline_runs.py:528-553 | the loop over ordered runs computes the whole-transaction specification, in apply and in dry-run mode |
| `ReconciliationConnection.Connection.Reconcile` | scripts/reconcile_pipeline_runs.py:528-558 | all or nothing: on error or dry run the committed table and audit log are as before, on success they are those of the specification |
| `ReconciliationConnection.FailureSpreads` | scripts/reconcile_pipeline_runs.py:538-558 | the first conflict decides the whole transaction |
| `ReconciliationHistory.HistoryIsConsistent` | scripts/reconcile_pipeline_runs.py:461-505 | over any sequence of manifests every row records a climbing trail of expectations and the audit log lists the same trail |
| `ReconciliationHistory.RunsClimbAtMostThreeTimes` | scripts/reconcile_pipeline_runs.py:32-63 | over any history a run records strictly increasing fences, all below the live one, and strictly increasing target ranks, hence at most three reconciliations |
| `ReconciliationHistory.OneCommitPerFence` | scripts/reconcile_pipeline_runs.py:370-389 | of two committed reconciliations of one run the later names a strictly higher fence, so no fence is used twice |
| `ReconciliationConcurrency.ExecutionsAreSerial` | scripts/reconcile_pipeline_runs.py:528-558 | in every state of every interleaving of lock, check, update, audit, commit and rollback steps the committed table and audit log are those of the committed reconcilers run one after the other |
| `ReconciliationConcurrency.StepKeepsReachable` | scripts/reconcile_pipeline_runs.py:398-413 | every step keeps lock ownership, private writes and serializability |
| `ReconciliationProgress.NoWaitCycle` | scripts/reconcile_pipeline_runs.py:344-346 | no cycle of reconcilers each waiting for the next is ever reached |
| `ReconciliationProgress.NoDeadlock` | scripts/reconcile_pipeline_runs.py:398-413 | while any reconciler is unfinished some reconciler can take its next step |
| `ReconciliationProgress.StepsRunOut` | scripts/reconcile_pipeline_runs.py:528-558 | every step of every reconciler uses up work |
| `ReconciliationProgress.ExecutionsEnd` | scripts/reconcile_pipeline_runs.py:528-558 | an execution has at most as many steps as there was work at the start, and where nobody can step nobody is unfinished |
| `ReleaseIdentity.Create` | scripts/release_image_promotion.py:251-280 | an identity that is created has the repository shape, the lower-case owner, a 40-digit commit, a strict tag and a positive run id |
| `ReleaseIdentity.FinalNamesDiffer` | scripts/release_image_promotion.py:1183-1184 | the two final names of a release never coincide |
| `Promotion.PlanRefsDistinct` | scripts/release_image_promotion.py:1183-1184 | over distinct services the references a release binds are pairwise different |
| `Promotion.BoundIffAgreed` | scripts/release_image_promotion.py:1252-1307 | after promotion every reference names the intended digest if and only if no reference named another digest before |
| `Promotion.ResumeCompletes` | scripts/release_image_promotion.py:1252-1307 | after a crash at any point a second run ends in the registry of an uninterrupted run, and the two together PUT each absent reference once |
| `Promotion.CrashesCostNothing` | scripts/release_image_promotion.py:1252-1307 | the same for any number of crashes at any points |
| `PromotionRegistry.Registry.PutManifest` | scripts/release_image_promotion.py:580-614 | a PUT with If-None-Match succeeds exactly on an absent reference with matching bytes and media type, and binds it |
| `PromotionRegistry.Registry.BindReference` | scripts/release_image_promotion.py:1283-1303 | one final reference is left, bound or refused, exactly by what it names now |
| `PromotionRegistry.Registry.VerifyFinal` | scripts/release_image_promotion.py:1310-1332 | succeeds if and only if the inventory is complete, every receipt and candidate is accepted, and every reference names its digest |
| `PromotionRegistry.Registry.Promote` | scripts/release_image_promotion.py:1252-1307 | succeeds if and only if the registry is promotable and no injected failure is reached, returns the number of references that were absent, and on any outcome has bound a prefix of the plan and nothing else |
| `PromotionProtocol.StepKeepsSound` | scripts/release_image_promotion.py:1187-1332 | every request of every promoter keeps the invariant that ties references, PUT log, sealed intents and phases together |
| `PromotionProtocol.BoundOnceForever` | scripts/release_image_promotion.py:580-614 | over every interleaving with crashes each reference keeps its starting digest or the one digest a single PUT gave it, whose promoter had this binding in its plan and held its run's sealed intent |
| `PromotionProtocol.ReturnedIsBound` | scripts/release_image_promotion.py:1252-1332 | from the moment a promoter returns, every reference of its plan names its own digest |
| `PromotionProtocol.DisagreeingPromotersNeverBothReturn` | scripts/release_image_promotion.py:1252-1332 | two promoters whose plans disagree on a shared reference never both return |
| `PromotionProtocol.OneSealedIntentPerRun` | scripts/release_image_promotion.py:1187-1249 | all promoters of one run that get past confirmation hold the same sealed intent, and nothing is bound without one |
| `PromotionProtocol.AloneCompletes` | scripts/release_image_promotion.py:1252-1332 | a promoter that has bound a prefix of its plan and meets no conflict binds the rest when left alone, in the registry the sequential run reaches |
| `PromotionProtocol.ReachedPromoterCompletes` | scripts/release_image_promotion.py:1252-1332 | in any state of any execution a promoter about to look at a reference completes when left alone if nothing in its plan is bound otherwise, with one PUT per absent reference |
| `PromotionProtocol.RerunCompletes` | scripts/release_image_promotion.py:1187-1332 | a re-run after crashes, a fresh promoter whose intent is the sealed one, confirms it and completes, PUTting exactly the references still absent, if its plan has distinct references and meets no conflict |
| `PromotionIntents.ReturnedIntentIsBound` | scripts/release_image_promotion.py:1120-1137 | from the moment a promoter of a release returns, the tag and the commit reference of every image of its intent name that image |
| `PromotionIntents.DisagreeingIntentsNeverBothReturn` | scripts/release_image_promotion.py:1252-1332 | promoters whose intents hold different images for one final reference never both return |
| `PromotionIntents.OnePlanPerRun` | scripts/release_image_promotion.py:1187-1249 | promoters of one run that get past confirmation are of the same release and have the same plan |
| `PromotionIntents.BoundBySealedImage` | scripts/release_image_promotion.py:1252-1307 | every reference bound during an execution names the digest of an image of that service in a run's sealed intent |
| `PromotionIntents.IntentRerunCompletes` | scripts/release_image_promotion.py:1187-1332 | a re-run of a release whose intent is the sealed one completes if no final reference of its images names something else |
| `SemVer.ParseOfPrint` | scripts/select_previous_release.py:471-487 | printing a version and parsing it gives the version back |
| `SemVer.PrintOfParse` | scripts/select_previous_release.py:471-487 | printing a parsed tag gives the tag back |
| `SemVer.ParseInjective` | scripts/select_previous_release.py:471-487 | distinct tags never parse to the same version |
| `SemVer.StrictTagIffParses` | scripts/release_image_promotion.py:83-89 | the strict tag expression of the promotion script accepts exactly the tags the selector parses |
| `SemVer.LtIsPrecedence` | scripts/select_previous_release.py:489-515 | the comparison is the precedence of section 11 of Semantic Versioning 2.0.0 |
| `SemVer.LtIsStrictTotalOrder` | scripts/select_previous_release.py:489-515 | on parsed versions the comparison is irreflexive, transitive, total and asymmetric |
| `SemVer.SameNumberIsGreaterBothWays` | scripts/select_previous_release.py:497-506 | two different digit identifiers compare greater both ways if and only if they spell one number, which needs a leading zero |
| `CommitHistory.AncestorsAreReachable` | scripts/select_previous_release.py:730-733 | the ancestors of a commit are exactly the commits some walk along parents ends in |
| `CommitHistory.AncestorsAreFarther` | scripts/select_previous_release.py:734-737 | a proper ancestor is strictly farther from the parent than its descendant |
| `CommitHistory.ChainAncestors` | scripts/select_previous_release.py:684-698 | the top of a chain of single-parent commits reaches the chain and what its first commit reaches, and nothing else |
| `PreviousRelease.SortedDistances` | scripts/select_previous_release.py:739 | all candidate distances, each once, ascending |
| `PreviousRelease.GatherCandidates` | scripts/select_previous_release.py:721-737 | the candidates are exactly the eligible tags, each with its distance, version and commit |
| `PreviousRelease.FirstTrusted` | scripts/select_previous_release.py:745-747 | the first trusted candidate, none before it |
| `PreviousRelease.SelectOrdinary` | scripts/select_previous_release.py:719-748 | returns the best trusted tag, and none if and only if no eligible tag is trusted |
| `PreviousRelease.BestIsNearest` | scripts/select_previous_release.py:739-748 | the chosen tag is not a proper ancestor of any other trusted candidate |
| `PreviousRelease.BestIsUnique` | scripts/select_previous_release.py:739-748 | the choice is determined: no two tags are both best |
| `TransitionRelease.CheckTransition` | scripts/select_previous_release.py:534-716 | succeeds if and only if the ledger, the current, failed and base markers, the single-parent chain, the base ancestry and the absence of contradictory evidence all hold |
| `TransitionRelease.TransitionHistory` | scripts/select_previous_release.py:684-710 | then the base is a proper ancestor of the head, and between the head and the oldest failed release there are exactly the eleven releases of the ledger and the head |
| `TransitionRelease.SelectPreviousRelease` | scripts/select_previous_release.py:518-748 | which of the three ways is taken and the exact condition under which each succeeds |
| `ReleaseInspection.ReadPage` | scripts/inspect_github_release.py:242-251 | a page is accepted exactly when all entries so far are valid with pairwise different ids, and the ids and matches are those of everything listed |
| `ReleaseInspection.InspectRelease` | scripts/inspect_github_release.py:209-304 | returns a report if and only if the answers justify one, and then that report |
| `ReleaseServer.NormalizeServed` | scripts/inspect_github_release.py:76-135 | a served release is reported as it is, if and only if it is well formed and in the expected state |
| `ReleaseServer.NeverSkipped` | scripts/inspect_github_release.py:224-254 | a release present when the list is first read is listed, however many releases are added at the head between page reads |
| `ReleaseServer.InspectionIsTrue` | scripts/inspect_github_release.py:209-304 | every returned report was true inside the call: at the first lookup if that answers it; otherwise, with calls 0 to n + 1 and n pages, a present one at the last call, an absent one when the first page was read, and a draft one when one of the pages was read, the same release being still a draft at the last call |
| `ReleaseServer.QuietInspection` | scripts/inspect_github_release.py:224-304 | on a server that does not move, with valid releases, a report is returned if and only if the release is published or the list ends before the page cap |
| `DiskTree.RelPathInjective` | scripts/prepare_release_runner_disk.py:625-665 | distinct paths under a target have distinct relative path strings |
| `DiskTree.FlatMembers` | scripts/prepare_release_runner_disk.py:625-665 | the flat inventory of a directory lists exactly the entries below it |
| `DiskTree.FlatLocal` | scripts/prepare_release_runner_disk.py:625-665 | an inventory depends only on what lies under its directory |
| `DiskTree.IndexRebuildsChildren` | scripts/prepare_release_runner_disk.py:745-759 | the names the index puts under a directory, read off flat path strings, are exactly its children, the root under the empty key |
| `DiskReclaim.FileSystem.ListDirectory` | scripts/prepare_release_runner_disk.py:771-776 | the sorted child names |
| `DiskReclaim.FileSystem.ValidateChain` | scripts/prepare_release_runner_disk.py:558-581 | accepts exactly the chains whose existing components are real directories on the device |
| `DiskReclaim.FileSystem.InventoryDirectory` | scripts/prepare_release_runner_disk.py:625-665 | appends every entry below the directory, and refuses if and only if one is not admissible |
| `DiskReclaim.FileSystem.InventoryTarget` | scripts/prepare_release_runner_disk.py:584-622 | the sorted inventory of a target, an absent marker, or a refusal, exactly as specified |
| `DiskReclaim.FileSystem.DeleteDirectoryContents` | scripts/prepare_release_runner_disk.py:762-846 | touches nothing outside the directory, and on a tree that is as inventoried succeeds and leaves nothing below it |
| `DiskCleanup.IndexExpectedChildren` | scripts/prepare_release_runner_disk.py:745-759 | one pass over the entries in any order builds the complete child index |
| `DiskCleanup.InventoryIsFaithful` | scripts/prepare_release_runner_disk.py:701-759 | the index of an unchanged target describes every directory under it |
| `DiskCleanup.RemoveInventory` | scripts/prepare_release_runner_disk.py:701-742 | succeeds if and only if the target is still as inventoried, then exactly its whole subtree is gone; otherwise nothing is |
| `DiskCleanup.ValidateTargetSet` | scripts/prepare_release_runner_disk.py:426-441 | accepts exactly target lists with token names, pairwise different names, at least two components and no overlap |
| `DiskCleanup.ClearOfBoundary` | scripts/prepare_release_runner_disk.py:464-491 | accepts exactly targets that contain neither disk root, workspace nor a protected path and are not the runner temp |
| `DiskCleanup.InventoryStays` | scripts/prepare_release_runner_disk.py:304-332 | removing targets that do not overlap a target leaves its inventory as it was |
| `DiskCleanup.Reclaim` | scripts/prepare_release_runner_disk.py:235-348 | an unready cleanup changes nothing and reports a refusal; a ready one removes exactly the subtrees of the first k existing targets, k least such that the budget is met, and fails only when all are gone and it is not; never a "changed" error |
| `DiskCleanup.KeepsBoundary` | scripts/prepare_release_runner_disk.py:464-491 | wherever it stops, every protected path is still there unchanged |
| `DiskCleanup.StopsOnce` | scripts/prepare_release_runner_disk.py:301-348 | the number of removed targets and the outcome are determined |
| `ObjectKeys.ValidateKeyIdempotent` | omega_lakehouse/keys.py:10-22 | a validated key validates to itself, and validation changes a key only by trimming outer blanks |
| `ObjectKeys.ValidatePrefixAgain` | omega_lakehouse/keys.py:25-33 | an accepted prefix is accepted unchanged when listing validates it again |
| `Lakehouse.S3Storage.Stat` | omega_lakehouse/s3_storage.py:64-72 | finds exactly validated keys that are there |
| `Lakehouse.S3Storage.CheckWriteAllowed` | omega_lakehouse/s3_storage.py:74-83 | allows exactly writes without expected version that overwrite or find nothing |
| `Lakehouse.S3Storage.PutBytes` | omega_lakehouse/s3_storage.py:99-115 | writes the object with its true checksum under the validated key or nothing; without faults succeeds exactly under the stated conditions |
| `Lakehouse.S3Storage.Copy` | omega_lakehouse/s3_storage.py:180-205 | copies data and metadata, exactly when allowed and the source is there |
| `Lakehouse.S3Storage.Publish` | omega_lakehouse/s3_storage.py:207-236 | succeeds, without faults, if and only if the copy is allowed and the effective checksum is the expected one; the final key then holds bytes of the expected hash if and only if the validated keys differ or staging was to be kept; staging is gone or flagged; recorded checksums stay true |
| `Lakehouse.S3Storage.DeleteObject` | omega_lakehouse/s3_storage.py:238-243 | removes exactly the validated key |
| `Lakehouse.S3Storage.ListPage` | omega_lakehouse/s3_storage.py:254-275 | the next keys after the cursor, refusing exactly when one of them does not validate |
| `Lakehouse.S3Storage.IterList` | omega_lakehouse/s3_storage.py:245-252 | for any page size the pages together are all keys under the prefix in order |
| `Lakehouse.S3Storage.DeletePrefix` | omega_lakehouse/s3_storage.py:277-290 | returns the number of keys under the prefix and removes what their validated spellings address; over the limit or on an invalid key nothing is removed |
| `Lakehouse.DeletionIsExact` | omega_lakehouse/s3_storage.py:277-290 | the deletion removes exactly the keys under the prefix if and only if each is its own validated spelling |
| `Lakehouse.DeletionStaysUnderPrefix` | omega_lakehouse/s3_storage.py:277-290 | a deletion addresses no key outside its prefix |
| `Lakehouse.BlankOutlivesDeletion` | omega_lakehouse/s3_storage.py:277-290 | a key with a final blank is left behind by a deletion that succeeds |
| `Lakehouse.WritesKeepTrueSums` | omega_lakehouse/s3_support.py:11-18 | a write never records a false checksum, whatever metadata the caller passes |
| `Lakehouse.CopiesKeepTrueSums` | omega_lakehouse/s3_storage.py:180-205 | nor does a copy, with or without new metadata |
| `Lakehouse.DeletionsKeepTrueSums` | omega_lakehouse/s3_storage.py:238-243 | nor does a deletion |
| `Lakehouse.PublishedBytes` | omega_lakehouse/s3_storage.py:207-236 | when deleting staging did not fail, the final key holds bytes of the expected hash if and only if the validated keys differ or staging was to be kept; when it failed, unless the keys are equal and the object went all the same; all other keys are unchanged |
| `Lakehouse.PublishedSums` | omega_lakehouse/s3_storage.py:207-236 | however a publication ended, recorded checksums are still true |
| `Lakehouse.PublishOntoItself` | omega_lakehouse/s3_storage.py:207-236 | two spellings of one key: publishing with overwrite and deletion leaves nothing there |
| `GcsStorage.GcsStorage.PutBytes` | omega_lakehouse/gcs_storage.py:105-135 | validates key, checksum and version, then writes the object with its true checksum exactly under the generation precondition |
| `GcsStorage.GcsStorage.CopyBlob` | omega_lakehouse/gcs_storage.py:198-225 | the same for a copy of the data and metadata of the source it finds |
| `GcsStorage.GcsStorage.Publish` | omega_lakehouse/gcs_storage.py:227-271 | succeeds if and only if the effective checksum is the expected one and the guarded copy goes through, changes nothing otherwise; the final key then holds bytes of the expected hash if and only if the validated keys differ or staging was to be kept |
| `GcsStorage.GcsStorage.DeleteObject` | omega_lakehouse/gcs_storage.py:273-276 | removes exactly the validated key, which must be there |
| `GcsStorage.GcsStorage.IterList` | omega_lakehouse/gcs_storage.py:278-309 | for any page size the pages together are all keys under the prefix in order; refuses exactly an invalid prefix or a listed key that does not validate |
| `GcsStorage.GcsStorage.DeletePrefix` | omega_lakehouse/gcs_storage.py:326-346 | removes exactly the keys under the prefix if and only if the prefix and the limit are good and every such key is its own validated spelling; if only the spelling is wrong it stops as not found at the first such key, with exactly the keys listed before it gone; otherwise nothing changes |
| `GcsStorage.BlankStopsDeletion` | omega_lakehouse/gcs_storage.py:326-346 | a key with a final blank, alone under the prefix, is such a key |
| `GcsStorage.GenerationReadsBack` | omega_lakehouse/gcs_storage.py:62-72 | a generation handed out as text is read back as itself |
| `GcsStorage.RunKeepsTrueBlobs` | omega_lakehouse/gcs_storage.py:52-57 | no state of any run of concurrent clients that put true checksums holds a false one |
| `GcsStorage.PutAloneIsARun` | omega_lakehouse/gcs_storage.py:105-135 | an uninterrupted put is the run of its client in the concurrent system, with the same store and outcome |
| `GcsStorage.CopyAloneIsARun` | omega_lakehouse/gcs_storage.py:198-225 | so is an uninterrupted copy: existence check, look at the source, guarded write |
| `GenerationChain.StepKeepsInv` | omega_lakehouse/gcs_storage.py:62-72 | every step of every client keeps: store and log agree, guarded events name the current generation, generations rise, every success is logged once |
| `GenerationChain.WritesFormAChain` | omega_lakehouse/gcs_storage.py:62-135 | in any interleaving each guarded change of a key names the generation the key had just before it, 0 when absent |
| `GenerationChain.NoLostUpdate` | omega_lakehouse/gcs_storage.py:105-225 | two writes of a key never name the same generation, unless both create it and it was deleted in between |
| `GenerationChain.OneWinner` | omega_lakehouse/gcs_storage.py:105-225 | of two clients naming the same generation of a key at most one is told it succeeded; if both create the key, provided that it is not deleted |
| `GenerationChain.UnguardedWritesBothWin` | omega_lakehouse/gcs_storage.py:62-72 | without a guard two overlapping writes both succeed |
| `Retention.Collect` | scripts/sec_bronze_retention.py:75-81 | the debug candidates, one per prefix, and the groups of duplicates |
| `Retention.PlanCandidates` | scripts/sec_bronze_retention.py:74-92 | plans exactly the prefixes of debug batches and of batches older than the latest kept ones of their group, each once, for its reason, in order |
| `Retention.ReplanIsEmpty` | scripts/sec_bronze_retention.py:74-92 | planning again once every planned batch is gone plans nothing |
| `RetentionExecution.ExecuteDelete` | scripts/sec_bronze_retention.py:95-104 | deletes nothing without execute and confirm; otherwise in calm weather it succeeds exactly if each prefix may be deleted in its turn, removes exactly what the planned prefixes address, reports each count, and on failure has removed a part of that |
| `RetentionExecution.ExecutionKeepsTheRest` | scripts/sec_bronze_retention.py:95-104 | carrying out the plan keeps exactly the remaining batches' objects if and only if none of their keys starts with a planned prefix |
| `RetentionExecution.ApartPrefixesSpareTheRest` | scripts/sec_bronze_retention.py:37-58 | that condition holds when no batch prefix starts with another |
| `RetentionExecution.ShorterPrefixTakesTheRest` | scripts/sec_bronze_retention.py:77-79 | a debug batch at a shorter prefix takes the objects of a batch that is kept |
| `RetentionExecution.SecondRunPlansNothing` | scripts/sec_bronze_retention.py:61-104 | after a run that met the condition, exactly the remaining batches are found again and planning plans nothing |
| `Retention.GroupKeepsLatest` | scripts/sec_bronze_retention.py:83-91 | with one prefix per batch a group keeps exactly its latest batches, as many as asked for, if and only if none of those is a debug batch |
| `Retention.DebugEmptiesGroup` | scripts/sec_bronze_retention.py:77-91 | a newest debug batch empties its group |
| `StorageScope.CanonicalKeyMeaning` | omega_lakehouse/storage_scope.py:40-63 | accepts exactly canonical keys, outer blanks and one final slash aside; the result is the join of its segments and canonical again |
| `StorageScope.ExactScopeMeaning` | omega_lakehouse/storage_scope.py:66-92 | holds if and only if the only tenant and workspace segments are the given ones at the place the root fixes, with no wildcard up to there |
| `StorageScope.ScopeIsUnique` | omega_lakehouse/storage_scope.py:66-92 | a key is in the scope of at most one trimmed tenant and workspace |
| `StorageScope.PatternStaysInScope` | omega_lakehouse/storage_scope.py:66-92 | every key an accepted pattern matches, a star read as any text, has the pattern's own segments up to and including the workspace |
| `StorageScope.MarkerRoundTrip` | omega_lakehouse/storage_scope.py:143-147 | parsing a scope marker inverts building it and accepts nothing else |
| `StorageScope.ReaderStaysInScope` | omega_lakehouse/storage_scope.py:155-190 | a reader URI accepted for a tenant and workspace can only match objects whose path names that tenant and workspace |
| `SqlTree.Walk` | omega_cartridge_kit/sql_guard.py:165-173 | the explicit stack yields the dictionaries in the order of the recursive definition |
| `SqlTree.VisitsOncePerPlace` | omega_cartridge_kit/sql_guard.py:165-173 | every dictionary is visited exactly once for each place where it occurs |
| `SqlTree.UniqueIdsMeaning` | omega_cartridge_kit/sql_guard.py:165-173 | identities are unique in the tree, stated recursively, exactly when no two visits of the walk meet the same one |
| `SqlTree.VisitsEverything` | omega_cartridge_kit/sql_guard.py:165-173 | the walk meets exactly the dictionaries that occur in the tree |
| `SqlTree.ParentsFirst` | omega_cartridge_kit/sql_guard.py:165-173 | a dictionary is met before every dictionary beneath it |
| `SqlGuard.CteNames` | omega_cartridge_kit/sql_guard.py:180-195 | the lower-case set of all declared names, or nothing if and only if one is unusable |
| `SqlGuard.WalkTurn` | omega_cartridge_kit/sql_guard.py:310-318 | one turn of the walk with its mark keeps the stack tidy and the first violation the same |
| `SqlGuard.WalkStatements` | omega_cartridge_kit/sql_guard.py:310-318 | the stack and the marks set in place find exactly the first violation of the recursive definition, which exempts only function children of reader table functions |
| `SqlGuard.AstViolation` | omega_cartridge_kit/sql_guard.py:294-318 | the whole guard of a parsed statement: an unusable CTE name, or else the first violation with the declared CTE names and the allowed tables as its tables |
| `SqlGuard.AcceptedStatement` | omega_cartridge_kit/sql_guard.py:176-195 | every table an accepted statement reads is one of its own declared CTE names or an allowed table, and no CTE name is an engine relation |
| `SqlGuard.AcceptedTree` | omega_cartridge_kit/sql_guard.py:248-291 | without a finding every relation is known and every blocked call is the function of a reader table function |
| `SqlGuard.AcceptedReadsStayInScope` | omega_cartridge_kit/sql_guard.py:223-274 | end to end: every object an accepted tree's readers can match carries the active tenant and workspace |
| `ReleaseManifest.WriteManifest` | scripts/release_digest_chain.py:394-429 | a manifest and its checksum exactly when every receipt loads |
| `ReleaseManifest.LoadManifest` | scripts/release_digest_env.py:89-160 | accepts exactly canonical bytes with exact name, checksum and structure, and returns the reference of each service |
| `ReleaseManifest.WrittenManifestLoads` | scripts/release_digest_env.py:61-160 | what is written from valid receipts is loaded, provided that one manifest is read back as printed, and gives each service its image at the receipt's digest |
| `ReleaseManifest.ReadersAgree` | scripts/select_previous_release.py:303-371 | for a lower-case owner the loader and the selector accept the same full-inventory manifests |
| `ReleaseManifest.ReadersDisagree` | scripts/select_previous_release.py:325-328 | for any other owner no manifest passes both |
| `ReleaseCandidate.VerifyCandidate` | scripts/release_digest_chain.py:127-201 | returns a receipt if and only if the registry's answers pass every check, and then the receipt of those bytes |
| `ReleaseCandidate.CheckLayers` | scripts/release_digest_chain.py:161-178 | accepts exactly layer lists that are well formed, present and without repeated digests |
| `ReleaseCandidate.ReceiptIsDetermined` | scripts/release_digest_chain.py:127-201 | two successful verifications of one digest return equal receipts, whatever the two registries answer, or their manifests are a collision of the hash |
| `ReleaseCandidate.AcceptedReceiptIsValid` | scripts/release_digest_chain.py:204-237 | the receipt of a verification passes the receipt check |
| `ReleaseCandidate.LoadReceipt` | scripts/release_digest_chain.py:240-253 | returns the stored receipt if and only if it is valid and a fresh verification gives an equal one |
| `ReleaseCandidate.WrittenReceiptLoads` | scripts/release_digest_chain.py:240-253 | a receipt once written is valid and matches every later successful verification, or the two manifests are a collision of the hash |
| `PackageRecovery.Recover` | scripts/release_digest_chain.py:282-353 | returns the receipt of the one matching digest, none if nothing matches, and fails if and only if a page, a manifest or a candidate raises, two digests match or the page cap is reached |
| `SsmUpload.PartNameValue` | scripts/aws_ssm.py:287-288 | a part name spells its number, in four digits exactly up to 9999 |
| `SsmUpload.SendLargeScript` | scripts/aws_ssm.py:254-320 | uploads every chunk under its number and joins the parts in lexical order; what is joined, without line ends, is the text exactly when the text reassembles |
| `SsmUpload.LexicalIsNumeric` | scripts/aws_ssm.py:287-315 | up to 9999 parts the lexical order of the names is their numeric order |
| `SsmUpload.Reassembly` | scripts/aws_ssm.py:285-316 | up to 9999 chunks the joined parts without line ends are exactly the text |
| `SsmUpload.MisorderedListing` | scripts/aws_ssm.py:312-315 | from 10000 parts on the listing starts with the first thousand parts followed by part 10000 |
| `SsmUpload.FailingTextFails` | scripts/aws_ssm.py:285-316 | for every number of chunks from 10000 on, a text of that many chunks that comes back wrong |
| `SsmUpload.ReassemblyBound` | scripts/aws_ssm.py:285-316 | every text of n chunks comes back from its parts if and only if n is at most 9999 |
| `SsmUpload.PartsAreDetermined` | scripts/aws_ssm.py:286-300 | the parts on the host are determined by the text |
| `SsmUpload.InlineText` | scripts/aws_ssm.py:149-169 | the inline form gives back the text for any number of chunks |

## Left out

- Reconciler: reading files, environment and command line, UUID and timestamp syntax, JSON decoding of the manifest
  root, and connection set-up; run entries start as decoded values with None for a value of the wrong type.
- Reconciler: `str.lower` on letters outside ASCII, and the session settings that select a tenant scope.
- Promotion: HTTP transport, retries, token exchange, redirects and artifact zip files; a request is one step.
- Promotion: the OCI index and provenance checks of the promotion script's own `verify_candidate`, and of the receipts'
  stored form; whether a candidate verifies is an input of the model.
- PackageRecovery.Recover: does not model `settle_built_candidate`'s retries, which only repeat it.
- ReleaseInspection.InspectRelease: does not model the repository, tag and token syntax checks made before the first
  request; they only refuse more.
- Selector: the GitHub evidence lookup behind the trust verifier; the verifier is any function of tag and commit, and
  one that raises is not modelled. Manifests of schema version 1 are not modelled.
- DiskCleanup.Reclaim: does not model symlink resolution and hashing of protected executables, the snapshot's device
  check, allocated-byte totals, host-context checks and printed lines; on a quiet file system they cannot change the
  outcome. The device of the disk root is a parameter.
- DiskReclaim: changes by others between a stat and the following removal; check and removal are one step.
- Lakehouse.S3Storage.PutBytes: does not model object versions in results, nor `put_file`, which is the same write with
  the hash of a file; the file must not change between hashing and upload.
- Lakehouse.S3Storage.Copy: claims nothing about writers that race an overwrite=False copy; the code checks existence
  and then copies unconditionally, so only the sequential claim holds.
- GcsStorage: failing calls, metadata given to a copy (reported, never stored), and version strings with digits outside
  ASCII.
- GcsStorage.GcsStorage.DeleteObject: does not model its optional generation guard, which `publish` and
  `delete_prefix` never pass.
- Storage streaming reads, presigned URLs and provider configuration.
- Retention: reading and decoding manifests; batches are given, and a second run finds a batch again when its manifest
  is still in the store. The plan is carried out on the S3 store.
- StorageScope: cartridge and bucket allowlists of `scoped_storage_key`, which are plain membership tests.
- SqlGuard.AstViolation: does not model DuckDB's parser and catalogue (both are inputs), the quoted-literal masking and
  keyword expressions that run before it, nor parse trees whose own fields have unexpected JSON types, on which the
  Python code raises. A reader function is examined as a relation only when it carries `query_location` and `alias`, as
  the parser always emits.
- SsmUpload.SendLargeScript: does not model base64 decoding on the host (section 4 of RFC 4648), command polling and
  the shell itself.
- Path allowlists, probes, smoke tests, seed generators, audits and the front-end: tables and plumbing without state.
