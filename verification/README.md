# Verified model of the credential store and the backup drone

This project models two programs of the repository and proves what they promise.

**The credential vault.** A vault is locked or unlocked over a flat map of files. Item metadata is JSON with an HMAC
behind it; values are encrypted with age to the vault's identity and an optional recovery recipient.
`VaultModel` gives every operation as a function on files and memory, `Vault` the same operations as methods of objects
that are updated in place, each proved equal to its function. `VaultRefinement` says what users may expect, an abstract
map from ids to description, peer and value; `VaultSteps` and `VaultRuns` prove that every run stays within it, also
when writes fail. An item is torn when its value file has been replaced and the write of its metadata failed: it is the
only kind of item that cannot be read, until it is set again. `VaultTheorems` and `VaultFaults` draw the consequences; `VaultReopen` looks at stores of any version.

**The drone.** Docker events keep a cache of backup projects (`Mappers`, `DockerCache`), the cache keeps the cron entries
(`Scheduling`, `Worker`, `Pipeline`), and the entries run jobs that stop and start containers (`BackupJob`).
`EndToEnd` joins the stages.

**Three algorithms.** The command-line tokenizer (`Tokenizer`), the in-place expansion of a command (`Expansion`), and the
error that any number of goroutines may ask for (`MemoError`, a state machine over atomic steps).

## Assumptions

- Cryptography, JSON and version texts are an arbitrary record of functions obeying the laws of `Crypto.Lawful`: age
  decrypts for exactly the recipients, AES-GCM opens with the sealing key only, HMAC-SHA256 has 32 bytes (section 2 of
  RFC 2104), parsing undoes printing. Where checksums must not collide this is asked of the values of the run only
  (`VaultRefinement.CollisionFree`). `Consistency` shows that the laws can be met together, and so can those asked of
  map order and sorting.
- The environment decides which writes and deletes fail, all or nothing, and supplies randomness, clock and the order in
  which maps are visited. It may be any function of the number of changes asked of the backend so far.
- Run theorems ask that ids of new items are not in use, that deletes succeed, and that the writes of an unlock that
  opens the vault succeed. What happens otherwise is stated exactly by `VaultFaults.DeletedItemReturns`,
  `VaultFaults.FailedRecoveryChangeIsRolledBack` and `VaultFaults.FailedUnlockStaysLocked`. They also ask for a store
  version above 0.2.0; `VaultReopen.FirstKeyReopens` says what happens below it, where the development version
  0.0.0+devel is: once a recovery recipient has been set, the vault cannot be unlocked again.
- Vault operations are taken one at a time, as the vault's lock makes them.
- Cache theorems ask that the labels of a container id never change. Containers change state only through the job's
  calls while it runs. The project in a job is a copy of the cached one.

Where code and documentation disagree the model follows the code: the recovery recipient is checked by a plain SHA-256
over recipient and secret (utils.go:41-48), not by an HMAC as docs/security.md says, and a metadata file that fails its
check is skipped with a warning, while one shorter than 32 bytes stops the process.

## Model

| member | source | states |
|---|---|---|
| VaultRuns.RunsAreIdeal | credentials/internal/store/vault/vault.go:114-607 | on a working backend, for every sequence of operations, every answer is the one the abstract map gives, and the final files and memory represent the abstract final state |
| VaultRuns.RunsConform | credentials/internal/store/vault/vault.go:114-607 | with any pattern of failing writes, every operation that meets none gives exactly the ideal answer, reads in particular; an item is refused only while its last attempt to be set failed at the metadata; a rollback or a disturbed re-encryption costs no value; after every operation, and when the process stops, files, index and abstract map agree |
| VaultRuns.StepRefines | credentials/internal/store/vault/vault.go:114-607 | one operation of any kind keeps files, memory and abstract map in step, whatever writes fail, and has the answer they determine |
| VaultTheorems.LastValueIsRead | credentials/internal/store/vault/vault.go:399-468 | once a value is set, every later read while the vault is open gives it, whatever happens in between to other items, recipients, peers or the lock |
| VaultTheorems.UntouchedItemsStay | credentials/internal/store/vault/vault.go:275-607 | whatever writes fail, an item that no operation of a run sets, deletes or creates is read at the end as at the start and keeps its description |
| VaultTheorems.AcknowledgedValueIsRead | credentials/internal/store/vault/vault.go:399-468 | a value whose setting was acknowledged is what every later read gives, whatever is asked of other items and whatever writes fail in between |
| VaultTheorems.RefusedOnlyAfterFailedSet | credentials/internal/store/vault/vault.go:530-570 | at the end of a run with any failing writes, an item is refused only if an attempt to set it failed in the run |
| VaultTheorems.RunsLeaveTheMapBehind | credentials/internal/store/vault/vault.go:275-343 | the files and memory at the end of a run represent the tracked map, also when the process has stopped |
| VaultTheorems.CleanChangeSealsAll | credentials/internal/store/vault/vault.go:317-340 | whatever failed before, a change of the recovery recipient that meets no failing write leaves every value but those of torn items open to exactly the own and the new recovery identity |
| VaultTheorems.ValuesOpenForRecipientsOnly | credentials/internal/store/vault/vault.go:636-673 | after any run from empty storage, a value file can be opened by exactly the vault identity and the current recovery identity |
| VaultTheorems.IndexIsCoherent | credentials/internal/store/vault/vault.go:195-197 | after any run from empty storage, the index in memory is what the files say, and value files exist for exactly the items with a checksum |
| VaultTheorems.LockUnlockRestores | credentials/internal/store/vault/vault.go:250-266 | locking and unlocking with the same passphrase restores the memory exactly and rewrites only the version file, even after failed writes |
| VaultTheorems.UnlockNeedsFirstKey | credentials/internal/store/vault/vault.go:114-210 | after a first unlock and any run, a locked vault opens for exactly the passphrases whose hash, with the sentinel in secure mode, is that of the first one, so for no other passphrase unless the two collide; any other changes nothing and leaves nothing in memory |
| VaultTheorems.UnlockOpensIdentity | credentials/internal/store/vault/vault.go:114-210 | after a successful unlock of any state memory holds the hash of the passphrase, the secret and recipient of the identity that key opens, and exactly the items whose files are authentic under that secret; the version is on record, and a new vault has sealed its new identity |
| VaultTheorems.PinnedPeerStays | credentials/internal/store/vault/vault.go:503-528 | a recorded peer survives every operation except deletion of the item, whatever writes fail, and the authenticated metadata file names it at the end, also when the process has stopped |
| VaultTheorems.ForeignPeerIsRefused | credentials/internal/store/vault/vault.go:521-525 | a read by another peer fails and changes neither files nor memory |
| VaultTheorems.FirstReadPins | credentials/internal/store/vault/vault.go:512-519 | a successful read records its peer both in the metadata file and in the index |
| VaultTheorems.ValueWriteIsSafeAtEveryCut | credentials/internal/store/vault/vault.go:530-570 | wherever the writing of a value is cut off, a later read, in the same process or after a restart, gives the old value, the acknowledged new value or an error; an error, for an item that could be read, exactly if another value was stored and only the metadata write failed; the previous ciphertext is in the value file or the backup copy |
| VaultTheorems.PreviousValueIsKept | credentials/internal/store/vault/vault.go:538-552 | from any state at all, the previous ciphertext is still in the value file or in the backup copy after a write attempt |
| VaultTheorems.RestartIsNotNoticed | credentials/internal/store/vault/vault.go:190-204 | unlocking anew gives the same answer to every read, whatever writes failed before |
| VaultSteps.FirstUnlockStep | credentials/internal/store/vault/vault.go:156-176 | the first unlock of empty storage succeeds and establishes the invariant for its key and identity |
| VaultSteps.UnlockStep | credentials/internal/store/vault/vault.go:134-155 | unlocking a known vault succeeds for its key only and restores the index |
| VaultSteps.CreateStep | credentials/internal/store/vault/vault.go:345-379 | creating an item adds one entry without value exactly if its one write succeeds, and nothing otherwise |
| VaultSteps.DeleteStep | credentials/internal/store/vault/vault.go:572-607 | deleting removes the entry and both of its files and nothing else |
| VaultSteps.GetStep | credentials/internal/store/vault/vault.go:399-419 | an item is read back exactly if it is not torn; a torn one with a value is refused |
| VaultSteps.VerifyPeerStep | credentials/internal/store/vault/vault.go:503-528 | the reader becomes the peer exactly if there was none and the write succeeded, and is accepted exactly if it is the peer |
| VaultSteps.GetForPeerStep | credentials/internal/store/vault/vault.go:421-447 | reading for a peer answers as the abstract map does and keeps the invariant |
| VaultSteps.WriteValueStep | credentials/internal/store/vault/vault.go:530-570 | a value write succeeds exactly if none of its writes fails; otherwise the item is torn exactly if its last write was the one that failed, and untouched if not; a replaced file is sealed for the current recipients; other items are untouched |
| VaultSteps.SetStep | credentials/internal/store/vault/vault.go:449-468 | setting a value updates that entry exactly if all its writes succeed; otherwise it tears it at its last write, or leaves it |
| VaultSteps.ReadValueStep | credentials/internal/store/vault/vault.go:479-501 | with collision-free checksums a read gives the value exactly if the item has one and is not torn, and never stops the process |
| VaultSteps.ReencryptStep | credentials/internal/store/vault/vault.go:326-339 | under any failing writes, one round of re-encryption keeps every entry and what every value file decrypts to, and either leaves the file alone or seals it for the new recipients; without a failing write it seals that of every item not torn |
| VaultSteps.ReencryptLoop | credentials/internal/store/vault/vault.go:325-340 | in any order and under any failing writes, re-encrypting keeps every description, peer, checksum and plaintext; each file is sealed for the new recipients or untouched, the latter only if it is torn or a write fails |
| VaultSteps.SetRecoveryStep | credentials/internal/store/vault/vault.go:275-343 | setting the recovery recipient keeps every entry and every readable value whatever writes fail; which of its three answers it gives is fixed by the failing writes; without failure all values but torn ones are sealed for the new recipient; when the process stops everything but the recipient is as before |
| VaultSteps.WriteRecoveryStep | credentials/internal/store/vault/utils.go:78-92 | writing the recipient succeeds exactly if no write fails, and otherwise leaves files that still load |
| VaultSteps.RestoreRecoveryStep | credentials/internal/store/vault/vault.go:299-312 | restoring the previous recipient restores the invariant unless all attempts fail, and even then leaves files that load |
| VaultFaults.FailedRecoveryChangeIsRolledBack | credentials/internal/store/vault/vault.go:291-315 | a reported failure leaves the same recovery recipient as before, for any files and failures, except exactly when there was none, the first write worked, the second failed and so did the removal; no other file changes |
| VaultFaults.RecoveryChangeGivesUpExactlyIf | credentials/internal/store/vault/vault.go:291-315 | in the open vault the change is done exactly if its own two writes succeed, and stops the process exactly if a recipient was on record and four attempts in a row fail, the first and three to restore |
| VaultFaults.RestoreSucceedsOrGivesUp | credentials/internal/store/vault/vault.go:299-312 | from any files, restoring succeeds unless every one of the attempts fails, makes the previous recipient load again and touches only the two recovery files |
| VaultFaults.RecipientIsAuthentic | credentials/internal/store/vault/utils.go:41-76 | a recipient loads exactly if the hash on file is the hex SHA-256 of that recipient and the secret; there is none exactly if there is no file |
| VaultFaults.ForeignRecipientIsRefused | credentials/internal/store/vault/utils.go:50-76 | a recipient put on file without the hash, or read with another secret, is an error unless hashes collide |
| VaultFaults.CreationIsAllOrNothing | credentials/internal/store/service/vault.go:49-74 | a creation request succeeds exactly if the vault is open, the passphrase hashes to its key, there is a value and none of the three writes fails; then the value is read back, and otherwise index and files are as they were; it never stops the process |
| VaultFaults.CreationNeedsFirstKey | credentials/internal/store/service/vault.go:49-74 | after a first unlock and any run on a working backend, the open vault creates an item for exactly the passphrases hashed like the first one |
| VaultFaults.CreationIsUndone | credentials/internal/store/service/vault.go:62-66 | deleting a new item whose value could not be set leaves every file and the index as before the creation |
| VaultFaults.ItemRecordsChange | credentials/internal/store/vault/vault.go:345-379 | a new item has no peer and no checksum; a set item has the hash of its value as checksum and the time of the change |
| VaultFaults.DeletedItemReturns | credentials/internal/store/vault/vault.go:582-590 | a deleted item is gone from memory and is back after the next unlock exactly if its metadata file could not be deleted |
| VaultFaults.UpgradeKeepsRecipient | credentials/internal/store/vault/upgrade.go:44-66 | the first upgrade of an old store makes its recovery recipient, unloadable before, load unchanged |
| VaultFaults.UpgradeSucceedsExactlyIf | credentials/internal/store/vault/upgrade.go:29-69 | on a working backend an upgrade fails exactly on an unreadable version, and for an old store on a present hash or an unreadable recipient; it records the version and, for an old store with a recipient, its hash, and nothing else |
| VaultFaults.UpgradeIsRepeatable | credentials/internal/store/vault/upgrade.go:43-69 | a store just upgraded can be upgraded again at once exactly if the store version is above 0.2.0 or there is no recovery hash |
| VaultReopen.FirstKeyReopens | credentials/internal/store/vault/vault.go:114-210 | for a store of any version, after a first unlock and any operations, a locked vault opens for exactly the passphrases hashed like the first one, and only if the version is above 0.2.0 or no recovery recipient has been set |
| VaultReopen.UnlockKeepsReopenable | credentials/internal/store/vault/upgrade.go:29-69 | an unlock of a store of any version succeeds exactly with the key and, at or below 0.2.0, without a recovery recipient, and keeps what later unlocks depend on even when it fails half-way |
| VaultReopen.SetRecoveryKeepsReopenable | credentials/internal/store/vault/vault.go:275-343 | on a working backend setting the recovery recipient puts it on record or changes nothing, and leaves what unlocking depends on |
| VaultFaults.VersionsBeforeRecoveryVerified | credentials/internal/store/vault/upgrade.go:27-43 | old are precisely the versions 0.0.x, 0.1.x and 0.2.0 with their pre-releases |
| VaultFaults.FailedUnlockStaysLocked | credentials/internal/store/vault/vault.go:134-172 | a failed unlock leaves nothing in memory exactly if an identity file exists and the key does not open it |
| Metadata.IndexIsExact | credentials/internal/store/vault/utils.go:188-214 | the index holds precisely the items whose file is a payload followed by its HMAC, decodes, and is named after its own id |
| Metadata.FrameRoundTrip | credentials/internal/store/vault/utils.go:216-230 | writing the metadata of an item and reading it gives the item back |
| Metadata.IndexAfterMetadataWrite | credentials/internal/store/vault/utils.go:216-230 | writing the metadata of an item changes the index at its id only |
| Metadata.IndexAfterDelete | credentials/internal/store/vault/vault.go:582-600 | deleting a metadata file removes one item from the index; deleting any other file removes none |
| Metadata.SameIndex | credentials/internal/store/vault/utils.go:165-186 | the index depends on metadata files only |
| Names.NamesArePaths | credentials/internal/store/vault/utils.go:261-271 | file names of the model and paths correspond one to one |
| Names.VaultPathsAreInjective | credentials/internal/store/vault/utils.go:261-271 | the paths of the files the vault uses are all different |
| Names.MetadataNamesAreListedJsonFiles | credentials/internal/store/vault/utils.go:173-174 | a file is taken for metadata exactly if it is in the root and its extension is .json |
| Versions.PrecedenceIsTotal | credentials/internal/store/vault/upgrade.go:43 | version precedence is total and ignores only build metadata (items 10 and 11 of Semantic Versioning 2.0.0) |
| Versions.PrecedenceIsTransitive | credentials/internal/store/vault/upgrade.go:43 | version precedence is transitive, strictly and not (items 10 and 11 of Semantic Versioning 2.0.0) |
| Versions.PrecedenceIs | credentials/internal/store/vault/upgrade.go:43 | versions are compared number by number, a pre-release comes before its release, and two pre-releases are decided where their identifiers first differ (items 10 and 11 of Semantic Versioning 2.0.0) |
| Vault.Backend.ListFiles | credentials/internal/store/vault/inmemorybackend.go:33-48 | lists exactly the files in the root, in any order |
| Vault.Backend.ReadFile | credentials/internal/store/vault/inmemorybackend.go:50-60 | gives the content or nothing |
| Vault.Backend.WriteFile | credentials/internal/store/vault/inmemorybackend.go:62-69 | replaces one file, or fails and replaces none |
| Vault.Backend.DeleteFile | credentials/internal/store/vault/inmemorybackend.go:71-80 | removes one file and says whether it existed, or fails |
| Vault.Vault.ReadItemMetadata | credentials/internal/store/vault/utils.go:188-214 | gives the genuine item of one file, an error, or stops on a file shorter than its HMAC |
| Vault.Vault.ReadAllMetadata | credentials/internal/store/vault/utils.go:165-186 | in any listing order gives the index, unless some metadata file is too short |
| Vault.Vault.LoadRecoveryRecipient | credentials/internal/store/vault/utils.go:50-76 | the recipient on record if its hash matches, nothing if there is no file, else an error |
| Vault.Vault.WriteRecoveryRecipient | credentials/internal/store/vault/utils.go:78-92 | writes both files or takes the first away again |
| Vault.Vault.ReadOwnIdentity | credentials/internal/store/vault/utils.go:94-125 | opens the identity file with the key, fails, or stops when it is missing or too short |
| Vault.Vault.WriteItemMetadata | credentials/internal/store/vault/utils.go:216-230 | writes payload and HMAC under the item id |
| Vault.Vault.CopyFile | credentials/internal/store/vault/utils.go:232-241 | copies a file, failing if there is none |
| Vault.Vault.UpgradeStore | credentials/internal/store/vault/upgrade.go:29-69 | the upgrade step on the backend |
| Vault.Vault.EncryptForRest | credentials/internal/store/vault/vault.go:636-673 | encrypts to the vault and the loaded recovery recipient, or stops |
| Vault.Vault.ReadItemValue | credentials/internal/store/vault/vault.go:479-501 | decrypts the value file and compares its checksum |
| Vault.Vault.WriteItemValue | credentials/internal/store/vault/vault.go:530-570 | backup copy, value file, metadata, index, in this order, ending at the first failure |
| Vault.Vault.VerifyPeer | credentials/internal/store/vault/vault.go:503-528 | the peer check on files and index |
| Vault.Vault.Unlock | credentials/internal/store/vault/vault.go:114-210 | the unlock step on files and fields, with every early return |
| Vault.Vault.Lock | credentials/internal/store/vault/vault.go:250-266 | clears all fields, or fails when locked |
| Vault.Vault.CreateItem | credentials/internal/store/vault/vault.go:345-379 | the creation step |
| Vault.Vault.DeleteItem | credentials/internal/store/vault/vault.go:381-397 | the deletion step |
| Vault.Vault.GetItem | credentials/internal/store/vault/vault.go:399-419 | the answer of a read |
| Vault.Vault.GetItemForPeer | credentials/internal/store/vault/vault.go:421-447 | the step of a read for a peer |
| Vault.Vault.SetItemValue | credentials/internal/store/vault/vault.go:449-468 | the step of setting a value; an empty value is refused |
| Vault.Vault.SetRecoveryRecipient | credentials/internal/store/vault/vault.go:275-343 | write, roll back on failure, re-encrypt everything |
| Vault.Vault.Restore | credentials/internal/store/vault/vault.go:299-312 | three tries to write the previous recipient |
| Vault.Vault.Reencrypt | credentials/internal/store/vault/vault.go:325-340 | the loop over all items in the order Go visits them |
| Vault.Vault.CreateVaultItem | credentials/internal/store/service/vault.go:49-74 | create, set the value, delete again on failure |
| Mappers.MapInspectToContainerBackup | borg-collective/internal/drone/container/docker/mappers.go:56-137 | the loop over the labels, with its early returns, gives the mapped container |
| Mappers.MappingIgnoresLabelOrder | borg-collective/internal/drone/container/docker/mappers.go:81-112 | for any two orders of the labels a container is accepted in both or neither, with the same result up to the order of its lists |
| Mappers.GatherAnyOrder | borg-collective/internal/drone/container/docker/mappers.go:81-112 | the loop gathers the same in any order of the labels, errors included |
| Mappers.ConfigurationComesFromLabels | borg-collective/internal/drone/container/docker/mappers.go:56-137 | for any order of the labels, acceptance and every setting in terms of the trimmed label values: mode, name, command, output flag; each dependency, path and volume label adds its value once, a volume being the first mount at the named destination; a container is refused exactly for an unknown mode, a missing mount, no name, or a command with both or neither of output and paths, with volumes, or offline |
| Mappers.FindVolumeIsFirstMount | borg-collective/internal/drone/container/docker/mappers.go:139-159 | a volume is found exactly if the first mount at the destination is a bind mount or volume, and is that mount |
| Mappers.MapVolumesFrom | borg-collective/internal/drone/container/docker/mappers.go:161-193 | all bind mounts and volumes are mapped, in order, others are left out |
| Mappers.TrimSpaceIs | borg-collective/internal/drone/container/docker/mappers.go:82 | trimming removes all white space at both ends and nothing else |
| Mappers.AcceptedIsWellConfigured | borg-collective/internal/drone/container/docker/mappers.go:114-136 | an accepted container has a name, exec or volumes but not both, output or paths but not both, and an offline one that needs a backup has volumes |
| DockerCache.Client.HandleContainerUpdated | borg-collective/internal/drone/container/docker/watch.go:135-199 | updates the cache and delivers the project exactly if the container is enabled and maps |
| DockerCache.Client.HandleContainerDestroyed | borg-collective/internal/drone/container/docker/watch.go:201-243 | removes a container with the id, with its project if it was the last; nothing is delivered exactly if there is none |
| DockerCache.Client.HandleEvent | borg-collective/internal/drone/container/docker/watch.go:103-133 | every event has its effect on the cache and delivers the changed project |
| DockerCache.Client.ReadProjects | borg-collective/internal/drone/container/docker/docker.go:302-393 | the cache is built from all containers, or left alone when an inspection fails |
| DockerCache.CacheIsLatest | borg-collective/internal/drone/container/docker/watch.go:135-243 | over all histories, a cached container is the one recorded last for its project and service and not destroyed since, and nothing else is cached |
| DockerCache.RecordsExactlyIf | borg-collective/internal/drone/container/docker/watch.go:135-199 | an event records a container exactly if it is enabled with the value true, names a project and a schedule that parses, and is accepted; the record is configured by the labels |
| DockerCache.ScheduleOfProject | borg-collective/internal/drone/container/docker/docker.go:395-407 | a cached project keeps its schedule; a new one gets that of its first container |
| DockerCache.HistoryKeepsOk | borg-collective/internal/drone/container/docker/watch.go:135-243 | over all histories, no cached project is empty, keys are names, and each container id is cached at most once |
| DockerCache.ChangeIsAnnounced | borg-collective/internal/drone/container/docker/watch.go:195-198 | the delivered project is the cached one, or empty and no longer cached, and no other project has changed |
| Scheduling.SetCompactionKeepsOk | borg-collective/internal/drone/worker/worker.go:137-150 | rescheduling the compaction replaces exactly its entry |
| Scheduling.SetStaticKeepsOk | borg-collective/internal/drone/worker/worker.go:152-174 | rescheduling the static backups replaces exactly their entries, one per backup in order |
| Scheduling.ScheduleProjectKeepsOk | borg-collective/internal/drone/worker/worker.go:189-221 | rescheduling a project replaces exactly its entry; it has one afterwards exactly if a job can be made, the error path included |
| Scheduling.ScheduleProjectsSucceedsExactlyIf | borg-collective/internal/drone/worker/worker.go:176-187 | scheduling many projects succeeds exactly if each Docker project is empty or accepted |
| Scheduling.PlanHolds | borg-collective/internal/drone/worker/container.go:49-55 | the plan holds exactly the containers of the project that need a backup, each as often as it serves the project |
| Worker.Cron.Schedule | borg-collective/internal/drone/worker/worker.go:148 | a new entry gets a new id |
| Worker.Cron.Remove | borg-collective/internal/drone/worker/worker.go:142 | removes one entry |
| Worker.Worker.ScheduleRepoCompaction | borg-collective/internal/drone/worker/worker.go:137-150 | the compaction step on the scheduler and the remembered id |
| Worker.Worker.ScheduleStaticBackups | borg-collective/internal/drone/worker/worker.go:152-174 | the loops over old and new static jobs |
| Worker.Worker.CheckContainer | borg-collective/internal/drone/worker/container.go:57-73 | accepts a container exactly if its exec paths have sources and its dependencies are in the project |
| Worker.Worker.CollectPlan | borg-collective/internal/drone/worker/container.go:49-54 | the loop that collects the containers in need of a backup |
| Worker.Worker.CheckContainers | borg-collective/internal/drone/worker/container.go:57-73 | the loop over all containers, up to the first that is refused |
| Worker.Worker.NewContainerProjectBackupJob | borg-collective/internal/drone/worker/container.go:44-90 | makes a job exactly if the project is accepted, with its plan |
| Worker.Worker.ScheduleDockerBackup | borg-collective/internal/drone/worker/worker.go:189-221 | unschedules, then schedules if a job can be made |
| Worker.Worker.ScheduleContainerBackups | borg-collective/internal/drone/worker/worker.go:176-187 | schedules all Docker projects up to the first failure |
| Pipeline.DroneAgrees | borg-collective/internal/drone/worker/worker.go:97-120 | after start-up and after every input, a project has an entry exactly if it is cached and accepted, the entry is for the project as cached, and the scheduler holds nothing else than the compaction and static jobs of the latest configuration |
| Pipeline.ScheduledExactlyIf | borg-collective/internal/drone/worker/container.go:57-73 | after every input, a cached project has an entry exactly if all dependencies of its containers are its services and all paths of its commands have sources |
| Pipeline.LatestConfigIsLast | borg-collective/internal/drone/worker/worker.go:97-101 | the latest configuration is the last one received, or that of the start |
| Pipeline.StartUpAgrees | borg-collective/internal/drone/worker/worker.go:176-187 | the agreement holds once start-up has succeeded, in any order of the projects |
| Pipeline.StepAgrees | borg-collective/internal/drone/worker/worker.go:97-120 | one input keeps the agreement |
| BackupJob.PlanIsSafe | borg-collective/internal/drone/worker/container.go:92-120 | for every plan and all engine failures, each place of the plan gives at most one archive, made while its mode demands are met if and only if stopping the dependents spares the container and its dependencies, and holding all that was asked for |
| BackupJob.EveryPlaceIsTried | borg-collective/internal/drone/worker/container.go:92-120 | whatever happened before, the next container of the plan is tried unless a command has panicked, and adds its archive exactly if its own calls work |
| BackupJob.WorkingRunArchivesAll | borg-collective/internal/drone/worker/container.go:92-140 | when everything works, exactly the containers of the plan that ask for a backup are archived, in order, and the final pass works |
| BackupJob.OneContainerIsSafe | borg-collective/internal/drone/worker/container.go:142-274 | one container adds its archive exactly if it asks for a backup and all calls of its mode and its command work, and the archive meets the condition of its mode; the run ends exactly if its command panics, and then its dependents are still stopped |
| BackupJob.SeparableUnlessMutual | borg-collective/internal/drone/worker/container.go:395-416 | with distinct ids that is so exactly if the container does not depend on itself or on one that depends on it |
| BackupJob.JobIsSafe | borg-collective/internal/drone/worker/container.go:92-140 | without such circles all archives are safe and hold all that was asked for, offline archives have paths, and after a final pass that works all containers run |
| BackupJob.FinalPass | borg-collective/internal/drone/worker/container.go:122-139 | the final pass makes no archive; it works exactly if no command has panicked and all its calls start their containers, and then every container of the project is running |
| BackupJob.PanicSkipsFinalPass | borg-collective/internal/drone/worker/container.go:92-140 | a run ends early only at a command with a bare reference; the final pass is then left out and the dependents stopped for it stay stopped |
| BackupJob.BroughtUp | borg-collective/internal/drone/worker/container.go:148-179 | bringing up works exactly if the start calls of the container and all its dependencies work; then all of them are running |
| BackupJob.BackupIsMade | borg-collective/internal/drone/worker/container.go:276-376 | the archive is made exactly if the command, if any, is found its variables, expands and works; it holds the output, or the sources of all paths, or of all backup volumes, in order, if the paths have sources |
| BackupJob.Engine.EnsureContainerRunning | borg-collective/internal/drone/container/docker/docker.go:58-119 | starts one container, or fails with or without effect |
| BackupJob.Engine.EnsureContainerStopped | borg-collective/internal/drone/container/docker/docker.go:121-150 | stops one container, or fails with or without effect |
| BackupJob.Engine.Execute | borg-collective/internal/drone/container/docker/docker.go:152-184 | inspects, expands the command in place and executes it, or fails, or panics at a bare reference |
| BackupJob.Engine.EnsureGroupRunning | borg-collective/internal/drone/worker/container.go:161-169 | all calls are made, and the group fails if one does |
| BackupJob.Engine.EnsureGroupStopped | borg-collective/internal/drone/worker/container.go:229-237 | all calls are made, and the group fails if one does |
| BackupJob.ContainerProjectBackupJob.FindDependencies | borg-collective/internal/drone/worker/container.go:395-404 | the ids of all dependencies |
| BackupJob.ContainerProjectBackupJob.FindDependents | borg-collective/internal/drone/worker/container.go:406-416 | the services that name the container as a dependency |
| BackupJob.ContainerProjectBackupJob.RunOnlineBackup | borg-collective/internal/drone/worker/container.go:142-186 | the online backup step |
| BackupJob.ContainerProjectBackupJob.RunDependentOfflineBackup | borg-collective/internal/drone/worker/container.go:188-254 | the step of a backup with dependents stopped |
| BackupJob.ContainerProjectBackupJob.RunOfflineBackup | borg-collective/internal/drone/worker/container.go:256-274 | the offline backup step |
| BackupJob.ContainerProjectBackupJob.RunExec | borg-collective/internal/drone/worker/container.go:276-356 | the command, then the archive of its output or paths |
| BackupJob.ContainerProjectBackupJob.RunVolume | borg-collective/internal/drone/worker/container.go:358-376 | the archive of the backup volumes |
| BackupJob.ContainerProjectBackupJob.Run | borg-collective/internal/drone/worker/container.go:92-140 | the plan in order, then the final pass, unless a command panics |
| EndToEnd.ScheduledJobsAreSafe | borg-collective/internal/drone/worker/container.go:44-140 | after any history of events and configurations, every scheduled job run at any time under any failures archives only what is cached and asks for it, each container at most once and with all paths asked for, each archive while its mode demands are met exactly unless two services need each other |
| EndToEnd.ScheduledJobsArchiveAll | borg-collective/internal/drone/worker/container.go:44-140 | the same run, when no call fails and no command has a bare reference: every cached container of the project that asks for a backup is archived once, nothing else is, and all containers are running again |
| EndToEnd.CachedIsWellConfigured | borg-collective/internal/drone/container/docker/watch.go:163-196 | every cached container is well configured |
| MemoError.OneValueForAllCallers | borg-collective/internal/utils/exec.go:89-165 | in every interleaving at most one value is sent and one received, the send finds room, and all callers that return have the value sent, which is the error of copying if that failed and else that of waiting |
| MemoError.RunsKeepInv | borg-collective/internal/drone/container/docker/docker.go:186-208 | the invariant behind it, which the exec in a container shares |
| MemoError.NoDeadlock | borg-collective/internal/utils/exec.go:136-171 | somebody can always take a step until all callers have returned |
| MemoError.RunsAreFinite | borg-collective/internal/utils/exec.go:89-171 | no run is longer than eight steps per caller and two, so all callers return |
| Tokenizer.SplitCommandLine | borg-collective/internal/utils/utils.go:23-36 | the loop over the matches gives the words |
| Tokenizer.BodyLengthIsTheMatch | borg-collective/internal/utils/utils.go:21 | a quoted alternative of the pattern can match in one way only, the one that is found |
| Tokenizer.MatchesCoverTheInput | borg-collective/internal/utils/utils.go:25 | matches are in order and disjoint, and all between them is blank |
| Tokenizer.NonBlanksAreMatchedOnce | borg-collective/internal/utils/utils.go:25 | each non-blank character is in exactly one match |
| Tokenizer.MatchTextIs | borg-collective/internal/utils/utils.go:21-36 | a match is quoted exactly if a quote is closed again and then captures what is between the quotes; a bare one captures the input from its start to the next blank |
| Tokenizer.SplitOfLine | borg-collective/internal/utils/utils.go:21-42 | any arguments, each written bare, in single or in double quotes, with any blanks in front, between and behind, are split into exactly these arguments, without empty ones |
| Tokenizer.FirstEscapeIsReplaced | borg-collective/internal/utils/utils.go:38-42 | unescaping drops the backslash of each escaped quote from left to right and changes nothing else |
| Tokenizer.SplitOfJoin | borg-collective/internal/utils/utils.go:21-42 | for backslash-free arguments, splitting their joined quoted forms gives the list without its empty arguments, so the list itself exactly if none is empty |
| Expansion.ExpandCommand | borg-collective/internal/drone/container/docker/docker.go:416-435 | rewrites the command in place word by word, or stops at the first bare reference leaving the words before it rewritten |
| Expansion.ExpandIsByPieces | borg-collective/internal/drone/container/docker/docker.go:414-435 | in a text made of plain pieces and references, the references to variables that are set are replaced and all else stays; a bare reference panics |
| Expansion.Pieces | borg-collective/internal/drone/container/docker/docker.go:414 | every text is made of such pieces |
| Expansion.IdempotentExactlyIfClosed | borg-collective/internal/drone/container/docker/docker.go:414-435 | expanding an expanded text never changes anything if and only if every value that can be referred to expands to itself and does not end on a lone ampersand |
| Expansion.PlainTextIsKept | borg-collective/internal/drone/container/docker/docker.go:414-435 | a value in which every ampersand precedes a blank meets that condition, in particular one without ampersands |
| Expansion.EveryRunExecutesTheSame | borg-collective/internal/drone/container/docker/docker.go:416-435 | although the stored command is rewritten, every run of every command executes what the first one did, or panics as it did, if and only if the environment meets that condition |
| Expansion.PanicsAgain | borg-collective/internal/drone/container/docker/docker.go:416-435 | a command that panics once panics at every later run |

## Left out

- Failing reads and listings: only writes and deletes fail. Reads of the in-memory backend never do.
- Failures of randomness and of opening a memguard enclave, and the wiping of buffers: they do not occur in the model.
- VerifyPassphrase: a comparison of keys, used inside `CreateVaultItem` only; the reply of `CreateVaultItem` carries no fields.
- DeleteVaultItems, ListVaultItems, ReadVaultItem and the gRPC layer: loops and wrappers around the vault operations.
- Concurrent calls to the vault: they are serialised by its lock.
- Backend.WriteFile: does not model a local file that is left half written, because writes fail all or nothing.
- VaultRuns.RunsConform: says nothing about an unlock whose own writes fail, because the code then leaves the vault neither locked nor open.
- A halted process: a run ends there, and what it leaves behind is described; that a new process takes over is not a step of a run, only reads after a restart are (`VaultTheorems.RestartIsNotNoticed`).
- containerPlan.Less: not a strict weak order, so a plan is some permutation of the containers that need a backup.
- findSourceForInContainerPath: an arbitrary function of container and path, because its prefix test and its slice disagree.
- BackupJob.Engine.EnsureContainerRunning: does not model the health polling in detail; an unhealthy container is a call that fails after its effect.
- The commands stored in a job are those at the start of the run; that the run rewrites them in place is the subject of `Expansion`.
- Calls of one errgroup run one after the other: each concerns its own container, so their order does not matter to the result.
- The borg client: an archive is recorded when its creation is asked for, whether or not borg succeeds.
- Inspections that fail while events are watched end the worker's loop; the model goes on with the cache unchanged.
- ToMap and getParts: the environment of a command is a given map.
- Schedules: `cron.ParseStandard` is an arbitrary partial function; when jobs fire is not modelled.
- The sharing of the container map between cache and job: projects are values.
- parseLogLines, configuration files, CLI, TLS, metrics and logging.
