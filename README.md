# watchman backup core in Dafny

This project models the two pieces of `internal/backup` that carry the
logic of the watchman backup daemon:

- the **incremental sync engine** of `internal/backup/sync.go`. It covers
  the tree scanner (`getFileInfo`, `scanDirectory` with its walk callback,
  hashing workers and aggregator), `Sync` (diff, create/copy, orphan removal
  and progress) and `copyFile`;
- the **task manager** of `internal/backup/manager.go`. It covers the
  `Manager` with its task map and timer map, and `AddTask`, `ListTasks`,
  `DeleteTask`, `StopTask` and `Shutdown`. It also covers the store
  operations `loadTasks`/`saveTasks`, the timer operations
  `startBackupTimer`/`stopBackupTimer` and the status sequence of
  `performBackup`.

Both are imperative in Go, and the model keeps that form:

- `ScanDirectory`, `CountToSync`, `ApplyChanges`, `RemoveOrphanPaths` and `Sync` are
  methods with loops.
- The manager is a `class Manager` whose methods update `tasks`, `timers` and
  the config file in place.
- Each method is proved against a specification function:
  - `ScanSpec` for a scan;
  - the folds `ApplyAll` and `RemoveOrphans`, and `SyncRun`, for a sync;
  - `Reload`, `LoadAll` and `Enumerates` for the manager.
- The properties are lemmas about those functions.

Files:

| file | module | contents |
|---|---|---|
| `filesystem.dfy` | `FileSystem` | the filesystem as a map from paths to nodes; `os.MkdirAll`, `os.RemoveAll` and the open/create/chtimes steps of `copyFile` |
| `scan.dfy` | `Scan` | `getFileInfo`, the walk, `scanDirectory`, and the snapshot lemmas |
| `sync.dfy` | `SyncEngine` | the sync set, the apply and removal folds, `SyncRun` and the `Sync` method with its loops |
| `sync_facts.dfy` | `SyncFacts` | lemmas about the folds, about whole runs, and about a rescan of the target and a second run |
| `task.dfy` | `Task` | the `BackupTask` record and the status strings |
| `manager.dfy` | `TaskManager` | `Manager` and the load/save/arm specification functions and lemmas |

Modelling choices:

- **Paths and snapshots.**
  - A path is the list of its components, and `[]` is "/".
  - Snapshot keys are paths relative to the scan root. The root itself is
    the key `[]`, which Go spells ".".
  - A well-formed tree (`Tree`) has a directory at `[]` and every other
    entry inside a directory. `MkdirAll`, `CopyFile` and `RemoveAll` keep a
    tree well formed. The lemmas that need it require it of the starting
    filesystem.
- **Hashes.** The SHA-256 hex digest is an uninterpreted function from
  content to a non-empty string. That is all the diff relies on.
- **Iteration order.** Go's map iteration order is unspecified. The scan
  takes paths in an arbitrary order (`:|`). `Sync` returns the orders its
  two `range` loops used as ghost lists (`applied`, `removed`), and
  `Planned` states that these are orders a `range` can take.
- **Progress.**
  - The progress channel is the returned sequence of values, and each value
    is the exact real `k/n*100`.
  - The sync error is the `SyncError` datatype, with one constructor per
    `fmt.Errorf` site.
- **The config file.** It is the `Store` datatype: missing, unreadable, not
  parsable, or a list of task records. What a save does is the `disk`
  field, of type `Disk`:
  - `Writable`: the file is written whole.
  - `Unwritable`: the config directory cannot be made or the file cannot be
    opened, and the file is left as it was.
  - `Truncating`: `os.WriteFile` truncates the file and then fails to write
    it, leaving a file that no longer parses.
- **Timers and parsing.**
  - A timer is armed exactly when its name is in `timers`.
  - `time.ParseDuration` is the `parseDuration` field. The schedule string
    plus `"m"` is what is parsed.
  - Path strings become paths through the `resolve` field. As in the code,
    a root whose last component is hidden counts as hidden. This includes a
    root written "." or ending in "/.", because `filepath.Walk` reports the
    root under the name "." and the walk callback then skips the whole tree
    (`internal/backup/sync.go:127`).
    - A source of "." syncs nothing.
    - A target of "." always scans as empty. So every source file is copied
      again on every run, and no orphan is ever removed
      (`Scan.EmptyIffHiddenRoot`).

Behaviour of the code that the model keeps as written:

- On either early return of `Sync` (empty source snapshot at
  `internal/backup/sync.go:201-207`, nothing to sync at
  `internal/backup/sync.go:221-226`), one 100 is sent and target orphans
  are not removed (`SyncFacts.EarlyReturnKeepsOrphans`).
- `performBackup` never sets the status "Error" and never records the sync
  error:
  - whatever `Sync` returns, the task ends "Ready" at 100% with an empty
    `Error` (`TaskManager.Manager.PerformBackup`);
  - progress is never set to 0 on failure.
- `StopTask` and `DeleteTask` return an error when the save fails. The
  in-memory change is then already made and is not undone.
- `loadTasks` replaces the task map, but it adds timers on top of the old
  timer map and never clears it. A record that appears twice in the file is
  loaded as its last occurrence.
- `os.RemoveAll` removes an orphan directory together with everything in it
  (`internal/backup/sync.go:266`), dot entries included. Dot entries in the
  target are kept only below paths the source snapshot holds
  (`SyncFacts.HiddenTargetEntriesSurvive`).
- `performBackup` never calls `saveTasks`. The next reload, for instance
  the one at the start of `AddTask` (`internal/backup/manager.go:51`),
  therefore replaces every task in the file with its saved record
  (`TaskManager.ReloadForgetsUnsaved`). Status, progress and last-backup
  time from backups since the last save are lost.
- A save that fails after `os.WriteFile` has truncated the config file
  (`internal/backup/manager.go:223`) reports the error. The file it leaves
  makes the next load fail to parse (`TaskManager.TruncatedSaveFailsReload`).

## Model

| member | source | states |
|---|---|---|
| FileSystem.MkdirAll | internal/backup/sync.go:186-188 | on success the path is a directory, every existing entry is kept as it was, and every new entry is a fresh directory on the way to the path; an existing directory means no change, an existing file means failure; a well-formed tree stays well formed |
| FileSystem.CopyFile | internal/backup/sync.go:281-300 | succeeds exactly when the source is a readable file and the destination can be created (an existing destination must be a file that is both readable and writable, as `os.Create` opens it read-write; a new one needs a writable parent directory); then only the destination changes, and it becomes a file with the source's bytes and the given modification time (emptied when source and destination are the same file); a well-formed tree stays well formed |
| FileSystem.RemoveAll | internal/backup/sync.go:266-268 | a missing path is success with no change; success removes exactly the subtree at the path and keeps every other entry with its value; failure exactly when a directory in the way may not be changed; a well-formed tree stays well formed |
| Scan.GetFileInfo | internal/backup/sync.go:41-63 | succeeds exactly when the entry exists and, if it is a file, can be read; the record has the entry's path, kind and modification time; the hash is empty exactly for directories, and a file has the hash and size of its content |
| Scan.RunJob | internal/backup/sync.go:158-181 | a job succeeds exactly when `getFileInfo` does, and the key it yields, joined to the scan root, is the path that was statted |
| Scan.ScanDirectory | internal/backup/sync.go:81-155 | the result is `ScanSpec`: a walk error (missing root, unreadable directory reached) first, then a worker error, otherwise the map of every queued entry described by `getFileInfo` |
| Scan.SnapshotHasNoHiddenNames | internal/backup/sync.go:126-132 | no snapshot key has a dot-name on the way from the root, and the root's own name is not hidden either |
| Scan.VisibleIsQueued | internal/backup/sync.go:121-137 | in a well-formed tree whose walk does not fail, every entry below the root with no dot-name on its way is sent to the workers |
| Scan.SnapshotIsVisibleSubtree | internal/backup/sync.go:121-155 | in a well-formed tree, a successful scan holds a key exactly when the entry exists and no name on its way is hidden (both directions) |
| Scan.SnapshotEntry | internal/backup/sync.go:169-178 | each snapshot value is what `getFileInfo` reports for the key joined to the root: its path, modification time and kind, an empty hash exactly for directories, and the content hash and size for files |
| Scan.SnapshotPrefixClosed | internal/backup/sync.go:127-130 | every prefix of a snapshot key is a key, and every proper prefix is a directory |
| Scan.EmptyIffHiddenRoot | internal/backup/sync.go:127-131 | a successful snapshot is empty exactly when the root's name is hidden; otherwise the root "." is a key |
| Scan.UnreadableFileFailsScan | internal/backup/sync.go:150-152 | in a well-formed tree, one visible unreadable file makes the whole scan fail |
| Scan.QueuedBefore | internal/backup/sync.go:121-137 | if the only changes to a well-formed tree are to what files hold, a path the walk queues afterwards that was already an entry was queued before too |
| Scan.ScanIsLocal | internal/backup/sync.go:121-155 | two filesystems that agree at and below the root give the same scan result |
| SyncEngine.ApplyEntry | internal/backup/sync.go:234-253 | nothing is deleted; every other existing entry keeps its value; every path added lies on the way to the entry's target path, and each one other than that path is a directory; an existing entry that changes was a file and is still one; a well-formed tree stays well formed; a directory entry becomes a directory; a file entry becomes the source's bytes with the source's recorded modification time; a failed mkdir changes nothing and is reported as `CreateDirFailed`, a failed file entry as `ParentDirFailed` or `CopyFailed` |
| SyncEngine.RemoveEntry | internal/backup/sync.go:264-269 | only deletes; on success the orphan's subtree is gone and everything outside it kept; on failure nothing changes and the error names the path; a well-formed tree stays well formed |
| SyncEngine.CountToSync | internal/backup/sync.go:213-218 | `filesToSync` is the size of the sync set: the source paths the target lacks or holds with another hash |
| SyncEngine.ApplyChanges | internal/backup/sync.go:229-260 | the loop visits source entries with their own values and none twice, all of them when it finishes; its filesystem and error are the apply fold's, and its progress is one value `k/n*100` per applied entry |
| SyncEngine.RemoveOrphanPaths | internal/backup/sync.go:263-270 | the loop visits target entries with their own values and none twice, all of them when it finishes; its filesystem and error are the removal fold's |
| SyncEngine.Sync | internal/backup/sync.go:184-278 | the final filesystem, the progress values and the error are `SyncRun` over visit orders a run can take; a failure to make the target root sends nothing and changes nothing |
| SyncFacts.ProgressShape | internal/backup/sync.go:254-258 | the k-th value is k/n*100; the values increase strictly, lie in (0, 100], and the n-th is exactly 100 |
| SyncFacts.ApplyAllStops | internal/backup/sync.go:236-252 | once an entry fails, later entries change nothing: the outcome is that of the prefix that failed |
| SyncFacts.ApplyAllFrame | internal/backup/sync.go:229-260 | the apply loop never deletes and leaves every path it does not write to unchanged; every path it adds lies on the way to a path it writes, and every added path it does not write is a directory; an existing entry that changes was a file and stays one; a well-formed tree stays well formed |
| SyncFacts.ApplyAllInstalls | internal/backup/sync.go:234-253 | with disjoint roots and no repeated key, a loop that finishes has put every visited sync-set entry in place (a directory, or a copy of the source bytes with the recorded modification time), and later entries do not disturb earlier ones |
| SyncFacts.ApplyAllDone | internal/backup/sync.go:254 | the applied count is at most the number of visited sync-set entries, and equal to it when the loop finishes |
| SyncFacts.RemoveOrphansEffect | internal/backup/sync.go:263-270 | the removal loop only deletes, keeps values, keeps every path outside the visited orphans' subtrees, keeps a well-formed tree well formed, and when it finishes no visited orphan is left |
| SyncFacts.EarlyReturnKeepsOrphans | internal/backup/sync.go:201-226 | with an empty source snapshot or an empty sync set the run sends exactly one 100 and succeeds, the filesystem stays as making the target root left it, and every target orphan is still there |
| SyncFacts.RootNeverSynced | internal/backup/sync.go:213-218 | a visible source root that is a directory is "." in both snapshots, a directory with an empty hash on both sides, and never in the sync set |
| SyncFacts.DirectoryNotResynced | internal/backup/sync.go:213-218 | a source directory that is a directory at the same target path is not in the sync set |
| SyncFacts.FinishProgress | internal/backup/sync.go:254-275 | past the early returns, the k-th value is k/n*100; the values rise strictly, never fall, and lie in (0, 100]; a successful run sends n of them, ending with 100, and then one more 100; a failed run sends at most n |
| SyncFacts.SyncProgress | internal/backup/sync.go:184-278 | over any run the progress values never fall and lie in (0, 100], and a successful run ends with 100 |
| SyncFacts.RemovalsFollowApply | internal/backup/sync.go:229-270 | an apply failure ends the run before any removal (no orphan visited, no path deleted); removal starts only after all n sync-set entries are applied |
| SyncFacts.NoOrphanLeft | internal/backup/sync.go:262-270 | once both loops have finished, no orphan of the target snapshot is left in the filesystem |
| SyncFacts.NoOrphanRemains | internal/backup/sync.go:262-270 | after a successful run past the early returns, no entry of the target's scan that the source snapshot lacks is left |
| SyncFacts.SyncedEntriesInstalled | internal/backup/sync.go:234-253 | with disjoint roots, after a successful run past the early returns, every sync-set directory is a directory in the target, and every sync-set file is the source's bytes with the source's recorded modification time |
| SyncFacts.TargetMirrorsSource | internal/backup/sync.go:184-278 | with disjoint roots, after any successful run, every source snapshot entry has a target entry of the same kind, and a file's target has the same content hash |
| SyncFacts.HiddenTargetEntriesSurvive | internal/backup/sync.go:263-269 | a target path below a dot-named child of a path the source snapshot holds is never removed, whatever the outcome of the run |
| SyncFacts.AddedKeyInSource | internal/backup/sync.go:234-253 | a target path the apply loop added, taken relative to the target root, is a key of the source snapshot |
| SyncFacts.FinishKeepsKinds | internal/backup/sync.go:229-270 | the two loops change no entry's kind (what they overwrite was a file and stays one), keep a well-formed tree well formed, and add only what the apply loop added |
| SyncFacts.RescanKeyInSource | internal/backup/sync.go:229-270 | after both loops finish, a path that a rescan of the target queues is a key of the source snapshot |
| SyncFacts.FinishRescanKeys | internal/backup/sync.go:229-270 | after both loops finish, every key of a rescan of the target is a key of the source snapshot |
| SyncFacts.MatchedEntryRescanned | internal/backup/sync.go:121-155 | a source entry whose counterpart in a well-formed target matches it in kind and hash is in a clean rescan of a target whose root name is not hidden, with the same kind and hash |
| SyncFacts.RescanIsSource | internal/backup/sync.go:121-155 | a clean rescan of such a target that matches every source entry and queues nothing else has exactly the source snapshot's keys, with the same kinds and hashes, and an empty sync set against the source |
| SyncFacts.TargetRescanMatchesSource | internal/backup/sync.go:184-278 | with a well-formed tree, disjoint roots and a target root whose name is not hidden, after a successful run past the early returns, a clean rescan of the target has exactly the source snapshot's keys, each with the same kind and hash, so nothing is left to sync (both directions of the mirror) |
| SyncFacts.FinishKeepsSource | internal/backup/sync.go:229-270 | with disjoint roots the two loops leave every entry at or below the source root as it was |
| SyncFacts.FinishKeepsTargetRoot | internal/backup/sync.go:262-270 | when the source snapshot holds ".", the target root is still a directory after both loops |
| SyncFacts.SecondRunChangesNothing | internal/backup/sync.go:184-226 | under the same conditions, the next run over the filesystem the first left, at any time and in any visit order, sends one 100, returns no error and changes nothing |
| TaskManager.LoadAll | internal/backup/manager.go:185-192 | the loaded map is keyed by name, and its keys are exactly the names in the file |
| TaskManager.ArmAll | internal/backup/manager.go:190-198 | after loading, the armed names are the old timers plus every record that is not "Stopped" and whose schedule parses as minutes |
| TaskManager.Reload | internal/backup/manager.go:166-201 | a missing file changes nothing and is no error; an unreadable or unparsable file is an error and changes nothing; a task list replaces the map by name and arms timers as `ArmAll` says |
| TaskManager.SaveLoadRoundTrip | internal/backup/manager.go:204-208 | loading the list `saveTasks` wrote from a name-keyed map gives back exactly that map |
| TaskManager.LoadDistinct | internal/backup/manager.go:190-192 | when no two records share a name, every record is loaded unchanged under its name |
| TaskManager.TruncatedSaveFailsReload | internal/backup/manager.go:179-182 | after a save that truncated the file and failed, the next load is a parse error and keeps the tasks and timers in memory |
| TaskManager.ReloadForgetsUnsaved | internal/backup/manager.go:185-192 | after a reload, every task named in the file (names distinct) is exactly its saved record, whatever the task map held before |
| TaskManager.BackupProgressRises | internal/backup/manager.go:310-357 | 0, then the sync's values, then 100, never falls and stays within [0, 100] |
| TaskManager.BackupHistoryRises | internal/backup/manager.go:310-358 | along the states a task goes through in one backup, its progress never falls |
| TaskManager.Manager.constructor | internal/backup/manager.go:22-41 | a new manager is the empty manager after one `loadTasks`, and its map is keyed by name |
| TaskManager.Manager.LoadTasks | internal/backup/manager.go:166-201 | the task map, timer map and error are exactly `Reload` of the config file and the old maps |
| TaskManager.Manager.StartBackupTimer | internal/backup/manager.go:237-249 | a schedule that does not parse as minutes is an `InvalidSchedule` error and arms nothing; otherwise exactly this name's timer is set to the parsed interval |
| TaskManager.Manager.StopBackupTimer | internal/backup/manager.go:289-296 | exactly this name's timer is removed; a name without one changes nothing |
| TaskManager.Manager.ListTasks | internal/backup/manager.go:88-103 | the list holds every task once, each the value stored under its key |
| TaskManager.Manager.SaveTasks | internal/backup/manager.go:204-234 | a writable disk receives every task once, and loading the file returns the map; any other disk is a `WriteFailed` error; when the directory or the open fails the file keeps its old contents, and when the write fails after truncation it is left `Corrupt` |
| TaskManager.Manager.AddTask | internal/backup/manager.go:44-85 | after the reload, a duplicate name is rejected with nothing else changed; an unparsable schedule or a failed save leaves no task under the name (and after a failed save no timer either, and the config file is left as `FailedSave` says); success stores the task as Ready at 100 with no last backup, arms its timer, and saves a store that loads back to the map |
| TaskManager.Manager.InsertNew | internal/backup/manager.go:60-84 | for a name not in the map: an unparsable schedule changes nothing; a failed save leaves neither task nor timer and the config file as `FailedSave` says; a good one stores the task as Ready at 100 with no last backup, arms exactly its timer, and saves a file that loads back to the map |
| TaskManager.Manager.DeleteTask | internal/backup/manager.go:106-127 | an unknown name is an error and changes nothing; otherwise exactly this task and its timer go, other tasks are untouched, and the save outcome is reported |
| TaskManager.Manager.StopTask | internal/backup/manager.go:130-153 | an unknown name is an error and changes nothing; otherwise only this task becomes Stopped at 0, only its timer goes, and the save outcome is reported |
| TaskManager.Manager.Shutdown | internal/backup/manager.go:156-163 | every timer is stopped and the task map is unchanged |
| TaskManager.Manager.ReceiveProgress | internal/backup/manager.go:339-362 | the task takes each progress value in turn, then its final state; other tasks are untouched and the map stays keyed by name |
| TaskManager.Manager.PerformBackup | internal/backup/manager.go:299-364 | an unknown name is an error and changes nothing; otherwise the task goes Running at 0 with an empty error, shows each sync progress value, and ends Ready at 100 with the given last-backup time, whatever the sync returned; the filesystem is the sync's |

## Left out

- Goroutines, channels, the `WaitGroup` and the mutexes of `scanDirectory` and `Manager`. The scan is run one path at a time, and progress is a returned sequence rather than a channel. A nil progress channel (no values sent) is not modelled.
- Timer goroutines, `timer.Reset`, and the immediate backup `startBackupTimer` launches. These run concurrently, and overlapping `performBackup` runs are concurrency too. Arming is membership in `timers`, and `PerformBackup` is a separate method.
- The timer that `startBackupTimer` overwrites on a reload is not stopped in the code. It keeps firing, but the model has no running timers, so this is not captured.
- SHA-256 (`calculateHash`) is a foreign library. It is an uninterpreted function from content to a non-empty digest.
- `time.ParseDuration`, `json.MarshalIndent`/`Unmarshal`, `os.ReadFile`/`WriteFile` and `time.Now` are standard-library calls whose bodies are not part of this model. They are modelled as the `parseDuration` field, the `Store` and `Disk` datatypes, and time parameters. A `Truncating` save always leaves a file that does not parse, although a write that fails only once the file is closed may in fact leave complete data.
- The `float64` progress values are exact reals, not IEEE doubles.
- Symbolic links, `os.Stat` races between the walk and the workers, `filepath.Rel` failures, and file sizes beyond `int64` are not modelled.
- `os.RemoveAll` is all-or-nothing in the model. The real call may remove part of a subtree before it fails.
- FileSystem.CopyFile: failure is modelled only before the destination is opened. `io.Copy` failing after `os.Create` has truncated the destination, say on a full disk (`internal/backup/sync.go:294`), would leave it truncated. `os.Chtimes` failing on an existing file, say one owned by another user (`internal/backup/sync.go:299`), would leave the new bytes with a new modification time. Either way the run fails. The model has no disk capacity or file owner, so it does not say what such a failure leaves behind.
- FileSystem.CopyFile: fails without creating the destination when the source is a directory. The real `os.Create` would first truncate or create it. `Sync` only copies entries recorded as files.
- FileSystem.MkdirAll: new directories get size 0 and the given time, as the real size and time of a new directory are platform-defined.
- Path strings are turned into paths by the `resolve` field; `filepath.Join`/`Clean` are not modelled.
- The model stores task values, not pointers. A `performBackup` writing through a pointer to a task that was meanwhile deleted or reloaded is concurrency and is not captured.
- TaskManager.Manager.constructor: models only the success path of `NewManager`. Failing to create the config directory at start-up is not modelled.
- SyncFacts.TargetRescanMatchesSource: requires the rescan of the target to succeed, and does not prove that it does. So does `SecondRunChangesNothing`. The rescan compares keys, kinds and hashes. Sizes and times of new directories may differ from the source's and are not compared.
- `cmd/watchman`, `internal/daemon`, `internal/client`, `internal/ipc` and `internal/config` are UI, socket and wiring code, and are not part of this model. So is logging.
