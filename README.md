# NAppUpdate file tasks — a Dafny model

NAppUpdate is a self-updating framework for .NET applications. An update is a
sequence of tasks. This project models the two tasks that change application files
in place:

- `FileDeleteTask` (alias `fileDelete`) deletes one file of the application.
- `FileMoveTask` (alias `fileMove`) moves one file onto another path.

Each task instance is a small state machine with three operations:

- `Prepare` resolves the configured relative paths against the directory of the application's executable.
- `Execute(coldRun)` first takes a once-only backup of the file it is about to destroy. It then performs the change, but only when hot swapping is allowed or during a cold run (a restart). If a hot attempt throws, the instance downgrades itself to cold-only. It reports `Successful`, `RequiresAppRestart` or `RequiresPrivilegedAppRestart`.
- `Rollback` puts the files back from the backup and always reports `true`.

The file system is a value `Disk`: a map from path to content plus a set of existing
directories. The class `FileSystems.FileSystem` is the mutable disk the tasks work on.
Each of its methods (`Delete`, `Copy`, `Move`, `CreateDirectoryStructure`) is specified by a
`Disk` function. Whether a `File.Delete` or `File.Move` call throws is decided by a flag
the caller passes in:

- `deleteFails` for the delete task;
- a `Fault` for the move task: `NoFault`, `DeleteThrows` or `MoveThrows`.

Such a flag takes effect only if the call is actually made. The write-permission check
is a caller-supplied predicate `canWrite`. The application path and the backup folder
come from `UpdateManager.Instance` in the source; here they are explicit parameters.

Layout:

- `Wrappers.dfy`: `Option`, which stands for a field that C# leaves `null`.
- `Paths.dfy`: `IsNullOrEmpty`, `Combine` and `GetDirectoryName`.
- `FileSystems.dfy`: `Disk`, its operations, and the `FileSystem` class.
- `UpdateTasks.dfy`: `TaskExecutionStatus` and the mirrored backup location `BackupPath`.
- `FileDeleteTask.dfy` and `FileMoveTask.dfy`: one module per task. Each has:
  - a datatype holding the task's fields;
  - `PrepareSpec`, `ExecuteSpec` and `RollbackSpec`, whose contracts state what one call does;
  - `ExecuteAll`, which runs any number of `Execute` calls in order;
  - the lemmas connecting these functions;
  - the class (`FileDeleteTask`, `FileMoveTask`), with the source's fields and methods. Each method is proved to change the object and the disk exactly as the matching function says.

Behaviour of the source worth knowing:

- `FileMoveTask.Rollback` is not a no-op when `Execute` never ran. With a valid configuration, an absent source and an existing destination, it moves the destination onto the source. `FileMoveTasks.RollbackSpec` states this (`MovesBack`), and `FileMoveTasks.RollbackWithoutSourceMovesDestination` proves it for a call of `Execute` that did nothing. The restoration lemma therefore starts from a source that exists.
- `FileDeleteTask.Rollback` does not succeed without a backup. Once the target is resolved, it always calls `File.Copy(_backupFile, …)`, which throws when no backup was taken. The model makes "a backup exists" a precondition (`RollbackReady`).
- `FileDeleteTask.Execute` tests `LocalPath`, not `_destinationFile`. An unprepared task with a non-empty `LocalPath` is a no-op only because `Path.GetDirectoryName(null)` is `null` and `Directory.Exists(null)` is false. The model does the same with `Option` paths.

## Model

| member | source | states |
|---|---|---|
| `Paths.Combine` | src/NAppUpdate.Framework/Tasks/FileDeleteTask.cs:31 | the result is the directory, one separator and the relative path, in that order |
| `Paths.IsNullOrEmpty` | src/NAppUpdate.Framework/Tasks/FileDeleteTask.cs:92 | false exactly when the path is present and has at least one character |
| `FileSystems.DeleteFile` | src/NAppUpdate.Framework/Tasks/FileDeleteTask.cs:66 | the file is gone, every other file keeps its content, no file appears and the directories do not change |
| `FileSystems.FileSystem.Delete` | src/NAppUpdate.Framework/Tasks/FileMoveTask.cs:66 | reports a throw exactly when told to fail; then nothing changes, otherwise the disk becomes `DeleteFile` of the old disk |
| `FileSystems.CopyFile` | src/NAppUpdate.Framework/Tasks/FileDeleteTask.cs:57 | the destination exists with the source's content, it is the only file that may appear, every other file keeps its content and the directories do not change |
| `FileSystems.FileSystem.Copy` | src/NAppUpdate.Framework/Tasks/FileMoveTask.cs:57 | the disk becomes `CopyFile` of the old disk |
| `FileSystems.MoveFile` | src/NAppUpdate.Framework/Tasks/FileMoveTask.cs:68 | the source is gone, the destination has its content, exactly those two names change and the directories do not change |
| `FileSystems.FileSystem.Move` | src/NAppUpdate.Framework/Tasks/FileMoveTask.cs:100-102 | reports a throw exactly when told to fail; then nothing changes, otherwise the disk becomes `MoveFile` of the old disk |
| `FileSystems.CreateDirectory` | src/NAppUpdate.Framework/Tasks/FileDeleteTask.cs:54-55 | the directory is added and the files do not change |
| `FileSystems.FileSystem.CreateDirectoryStructure` | src/NAppUpdate.Framework/Tasks/FileMoveTask.cs:49 | the disk becomes `CreateDirectory` of the old disk |
| `FileSystems.EnsureDirectory` | src/NAppUpdate.Framework/Tasks/FileMoveTask.cs:48-49 | after the existence test and the conditional creation, the directory exists, no other directory appears and the files do not change |
| `Paths.GetDirectoryName` | src/NAppUpdate.Framework/Tasks/FileDeleteTask.cs:43 | the result is the prefix of the path before its last separator, or empty when the path has no separator |
| `Paths.DirectoryOfCombine` | src/NAppUpdate.Framework/Tasks/FileDeleteTask.cs:31 | the directory of `dir` combined with a separator-free name is `dir` again |
| `FileDeleteTasks.PrepareSpec` | src/NAppUpdate.Framework/Tasks/FileDeleteTask.cs:23-33 | an empty `LocalPath` leaves the target unset; otherwise the target is the application directory combined with `LocalPath`; no other field changes |
| `FileDeleteTasks.PrepareIdempotent` | src/NAppUpdate.Framework/Tasks/FileDeleteTask.cs:23-33 | preparing twice with the same application path equals preparing once |
| `FileDeleteTasks.PreparedTargetInApplicationDirectory` | src/NAppUpdate.Framework/Tasks/FileDeleteTask.cs:31-44 | for a bare file name, the directory that `Execute` tests is the application directory |
| `FileDeleteTasks.Backup` | src/NAppUpdate.Framework/Tasks/FileDeleteTask.cs:50-58 | a backup is recorded only if none exists and the target exists; it sits at `BackupFolder + LocalPath`, holds the target's content, and its directory now exists |
| `FileDeleteTasks.ExecuteSpec` | src/NAppUpdate.Framework/Tasks/FileDeleteTask.cs:35-88 | no change and `Successful` for an empty `LocalPath` or a missing directory; once-only backup with the target's content; the target is gone exactly when the delete was attempted (`CanHotSwap` or cold) and did not throw; no other file changes but the backup, and no directory appears but the backup's; a hot failure clears `CanHotSwap` and nothing sets it; `Successful` iff cold run or `CanHotSwap` afterwards; otherwise privileged restart iff the target exists and is not writable; never `Failed`; a hot `Successful` means the target is deleted |
| `FileDeleteTasks.RollbackSpec` | src/NAppUpdate.Framework/Tasks/FileDeleteTask.cs:90-101 | no-op for an unset target; otherwise the target holds exactly the backup's content, and no other file or directory changes |
| `FileDeleteTasks.ExecuteAll` | src/NAppUpdate.Framework/Tasks/FileDeleteTask.cs:35-88 | across repeated calls: a recorded backup never changes, `CanHotSwap` is never set back to true, configuration and target stay, directories only grow |
| `FileDeleteTasks.FirstExecuteBacksUp` | src/NAppUpdate.Framework/Tasks/FileDeleteTask.cs:50-67 | the first call on an existing target records the backup with the target's content and changes no file but the target and the backup |
| `FileDeleteTasks.ExecuteAllKeepsBackup` | src/NAppUpdate.Framework/Tasks/FileDeleteTask.cs:50-67 | once backed up, any further calls leave the backup and every other file but the target as they were |
| `FileDeleteTasks.ExecuteThenRollbackRestores` | src/NAppUpdate.Framework/Tasks/FileDeleteTask.cs:50-100 | one or more `Execute` calls, then `Rollback`, give back the original files plus the backup copy: the target has its pre-execute content (directories created by `Execute` stay) |
| `FileDeleteTasks.HotFailureDefersToColdRun` | src/NAppUpdate.Framework/Tasks/FileDeleteTask.cs:60-87 | a failed hot delete clears `CanHotSwap` and defers with a restart status; the next cold run that does not throw deletes the target and reports `Successful` |
| `FileDeleteTasks.FileDeleteTask.constructor` | src/NAppUpdate.Framework/Tasks/FileDeleteTask.cs:13-21 | a new task has its configuration and neither a target nor a backup |
| `FileDeleteTasks.FileDeleteTask.Prepare` | src/NAppUpdate.Framework/Tasks/FileDeleteTask.cs:23-33 | updates the object exactly as `PrepareSpec` says |
| `FileDeleteTasks.FileDeleteTask.TakeBackup` | src/NAppUpdate.Framework/Tasks/FileDeleteTask.cs:50-58 | updates the object and the disk exactly as `Backup` says |
| `FileDeleteTasks.FileDeleteTask.Execute` | src/NAppUpdate.Framework/Tasks/FileDeleteTask.cs:35-88 | updates the object and the disk and returns the status exactly as `ExecuteSpec` says |
| `FileDeleteTasks.FileDeleteTask.Rollback` | src/NAppUpdate.Framework/Tasks/FileDeleteTask.cs:90-101 | returns `true` and updates the disk exactly as `RollbackSpec` says |
| `FileMoveTasks.PrepareSpec` | src/NAppUpdate.Framework/Tasks/FileMoveTask.cs:26-37 | empty or equal paths leave `_fromFile`/`_toFile` unchanged; otherwise both become the application directory combined with the relative path; the instance invariant (both set together, distinct) is kept |
| `FileMoveTasks.PrepareIdempotent` | src/NAppUpdate.Framework/Tasks/FileMoveTask.cs:26-37 | preparing twice with the same application path equals preparing once |
| `FileMoveTasks.Backup` | src/NAppUpdate.Framework/Tasks/FileMoveTask.cs:47-58 | the destination directory then exists; a backup is recorded only if none exists and the destination exists, at `BackupFolder + ToPath`, holding the destination's content |
| `FileMoveTasks.Mutate` | src/NAppUpdate.Framework/Tasks/FileMoveTask.cs:63-69 | without a throw, the source is gone and the destination holds the source's content; a throwing delete changes nothing; a throwing move leaves the destination deleted; nothing else changes |
| `FileMoveTasks.ExecuteSpec` | src/NAppUpdate.Framework/Tasks/FileMoveTask.cs:39-91 | no change and `Successful` for invalid paths or a missing source; once-only backup with the destination's content; no mutation unless `CanHotSwap` or cold; an attempt that does not throw moves the source onto the destination; only the source, the destination and the new backup change, and no directory appears but the destination's and the backup's; a hot failure clears `CanHotSwap` and nothing sets it; `Successful` iff cold run or `CanHotSwap` afterwards; otherwise privileged restart iff source or destination exists and is not writable; never `Failed` |
| `FileMoveTasks.RollbackSpec` | src/NAppUpdate.Framework/Tasks/FileMoveTask.cs:93-104 | no-op for invalid paths; first the destination moves back to the source if it exists and the source does not; then the backup moves onto the destination if it exists and the destination does not; other files and the directories do not change |
| `FileMoveTasks.ExecuteAll` | src/NAppUpdate.Framework/Tasks/FileMoveTask.cs:39-91 | across repeated calls: a recorded backup never changes, `CanHotSwap` is never set back to true, configuration and resolved paths stay, the instance invariant holds |
| `FileMoveTasks.ExecutePreservesInFlight` | src/NAppUpdate.Framework/Tasks/FileMoveTask.cs:52-78 | each `Execute` call keeps the original content of source and destination recoverable: in place, in the backup, or moved onto the destination |
| `FileMoveTasks.ExecuteAllPreservesInFlight` | src/NAppUpdate.Framework/Tasks/FileMoveTask.cs:52-78 | the same holds after any number of calls |
| `FileMoveTasks.RollbackFromInFlight` | src/NAppUpdate.Framework/Tasks/FileMoveTask.cs:93-104 | from any such state, `Rollback` gives back the original files except at the backup location (directories created by `Execute` stay) |
| `FileMoveTasks.ExecuteThenRollbackRestores` | src/NAppUpdate.Framework/Tasks/FileMoveTask.cs:52-103 | any number of `Execute` calls with any failures, then `Rollback`, give back the original files (a destination that did not exist is absent again), except at the backup location; directories created by `Execute` stay |
| `FileMoveTasks.HotFailureDefersToColdRun` | src/NAppUpdate.Framework/Tasks/FileMoveTask.cs:61-90 | a failed hot move clears `CanHotSwap` and defers with the source still in place; the next cold run that does not throw moves the source onto the destination and reports `Successful` |
| `FileMoveTasks.RollbackWithoutSourceMovesDestination` | src/NAppUpdate.Framework/Tasks/FileMoveTask.cs:41-100 | with valid paths, no source and an existing destination, `Execute` changes nothing and reports `Successful`, and `Rollback` then moves the destination onto the source |
| `FileMoveTasks.FileMoveTask.constructor` | src/NAppUpdate.Framework/Tasks/FileMoveTask.cs:13-24 | a new task has its configuration, no resolved paths and no backup |
| `FileMoveTasks.FileMoveTask.Prepare` | src/NAppUpdate.Framework/Tasks/FileMoveTask.cs:26-37 | updates the object exactly as `PrepareSpec` says |
| `FileMoveTasks.FileMoveTask.CreateDirectoryAndBackup` | src/NAppUpdate.Framework/Tasks/FileMoveTask.cs:47-58 | updates the object and the disk exactly as `Backup` says |
| `FileMoveTasks.FileMoveTask.DeleteAndMove` | src/NAppUpdate.Framework/Tasks/FileMoveTask.cs:63-77 | updates the disk as `Mutate` says and reports whether a call threw |
| `FileMoveTasks.FileMoveTask.Execute` | src/NAppUpdate.Framework/Tasks/FileMoveTask.cs:39-91 | updates the object and the disk and returns the status exactly as `ExecuteSpec` says |
| `FileMoveTasks.FileMoveTask.Rollback` | src/NAppUpdate.Framework/Tasks/FileMoveTask.cs:93-104 | returns `true` and updates the disk exactly as `RollbackSpec` says |

## Left out

- Path comparison: paths are compared as exact strings, so a file system that ignores case is not modelled. `FromPath.Equals(ToPath)` is case-sensitive, so on Windows `App.dll` and `app.dll` pass `Prepare` yet name one file. The source then deletes its own source and the move throws; the model treats the two as different files and moves one onto the other.
- Path semantics: `Path.Combine` is a join with one `\` separator. `Path.GetDirectoryName` is the prefix before the last separator. Rooted paths, drive letters, `/`, `.` and `..` are not modelled.
- Write permission: `PermissionsCheck.HaveWritePermissionsForFileOrFolder` is not part of this model. It is the caller-supplied predicate `canWrite`.
- Directory creation: `FileSystem.CreateDirectoryStructure` only adds the one directory. Its parents and its failures are not modelled. The file map does not depend on the directory set.
- Logging, the `IUpdateSource` argument of `Prepare` (unused by both tasks), and the `NauField`, `UpdateTaskAlias` and `Serializable` attributes are not modelled. The configuration schema is not modelled either.
- `UpdateManager.Instance` is replaced by the parameters `applicationPath` and `backupFolder`.
- An exception outside the guarded blocks is not modelled. This covers directory creation, the backup copy, and `File.Move` inside `FileMoveTask.Rollback`. Those calls are modelled as succeeding.
- `FileDeleteTasks.FileDeleteTask.Rollback`: the `File.Copy` from a backup that was never taken, which throws in the source, is excluded by the precondition `RollbackReady`. That precondition also excludes the backup being the target itself.
- Concurrency and interference from other processes: the only failures are the caller's flags.
- After construction, the configured paths are constants (`const`). In the source they are settable properties.
- `TaskExecutionStatus.Failed` exists, but neither task returns it.
- `FileDeleteTasks.ExecuteSpec`: the content of the new backup is stated only when the backup location is not the target itself (`SeparateFrom`). The source does not exclude that aliasing. There, `File.Copy` onto the same file would throw.
- `FileMoveTasks.ExecuteSpec`: a move that does not throw, the state after a throw, and the backup's content are stated only when the backup location is neither the source nor the destination (`SeparateFrom`).
- `FileMoveTasks.RollbackSpec`: the outcome for the source and the destination is stated only when the recorded backup is neither of them (`BackupSeparate`).
- `FileDeleteTasks.ExecuteThenRollbackRestores` and `FileMoveTasks.ExecuteThenRollbackRestores` assume the same separation, and a fixed backup folder across calls.
