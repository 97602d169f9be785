/**
 * The `fileDelete` update task: deletes one file of the application, after
 * taking a once-only backup of it, either while the application runs (hot,
 * when hot swapping is allowed) or during a restart (cold).
 *
 * `DeleteTask` holds the task's fields as a value; `PrepareSpec`,
 * `ExecuteSpec` and `RollbackSpec` say what one call does, and the class
 * `FileDeleteTask` is the object the updater drives, each of its methods
 * proved to do what the corresponding function says.
 */
module FileDeleteTasks {
  import opened Wrappers
  import opened Paths
  import opened FileSystems
  import opened UpdateTasks

  /** The fields of a delete task: its configuration and what it has recorded. */
  datatype DeleteTask = DeleteTask(
    localPath: Path,                 // file to delete, relative to the application directory
    canHotSwap: bool,                // may the delete be attempted while the application runs
    destinationFile: Option<Path>,   // absolute target, set by Prepare
    backupFile: Option<Path>)        // absolute backup, set at most once by Execute

  datatype Outcome = Outcome(task: DeleteTask, disk: Disk, status: TaskExecutionStatus)

  /** What one call to `Execute` may do, in the order it does it. */
  datatype Run = Run(coldRun: bool, deleteFails: bool)

  /** The backup location of the task leaves its target alone. */
  predicate SeparateFrom(b: Path, t: DeleteTask) {
    t.destinationFile != Some(b)
  }

  function PrepareSpec(t: DeleteTask, applicationPath: Path): (r: DeleteTask)
    ensures r.localPath == t.localPath && r.canHotSwap == t.canHotSwap && r.backupFile == t.backupFile
    ensures t.localPath == "" ==> r.destinationFile == t.destinationFile
    ensures t.localPath != "" ==> r.destinationFile == Some(Combine(GetDirectoryName(applicationPath), t.localPath))
  {
    if t.localPath == "" then t
    else t.(destinationFile := Some(Combine(GetDirectoryName(applicationPath), t.localPath)))
  }

  /** Preparing twice with the same application path is the same as preparing once. */
  lemma PrepareIdempotent(t: DeleteTask, applicationPath: Path)
    ensures PrepareSpec(PrepareSpec(t, applicationPath), applicationPath) == PrepareSpec(t, applicationPath)
  {
  }

  /**
   * A prepared target given as a bare file name lies in the application
   * directory, so the directory test of `Execute` is a test of that directory.
   */
  lemma PreparedTargetInApplicationDirectory(t: DeleteTask, applicationPath: Path)
    requires t.localPath != "" && Separator !in t.localPath
    ensures var r := PrepareSpec(t, applicationPath);
            r.destinationFile.Some? && GetDirectoryName(r.destinationFile.value) == GetDirectoryName(applicationPath)
  {
  }

  /** `Execute` gets past its two no-op guards. */
  predicate Proceeds(t: DeleteTask, d: Disk) {
    t.localPath != "" && t.destinationFile.Some? && GetDirectoryName(t.destinationFile.value) in d.dirs
  }

  /** `Execute` takes the backup: none taken yet and the target exists. */
  predicate TakesBackup(t: DeleteTask, d: Disk) {
    Proceeds(t, d) && t.backupFile.None? && FileExists(d, t.destinationFile)
  }

  /** The delete is attempted: hot swapping is allowed or this is a cold run. */
  predicate Attempts(t: DeleteTask, coldRun: bool) {
    t.canHotSwap || coldRun
  }

  /** `File.Delete` is called and throws. */
  predicate Throws(t: DeleteTask, d: Disk, coldRun: bool, deleteFails: bool) {
    Proceeds(t, d) && Attempts(t, coldRun) && FileExists(d, t.destinationFile) && deleteFails
  }

  /** The disk after the backup step, with the new backup if one is taken. */
  function WithBackup(t: DeleteTask, d: Disk, backupFolder: Path): map<Path, Content>
    requires Proceeds(t, d)
  {
    if TakesBackup(t, d) then
      d.files[BackupPath(backupFolder, t.localPath) := d.files[t.destinationFile.value]]
    else d.files
  }

  /** The backup step of `Execute`: taken at most once, next to a created directory. */
  function Backup(t: DeleteTask, d: Disk, backupFolder: Path): (r: (DeleteTask, Disk))
    requires Proceeds(t, d)
    ensures r.0 == if TakesBackup(t, d) then t.(backupFile := Some(BackupPath(backupFolder, t.localPath))) else t
    ensures r.1.files == WithBackup(t, d, backupFolder)
    ensures d.dirs <= r.1.dirs
    ensures TakesBackup(t, d) ==> GetDirectoryName(BackupPath(backupFolder, t.localPath)) in r.1.dirs
  {
    if TakesBackup(t, d) then
      var b := BackupPath(backupFolder, t.localPath);
      var d0 := EnsureDirectory(d, GetDirectoryName(b));
      (t.(backupFile := Some(b)), CopyFile(d0, t.destinationFile.value, b))
    else (t, d)
  }

  function ExecuteSpec(t: DeleteTask, d: Disk, backupFolder: Path, coldRun: bool, deleteFails: bool,
                       canWrite: Path -> bool): (r: Outcome)
    // no-op guards
    ensures !Proceeds(t, d) ==> r == Outcome(t, d, Successful)
    ensures r.task.localPath == t.localPath && r.task.destinationFile == t.destinationFile
    // the backup is taken once, to the mirrored location, with the target's content
    ensures r.task.backupFile == if TakesBackup(t, d) then Some(BackupPath(backupFolder, t.localPath)) else t.backupFile
    ensures t.backupFile.Some? ==> r.task.backupFile == t.backupFile
    ensures TakesBackup(t, d) && SeparateFrom(BackupPath(backupFolder, t.localPath), t) ==>
              var b := BackupPath(backupFolder, t.localPath);
              b in r.disk.files && r.disk.files[b] == d.files[t.destinationFile.value]
              && GetDirectoryName(b) in r.disk.dirs
    // the target is gone exactly when the delete was attempted and did not throw
    ensures Proceeds(t, d) ==>
              var dest := t.destinationFile.value;
              && (dest in r.disk.files <==> dest in d.files && !(Attempts(t, coldRun) && !deleteFails))
              && (dest in r.disk.files ==> r.disk.files[dest] == d.files[dest])
    // no other file changes except the new backup
    ensures Proceeds(t, d) ==>
              r.disk.files - {t.destinationFile.value} == WithBackup(t, d, backupFolder) - {t.destinationFile.value}
    ensures !Attempts(t, coldRun) && Proceeds(t, d) ==> r.disk.files == WithBackup(t, d, backupFolder)
    ensures d.dirs <= r.disk.dirs
    // the backup's directory is the only one that may appear
    ensures r.disk.dirs <= d.dirs + {GetDirectoryName(BackupPath(backupFolder, t.localPath))}
    // a hot failure downgrades the task to cold-only; nothing sets the flag
    ensures r.task.canHotSwap == (t.canHotSwap && !(Throws(t, d, coldRun, deleteFails) && !coldRun))
    // restart escalation
    ensures r.status == Successful <==> (!Proceeds(t, d) || coldRun || r.task.canHotSwap)
    ensures r.status == RequiresPrivilegedAppRestart <==>
              (r.status != Successful && FileExists(r.disk, t.destinationFile) && !canWrite(t.destinationFile.value))
    ensures r.status != Failed
    // a hot run that reports success has deleted the target
    ensures Proceeds(t, d) && !coldRun && r.status == Successful ==> !FileExists(r.disk, t.destinationFile)
  {
    if !Proceeds(t, d) then Outcome(t, d, Successful)
    else
      var dest := t.destinationFile.value;
      var backedUp := Backup(t, d, backupFolder);
      var t1, d1 := backedUp.0, backedUp.1;
      var threw := Attempts(t, coldRun) && dest in d1.files && deleteFails;
      var d2 := if Attempts(t, coldRun) && dest in d1.files && !deleteFails then DeleteFile(d1, dest) else d1;
      var t2 := if threw && !coldRun then t1.(canHotSwap := false) else t1;
      var status :=
        if coldRun || t2.canHotSwap then Successful
        else if dest in d2.files && !canWrite(dest) then RequiresPrivilegedAppRestart
        else RequiresAppRestart;
      Outcome(t2, d2, status)
  }

  /** `Rollback` copies the backup back, so a resolved task must have one. */
  predicate RollbackReady(t: DeleteTask, d: Disk) {
    !IsNullOrEmpty(t.destinationFile) ==>
      FileExists(d, t.backupFile) && SeparateFrom(t.backupFile.value, t)
  }

  function RollbackSpec(t: DeleteTask, d: Disk): (r: Disk)
    requires RollbackReady(t, d)
    ensures IsNullOrEmpty(t.destinationFile) ==> r == d
    ensures !IsNullOrEmpty(t.destinationFile) ==>
              var dest := t.destinationFile.value;
              && dest in r.files && r.files[dest] == d.files[t.backupFile.value]
              && r.files - {dest} == d.files - {dest}
              && t.backupFile.value in r.files
    ensures r.dirs == d.dirs
  {
    if IsNullOrEmpty(t.destinationFile) then d
    else
      var dest := t.destinationFile.value;
      var d1 := if dest in d.files then DeleteFile(d, dest) else d;
      CopyFile(d1, t.backupFile.value, dest)
  }

  /** A sequence of `Execute` calls on one instance, in order. */
  function ExecuteAll(t: DeleteTask, d: Disk, backupFolder: Path, runs: seq<Run>, canWrite: Path -> bool)
    : (r: (DeleteTask, Disk))
    ensures r.0.localPath == t.localPath && r.0.destinationFile == t.destinationFile
    ensures r.0.canHotSwap ==> t.canHotSwap
    ensures t.backupFile.Some? ==> r.0.backupFile == t.backupFile
    ensures d.dirs <= r.1.dirs
    decreases |runs|
  {
    if runs == [] then (t, d)
    else
      var o := ExecuteSpec(t, d, backupFolder, runs[0].coldRun, runs[0].deleteFails, canWrite);
      ExecuteAll(o.task, o.disk, backupFolder, runs[1..], canWrite)
  }

  /**
   * After the first backup: the backup holds the target's original content,
   * and nothing but the target and the backup differs from the original disk.
   */
  ghost predicate BackedUp(t: DeleteTask, d: Disk, d0: Disk, backupFolder: Path) {
    && Proceeds(t, d) && t.backupFile == Some(BackupPath(backupFolder, t.localPath))
    && SeparateFrom(t.backupFile.value, t)
    && var dest := t.destinationFile.value;
       var b := t.backupFile.value;
       && dest in d0.files && b in d.files && d.files[b] == d0.files[dest]
       && d.files - {dest, b} == d0.files - {dest, b}
  }

  lemma FirstExecuteBacksUp(t: DeleteTask, d: Disk, backupFolder: Path, run: Run, canWrite: Path -> bool)
    requires Proceeds(t, d) && t.backupFile.None? && FileExists(d, t.destinationFile)
    requires SeparateFrom(BackupPath(backupFolder, t.localPath), t)
    ensures var o := ExecuteSpec(t, d, backupFolder, run.coldRun, run.deleteFails, canWrite);
            BackedUp(o.task, o.disk, d, backupFolder)
  {
  }

  /** Later `Execute` calls never touch the backup or any file but the target. */
  lemma {:induction false} ExecuteAllKeepsBackup(t: DeleteTask, d: Disk, d0: Disk, backupFolder: Path,
                                                 runs: seq<Run>, canWrite: Path -> bool)
    requires BackedUp(t, d, d0, backupFolder)
    ensures var r := ExecuteAll(t, d, backupFolder, runs, canWrite); BackedUp(r.0, r.1, d0, backupFolder)
    decreases |runs|
  {
    if runs != [] {
      var o := ExecuteSpec(t, d, backupFolder, runs[0].coldRun, runs[0].deleteFails, canWrite);
      var dest, b := t.destinationFile.value, t.backupFile.value;
      assert o.disk.files - {dest} == d.files - {dest};
      assert o.disk.files - {dest, b} == d.files - {dest, b};
      ExecuteAllKeepsBackup(o.task, o.disk, d0, backupFolder, runs[1..], canWrite);
    }
  }

  /**
   * Any number (at least one) of `Execute` calls on a fresh instance whose
   * target exists, followed by `Rollback`, gives back the original disk plus
   * the backup copy: the target holds its pre-execute content again.
   */
  lemma ExecuteThenRollbackRestores(t: DeleteTask, d: Disk, backupFolder: Path, runs: seq<Run>,
                                    canWrite: Path -> bool)
    requires Proceeds(t, d) && t.backupFile.None? && FileExists(d, t.destinationFile)
    requires !IsNullOrEmpty(t.destinationFile)
    requires SeparateFrom(BackupPath(backupFolder, t.localPath), t)
    requires |runs| > 0
    ensures var r := ExecuteAll(t, d, backupFolder, runs, canWrite);
            var dest, b := t.destinationFile.value, BackupPath(backupFolder, t.localPath);
            && RollbackReady(r.0, r.1)
            && RollbackSpec(r.0, r.1).files == d.files[b := d.files[dest]]
  {
    var dest, b := t.destinationFile.value, BackupPath(backupFolder, t.localPath);
    var o := ExecuteSpec(t, d, backupFolder, runs[0].coldRun, runs[0].deleteFails, canWrite);
    FirstExecuteBacksUp(t, d, backupFolder, runs[0], canWrite);
    ExecuteAllKeepsBackup(o.task, o.disk, d, backupFolder, runs[1..], canWrite);
    var r := ExecuteAll(t, d, backupFolder, runs, canWrite);
    assert r == ExecuteAll(o.task, o.disk, backupFolder, runs[1..], canWrite);
    var after := RollbackSpec(r.0, r.1);
    assert after.files - {dest, b} == r.1.files - {dest, b};
    assert d.files[b := d.files[dest]] - {dest, b} == d.files - {dest, b};
    MapsAgree(after.files, d.files[b := d.files[dest]], {dest, b});
  }

  /** A hot failure leaves the target for the next cold run, which deletes it. */
  lemma HotFailureDefersToColdRun(t: DeleteTask, d: Disk, backupFolder: Path, canWrite: Path -> bool)
    requires Proceeds(t, d) && t.canHotSwap && FileExists(d, t.destinationFile)
    ensures var hot := ExecuteSpec(t, d, backupFolder, false, true, canWrite);
            var cold := ExecuteSpec(hot.task, hot.disk, backupFolder, true, false, canWrite);
            && !hot.task.canHotSwap && hot.status != Successful && FileExists(hot.disk, t.destinationFile)
            && cold.status == Successful && !FileExists(cold.disk, t.destinationFile)
  {
  }

  class FileDeleteTask {
    const LocalPath: Path
    var CanHotSwap: bool
    var destinationFile: Option<Path>
    var backupFile: Option<Path>

    constructor (localPath: Path, canHotSwap: bool)
      ensures State() == DeleteTask(localPath, canHotSwap, None, None)
    {
      LocalPath := localPath;
      CanHotSwap := canHotSwap;
      destinationFile := None;
      backupFile := None;
    }

    function State(): DeleteTask
      reads this
    {
      DeleteTask(LocalPath, CanHotSwap, destinationFile, backupFile)
    }

    /** Resolves the target against the directory of the application's executable. */
    method Prepare(applicationPath: Path)
      modifies this`destinationFile
      ensures State() == PrepareSpec(old(State()), applicationPath)
    {
      if LocalPath == "" {
        return;
      }
      destinationFile := Some(Combine(GetDirectoryName(applicationPath), LocalPath));
    }

    method Execute(fs: FileSystem, backupFolder: Path, coldRun: bool, deleteFails: bool, canWrite: Path -> bool)
      returns (status: TaskExecutionStatus)
      modifies this, fs
      ensures var o := ExecuteSpec(old(State()), old(fs.Snapshot()), backupFolder, coldRun, deleteFails, canWrite);
              State() == o.task && fs.Snapshot() == o.disk && status == o.status
    {
      if LocalPath == "" {
        return Successful;
      }
      if destinationFile.None? || !fs.HasDirectory(Some(GetDirectoryName(destinationFile.value))) {
        return Successful;
      }
      var dest := destinationFile.value;

      TakeBackup(fs, backupFolder);

      // Only delete on a cold run or when hot swapping is allowed
      if CanHotSwap || coldRun {
        var threw := false;
        if fs.HasFile(destinationFile) {
          threw := fs.Delete(dest, deleteFails);
        }
        if threw && !coldRun {
          CanHotSwap := false;
        }
      }

      if coldRun || CanHotSwap {
        return Successful;
      }
      if fs.HasFile(destinationFile) && !canWrite(dest) {
        return RequiresPrivilegedAppRestart;
      }
      return RequiresAppRestart;
    }

    /** The backup step of `Execute`: copy the target once, creating the backup's directory first. */
    method TakeBackup(fs: FileSystem, backupFolder: Path)
      requires Proceeds(State(), fs.Snapshot())
      modifies this`backupFile, fs
      ensures (State(), fs.Snapshot()) == Backup(old(State()), old(fs.Snapshot()), backupFolder)
    {
      if backupFile.None? && fs.HasFile(destinationFile) {
        var b := BackupPath(backupFolder, LocalPath);
        if !fs.HasDirectory(Some(GetDirectoryName(b))) {
          fs.CreateDirectoryStructure(GetDirectoryName(b));
        }
        backupFile := Some(b);
        fs.Copy(destinationFile.value, b);
      }
    }

    method Rollback(fs: FileSystem) returns (ok: bool)
      requires RollbackReady(State(), fs.Snapshot())
      modifies fs
      ensures ok
      ensures fs.Snapshot() == RollbackSpec(State(), old(fs.Snapshot()))
    {
      if IsNullOrEmpty(destinationFile) {
        return true;
      }
      // Copy the backup back to its original position
      if fs.HasFile(destinationFile) {
        var _ := fs.Delete(destinationFile.value, false);
      }
      fs.Copy(backupFile.value, destinationFile.value);
      return true;
    }
  }
}
