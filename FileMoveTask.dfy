/**
 * The `fileMove` update task: moves one file of the application onto
 * another path, after taking a once-only backup of the file it replaces,
 * either while the application runs (hot, when hot swapping is allowed) or
 * during a restart (cold).
 *
 * `MoveTask` holds the task's fields as a value; `PrepareSpec`,
 * `ExecuteSpec` and `RollbackSpec` say what one call does, and the class
 * `FileMoveTask` is the object the updater drives, each of its methods
 * proved to do what the corresponding function says.
 */
module FileMoveTasks {
  import opened Wrappers
  import opened Paths
  import opened FileSystems
  import opened UpdateTasks

  /** The fields of a move task: its configuration and what it has recorded. */
  datatype MoveTask = MoveTask(
    fromPath: Path,             // source, relative to the application directory
    toPath: Path,               // destination, relative to the application directory
    canHotSwap: bool,           // may the move be attempted while the application runs
    fromFile: Option<Path>,     // absolute source, set by Prepare
    toFile: Option<Path>,       // absolute destination, set by Prepare
    backupFile: Option<Path>)   // absolute backup of the destination, set at most once by Execute

  datatype Outcome = Outcome(task: MoveTask, disk: Disk, status: TaskExecutionStatus)

  /** Which call inside the guarded block throws, if it is made. */
  datatype Fault = NoFault | DeleteThrows | MoveThrows

  datatype Run = Run(coldRun: bool, fault: Fault)

  /** Both paths are given and they differ; otherwise every operation is a no-op. */
  predicate ValidConfig(t: MoveTask) {
    t.fromPath != "" && t.toPath != "" && t.fromPath != t.toPath
  }

  /**
   * What every instance keeps: both absolute paths are resolved together and
   * differ, and a backup is recorded only once there is a destination.
   */
  predicate Valid(t: MoveTask) {
    && (t.fromFile.Some? <==> t.toFile.Some?)
    && (t.fromFile.Some? ==> t.fromFile.value != t.toFile.value)
    && (t.backupFile.Some? ==> t.toFile.Some?)
  }

  /** A backup location that is neither the source nor the destination. */
  predicate SeparateFrom(b: Path, t: MoveTask) {
    t.fromFile != Some(b) && t.toFile != Some(b)
  }

  function PrepareSpec(t: MoveTask, applicationPath: Path): (r: MoveTask)
    requires Valid(t)
    ensures Valid(r)
    ensures r.fromPath == t.fromPath && r.toPath == t.toPath
    ensures r.canHotSwap == t.canHotSwap && r.backupFile == t.backupFile
    ensures !ValidConfig(t) ==> r.fromFile == t.fromFile && r.toFile == t.toFile
    ensures ValidConfig(t) ==>
              var dir := GetDirectoryName(applicationPath);
              r.fromFile == Some(Combine(dir, t.fromPath)) && r.toFile == Some(Combine(dir, t.toPath))
  {
    if !ValidConfig(t) then t
    else
      var dir := GetDirectoryName(applicationPath);
      assert Combine(dir, t.fromPath)[|dir| + 1..] != Combine(dir, t.toPath)[|dir| + 1..];
      t.(fromFile := Some(Combine(dir, t.fromPath)), toFile := Some(Combine(dir, t.toPath)))
  }

  /** Preparing twice with the same application path is the same as preparing once. */
  lemma PrepareIdempotent(t: MoveTask, applicationPath: Path)
    requires Valid(t)
    ensures PrepareSpec(PrepareSpec(t, applicationPath), applicationPath) == PrepareSpec(t, applicationPath)
  {
  }

  /** `Execute` gets past its no-op guard: valid paths and an existing source. */
  predicate Proceeds(t: MoveTask, d: Disk) {
    ValidConfig(t) && FileExists(d, t.fromFile)
  }

  /** `Execute` takes the backup: none taken yet and the destination exists. */
  predicate TakesBackup(t: MoveTask, d: Disk) {
    Proceeds(t, d) && t.backupFile.None? && FileExists(d, t.toFile)
  }

  /** The move is attempted: hot swapping is allowed or this is a cold run. */
  predicate Attempts(t: MoveTask, coldRun: bool) {
    t.canHotSwap || coldRun
  }

  /** A call in the guarded block throws: the delete of an existing destination, or the move. */
  predicate Throws(t: MoveTask, d: Disk, coldRun: bool, fault: Fault) {
    && Proceeds(t, d) && Attempts(t, coldRun)
    && (fault.MoveThrows? || (fault.DeleteThrows? && FileExists(d, t.toFile)))
  }

  /** The files after the backup step, with the new backup if one is taken. */
  function WithBackup(t: MoveTask, d: Disk, backupFolder: Path): map<Path, Content>
    requires Valid(t) && Proceeds(t, d)
  {
    if TakesBackup(t, d) then
      d.files[BackupPath(backupFolder, t.toPath) := d.files[t.toFile.value]]
    else d.files
  }

  /** The directory and backup steps of `Execute`. */
  function Backup(t: MoveTask, d: Disk, backupFolder: Path): (r: (MoveTask, Disk))
    requires Valid(t) && Proceeds(t, d)
    ensures r.0 == if TakesBackup(t, d) then t.(backupFile := Some(BackupPath(backupFolder, t.toPath))) else t
    ensures r.1.files == WithBackup(t, d, backupFolder)
    ensures d.dirs <= r.1.dirs && GetDirectoryName(t.toFile.value) in r.1.dirs
    ensures TakesBackup(t, d) ==> GetDirectoryName(BackupPath(backupFolder, t.toPath)) in r.1.dirs
    ensures r.1.dirs <= d.dirs + {GetDirectoryName(t.toFile.value), GetDirectoryName(BackupPath(backupFolder, t.toPath))}
  {
    var dir := GetDirectoryName(t.toFile.value);
    var d0 := EnsureDirectory(d, dir);
    if TakesBackup(t, d) then
      var b := BackupPath(backupFolder, t.toPath);
      var d1 := EnsureDirectory(d0, GetDirectoryName(b));
      (t.(backupFile := Some(b)), CopyFile(d1, t.toFile.value, b))
    else (t, d0)
  }

  /** The guarded block: delete the destination if present, then move the source onto it. */
  function Mutate(from: Path, to: Path, d: Disk, fault: Fault): (r: Disk)
    requires from in d.files && from != to
    ensures r.dirs == d.dirs
    ensures r.files - {from, to} == d.files - {from, to}
    ensures fault.NoFault? || (fault.DeleteThrows? && to !in d.files) ==>
              from !in r.files && to in r.files && r.files[to] == d.files[from]
    ensures fault.DeleteThrows? && to in d.files ==> r == d
    ensures fault.MoveThrows? ==> r.files == d.files - {to}
  {
    var d1 := if to in d.files && !fault.DeleteThrows? then DeleteFile(d, to) else d;
    if to in d.files && fault.DeleteThrows? then d
    else if fault.MoveThrows? then d1
    else MoveFile(d1, from, to)
  }

  function ExecuteSpec(t: MoveTask, d: Disk, backupFolder: Path, coldRun: bool, fault: Fault,
                       canWrite: Path -> bool): (r: Outcome)
    requires Valid(t)
    // no-op guard
    ensures !Proceeds(t, d) ==> r == Outcome(t, d, Successful)
    ensures Valid(r.task)
    ensures r.task.fromPath == t.fromPath && r.task.toPath == t.toPath
    ensures r.task.fromFile == t.fromFile && r.task.toFile == t.toFile
    // the backup is taken once, to the mirrored location, with the destination's content
    ensures r.task.backupFile == if TakesBackup(t, d) then Some(BackupPath(backupFolder, t.toPath)) else t.backupFile
    ensures t.backupFile.Some? ==> r.task.backupFile == t.backupFile
    ensures TakesBackup(t, d) && SeparateFrom(BackupPath(backupFolder, t.toPath), t) ==>
              var b := BackupPath(backupFolder, t.toPath);
              b in r.disk.files && r.disk.files[b] == d.files[t.toFile.value]
              && GetDirectoryName(b) in r.disk.dirs
    // the destination directory exists afterwards
    ensures d.dirs <= r.disk.dirs
    ensures Proceeds(t, d) ==> GetDirectoryName(t.toFile.value) in r.disk.dirs
    // no directory appears but the destination's and the backup's
    ensures Proceeds(t, d) ==>
              r.disk.dirs <= d.dirs + {GetDirectoryName(t.toFile.value), GetDirectoryName(BackupPath(backupFolder, t.toPath))}
    // nothing is mutated unless the move is attempted
    ensures Proceeds(t, d) && !Attempts(t, coldRun) ==> r.disk.files == WithBackup(t, d, backupFolder)
    // an attempted move that does not throw has moved the source onto the destination
    ensures Proceeds(t, d) && Attempts(t, coldRun) && !Throws(t, d, coldRun, fault)
            && SeparateFrom(BackupPath(backupFolder, t.toPath), t) ==>
              && !FileExists(r.disk, t.fromFile) && FileExists(r.disk, t.toFile)
              && r.disk.files[t.toFile.value] == d.files[t.fromFile.value]
    // a throwing delete changes nothing; a throwing move leaves the destination deleted
    ensures Throws(t, d, coldRun, fault) && SeparateFrom(BackupPath(backupFolder, t.toPath), t) ==>
              && FileExists(r.disk, t.fromFile) && r.disk.files[t.fromFile.value] == d.files[t.fromFile.value]
              && (FileExists(r.disk, t.toFile) <==> fault.DeleteThrows?)
              && (FileExists(r.disk, t.toFile) ==> r.disk.files[t.toFile.value] == d.files[t.toFile.value])
    // no file but the source, the destination and the new backup changes
    ensures Proceeds(t, d) ==>
              var touched := {t.fromFile.value, t.toFile.value};
              r.disk.files - touched == WithBackup(t, d, backupFolder) - touched
    // a hot failure downgrades the task to cold-only; nothing sets the flag
    ensures r.task.canHotSwap == (t.canHotSwap && !(Throws(t, d, coldRun, fault) && !coldRun))
    // restart escalation
    ensures r.status == Successful <==> (!Proceeds(t, d) || coldRun || r.task.canHotSwap)
    ensures r.status == RequiresPrivilegedAppRestart <==>
              && r.status != Successful
              && ((FileExists(r.disk, t.fromFile) && !canWrite(t.fromFile.value))
                  || (FileExists(r.disk, t.toFile) && !canWrite(t.toFile.value)))
    ensures r.status != Failed
    // a hot run that reports success has moved the file
    ensures Proceeds(t, d) && !coldRun && r.status == Successful && SeparateFrom(BackupPath(backupFolder, t.toPath), t) ==>
              !FileExists(r.disk, t.fromFile) && FileExists(r.disk, t.toFile)
  {
    if !Proceeds(t, d) then Outcome(t, d, Successful)
    else
      var from, to := t.fromFile.value, t.toFile.value;
      var backedUp := Backup(t, d, backupFolder);
      var t1, d1 := backedUp.0, backedUp.1;
      var threw := Attempts(t, coldRun) && (fault.MoveThrows? || (fault.DeleteThrows? && to in d1.files));
      var d2 := if Attempts(t, coldRun) then Mutate(from, to, d1, fault) else d1;
      var t2 := if threw && !coldRun then t1.(canHotSwap := false) else t1;
      var status :=
        if coldRun || t2.canHotSwap then Successful
        else if (from in d2.files && !canWrite(from)) || (to in d2.files && !canWrite(to)) then RequiresPrivilegedAppRestart
        else RequiresAppRestart;
      Outcome(t2, d2, status)
  }

  /** `Rollback` moves the destination back first, then the backup onto the destination. */
  predicate MovesBack(t: MoveTask, d: Disk) {
    ValidConfig(t) && FileExists(d, t.toFile) && !FileExists(d, t.fromFile)
  }

  predicate RestoresBackup(t: MoveTask, d: Disk) {
    ValidConfig(t) && FileExists(d, t.backupFile) && (MovesBack(t, d) || !FileExists(d, t.toFile))
  }

  /** The backup recorded by the task, if any, is neither the source nor the destination. */
  predicate BackupSeparate(t: MoveTask) {
    t.backupFile.Some? ==> SeparateFrom(t.backupFile.value, t)
  }

  /** Every path the task has recorded. */
  function Footprint(t: MoveTask): set<Path> {
    (if t.fromFile.Some? then {t.fromFile.value} else {})
    + (if t.toFile.Some? then {t.toFile.value} else {})
    + (if t.backupFile.Some? then {t.backupFile.value} else {})
  }

  function RollbackSpec(t: MoveTask, d: Disk): (r: Disk)
    requires Valid(t)
    ensures !ValidConfig(t) ==> r == d
    ensures r.dirs == d.dirs
    ensures r.files - Footprint(t) == d.files - Footprint(t)
    // first step: the destination goes back to the source
    ensures MovesBack(t, d) && BackupSeparate(t) ==> FileExists(r, t.fromFile) && r.files[t.fromFile.value] == d.files[t.toFile.value]
    ensures ValidConfig(t) && !MovesBack(t, d) && BackupSeparate(t) ==>
              && (FileExists(r, t.fromFile) <==> FileExists(d, t.fromFile))
              && (FileExists(r, t.fromFile) ==> r.files[t.fromFile.value] == d.files[t.fromFile.value])
    // second step: the backup goes back to the destination
    ensures RestoresBackup(t, d) && BackupSeparate(t) ==>
              && FileExists(r, t.toFile) && r.files[t.toFile.value] == d.files[t.backupFile.value]
              && !FileExists(r, t.backupFile)
    ensures ValidConfig(t) && !RestoresBackup(t, d) && BackupSeparate(t) ==>
              && (FileExists(r, t.toFile) <==> FileExists(d, t.toFile) && !MovesBack(t, d))
              && (FileExists(r, t.toFile) ==> r.files[t.toFile.value] == d.files[t.toFile.value])
              && (FileExists(r, t.backupFile) <==> FileExists(d, t.backupFile))
              && (FileExists(r, t.backupFile) ==> r.files[t.backupFile.value] == d.files[t.backupFile.value])
  {
    if !ValidConfig(t) then d
    else
      var d1 := if MovesBack(t, d) then MoveFile(d, t.toFile.value, t.fromFile.value) else d;
      if FileExists(d1, t.backupFile) && !FileExists(d1, t.toFile) then MoveFile(d1, t.backupFile.value, t.toFile.value)
      else d1
  }

  /**
   * `Rollback` is not a no-op on an instance whose `Execute` did nothing: with
   * the source absent and the destination present, `Execute` changes nothing
   * and `Rollback` moves the destination onto the source.
   */
  lemma RollbackWithoutSourceMovesDestination(t: MoveTask, d: Disk, backupFolder: Path, run: Run,
                                              canWrite: Path -> bool)
    requires Valid(t) && ValidConfig(t) && t.fromFile.Some? && BackupSeparate(t)
    requires !FileExists(d, t.fromFile) && FileExists(d, t.toFile)
    ensures var o := ExecuteSpec(t, d, backupFolder, run.coldRun, run.fault, canWrite);
            var r := RollbackSpec(o.task, o.disk);
            && o.disk == d && o.status == Successful
            && FileExists(r, t.fromFile) && r.files[t.fromFile.value] == d.files[t.toFile.value]
            && r != d
  {
  }

  /** A sequence of `Execute` calls on one instance, in order. */
  function ExecuteAll(t: MoveTask, d: Disk, backupFolder: Path, runs: seq<Run>, canWrite: Path -> bool)
    : (r: (MoveTask, Disk))
    requires Valid(t)
    ensures Valid(r.0)
    ensures r.0.fromPath == t.fromPath && r.0.toPath == t.toPath
    ensures r.0.fromFile == t.fromFile && r.0.toFile == t.toFile
    ensures r.0.canHotSwap ==> t.canHotSwap
    ensures t.backupFile.Some? ==> r.0.backupFile == t.backupFile
    ensures d.dirs <= r.1.dirs
    decreases |runs|
  {
    if runs == [] then (t, d)
    else
      var o := ExecuteSpec(t, d, backupFolder, runs[0].coldRun, runs[0].fault, canWrite);
      ExecuteAll(o.task, o.disk, backupFolder, runs[1..], canWrite)
  }

  /**
   * Between the first `Execute` and `Rollback`: relative to the original disk
   * `d0`, either the source is still in place (and the destination holds its
   * original content, or is gone with that content saved in the backup), or
   * the source has been moved onto the destination (whose original content,
   * if any, is in the backup).  Nothing else but the backup has changed.
   */
  ghost predicate InFlight(t: MoveTask, d: Disk, d0: Disk, backupFolder: Path) {
    && Valid(t) && ValidConfig(t) && t.fromFile.Some?
    && var from, to, b := t.fromFile.value, t.toFile.value, BackupPath(backupFolder, t.toPath);
       && SeparateFrom(b, t)
       && (t.backupFile.None? || t.backupFile == Some(b))
       && from in d0.files
       && (t.backupFile.Some? ==> to in d0.files && b in d.files && d.files[b] == d0.files[to])
       && d.files - {from, to, b} == d0.files - {from, to, b}
       && (|| (&& from in d.files && d.files[from] == d0.files[from]
               && (to in d.files ==> to in d0.files && d.files[to] == d0.files[to])
               && (to !in d.files ==> to !in d0.files || t.backupFile.Some?))
           || (&& from !in d.files && to in d.files && d.files[to] == d0.files[from]
               && (to in d0.files ==> t.backupFile.Some?)))
  }

  lemma ExecutePreservesInFlight(t: MoveTask, d: Disk, d0: Disk, backupFolder: Path, run: Run,
                                 canWrite: Path -> bool)
    requires InFlight(t, d, d0, backupFolder)
    ensures var o := ExecuteSpec(t, d, backupFolder, run.coldRun, run.fault, canWrite);
            InFlight(o.task, o.disk, d0, backupFolder)
  {
  }

  lemma {:induction false} ExecuteAllPreservesInFlight(t: MoveTask, d: Disk, d0: Disk, backupFolder: Path,
                                                       runs: seq<Run>, canWrite: Path -> bool)
    requires InFlight(t, d, d0, backupFolder)
    ensures var r := ExecuteAll(t, d, backupFolder, runs, canWrite); InFlight(r.0, r.1, d0, backupFolder)
    decreases |runs|
  {
    if runs != [] {
      var o := ExecuteSpec(t, d, backupFolder, runs[0].coldRun, runs[0].fault, canWrite);
      ExecutePreservesInFlight(t, d, d0, backupFolder, runs[0], canWrite);
      ExecuteAllPreservesInFlight(o.task, o.disk, d0, backupFolder, runs[1..], canWrite);
    }
  }

  /** From any in-flight state, `Rollback` gives back the original disk, except for the backup. */
  lemma RollbackFromInFlight(t: MoveTask, d: Disk, d0: Disk, backupFolder: Path)
    requires InFlight(t, d, d0, backupFolder)
    ensures var b := BackupPath(backupFolder, t.toPath);
            RollbackSpec(t, d).files - {b} == d0.files - {b}
  {
    var from, to, b := t.fromFile.value, t.toFile.value, BackupPath(backupFolder, t.toPath);
    var r := RollbackSpec(t, d);
    assert Footprint(t) <= {from, to, b};
    assert r.files - {from, to, b} == (r.files - Footprint(t)) - {from, to, b};
    assert d.files - {from, to, b} == (d.files - Footprint(t)) - {from, to, b};
    assert r.files - {from, to, b} == d0.files - {from, to, b};
    assert (r.files - {b}) - {from, to} == r.files - {from, to, b};
    assert (d0.files - {b}) - {from, to} == d0.files - {from, to, b};
    assert FileExists(r, t.fromFile) && r.files[from] == d0.files[from];
    assert (to in r.files <==> to in d0.files) && (to in r.files ==> r.files[to] == d0.files[to]);
    assert (r.files - {b}) - {from, to} == (d0.files - {b}) - {from, to};
    MapsAgree(r.files - {b}, d0.files - {b}, {from, to});
  }

  /**
   * Any number of `Execute` calls on a fresh, prepared instance whose source
   * exists, followed by `Rollback`, gives back the original disk: source and
   * destination hold their pre-execute content again (and a destination that
   * did not exist does not exist), whatever failed in between.  Only the
   * backup location may differ.
   */
  lemma ExecuteThenRollbackRestores(t: MoveTask, d: Disk, backupFolder: Path, runs: seq<Run>,
                                    canWrite: Path -> bool)
    requires Valid(t) && Proceeds(t, d) && t.backupFile.None?
    requires SeparateFrom(BackupPath(backupFolder, t.toPath), t)
    ensures var r := ExecuteAll(t, d, backupFolder, runs, canWrite);
            var b := BackupPath(backupFolder, t.toPath);
            RollbackSpec(r.0, r.1).files - {b} == d.files - {b}
  {
    assert InFlight(t, d, d, backupFolder);
    ExecuteAllPreservesInFlight(t, d, d, backupFolder, runs, canWrite);
    var r := ExecuteAll(t, d, backupFolder, runs, canWrite);
    RollbackFromInFlight(r.0, r.1, d, backupFolder);
  }

  /** A hot failure leaves the move for the next cold run, which completes it. */
  lemma HotFailureDefersToColdRun(t: MoveTask, d: Disk, backupFolder: Path, fault: Fault, canWrite: Path -> bool)
    requires Valid(t) && Proceeds(t, d) && t.canHotSwap && !fault.NoFault?
    requires !fault.DeleteThrows? || FileExists(d, t.toFile)
    requires SeparateFrom(BackupPath(backupFolder, t.toPath), t)
    ensures var hot := ExecuteSpec(t, d, backupFolder, false, fault, canWrite);
            var cold := ExecuteSpec(hot.task, hot.disk, backupFolder, true, NoFault, canWrite);
            && !hot.task.canHotSwap && hot.status != Successful && FileExists(hot.disk, t.fromFile)
            && cold.status == Successful && !FileExists(cold.disk, t.fromFile) && FileExists(cold.disk, t.toFile)
            && cold.disk.files[t.toFile.value] == d.files[t.fromFile.value]
  {
  }

  class FileMoveTask {
    const FromPath: Path
    const ToPath: Path
    var CanHotSwap: bool
    var fromFile: Option<Path>
    var toFile: Option<Path>
    var backupFile: Option<Path>

    constructor (fromPath: Path, toPath: Path, canHotSwap: bool)
      ensures State() == MoveTask(fromPath, toPath, canHotSwap, None, None, None)
      ensures Valid(State())
    {
      FromPath, ToPath := fromPath, toPath;
      CanHotSwap := canHotSwap;
      fromFile, toFile, backupFile := None, None, None;
    }

    function State(): MoveTask
      reads this
    {
      MoveTask(FromPath, ToPath, CanHotSwap, fromFile, toFile, backupFile)
    }

    /** Resolves both paths against the directory of the application's executable. */
    method Prepare(applicationPath: Path)
      requires Valid(State())
      modifies this`fromFile, this`toFile
      ensures State() == PrepareSpec(old(State()), applicationPath)
    {
      if FromPath == "" || ToPath == "" || FromPath == ToPath {
        return;
      }
      var dir := GetDirectoryName(applicationPath);
      fromFile := Some(Combine(dir, FromPath));
      toFile := Some(Combine(dir, ToPath));
    }

    method Execute(fs: FileSystem, backupFolder: Path, coldRun: bool, fault: Fault, canWrite: Path -> bool)
      returns (status: TaskExecutionStatus)
      requires Valid(State())
      modifies this, fs
      ensures var o := ExecuteSpec(old(State()), old(fs.Snapshot()), backupFolder, coldRun, fault, canWrite);
              State() == o.task && fs.Snapshot() == o.disk && status == o.status
    {
      if FromPath == "" || ToPath == "" || FromPath == ToPath || !fs.HasFile(fromFile) {
        return Successful;
      }
      var from, to := fromFile.value, toFile.value;
      CreateDirectoryAndBackup(fs, backupFolder);

      // Only move on a cold run or when hot swapping is allowed
      if CanHotSwap || coldRun {
        var threw := DeleteAndMove(fs, from, to, fault);
        if threw && !coldRun {
          CanHotSwap := false;
        }
      }

      if coldRun || CanHotSwap {
        return Successful;
      }
      if (fs.HasFile(fromFile) && !canWrite(from)) || (fs.HasFile(toFile) && !canWrite(to)) {
        return RequiresPrivilegedAppRestart;
      }
      return RequiresAppRestart;
    }

    /** The first part of `Execute`: the destination directory, then the once-only backup. */
    method CreateDirectoryAndBackup(fs: FileSystem, backupFolder: Path)
      requires Valid(State()) && Proceeds(State(), fs.Snapshot())
      modifies this`backupFile, fs
      ensures (State(), fs.Snapshot()) == Backup(old(State()), old(fs.Snapshot()), backupFolder)
    {
      var to := toFile.value;
      var dirName := GetDirectoryName(to);
      if !fs.HasDirectory(Some(dirName)) {
        fs.CreateDirectoryStructure(dirName);
      }

      // Create a backup copy if the destination exists
      if backupFile.None? && fs.HasFile(toFile) {
        var b := BackupPath(backupFolder, ToPath);
        backupFile := Some(b);
        if !fs.HasDirectory(Some(GetDirectoryName(b))) {
          fs.CreateDirectoryStructure(GetDirectoryName(b));
        }
        fs.Copy(to, b);
      }
    }

    /** The guarded block of `Execute`; `threw` says that one of its calls threw. */
    method DeleteAndMove(fs: FileSystem, from: Path, to: Path, fault: Fault) returns (threw: bool)
      requires from in fs.files && from != to
      modifies fs
      ensures fs.Snapshot() == Mutate(from, to, old(fs.Snapshot()), fault)
      ensures threw == (fault.MoveThrows? || (fault.DeleteThrows? && to in old(fs.files)))
    {
      threw := false;
      if fs.HasFile(Some(to)) {
        threw := fs.Delete(to, fault.DeleteThrows?);
      }
      if !threw {
        threw := fs.Move(from, to, fault.MoveThrows?);
      }
    }

    method Rollback(fs: FileSystem) returns (ok: bool)
      requires Valid(State())
      modifies fs
      ensures ok
      ensures fs.Snapshot() == RollbackSpec(State(), old(fs.Snapshot()))
    {
      if FromPath == "" || ToPath == "" || FromPath == ToPath {
        return true;
      }
      // Move the files back
      if fs.HasFile(toFile) && !fs.HasFile(fromFile) {
        var _ := fs.Move(toFile.value, fromFile.value, false);
      }
      if fs.HasFile(backupFile) && !fs.HasFile(toFile) {
        var _ := fs.Move(backupFile.value, toFile.value, false);
      }
      return true;
    }
  }
}
