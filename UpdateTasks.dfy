/** What the two file tasks share: the status values and the backup location. */
module UpdateTasks {
  import opened Paths

  /** The terminal outcomes of `Execute`; the two file tasks never report `Failed`. */
  datatype TaskExecutionStatus = Successful | RequiresAppRestart | RequiresPrivilegedAppRestart | Failed

  /**
   * Where the backup of a file is kept: the configured backup folder mirrors
   * the file's path relative to the application directory.
   */
  function BackupPath(backupFolder: Path, relativePath: Path): Path
  {
    Combine(backupFolder, relativePath)
  }
}
