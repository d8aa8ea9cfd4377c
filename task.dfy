/** The backup task record (internal/backup/task.go) and the status strings
    the manager assigns to it. */
module Task {
  import opened FileSystem

  /** `LastBackup` is a `time.Time`: `None` is its zero value, `Some(t)` an
      instant in Unix seconds.  `Progress` is a percentage held exactly. */
  datatype BackupTask = BackupTask(
    name: string,
    sourcePath: string,
    targetPath: string,
    schedule: string,
    status: string,
    progress: real,
    lastBackup: Option<int>,
    error: string)

  const Ready: string := "Ready"
  const Running: string := "Running"
  const Stopped: string := "Stopped"
}
