/** The `LogEntry` record of internal/output/reader.go: one logged command with its output. */
module LogEntries {
  import opened GoTime

  /** `Duration` is in nanoseconds, as Go's `time.Duration`. */
  datatype LogEntry = LogEntry(
    command: string,
    startTime: DateTime,
    endTime: DateTime,
    duration: int,
    exitCode: int,
    workingDir: string,
    output: string)

  /** `LogEntry{}`: every field at its zero value. */
  const EmptyEntry: LogEntry := LogEntry([], ZeroTime, ZeroTime, 0, 0, [], [])
}
