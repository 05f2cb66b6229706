/** LogToFile: the file sink XLogger writes through. One ".log" file per day in the
    configured directory, a date sweep of ".log" files when a day opens, and a size
    sweep of ".log" files that a background executor runs at a fixed delay while the
    configured budget is positive. */
module LogToFileModule {
  import opened Wrappers
  import opened JavaString
  import opened FileSystem
  import opened SimpleWriterModule
  import opened LogNames
  import opened Eviction
  import opened LogDirectory

  /** cleanupOldLogsByDate's test against the limit date. */
  function DateSweep(limitDate: string): string -> bool
  {
    name => LogToFileExpired(name, limitDate)
  }

  /** cleanupOldLogsBySize's listing filter: ".log" files. */
  function SizeSweepKeeps(): string -> bool
  {
    name => EndsWith(name, ".log")
  }

  /** The date sweep of a new day keeps the day's own log exactly when the retention
      is positive: with zero days or less the limit date is today or later, and the
      log just opened is deleted again. */
  lemma SweepSparesToday(disk: Disk, files: map<Path, seq<char>>, dir: string, c: Clock, retentionDays: int)
    requires SaneClock(c)
    ensures var today := Path(dir, LogName(c.today));
      var made := Touched(disk, files, today);
      var after := NewDay(disk, files, dir, c.today, DateSweep(c.daysAgo(retentionDays)));
      && (retentionDays > 0 && today in made ==> today in after && after[today] == made[today])
      && (retentionDays <= 0 && today !in disk.locked && dir !in disk.unwritable ==> today !in after)
  {
    var name := LogName(c.today);
    assert EndsWith(name, ".log") by {
      assert name[|name| - 4..] == ".log";
    }
    LogToFileRetention(name, c.daysAgo(retentionDays));
    LogExpiry(c.today, c.daysAgo(retentionDays));
    LimitAgainstToday(c, retentionDays);
  }

  class LogToFile {
    const disk: Disk
    /** The LogConfiguration values the manager reads. */
    const logDirectory: string
    const retentionDays: int
    const maxTotalLogSize: int
    var currentWriter: SimpleWriter?
    var currentLogDate: Option<string>
    /** The size sweep is scheduled on the executor and the executor is not shut down. */
    var sizeCleanupScheduled: bool

    /** The day's writer holds the only stream on the disk, once a day was opened. */
    ghost predicate Valid()
      reads this, disk, currentWriter
    {
      disk.Valid() &&
      (currentWriter == null <==> currentLogDate.None?) &&
      (currentWriter == null ==> disk.handles == multiset{}) &&
      (currentWriter != null ==> Owns(disk, currentWriter, Path(logDirectory, LogName(currentLogDate.value))))
    }

    /** The private constructor getInstance calls: opens the day's log, sweeps by date,
        and schedules the size sweep when the budget is positive. */
    constructor (disk: Disk, logDirectory: string, retentionDays: int, maxTotalLogSize: int, clock: Clock)
      requires disk.Valid() && disk.handles == multiset{}
      modifies disk`dirs, disk`files, disk`handles, disk`deletedWhileOpen
      ensures Valid() && this.disk == disk && this.logDirectory == logDirectory
      ensures this.retentionDays == retentionDays && this.maxTotalLogSize == maxTotalLogSize
      ensures currentLogDate == Some(clock.today) && fresh(currentWriter)
      ensures disk.files == NewDay(disk, old(disk.files), logDirectory, clock.today, DateSweep(clock.daysAgo(retentionDays)))
      ensures sizeCleanupScheduled == (maxTotalLogSize > 0)
    {
      this.disk := disk;
      this.logDirectory := logDirectory;
      this.retentionDays := retentionDays;
      this.maxTotalLogSize := maxTotalLogSize;
      currentWriter := null;
      currentLogDate := None;
      sizeCleanupScheduled := false;
      new;
      OpenNewLogForToday(clock);
      sizeCleanupScheduled := maxTotalLogSize > 0;
    }

    /** openNewLogForToday(): on a new day the writer is closed, a new one opened on
        the day's log and ".log" files swept by date; on the same day nothing happens. */
    method OpenNewLogForToday(clock: Clock)
      requires Valid()
      modifies this`currentWriter, this`currentLogDate, currentWriter
      modifies disk`dirs, disk`files, disk`handles, disk`deletedWhileOpen
      ensures Valid() && currentWriter != null && currentLogDate == Some(clock.today)
      ensures old(currentLogDate) == Some(clock.today) ==>
        currentWriter == old(currentWriter) && unchanged(currentWriter) && unchanged(disk)
      ensures old(currentLogDate) != Some(clock.today) ==>
        && fresh(currentWriter)
        && disk.files == NewDay(disk, old(disk.files), logDirectory, clock.today, DateSweep(clock.daysAgo(retentionDays)))
        && currentWriter.stream == (if Openable(disk, old(disk.files), Path(logDirectory, LogName(clock.today)))
                                    then Some(Path(logDirectory, LogName(clock.today))) else None)
    {
      if currentLogDate != Some(clock.today) {
        StartDay(clock);
      }
    }

    /** The new-day branch of openNewLogForToday. */
    method StartDay(clock: Clock)
      requires Valid()
      modifies this`currentWriter, this`currentLogDate, currentWriter
      modifies disk`dirs, disk`files, disk`handles, disk`deletedWhileOpen
      ensures Valid() && currentLogDate == Some(clock.today)
      ensures currentWriter != null && fresh(currentWriter)
      ensures disk.files == NewDay(disk, old(disk.files), logDirectory, clock.today, DateSweep(clock.daysAgo(retentionDays)))
      ensures currentWriter.stream == (if Openable(disk, old(disk.files), Path(logDirectory, LogName(clock.today)))
                                       then Some(Path(logDirectory, LogName(clock.today))) else None)
    {
      CloseWriter();
      currentLogDate := Some(clock.today);
      var w := OpenDay(disk, logDirectory, clock.today, DateSweep(clock.daysAgo(retentionDays)));
      currentWriter := w;
    }

    /** The first statement of close(): the writer, if any, is closed. */
    method CloseWriter()
      requires Valid()
      modifies currentWriter, disk`handles
      ensures Valid() && currentWriter == old(currentWriter)
      ensures currentWriter != null ==> currentWriter.stream == None
      ensures disk.handles == multiset{}
    {
      if currentWriter != null {
        var _ := currentWriter.Close(disk);
      }
    }

    /** cleanupOldLogsBySize(): the ".log" files, in name order, are deleted until
        their total fits the budget; the day's log is closed before its turn and
        reopened after it. A budget of zero or less leaves everything as it was. */
    method CleanupOldLogsBySize() returns (ghost order: seq<string>, ghost plan: Plan)
      requires Valid() && currentWriter != null
      modifies disk`dirs, disk`files, disk`handles, disk`deletedWhileOpen
      modifies currentWriter`logFileName, currentWriter`logFile, currentWriter`stream, currentWriter`newFilesReported
      ensures Valid() && disk.dirs == old(disk.dirs)
      ensures forall n :: n in order <==> Path(logDirectory, n) in old(disk.files) && EndsWith(n, ".log")
      ensures Distinct(order) && SortedBy(ByName, order)
      ensures plan.visited <= |order|
      ensures plan == if maxTotalLogSize <= 0 then Plan([], 0, 0)
                      else Evict(Candidates(disk, old(disk.files), logDirectory, order),
                                 TotalLength(old(disk.files), logDirectory, order), maxTotalLogSize)
      ensures disk.files == AfterEviction(disk, old(disk.files), logDirectory, plan.deleted,
                                          LogName(currentLogDate.value) in order[..plan.visited],
                                          Path(logDirectory, LogName(currentLogDate.value)))
    {
      order, plan := SweepBySize(disk, logDirectory, currentWriter, currentLogDate.value, maxTotalLogSize,
                                 SizeSweepKeeps(), ByName);
    }

    /** The executor firing the size sweep: it runs only while it is scheduled. */
    method SizeCleanupTick() returns (ghost order: seq<string>, ghost plan: Plan)
      requires Valid() && currentWriter != null
      modifies disk`dirs, disk`files, disk`handles, disk`deletedWhileOpen
      modifies currentWriter`logFileName, currentWriter`logFile, currentWriter`stream, currentWriter`newFilesReported
      ensures Valid()
      ensures !sizeCleanupScheduled ==>
        order == [] && plan == Plan([], 0, 0) && unchanged(disk) && unchanged(currentWriter)
      ensures sizeCleanupScheduled ==>
        && disk.dirs == old(disk.dirs)
        && (forall n :: n in order <==> Path(logDirectory, n) in old(disk.files) && EndsWith(n, ".log"))
        && Distinct(order) && SortedBy(ByName, order)
        && plan.visited <= |order|
        && plan == (if maxTotalLogSize <= 0 then Plan([], 0, 0)
                    else Evict(Candidates(disk, old(disk.files), logDirectory, order),
                               TotalLength(old(disk.files), logDirectory, order), maxTotalLogSize))
        && disk.files == AfterEviction(disk, old(disk.files), logDirectory, plan.deleted,
                                       LogName(currentLogDate.value) in order[..plan.visited],
                                       Path(logDirectory, LogName(currentLogDate.value)))
    {
      order, plan := [], Plan([], 0, 0);
      if sizeCleanupScheduled {
        order, plan := CleanupOldLogsBySize();
      }
    }

    /** appendLog(log): opens the day first, then writes the stamped line when the
        writer is open and its file still exists. */
    method AppendLog(clock: Clock, log: string)
      requires Valid()
      modifies this`currentWriter, this`currentLogDate, currentWriter
      modifies disk`dirs, disk`files, disk`handles, disk`deletedWhileOpen
      ensures Valid() && currentWriter != null && currentLogDate == Some(clock.today)
      ensures old(currentLogDate) == Some(clock.today) ==>
        && currentWriter == old(currentWriter)
        && disk.files == Logged(old(disk.files), Path(logDirectory, LogName(clock.today)),
                                currentWriter.stream.Some?, StampedLine(clock.timeStamp, log))
      ensures old(currentLogDate) != Some(clock.today) ==>
        disk.files == Logged(NewDay(disk, old(disk.files), logDirectory, clock.today, DateSweep(clock.daysAgo(retentionDays))),
                             Path(logDirectory, LogName(clock.today)),
                             currentWriter.stream.Some?, StampedLine(clock.timeStamp, log))
    {
      OpenNewLogForToday(clock);
      if currentWriter != null && currentWriter.IsOpened(disk) {
        currentWriter.AppendLog(disk, StampedLine(clock.timeStamp, log));
      }
    }

    /** close(): closes the writer and shuts the executor down, so the size sweep
        never runs again; the day stays current, so later lines of the same day are
        dropped until the next day opens a new writer. */
    method Close()
      requires Valid()
      modifies this`sizeCleanupScheduled, currentWriter, disk`handles
      ensures Valid() && currentWriter == old(currentWriter) && !sizeCleanupScheduled
      ensures currentWriter != null ==> currentWriter.stream == None
      ensures disk.handles == multiset{}
    {
      CloseWriter();
      sizeCleanupScheduled := false;
    }
  }
}
