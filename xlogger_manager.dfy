/** XLoggerManager: the older, stand-alone file logger. One log file per day in a
    fixed directory, a date sweep that keeps `daysToKeep` days, and a tag written into
    every line. Its directory is the external-storage path plus "/charge_logs/"; here
    it is given when the manager is built. */
module XLoggerManagerModule {
  import opened Wrappers
  import opened JavaString
  import opened FileSystem
  import opened SimpleWriterModule
  import opened LogNames
  import opened LogDirectory

  const DEFAULT_DAYS_TO_KEEP := 7
  const DEFAULT_LOG_TAG := "V5 Charge"

  /** cleanupOldLogs' test against the limit date. */
  function XLoggerSweep(limitDate: string): string -> bool
  {
    name => XLoggerExpired(name, limitDate)
  }

  /** A line as appendLog writes it: time stamp, the tag in brackets, the message. */
  function TaggedLine(timeStamp: string, tag: string, log: string): string
  {
    timeStamp + " [" + tag + "] " + log
  }

  /** The time stamp, the tag and the message can each be read back out of a line. */
  lemma TaggedLineParts(timeStamp: string, tag: string, log: string)
    ensures var line := TaggedLine(timeStamp, tag, log);
      && |line| == |timeStamp| + |tag| + |log| + 4
      && line[..|timeStamp|] == timeStamp
      && line[|timeStamp| + 2..|timeStamp| + 2 + |tag|] == tag
      && line[|timeStamp| + |tag| + 4..] == log
  {
    var line := TaggedLine(timeStamp, tag, log);
    assert line == timeStamp + " [" + tag + "] " + log;
    assert line[..|timeStamp|] == timeStamp;
    assert line[|timeStamp| + 2..|timeStamp| + 2 + |tag|] == tag;
    assert line[|timeStamp| + |tag| + 4..] == log;
  }

  /** The sweep of a new day never takes the day's own log unless the retention is
      negative: the limit date is then after today. */
  lemma SweepSparesToday(disk: Disk, files: map<Path, seq<char>>, dir: string, c: Clock, daysToKeep: int)
    requires SaneClock(c)
    ensures var today := Path(dir, LogName(c.today));
      var made := Touched(disk, files, today);
      var after := NewDay(disk, files, dir, c.today, XLoggerSweep(c.daysAgo(daysToKeep)));
      && (daysToKeep >= 0 && today in made ==> today in after && after[today] == made[today])
      && (daysToKeep < 0 && today !in disk.locked && dir !in disk.unwritable ==> today !in after)
  {
    XLoggerBoundary(c.today, c.daysAgo(daysToKeep));
    LimitAgainstToday(c, daysToKeep);
  }

  class XLoggerManager {
    const disk: Disk
    const logDirectory: string
    var currentWriter: SimpleWriter?
    var currentLogDate: Option<string>
    /** The static daysToKeep and logTag: the setters change them for every later call. */
    var daysToKeep: int
    var logTag: string

    /** The day's writer holds the only stream on the disk, once a day was opened. */
    ghost predicate Valid()
      reads this, disk, currentWriter
    {
      disk.Valid() &&
      (currentWriter == null <==> currentLogDate.None?) &&
      (currentWriter == null ==> disk.handles == multiset{}) &&
      (currentWriter != null ==> Owns(disk, currentWriter, Path(logDirectory, LogName(currentLogDate.value))))
    }

    /** The private constructor getInstance calls: opens the day's log and sweeps.
        The static daysToKeep and logTag hold DEFAULT_DAYS_TO_KEEP and DEFAULT_LOG_TAG
        unless a setter ran before the first getInstance; `daysToKeep` and `logTag`
        are their values at that moment, and the first sweep uses them. */
    constructor (disk: Disk, logDirectory: string, clock: Clock, daysToKeep: int, logTag: string)
      requires disk.Valid() && disk.handles == multiset{}
      modifies disk`dirs, disk`files, disk`handles, disk`deletedWhileOpen
      ensures Valid() && this.disk == disk && this.logDirectory == logDirectory
      ensures this.daysToKeep == daysToKeep && this.logTag == logTag
      ensures currentLogDate == Some(clock.today) && fresh(currentWriter)
      ensures disk.files == NewDay(disk, old(disk.files), logDirectory, clock.today, XLoggerSweep(clock.daysAgo(daysToKeep)))
    {
      this.disk := disk;
      this.logDirectory := logDirectory;
      currentWriter := null;
      currentLogDate := None;
      this.daysToKeep := daysToKeep;
      this.logTag := logTag;
      new;
      OpenNewLogForToday(clock);
    }

    /** openNewLogForToday(): on a new day the writer is closed, the directory made,
        a new writer opened on the day's log and old files swept; on the same day
        nothing happens. */
    method OpenNewLogForToday(clock: Clock)
      requires Valid()
      modifies this`currentWriter, this`currentLogDate, currentWriter
      modifies disk`dirs, disk`files, disk`handles, disk`deletedWhileOpen
      ensures Valid() && currentWriter != null && currentLogDate == Some(clock.today)
      ensures old(currentLogDate) == Some(clock.today) ==>
        currentWriter == old(currentWriter) && unchanged(currentWriter) && unchanged(disk)
      ensures old(currentLogDate) != Some(clock.today) ==>
        && fresh(currentWriter)
        && disk.files == NewDay(disk, old(disk.files), logDirectory, clock.today, XLoggerSweep(clock.daysAgo(daysToKeep)))
        && currentWriter.stream == (if Openable(disk, old(disk.files), Path(logDirectory, LogName(clock.today)))
                                    then Some(Path(logDirectory, LogName(clock.today))) else None)
    {
      if currentLogDate != Some(clock.today) {
        StartDay(clock);
      }
    }

    /** The new-day branch of openNewLogForToday. */
    method StartDay(clock: Clock)
      requires Valid()
      modifies this`currentWriter, this`currentLogDate, currentWriter
      modifies disk`dirs, disk`files, disk`handles, disk`deletedWhileOpen
      ensures Valid() && currentLogDate == Some(clock.today)
      ensures currentWriter != null && fresh(currentWriter)
      ensures disk.files == NewDay(disk, old(disk.files), logDirectory, clock.today, XLoggerSweep(clock.daysAgo(daysToKeep)))
      ensures currentWriter.stream == (if Openable(disk, old(disk.files), Path(logDirectory, LogName(clock.today)))
                                       then Some(Path(logDirectory, LogName(clock.today))) else None)
    {
      Close();
      currentLogDate := Some(clock.today);
      var w := OpenDay(disk, logDirectory, clock.today, XLoggerSweep(clock.daysAgo(daysToKeep)));
      currentWriter := w;
    }

    /** appendLog(log): opens the day first, then writes the tagged line when the
        writer is open and its file still exists. */
    method AppendLog(clock: Clock, log: string)
      requires Valid()
      modifies this`currentWriter, this`currentLogDate, currentWriter
      modifies disk`dirs, disk`files, disk`handles, disk`deletedWhileOpen
      ensures Valid() && currentWriter != null && currentLogDate == Some(clock.today)
      ensures old(currentLogDate) == Some(clock.today) ==>
        && currentWriter == old(currentWriter)
        && disk.files == Logged(old(disk.files), Path(logDirectory, LogName(clock.today)),
                                currentWriter.stream.Some?, TaggedLine(clock.timeStamp, logTag, log))
      ensures old(currentLogDate) != Some(clock.today) ==>
        disk.files == Logged(NewDay(disk, old(disk.files), logDirectory, clock.today, XLoggerSweep(clock.daysAgo(daysToKeep))),
                             Path(logDirectory, LogName(clock.today)),
                             currentWriter.stream.Some?, TaggedLine(clock.timeStamp, logTag, log))
    {
      OpenNewLogForToday(clock);
      if currentWriter != null && currentWriter.IsOpened(disk) {
        currentWriter.AppendLog(disk, TaggedLine(clock.timeStamp, logTag, log));
      }
    }

    /** close(): closes the writer; the day stays current, so later lines of the same
        day are dropped until the next day opens a new writer. */
    method Close()
      requires Valid()
      modifies currentWriter, disk`handles
      ensures Valid() && currentWriter == old(currentWriter)
      ensures currentWriter != null ==> currentWriter.stream == None
      ensures disk.handles == multiset{}
    {
      if currentWriter != null {
        var _ := currentWriter.Close(disk);
      }
    }

    /** setDaysToKeep(days) */
    method SetDaysToKeep(days: int)
      modifies this`daysToKeep
      ensures daysToKeep == days
    {
      daysToKeep := days;
    }

    /** setLogTag(tag) */
    method SetLogTag(tag: string)
      modifies this`logTag
      ensures logTag == tag
    {
      logTag := tag;
    }
  }
}
