/** LogFileManager: the file sink of the current library. One ".log" file per day; when
    a day opens, ".log" and ".zip" files are swept by date and the earlier days' logs
    are compressed, each into its own "yyyy_MM_dd_log.zip", the log being deleted once
    its archive is written; a size sweep over ".log" and ".zip" files runs on a
    background executor while the configured budget is positive. */
module LogFileManagerModule {
  import opened Wrappers
  import opened JavaString
  import opened FileSystem
  import opened SimpleWriterModule
  import opened LogNames
  import opened Eviction
  import opened ZipArchive
  import opened ZipUtils
  import opened LogDirectory

  /** cleanupOldLogsByDate's test against the limit date. */
  function DateSweep(limitDate: string): string -> bool
  {
    name => ExpiredByDate(name, limitDate)
  }

  /** cleanupOldLogsBySize's listing filter: ".log" and ".zip" files. */
  function SizeSweepKeeps(): string -> bool
  {
    name => EndsWith(name, ".log") || EndsWith(name, ".zip")
  }

  /** compressHistoryLogFiles' listing filter: ".log" files other than today's. */
  function HistoryFilter(currentLogDate: string): string -> bool
  {
    name => EndsWith(name, ".log") && name != LogName(currentLogDate)
  }

  /** The archive compressSingleLogFile writes: no comment, and one entry holding the
      log under its own name. */
  function LogArchive(name: string, data: seq<char>): Archive
  {
    Archive("", [Entry(name, data)])
  }

  /** compressSingleLogFile(logFile, zipFile): when the archive can be opened it is
      written, the zip task succeeds and the log is deleted if it can be; otherwise
      the task fails and the log stays. */
  function SingleCompressed(disk: Disk, files: map<Path, seq<char>>, log: Path, zip: Path): map<Path, seq<char>>
    requires log in files
  {
    if !CanOpen(disk, files, zip) then files
    else
      var archived := files[zip := Image(LogArchive(log.name, files[log]))];
      if log !in disk.locked && log.dir !in disk.unwritable then archived - {log} else archived
  }

  /** One turn of compressHistoryLogFiles on a listed log: a log whose stem is a day
      and whose archive does not exist yet is compressed. */
  function CompressStep(disk: Disk, files: map<Path, seq<char>>, dir: string, name: string): map<Path, seq<char>>
  {
    var log := Path(dir, name);
    var zip := Path(dir, ArchiveName(Stem(name)));
    if log in files && IsDate(Stem(name)) && zip !in files then SingleCompressed(disk, files, log, zip) else files
  }

  /** compressHistoryLogFiles over the listed logs, in listing order. */
  function CompressAll(disk: Disk, files: map<Path, seq<char>>, dir: string, names: seq<string>): map<Path, seq<char>>
    decreases |names|
  {
    if names == [] then files
    else CompressStep(disk, CompressAll(disk, files, dir, names[..|names| - 1]), dir, names[|names| - 1])
  }

  /** The files once openNewLogForToday ran on a new day: the day's log opened, the
      date sweep, then, unless the executor refused the task, the compression of the
      logs `listed`. */
  ghost function NewDayFiles(disk: Disk, files: map<Path, seq<char>>, dir: string, c: Clock, retentionDays: int,
                             listed: seq<string>, compressed: bool): map<Path, seq<char>>
  {
    var swept := NewDay(disk, files, dir, c.today, DateSweep(c.daysAgo(retentionDays)));
    if compressed then CompressAll(disk, swept, dir, listed) else swept
  }

  /** An archive name never ends in ".log". */
  lemma ArchiveIsNoLog(dateStr: string)
    ensures !EndsWith(ArchiveName(dateStr), ".log")
  {
    var name := ArchiveName(dateStr);
    assert name[|name| - 1] == 'p';
  }

  /** Compression touches nothing but the listed logs and their archives: a file of
      another directory, today's log or any ".log" file not listed keeps its contents. */
  lemma {:induction false} CompressAllElsewhere(disk: Disk, files: map<Path, seq<char>>, dir: string, names: seq<string>, p: Path)
    requires p.dir == dir ==> EndsWith(p.name, ".log") && p.name !in names
    ensures p in CompressAll(disk, files, dir, names) <==> p in files
    ensures p in files ==> CompressAll(disk, files, dir, names)[p] == files[p]
    decreases |names|
  {
    if names != [] {
      var last := names[|names| - 1];
      assert p.dir == dir ==> p.name !in names[..|names| - 1];
      CompressAllElsewhere(disk, files, dir, names[..|names| - 1], p);
      ArchiveIsNoLog(Stem(last));
    }
  }

  /** A day's log compressed into a fresh archive can be read back from it: the
      archive parses to the single entry holding the log's contents, and the log is
      gone exactly when it could be deleted. */
  lemma CompressedReadsBack(disk: Disk, files: map<Path, seq<char>>, dir: string, name: string)
    requires Path(dir, name) in files && IsDate(Stem(name))
    requires Path(dir, ArchiveName(Stem(name))) !in files && CanOpen(disk, files, Path(dir, ArchiveName(Stem(name))))
    requires EndsWith(name, ".log")
    ensures var after, zip := CompressStep(disk, files, dir, name), Path(dir, ArchiveName(Stem(name)));
      && ReadArchive(after, zip) == Some(LogArchive(name, files[Path(dir, name)]))
      && (Path(dir, name) in after <==> Path(dir, name) in disk.locked || dir in disk.unwritable)
  {
    ArchiveIsNoLog(Stem(name));
    ParseImage(LogArchive(name, files[Path(dir, name)]));
  }

  /** An archive is dated by the day of its log, so the date sweep takes both or
      neither. */
  lemma ArchiveExpiresWithLog(name: string, currentLogDate: string, limitDate: string)
    requires ShouldArchive(name, currentLogDate)
    ensures ExpiredByDate(ArchiveName(Stem(name)), limitDate) <==> ExpiredByDate(name, limitDate)
  {
    ArchiveNameRoundTrip(Stem(name));
  }

  /** The date sweep of a new day keeps the day's own log exactly when the retention
      is positive. */
  lemma SweepSparesToday(disk: Disk, files: map<Path, seq<char>>, dir: string, c: Clock, retentionDays: int)
    requires SaneClock(c)
    ensures var today := Path(dir, LogName(c.today));
      var made := Touched(disk, files, today);
      var after := NewDay(disk, files, dir, c.today, DateSweep(c.daysAgo(retentionDays)));
      && (retentionDays > 0 && today in made ==> today in after && after[today] == made[today])
      && (retentionDays <= 0 && today !in disk.locked && dir !in disk.unwritable ==> today !in after)
  {
    LogExpiry(c.today, c.daysAgo(retentionDays));
    LimitAgainstToday(c, retentionDays);
  }

  /** ZipUtils.zipFile on one log: the task succeeds exactly when the archive can be
      opened, and the archive then holds the log alone. */
  method ZipLog(disk: Disk, log: Path, zip: Path) returns (succeeded: bool)
    requires disk.Valid() && log in disk.files && log.dir in disk.dirs && zip.dir == log.dir
    modifies disk`dirs, disk`files, disk`handles
    ensures disk.Valid() && disk.handles == old(disk.handles) && disk.dirs == old(disk.dirs)
    ensures succeeded == CanOpen(disk, old(disk.files), zip)
    ensures disk.files == if succeeded then old(disk.files)[zip := Image(LogArchive(log.name, old(disk.files)[log]))]
                          else old(disk.files)
  {
    var data := disk.files[log];
    var _, last, written := ZipFiles(disk, [Root(log.dir, FileNode(log.name, data))], zip, "", {});
    SingleFileArchived(log.dir, log.name, data, written, {});
    assert old(disk.dirs) + {log.dir} == old(disk.dirs);
    succeeded := last == Succeeded(zip);
  }

  class LogFileManager {
    const disk: Disk
    /** The LogConfiguration values the manager reads. */
    const logDirectory: string
    const retentionDays: int
    const maxTotalLogSize: int
    var currentWriter: SimpleWriter?
    var currentLogDate: Option<string>
    /** The size sweep is scheduled and its executor not shut down. */
    var sizeCleanupScheduled: bool
    /** The compression executor accepts tasks: it is not shut down. */
    var compressionAccepting: bool

    /** The day's writer holds the only stream on the disk, once a day was opened. */
    ghost predicate Valid()
      reads this, disk, currentWriter
    {
      disk.Valid() &&
      (currentWriter == null <==> currentLogDate.None?) &&
      (currentWriter == null ==> disk.handles == multiset{}) &&
      (currentWriter != null ==> Owns(disk, currentWriter, Path(logDirectory, LogName(currentLogDate.value))))
    }

    /** The private constructor getInstance calls: opens the day (sweeping and
        compressing) and schedules the size sweep when the budget is positive. */
    constructor (disk: Disk, logDirectory: string, retentionDays: int, maxTotalLogSize: int, clock: Clock)
      requires disk.Valid() && disk.handles == multiset{}
      modifies disk`dirs, disk`files, disk`handles, disk`deletedWhileOpen
      ensures Valid() && this.disk == disk && this.logDirectory == logDirectory
      ensures this.retentionDays == retentionDays && this.maxTotalLogSize == maxTotalLogSize
      ensures currentLogDate == Some(clock.today) && fresh(currentWriter)
      ensures sizeCleanupScheduled == (maxTotalLogSize > 0) && compressionAccepting
      ensures currentWriter.stream == (if Openable(disk, old(disk.files), Path(logDirectory, LogName(clock.today)))
                                       then Some(Path(logDirectory, LogName(clock.today))) else None)
      ensures exists listed: seq<string> ::
        && Distinct(listed)
        && disk.files == NewDayFiles(disk, old(disk.files), logDirectory, clock, retentionDays, listed, true)
        && (logDirectory in disk.dirs ==>
              forall n :: n in listed <==>
                Path(logDirectory, n) in NewDay(disk, old(disk.files), logDirectory, clock.today, DateSweep(clock.daysAgo(retentionDays)))
                && HistoryFilter(clock.today)(n))
    {
      this.disk := disk;
      this.logDirectory := logDirectory;
      this.retentionDays := retentionDays;
      this.maxTotalLogSize := maxTotalLogSize;
      currentWriter := null;
      currentLogDate := None;
      sizeCleanupScheduled := false;
      compressionAccepting := true;
      new;
      var _, listed := OpenNewLogForToday(clock);
      sizeCleanupScheduled := maxTotalLogSize > 0;
    }

    /** openNewLogForToday(): on a new day the writer is closed, a new one opened on
        the day's log, old files swept by date and the compression handed to its
        executor; once that executor is shut down it refuses the task and the
        RejectedExecutionException propagates (`rejected`). On the same day nothing
        happens. */
    method OpenNewLogForToday(clock: Clock) returns (rejected: bool, ghost listed: seq<string>)
      requires Valid()
      modifies this`currentWriter, this`currentLogDate, currentWriter
      modifies disk`dirs, disk`files, disk`handles, disk`deletedWhileOpen
      ensures Valid() && currentWriter != null && currentLogDate == Some(clock.today)
      ensures old(currentLogDate) == Some(clock.today) ==>
        !rejected && listed == [] && currentWriter == old(currentWriter) && unchanged(currentWriter) && unchanged(disk)
      ensures old(currentLogDate) != Some(clock.today) ==>
        && fresh(currentWriter)
        && rejected == !compressionAccepting
        && currentWriter.stream == (if Openable(disk, old(disk.files), Path(logDirectory, LogName(clock.today)))
                                    then Some(Path(logDirectory, LogName(clock.today))) else None)
        && disk.files == NewDayFiles(disk, old(disk.files), logDirectory, clock, retentionDays, listed, !rejected)
      ensures Distinct(listed)
      ensures old(currentLogDate) != Some(clock.today) && !rejected && logDirectory in disk.dirs ==>
        forall n :: n in listed <==>
          Path(logDirectory, n) in NewDay(disk, old(disk.files), logDirectory, clock.today, DateSweep(clock.daysAgo(retentionDays)))
          && HistoryFilter(clock.today)(n)
    {
      rejected, listed := false, [];
      if currentLogDate != Some(clock.today) {
        StartDay(clock);
        if !compressionAccepting {
          rejected := true;
        } else {
          listed := CompressHistoryLogFiles();
        }
      }
    }

    /** The new-day branch of openNewLogForToday up to the compression. */
    method StartDay(clock: Clock)
      requires Valid()
      modifies this`currentWriter, this`currentLogDate, currentWriter
      modifies disk`dirs, disk`files, disk`handles, disk`deletedWhileOpen
      ensures Valid() && currentLogDate == Some(clock.today)
      ensures currentWriter != null && fresh(currentWriter)
      ensures disk.dirs == if logDirectory in disk.unwritable then old(disk.dirs) else old(disk.dirs) + {logDirectory}
      ensures disk.files == NewDay(disk, old(disk.files), logDirectory, clock.today, DateSweep(clock.daysAgo(retentionDays)))
      ensures currentWriter.stream == (if Openable(disk, old(disk.files), Path(logDirectory, LogName(clock.today)))
                                       then Some(Path(logDirectory, LogName(clock.today))) else None)
    {
      CloseWriter();
      currentLogDate := Some(clock.today);
      var w := OpenDay(disk, logDirectory, clock.today, DateSweep(clock.daysAgo(retentionDays)));
      currentWriter := w;
    }

    /** The first statement of close(): the writer, if any, is closed. */
    method CloseWriter()
      requires Valid()
      modifies currentWriter, disk`handles
      ensures Valid() && currentWriter == old(currentWriter)
      ensures currentWriter != null ==> currentWriter.stream == None
      ensures disk.handles == multiset{}
    {
      if currentWriter != null {
        var _ := currentWriter.Close(disk);
      }
    }

    /** compressHistoryLogFiles(): every ".log" file but today's whose stem is a day
        and whose archive is missing is compressed, in listing order. Today's log and
        every file that is not a listed log or its archive keep their contents. */
    method CompressHistoryLogFiles() returns (ghost listed: seq<string>)
      requires Valid() && currentWriter != null
      modifies disk`dirs, disk`files, disk`handles, disk`deletedWhileOpen
      ensures Valid() && disk.dirs == old(disk.dirs) && disk.deletedWhileOpen == old(disk.deletedWhileOpen)
      ensures Distinct(listed)
      ensures logDirectory in old(disk.dirs) ==>
        forall n :: n in listed <==> Path(logDirectory, n) in old(disk.files) && HistoryFilter(currentLogDate.value)(n)
      ensures disk.files == CompressAll(disk, old(disk.files), logDirectory, listed)
    {
      var listing := disk.ListFiles(logDirectory);
      if listing.None? {
        listed := [];
        return;
      }
      var names := Matching(listing.value, HistoryFilter(currentLogDate.value));
      listed := names;
      ghost var files0 := disk.files;
      for i := 0 to |names|
        invariant Valid() && currentWriter != null && logDirectory in disk.dirs
        invariant disk.dirs == old(disk.dirs) && disk.deletedWhileOpen == old(disk.deletedWhileOpen)
        invariant disk.files == CompressAll(disk, files0, logDirectory, names[..i])
      {
        CompressTurn(names, i, files0);
      }
      assert names[..|names|] == names;
    }

    /** One turn of compressHistoryLogFiles' loop, on the listed log names[i]. */
    method CompressTurn(names: seq<string>, i: nat, ghost files0: map<Path, seq<char>>)
      requires i < |names| && Distinct(names)
      requires Valid() && currentWriter != null && logDirectory in disk.dirs
      requires forall n :: n in names ==> Path(logDirectory, n) in files0 && HistoryFilter(currentLogDate.value)(n)
      requires disk.files == CompressAll(disk, files0, logDirectory, names[..i])
      modifies disk`dirs, disk`files, disk`handles, disk`deletedWhileOpen
      ensures Valid() && disk.dirs == old(disk.dirs) && disk.deletedWhileOpen == old(disk.deletedWhileOpen)
      ensures disk.files == CompressAll(disk, files0, logDirectory, names[..i + 1])
    {
      var name := names[i];
      assert names[..i + 1][..i] == names[..i];
      assert name !in names[..i];
      CompressAllElsewhere(disk, files0, logDirectory, names[..i], Path(logDirectory, name));
      var dateStr := ReplaceAll(name, ".log", "");
      if MatchesShape(dateStr, DATE_SHAPE) {
        var zip := Path(logDirectory, ArchiveName(dateStr));
        if !disk.Exists(zip) {
          CompressSingleLogFile(Path(logDirectory, name), zip);
        }
      }
    }

    /** compressSingleLogFile(logFile, zipFile): zipFile(logFile, zipFile, listener)
        with a listener whose onSuccess deletes the log. */
    method CompressSingleLogFile(log: Path, zip: Path)
      requires Valid() && currentWriter != null
      requires log in disk.files && log.dir == logDirectory && zip.dir == logDirectory && logDirectory in disk.dirs
      requires log.name != LogName(currentLogDate.value)
      modifies disk`dirs, disk`files, disk`handles, disk`deletedWhileOpen
      ensures Valid() && disk.dirs == old(disk.dirs) && disk.deletedWhileOpen == old(disk.deletedWhileOpen)
      ensures disk.files == SingleCompressed(disk, old(disk.files), log, zip)
    {
      var succeeded := ZipLog(disk, log, zip);
      if succeeded {
        if disk.Exists(log) {
          var _ := disk.Delete(log);
        }
      }
    }

    /** cleanupOldLogsBySize(): the ".log" and ".zip" files are deleted in ascending
        name order until their total fits the budget; the day's log is closed before
        its turn and reopened after it. A budget of zero or less leaves everything as
        it was. Name order is not age order: see `Eviction.NameOrderEvictsToday`. */
    method CleanupOldLogsBySize() returns (ghost order: seq<string>, ghost plan: Plan)
      requires Valid() && currentWriter != null
      modifies disk`dirs, disk`files, disk`handles, disk`deletedWhileOpen
      modifies currentWriter`logFileName, currentWriter`logFile, currentWriter`stream, currentWriter`newFilesReported
      ensures Valid() && disk.dirs == old(disk.dirs)
      ensures forall n :: n in order <==> Path(logDirectory, n) in old(disk.files) && (EndsWith(n, ".log") || EndsWith(n, ".zip"))
      ensures Distinct(order) && SortedBy(ByName, order)
      ensures plan.visited <= |order|
      ensures plan == if maxTotalLogSize <= 0 then Plan([], 0, 0)
                      else Evict(Candidates(disk, old(disk.files), logDirectory, order),
                                 TotalLength(old(disk.files), logDirectory, order), maxTotalLogSize)
      ensures disk.files == AfterEviction(disk, old(disk.files), logDirectory, plan.deleted,
                                          LogName(currentLogDate.value) in order[..plan.visited],
                                          Path(logDirectory, LogName(currentLogDate.value)))
    {
      order, plan := SweepBySize(disk, logDirectory, currentWriter, currentLogDate.value, maxTotalLogSize,
                                 SizeSweepKeeps(), ByName);
    }

    /** The size sweep as its design intends it: the ".log" and ".zip" files are
        offered oldest day first, by the day each name carries, rather than by name
        (see `Eviction.AgeOrderEvictsOldest`); otherwise as cleanupOldLogsBySize. */
    method CleanupOldLogsOldestFirst() returns (ghost order: seq<string>, ghost plan: Plan)
      requires Valid() && currentWriter != null
      modifies disk`dirs, disk`files, disk`handles, disk`deletedWhileOpen
      modifies currentWriter`logFileName, currentWriter`logFile, currentWriter`stream, currentWriter`newFilesReported
      ensures Valid() && disk.dirs == old(disk.dirs)
      ensures forall n :: n in order <==> Path(logDirectory, n) in old(disk.files) && (EndsWith(n, ".log") || EndsWith(n, ".zip"))
      ensures Distinct(order) && SortedBy(ByAge, order)
      ensures plan.visited <= |order|
      ensures plan == if maxTotalLogSize <= 0 then Plan([], 0, 0)
                      else Evict(Candidates(disk, old(disk.files), logDirectory, order),
                                 TotalLength(old(disk.files), logDirectory, order), maxTotalLogSize)
      ensures disk.files == AfterEviction(disk, old(disk.files), logDirectory, plan.deleted,
                                          LogName(currentLogDate.value) in order[..plan.visited],
                                          Path(logDirectory, LogName(currentLogDate.value)))
    {
      order, plan := SweepBySize(disk, logDirectory, currentWriter, currentLogDate.value, maxTotalLogSize,
                                 SizeSweepKeeps(), ByAge);
    }

    /** The executor firing the size sweep: it runs only while it is scheduled. */
    method SizeCleanupTick() returns (ghost order: seq<string>, ghost plan: Plan)
      requires Valid() && currentWriter != null
      modifies disk`dirs, disk`files, disk`handles, disk`deletedWhileOpen
      modifies currentWriter`logFileName, currentWriter`logFile, currentWriter`stream, currentWriter`newFilesReported
      ensures Valid()
      ensures !sizeCleanupScheduled ==>
        order == [] && plan == Plan([], 0, 0) && unchanged(disk) && unchanged(currentWriter)
      ensures sizeCleanupScheduled ==>
        && disk.dirs == old(disk.dirs)
        && (forall n :: n in order <==> Path(logDirectory, n) in old(disk.files) && (EndsWith(n, ".log") || EndsWith(n, ".zip")))
        && Distinct(order) && SortedBy(ByName, order)
        && plan.visited <= |order|
        && plan == (if maxTotalLogSize <= 0 then Plan([], 0, 0)
                    else Evict(Candidates(disk, old(disk.files), logDirectory, order),
                               TotalLength(old(disk.files), logDirectory, order), maxTotalLogSize))
        && disk.files == AfterEviction(disk, old(disk.files), logDirectory, plan.deleted,
                                       LogName(currentLogDate.value) in order[..plan.visited],
                                       Path(logDirectory, LogName(currentLogDate.value)))
    {
      order, plan := [], Plan([], 0, 0);
      if sizeCleanupScheduled {
        order, plan := CleanupOldLogsBySize();
      }
    }

    /** appendLog(log): opens the day first, then writes the stamped line when the
        writer is open and its file still exists; when opening the day threw, the
        exception leaves appendLog and nothing is written. */
    method AppendLog(clock: Clock, log: string) returns (rejected: bool, ghost listed: seq<string>)
      requires Valid()
      modifies this`currentWriter, this`currentLogDate, currentWriter
      modifies disk`dirs, disk`files, disk`handles, disk`deletedWhileOpen
      ensures Valid() && currentWriter != null && currentLogDate == Some(clock.today)
      ensures old(currentLogDate) == Some(clock.today) ==>
        && !rejected && currentWriter == old(currentWriter)
        && disk.files == Logged(old(disk.files), Path(logDirectory, LogName(clock.today)),
                                currentWriter.stream.Some?, StampedLine(clock.timeStamp, log))
      ensures old(currentLogDate) != Some(clock.today) ==>
        && rejected == !compressionAccepting
        && disk.files == Logged(NewDayFiles(disk, old(disk.files), logDirectory, clock, retentionDays, listed, !rejected),
                                Path(logDirectory, LogName(clock.today)),
                                !rejected && currentWriter.stream.Some?, StampedLine(clock.timeStamp, log))
    {
      rejected, listed := OpenNewLogForToday(clock);
      if rejected {
        return;
      }
      if currentWriter != null && currentWriter.IsOpened(disk) {
        currentWriter.AppendLog(disk, StampedLine(clock.timeStamp, log));
      }
    }

    /** close(): closes the writer and shuts both executors down: the size sweep
        never runs again, and the next day's compression task is refused. */
    method Close()
      requires Valid()
      modifies this`sizeCleanupScheduled, this`compressionAccepting, currentWriter, disk`handles
      ensures Valid() && currentWriter == old(currentWriter)
      ensures !sizeCleanupScheduled && !compressionAccepting
      ensures currentWriter != null ==> currentWriter.stream == None
      ensures disk.handles == multiset{}
    {
      CloseWriter();
      sizeCleanupScheduled := false;
      compressionAccepting := false;
    }
  }
}
