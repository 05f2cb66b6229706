# XLoger's log files, modelled in Dafny

XLoger is an Android logging library. Besides printing to the console, it keeps log lines in files.

It writes one file per day, named `yyyy-MM-dd.log`, into a log directory. Three managers own such a directory:

- `LogToFile`, the sink `XLogger` writes through;
- `LogFileManager`, which also compresses earlier days into `yyyy_MM_dd_log.zip` archives;
- the older, stand-alone `XLoggerManager`, which writes a tag into every line.

## What each manager does

Each manager opens the day's file with a `SimpleWriter` the first time it logs on a new day. It then deletes files whose date falls before a retention limit.

`LogToFile` and `LogFileManager` also run a size sweep. The sweep deletes files, in sorted order, until the directory fits a byte budget. When the sweep reaches the file the writer has open, it closes the writer before the delete and reopens it afterwards.

`ZipUtils` collects files and empty directories, writes them into an archive with progress reports, and extracts archives, all of them or selected entries.

`LogLevel.getShortLevelName` names a priority. `Util.splitStr` cuts a long message into console-sized pieces.

## The files

| File | What it models |
|---|---|
| `file_system.dfy` (`FileSystem`) | The part of `java.io.File` the library uses: directories, files and their contents, open output streams. Locked files and unwritable directories are the failures a call can meet. |
| `simple_writer.dfy` (`SimpleWriterModule`) | `SimpleWriter`, a class over that disk. |
| `log_names.dfy` (`LogNames`) | How dates are read out of file names, and how archives are named. |
| `java_string.dfy` (`JavaString`) | `String.compareTo`, `replace`, `matches` on fixed-width patterns, and `Integer.toString`. |
| `eviction.dfy` (`Eviction`) | The size sweep as a pure plan: the order files are offered in and which of them go. |
| `log_directory.dfy` (`LogDirectory`) | The steps all managers share: opening a day, the date sweep, and the size sweep as an imperative loop proved against the plan. |
| `log_to_file.dfy`, `log_file_manager.dfy`, `xlogger_manager.dfy` | The three managers, each a class whose methods change the disk. |
| `zip_archive.dfy`, `zip_utils.dfy` (`ZipArchive`, `ZipUtils`) | The archive format and the zip, unzip and listing operations. |
| `log_level.dfy`, `util.dfy` (`LogLevel`, `Util`) | The level names and the message splitting. |
| `wrappers.dfy` | `Option`, and `Distinct` for sequences without repeats. |

## Modelling choices

- **The clock.** Time is a `Clock` value: today's date, the time stamp, and the date a number of days back.
- **Background work runs in the caller.** The executors, the scheduled size sweep and the main-thread callbacks all run synchronously. `SizeCleanupTick` stands for one firing of the scheduled sweep.
- **Zip progress** is a sequence of report events.

## Where the code departs from its evident intent

- `LogFileManager.cleanupOldLogsBySize` sorts by name (line 240), which is not oldest first (see Findings). `LogFileManager.CleanupOldLogsBySize` and `SizeCleanupTick` follow the code. The day-ordered sweep is the separate member `LogFileManager.CleanupOldLogsOldestFirst`.
- `LogToFile`'s date sweep deletes any `.log` file whose stem is on or before the limit date. It checks no date pattern.
- `XLoggerManager`'s sweep checks no extension and compares with a strict `<`, so it keeps the file dated on the limit day.
- With a retention of zero days or less, the date sweep deletes the day's own log right after opening it. The `SweepSparesToday` lemmas state this. For `XLoggerManager`, only a negative retention does so.
- After `LogFileManager.close()`, the compression executor is shut down. The first log of a new day then ends in a `RejectedExecutionException`, modelled as the `rejected` result, after the new writer was opened and the date sweep ran.
- `LogLevel.ALL` is `Integer.MIN_VALUE`. `2 - ALL` overflows, so its name is "V-" followed by -2147483646.
- `Util.splitStr` divides by its `MAX_LENGTH`, so zero throws, and a negative length throws or returns an empty array. The model requires a positive length.
- A zip that fails after opening its archive leaves a truncated or partial archive behind. The model keeps it.

## Model

| member | source | states |
|---|---|---|
| LogLevel.ShortLevelName | loglibrary/src/main/java/com/xaye/loglibrary/utils/LogLevel.java:31-58 | A non-empty name; it starts with 'V' exactly for levels at or below VERBOSE and with 'E' exactly for levels at or above ERROR. |
| LogLevel.Wrap | loglibrary/src/main/java/com/xaye/loglibrary/utils/LogLevel.java:50-51 | Java int subtraction: the result agrees with the exact difference modulo 2^32 and equals it when that is in range. |
| LogLevel.NamedLevelInitials | loglibrary/src/main/java/com/xaye/loglibrary/utils/LogLevel.java:33-48 | The five named priorities VERBOSE..ERROR print "V", "D", "I", "W", "E". |
| LogLevel.ShortLevelNameRoundTrip | loglibrary/src/main/java/com/xaye/loglibrary/utils/LogLevel.java:31-58 | Every int level's short name reads back to that level, so no information is lost. |
| LogLevel.LowLevelRoundTrip | loglibrary/src/main/java/com/xaye/loglibrary/utils/LogLevel.java:50-51 | Below VERBOSE, "V-" and the wrapped distance 2 - level read back to the level. |
| LogLevel.HighLevelRoundTrip | loglibrary/src/main/java/com/xaye/loglibrary/utils/LogLevel.java:52-54 | Above ERROR, "E+" and level - 6 read back to the level. |
| LogLevel.ShortLevelNameInjective | loglibrary/src/main/java/com/xaye/loglibrary/utils/LogLevel.java:31-58 | Two levels with the same short name are the same level. |
| LogLevel.AllLevelName | loglibrary/src/main/java/com/xaye/loglibrary/utils/LogLevel.java:27 | ALL (Integer.MIN_VALUE) overflows: its name is "V-" followed by -2147483646. |
| LogLevel.WrapBack | loglibrary/src/main/java/com/xaye/loglibrary/utils/LogLevel.java:51 | Subtracting from VERBOSE twice in Java ints gives the level back. |
| Util.Pieces | loglibrary/src/main/java/com/xaye/loglibrary/utils/Util.java:13 | splitStr's result has length / MAX_LENGTH + 1 pieces. |
| Util.PiecesSizes | loglibrary/src/main/java/com/xaye/loglibrary/utils/Util.java:15-24 | Every piece but the last has exactly MAX_LENGTH characters; the last has length % MAX_LENGTH, and is empty when MAX_LENGTH divides the length. |
| Util.PiecesConcat | loglibrary/src/main/java/com/xaye/loglibrary/utils/Util.java:9-26 | Joining the pieces in order gives the message back. |
| Util.SplitStr | loglibrary/src/main/java/com/xaye/loglibrary/utils/Util.java:9-26 | The loop fills a fresh array with exactly the pieces Pieces describes. |
| FileSystem.Disk.Mkdirs | loglibrary/src/main/java/com/xaye/loglibrary/XLoggerManager.java:46 | The directory exists afterwards unless it cannot be created. |
| FileSystem.Disk.CreateNewFile | loglibrary/src/main/java/com/xaye/loglibrary/file/SimpleWriter.java:33 | An empty file appears when none existed and the directory accepts it; the outcome says which case held. |
| FileSystem.Disk.OpenOutput | loglibrary/src/main/java/com/xaye/loglibrary/file/SimpleWriter.java:43 | Opening a writer creates a missing file, truncates unless appending, and adds one open stream; it fails on a locked file or a refusing directory. |
| FileSystem.Disk.WriteOutput | loglibrary/src/main/java/com/xaye/loglibrary/file/SimpleWriter.java:77-79 | Written text lands at the end of the file, or nowhere once the file was deleted. |
| FileSystem.Disk.CloseOutput | loglibrary/src/main/java/com/xaye/loglibrary/file/SimpleWriter.java:89 | Closing removes exactly one open stream on the file. |
| FileSystem.Disk.Delete | loglibrary/src/main/java/com/xaye/loglibrary/LogToFile.java:99 | delete() succeeds exactly when the file exists and neither it nor its directory is protected; deleting a file with an open stream is recorded. |
| FileSystem.Disk.ListFiles | loglibrary/src/main/java/com/xaye/loglibrary/LogToFile.java:93 | listFiles() is null exactly for a missing directory; otherwise it names each file of the directory once. |
| SimpleWriterModule.SimpleWriter.constructor | loglibrary/src/main/java/com/xaye/loglibrary/file/SimpleWriter.java:12-17 | A new writer holds no file, no name and no stream. |
| SimpleWriterModule.SimpleWriter.Open | loglibrary/src/main/java/com/xaye/loglibrary/file/SimpleWriter.java:20-53 | open succeeds exactly when the file is not locked and exists or can be created; the parent directory and an empty file are made when missing; success leaves one stream on the file and reports a new file to the hook; failure leaves the writer closed. |
| SimpleWriterModule.SimpleWriter.CreateIfMissing | loglibrary/src/main/java/com/xaye/loglibrary/file/SimpleWriter.java:27-40 | A missing file is created, with its directory, unless its directory refuses it, which is the failure case. |
| SimpleWriterModule.SimpleWriter.Attach | loglibrary/src/main/java/com/xaye/loglibrary/file/SimpleWriter.java:42-51 | Opening the append stream succeeds exactly when the file is not locked; otherwise the writer is closed. |
| SimpleWriterModule.SimpleWriter.OnNewFileCreated | loglibrary/src/main/java/com/xaye/loglibrary/file/SimpleWriter.java:71-72 | The hook is called once per file the writer created. |
| SimpleWriterModule.SimpleWriter.GetOpenedFileName | loglibrary/src/main/java/com/xaye/loglibrary/file/SimpleWriter.java:65-68 | The name is present exactly when a file is, and is that file's name. |
| SimpleWriterModule.SimpleWriter.AppendLog | loglibrary/src/main/java/com/xaye/loglibrary/file/SimpleWriter.java:75-83 | The line and a newline are appended to the open file; with no stream or a deleted file nothing changes. |
| SimpleWriterModule.SimpleWriter.Close | loglibrary/src/main/java/com/xaye/loglibrary/file/SimpleWriter.java:86-98 | close releases the one stream it held, forgets the file and answers true. |
| JavaString.CompareToAntisymmetric | loglibrary/src/main/java/com/xaye/loglibrary/XLoggerManager.java:59 | a.compareTo(b) == -b.compareTo(a). |
| JavaString.CompareToZero | loglibrary/src/main/java/com/xaye/loglibrary/XLoggerManager.java:59 | compareTo answers 0 exactly for equal strings. |
| JavaString.LeTotal | loglibrary/src/main/java/com/xaye/loglibrary/LogToFile.java:98 | Any two strings are ordered one way or the other by compareTo <= 0. |
| JavaString.LeTransitive | loglibrary/src/main/java/com/xaye/loglibrary/LogToFile.java:98 | compareTo <= 0 is transitive. |
| JavaString.LessTransitive | loglibrary/src/main/java/com/xaye/loglibrary/XLoggerManager.java:59 | compareTo < 0 is transitive. |
| JavaString.CompareToAt | loglibrary/src/main/java/com/xaye/loglibrary/LogFileManager.java:240 | compareTo is the difference of the first differing characters. |
| JavaString.PrefixLess | loglibrary/src/main/java/com/xaye/loglibrary/LogFileManager.java:240 | A proper extension of a string compares greater than it. |
| JavaString.CompareToExtend | loglibrary/src/main/java/com/xaye/loglibrary/LogFileManager.java:240 | Between equal-length strings that differ, what follows the first does not change the comparison. |
| JavaString.SwapChar | loglibrary/src/main/java/com/xaye/loglibrary/LogFileManager.java:132 | Replacing a character maps every position independently. |
| JavaString.ReplaceCharIsSwap | loglibrary/src/main/java/com/xaye/loglibrary/LogFileManager.java:132 | replace of one character by another is that position-wise map. |
| JavaString.ReplaceWhole | loglibrary/src/main/java/com/xaye/loglibrary/LogFileManager.java:127 | Replacing a whole string by itself as target gives the replacement. |
| JavaString.ReplaceAbsent | loglibrary/src/main/java/com/xaye/loglibrary/LogFileManager.java:127 | With no occurrence of the target, replace leaves the string unchanged. |
| JavaString.ReplaceSkipsPrefix | loglibrary/src/main/java/com/xaye/loglibrary/LogFileManager.java:127 | A prefix where no occurrence starts is copied unchanged. |
| JavaString.ReplaceStep | loglibrary/src/main/java/com/xaye/loglibrary/LogFileManager.java:127 | Where no occurrence starts, replace copies one character. |
| JavaString.Digits | loglibrary/src/main/java/com/xaye/loglibrary/utils/LogLevel.java:51 | The decimal form of a natural number is a non-empty run of digits. |
| JavaString.DigitsRoundTrip | loglibrary/src/main/java/com/xaye/loglibrary/utils/LogLevel.java:51 | Reading a number's digits back gives the number. |
| JavaString.DecimalRoundTrip | loglibrary/src/main/java/com/xaye/loglibrary/utils/LogLevel.java:51-53 | The decimal form of any int, the sign included, parses back to it. |
| JavaString.NaturalRoundTrip | loglibrary/src/main/java/com/xaye/loglibrary/utils/LogLevel.java:53 | The decimal form of a natural number parses back to it. |
| JavaString.NegativeRoundTrip | loglibrary/src/main/java/com/xaye/loglibrary/utils/LogLevel.java:51 | The decimal form of a negative number parses back to it. |
| JavaString.SignedParse | loglibrary/src/main/java/com/xaye/loglibrary/utils/LogLevel.java:51 | A '-' before digits parses to the negated value. |
| LogNames.DateChars | loglibrary/src/main/java/com/xaye/loglibrary/LogFileManager.java:130 | A day has ten characters: digits with '-' at positions 4 and 7. |
| LogNames.StemOfLogName | loglibrary/src/main/java/com/xaye/loglibrary/LogFileManager.java:127 | Removing ".log" from a day's log name gives the day. |
| LogNames.LogExpiry | loglibrary/src/main/java/com/xaye/loglibrary/LogFileManager.java:190-212 | A day's log is dated by its day and is deleted exactly when the day is on or before the limit date. |
| LogNames.SwapKeepsShape | loglibrary/src/main/java/com/xaye/loglibrary/LogFileManager.java:132 | Swapping one literal character for another keeps a fixed-width pattern match. |
| LogNames.ArchiveShape | loglibrary/src/main/java/com/xaye/loglibrary/LogFileManager.java:132 | A day with '-' turned into '_' matches \d{4}_\d{2}_\d{2}. |
| LogNames.SwapBack | loglibrary/src/main/java/com/xaye/loglibrary/LogFileManager.java:199-200 | Turning '_' back into '-' undoes the archive naming of a day. |
| LogNames.ArchiveNameRoundTrip | loglibrary/src/main/java/com/xaye/loglibrary/LogFileManager.java:132 | A day's archive name matches \d{4}_\d{2}_\d{2}_log\.zip, and the date sweep reads exactly that day back from it. |
| LogNames.ArchiveNameInjective | loglibrary/src/main/java/com/xaye/loglibrary/LogFileManager.java:132-136 | Different days get different archives. |
| LogNames.ArchivalSelection | loglibrary/src/main/java/com/xaye/loglibrary/LogFileManager.java:115-132 | Archives and today's log are never compressed; another day's log is. |
| LogNames.LegacyArchiveDates | loglibrary/src/main/java/com/xaye/loglibrary/LogFileManager.java:203-206 | The two older archive names are dated by the day they start with. |
| LogNames.LegacyZipDate | loglibrary/src/main/java/com/xaye/loglibrary/LogFileManager.java:203-204 | "yyyy-MM-dd.zip" is dated by its day. |
| LogNames.LegacyTimedZipDate | loglibrary/src/main/java/com/xaye/loglibrary/LogFileManager.java:205-206 | "yyyy-MM-dd_HHmm.zip" is dated by its first ten characters. |
| LogNames.UndatedKept | loglibrary/src/main/java/com/xaye/loglibrary/LogFileManager.java:190-212 | A name that is not a ".log" file and matches none of the three archive shapes carries no date and is never deleted by the date sweep. |
| LogNames.UndatedLogExpires | loglibrary/src/main/java/com/xaye/loglibrary/LogFileManager.java:194-195 | A ".log" name is dated by its stem with no pattern check: "1.log" is dated "1" and is deleted against any limit day of the years 2000 to 2999. |
| LogNames.LogToFileRetention | loglibrary/src/main/java/com/xaye/loglibrary/LogToFile.java:98 | LogToFile's date test agrees with LogFileManager's on ".log" files and never deletes an archive. |
| LogNames.XLoggerBoundary | loglibrary/src/main/java/com/xaye/loglibrary/XLoggerManager.java:59 | XLoggerManager keeps the log dated on the limit and deletes a day's log exactly when its day is strictly earlier. |
| LogNames.XLoggerSweepsAnyFile | loglibrary/src/main/java/com/xaye/loglibrary/XLoggerManager.java:55-62 | XLoggerManager checks no extension: any file starting with an earlier day is deleted. |
| Eviction.PrecedesTotal | loglibrary/src/main/java/com/xaye/loglibrary/LogFileManager.java:240 | The sort orders are total. |
| Eviction.PrecedesTransitive | loglibrary/src/main/java/com/xaye/loglibrary/LogFileManager.java:240 | The sort orders are transitive. |
| Eviction.InsertSorted | loglibrary/src/main/java/com/xaye/loglibrary/LogFileManager.java:240 | Inserting into a sorted list keeps it sorted. |
| Eviction.ConsSorted | loglibrary/src/main/java/com/xaye/loglibrary/LogFileManager.java:240 | A name that precedes all of a sorted list can go in front of it. |
| Eviction.SortedHead | loglibrary/src/main/java/com/xaye/loglibrary/LogFileManager.java:240 | The head of a sorted list precedes the rest. |
| Eviction.InsertPerm | loglibrary/src/main/java/com/xaye/loglibrary/LogFileManager.java:240 | Inserting adds exactly one occurrence of the new name. |
| Eviction.InsertMembers | loglibrary/src/main/java/com/xaye/loglibrary/LogFileManager.java:240 | The inserted list holds the new name and the old ones, nothing else. |
| Eviction.InsertDistinct | loglibrary/src/main/java/com/xaye/loglibrary/LogFileManager.java:240 | Inserting a new name keeps a list of distinct names distinct. |
| Eviction.SortSpec | loglibrary/src/main/java/com/xaye/loglibrary/LogFileManager.java:240 | Arrays.sort yields a sorted permutation of its input. |
| Eviction.SortDistinct | loglibrary/src/main/java/com/xaye/loglibrary/LogFileManager.java:240 | Sorting distinct names keeps them distinct and keeps exactly those names. |
| Eviction.DeletableAppend | loglibrary/src/main/java/com/xaye/loglibrary/LogFileManager.java:252-254 | The files deleted from two runs are those of each run, in order. |
| Eviction.DeletableSnoc | loglibrary/src/main/java/com/xaye/loglibrary/LogFileManager.java:252-254 | One more file adds itself to the deleted ones exactly when delete() succeeds on it. |
| Eviction.SizeOfAppend | loglibrary/src/main/java/com/xaye/loglibrary/LogFileManager.java:253 | Sizes add up over concatenation. |
| Eviction.EvictShape | loglibrary/src/main/java/com/xaye/loglibrary/LogFileManager.java:242-260 | The sweep deletes exactly the deletable files among those it looked at, ends with the total less what it deleted, stops early only once the budget is met, and looks at every file up to that point. |
| Eviction.RunningTotals | loglibrary/src/main/java/com/xaye/loglibrary/LogFileManager.java:243 | The total before each visited file exceeded the budget. |
| Eviction.EvictMeetsBudget | loglibrary/src/main/java/com/xaye/loglibrary/LogFileManager.java:242-260 | The sweep ends within budget, or with every deletable file deleted. |
| Eviction.DeletableOfPrefix | loglibrary/src/main/java/com/xaye/loglibrary/LogFileManager.java:252 | With distinct names, a file is deleted within a prefix exactly when it lies in it and can be deleted. |
| Eviction.DeletableWithin | loglibrary/src/main/java/com/xaye/loglibrary/LogFileManager.java:252 | Only deletable files of the list are deleted. |
| Eviction.EvictInOrder | loglibrary/src/main/java/com/xaye/loglibrary/LogFileManager.java:240-260 | Every deleted file comes, in the sort order, before every deletable file the sweep keeps. |
| Eviction.NameOrderPutsLogFirst | loglibrary/src/main/java/com/xaye/loglibrary/LogFileManager.java:240 | By name, today's log precedes every archive of the same year, however old. |
| Eviction.AgeOrderPutsOlderFirst | loglibrary/src/main/java/com/xaye/loglibrary/LogFileManager.java:240 | By day, an archive of an earlier day precedes today's log. |
| Eviction.ArchivesByDay | loglibrary/src/main/java/com/xaye/loglibrary/LogFileManager.java:240 | Archives of successive days are ordered by day in both orders. |
| Eviction.NameOrderEvictsToday | loglibrary/src/main/java/com/xaye/loglibrary/LogFileManager.java:240-260 | As written: a sweep from 120 to 90 bytes over two older archives and today's log, sorted by name, deletes today's log and keeps both archives. |
| Eviction.AgeOrderEvictsOldest | loglibrary/src/main/java/com/xaye/loglibrary/LogFileManager.java:240-260 | Sorted by day, the same sweep deletes the oldest archive and keeps today's log. |
| ZipArchive.DigitRun | loglibrary/src/main/java/com/xaye/loglibrary/utils/zip/ZipUtils.java:165 | The digit run is a prefix, ended by a non-digit or by the end. |
| ZipArchive.ReadField | loglibrary/src/main/java/com/xaye/loglibrary/utils/zip/ZipUtils.java:165 | Reading a field consumes input. |
| ZipArchive.DigitRunOf | loglibrary/src/main/java/com/xaye/loglibrary/utils/zip/ZipUtils.java:165 | The run of a digit string followed by a non-digit is that string. |
| ZipArchive.ReadFieldOf | loglibrary/src/main/java/com/xaye/loglibrary/utils/zip/ZipUtils.java:165 | A written field reads back whole, leaving what followed it. |
| ZipArchive.ParseEntriesRoundTrip | loglibrary/src/main/java/com/xaye/loglibrary/utils/zip/ZipUtils.java:89-131 | Written entries read back in order. |
| ZipArchive.ParseImage | loglibrary/src/main/java/com/xaye/loglibrary/utils/zip/ZipUtils.java:89-131 | An archive file reads back as the archive written into it, comment included. |
| ZipUtils.ValuesOf | loglibrary/src/main/java/com/xaye/loglibrary/utils/zip/ZipUtils.java:105 | The map's values come one per key. |
| ZipUtils.ValuesOfOther | loglibrary/src/main/java/com/xaye/loglibrary/utils/zip/ZipUtils.java:372 | Putting an unlisted key leaves the listed values alone. |
| ZipUtils.PutWellFormed | loglibrary/src/main/java/com/xaye/loglibrary/utils/zip/ZipUtils.java:372 | LinkedHashMap.put keeps the map consistent and grows it only for a new key. |
| ZipUtils.PutAllWellFormed | loglibrary/src/main/java/com/xaye/loglibrary/utils/zip/ZipUtils.java:372 | Any sequence of puts keeps the map consistent, adding at most one key per put. |
| ZipUtils.PutAllAppend | loglibrary/src/main/java/com/xaye/loglibrary/utils/zip/ZipUtils.java:372 | Putting two runs of items is putting one after the other. |
| ZipUtils.PutAllDistinct | loglibrary/src/main/java/com/xaye/loglibrary/utils/zip/ZipUtils.java:372 | Files with distinct paths are each listed once, in visiting order. |
| ZipUtils.DistinctRest | loglibrary/src/main/java/com/xaye/loglibrary/utils/zip/ZipUtils.java:372 | After the first put, the remaining items still have new, distinct keys. |
| ZipUtils.PutNewListed | loglibrary/src/main/java/com/xaye/loglibrary/utils/zip/ZipUtils.java:372 | A new key is listed last. |
| ZipUtils.Collector.constructor | loglibrary/src/main/java/com/xaye/loglibrary/utils/zip/ZipUtils.java:75-76 | The file map and the set of empty-directory markers start empty. |
| ZipUtils.Collector.Put | loglibrary/src/main/java/com/xaye/loglibrary/utils/zip/ZipUtils.java:372 | filesMap.put. |
| ZipUtils.Collector.AddEmptyDir | loglibrary/src/main/java/com/xaye/loglibrary/utils/zip/ZipUtils.java:365 | emptyDirs.add. |
| ZipUtils.Collect | loglibrary/src/main/java/com/xaye/loglibrary/utils/zip/ZipUtils.java:359-374 | collect puts every regular file below the node, in visiting order, under its entry path, and adds a marker for every empty directory. |
| ZipUtils.CollectFiles | loglibrary/src/main/java/com/xaye/loglibrary/utils/zip/ZipUtils.java:353-357 | collectFiles does the same for each root, in order. |
| ZipUtils.MarkersAreDirectories | loglibrary/src/main/java/com/xaye/loglibrary/utils/zip/ZipUtils.java:365 | Every marker ends in '/', so it is read back as a directory. |
| ZipUtils.MarkersAreDirectoriesAll | loglibrary/src/main/java/com/xaye/loglibrary/utils/zip/ZipUtils.java:365-369 | The same for the children of a directory. |
| ZipUtils.RootMarkersAreDirectories | loglibrary/src/main/java/com/xaye/loglibrary/utils/zip/ZipUtils.java:353-357 | The same for all roots. |
| ZipUtils.Percent | loglibrary/src/main/java/com/xaye/loglibrary/utils/zip/ZipUtils.java:120 | Progress is between 0 and 100 and reaches 100 on the last byte of a non-empty file. |
| ZipUtils.PercentBounds | loglibrary/src/main/java/com/xaye/loglibrary/utils/zip/ZipUtils.java:120 | The bounds of the integer percentage. |
| ZipUtils.CopyChunks | loglibrary/src/main/java/com/xaye/loglibrary/utils/zip/ZipUtils.java:110-129 | The copy loop copies every byte, and reports once per chunk with growing byte counts, ending at the full size and 100%; an empty file gets no report. |
| ZipUtils.Names | loglibrary/src/main/java/com/xaye/loglibrary/utils/zip/ZipUtils.java:111 | The names of the entries, one per entry. |
| ZipUtils.FileEntries | loglibrary/src/main/java/com/xaye/loglibrary/utils/zip/ZipUtils.java:111-128 | Each collected file becomes the entry of its entry path and bytes. |
| ZipUtils.WriteEmptyDirs | loglibrary/src/main/java/com/xaye/loglibrary/utils/zip/ZipUtils.java:94-102 | Each marker is written once as an empty entry, with one 100% report numbered in writing order. |
| ZipUtils.ExtendReports | loglibrary/src/main/java/com/xaye/loglibrary/utils/zip/ZipUtils.java:105-126 | The next file's reports extend an ordered run of reports. |
| ZipUtils.WriteStep | loglibrary/src/main/java/com/xaye/loglibrary/utils/zip/ZipUtils.java:105-130 | One turn of the file loop keeps its invariants. |
| ZipUtils.WriteFiles | loglibrary/src/main/java/com/xaye/loglibrary/utils/zip/ZipUtils.java:105-130 | Files are written in map order until the first unreadable or duplicate one, which ends the loop; reports are about the files, numbered after the markers, in order. |
| ZipUtils.NamesAppend | loglibrary/src/main/java/com/xaye/loglibrary/utils/zip/ZipUtils.java:111 | Names distribute over concatenation. |
| ZipUtils.AcceptedDistinct | loglibrary/src/main/java/com/xaye/loglibrary/utils/zip/ZipUtils.java:111 | Accepted files add only new names, so no name is written twice. |
| ZipUtils.DirsThenFiles | loglibrary/src/main/java/com/xaye/loglibrary/utils/zip/ZipUtils.java:81-130 | The markers' reports then the files' form a run numbered 1..totalItems. |
| ZipUtils.ZipFiles | loglibrary/src/main/java/com/xaye/loglibrary/utils/zip/ZipUtils.java:69-144 | If the archive cannot be opened nothing changes and the zip fails; otherwise the archive holds the comment and the written entries, and success means every marker then every file was written, while failure means it stopped at the first refused file. |
| ZipUtils.SingleFileCollected | loglibrary/src/main/java/com/xaye/loglibrary/utils/zip/ZipUtils.java:45-47 | Zipping a regular file collects only that file, under its own name, with no markers. |
| ZipUtils.SingleFileArchived | loglibrary/src/main/java/com/xaye/loglibrary/utils/zip/ZipUtils.java:45-47 | Archiving one file either writes exactly its entry, or fails with nothing written because it could not be read. |
| ZipUtils.OpenArchive | loglibrary/src/main/java/com/xaye/loglibrary/utils/zip/ZipUtils.java:85-90 | The archive's directory is made, and opening truncates the archive exactly when it can be opened. |
| ZipUtils.WriteOpened | loglibrary/src/main/java/com/xaye/loglibrary/utils/zip/ZipUtils.java:89-131 | The two loops run, then the archive is saved and its stream closed. |
| ZipUtils.CollectAll | loglibrary/src/main/java/com/xaye/loglibrary/utils/zip/ZipUtils.java:75-79 | collectFiles into a fresh map and set. |
| ZipUtils.WriteArchive | loglibrary/src/main/java/com/xaye/loglibrary/utils/zip/ZipUtils.java:91-130 | The two loops' entries, reports and stopping point. |
| ZipUtils.WrittenOutcomeOf | loglibrary/src/main/java/com/xaye/loglibrary/utils/zip/ZipUtils.java:89-131 | The loops' outcome is the archive ZipFiles promises. |
| ZipUtils.WrittenOutcome | loglibrary/src/main/java/com/xaye/loglibrary/utils/zip/ZipUtils.java:94-130 | The two loops leave either every file written, or the files before the first refused one. |
| ZipUtils.AllAccepted | loglibrary/src/main/java/com/xaye/loglibrary/utils/zip/ZipUtils.java:105-130 | When no file was refused, names are distinct and every file was readable. |
| ZipUtils.LastSlash | loglibrary/src/main/java/com/xaye/loglibrary/utils/zip/ZipUtils.java:182 | The position of the last '/' in a name. |
| ZipUtils.DestInjective | loglibrary/src/main/java/com/xaye/loglibrary/utils/zip/ZipUtils.java:182 | Different entry names never share a destination file. |
| ZipUtils.ExtractOne | loglibrary/src/main/java/com/xaye/loglibrary/utils/zip/ZipUtils.java:178-226 | A directory entry makes its directory and reports 100%; a file entry lands at its destination unless that is blocked. |
| ZipUtils.ExtractFile | loglibrary/src/main/java/com/xaye/loglibrary/utils/zip/ZipUtils.java:193-226 | A file entry's bytes are written at its destination, with its progress reports. |
| ZipUtils.OpenDestination | loglibrary/src/main/java/com/xaye/loglibrary/utils/zip/ZipUtils.java:193-202 | The parent is made, a missing file may be created first, and the stream opens exactly when the destination is not blocked. |
| ZipUtils.SaveData | loglibrary/src/main/java/com/xaye/loglibrary/utils/zip/ZipUtils.java:201-226 | The bytes go into the file just opened, which is then closed. |
| ZipUtils.ExtendEntryReports | loglibrary/src/main/java/com/xaye/loglibrary/utils/zip/ZipUtils.java:178-223 | One more entry's reports extend an ordered run. |
| ZipUtils.ExtractStep | loglibrary/src/main/java/com/xaye/loglibrary/utils/zip/ZipUtils.java:178-227 | One extraction turn keeps its invariants. |
| ZipUtils.ExtractStopped | loglibrary/src/main/java/com/xaye/loglibrary/utils/zip/ZipUtils.java:178-227 | A blocked file entry stops the extraction with the promised outcome. |
| ZipUtils.MadeStep | loglibrary/src/main/java/com/xaye/loglibrary/utils/zip/ZipUtils.java:184-195 | One more entry adds its directory and, for a file, its destination. |
| ZipUtils.ExtractTurn | loglibrary/src/main/java/com/xaye/loglibrary/utils/zip/ZipUtils.java:178-227 | One turn: the entry is extracted, or it is a blocked file and extraction stops there. |
| ZipUtils.ExtractEntries | loglibrary/src/main/java/com/xaye/loglibrary/utils/zip/ZipUtils.java:178-227 | Entries are extracted in order until the first blocked file; reports follow the entries in order. |
| ZipUtils.ListEntries | loglibrary/src/main/java/com/xaye/loglibrary/utils/zip/ZipUtils.java:169-173 | The list holds the archive's entries in order. |
| ZipUtils.UnzipFile | loglibrary/src/main/java/com/xaye/loglibrary/utils/zip/ZipUtils.java:154-241 | A missing or malformed archive fails with nothing extracted; otherwise every entry is extracted in order until one cannot be, which is the failure. |
| ZipUtils.MakeFolder | loglibrary/src/main/java/com/xaye/loglibrary/utils/zip/ZipUtils.java:160-163 | The target folder exists afterwards unless it cannot be made. |
| ZipUtils.Selected | loglibrary/src/main/java/com/xaye/loglibrary/utils/zip/ZipUtils.java:266-274 | The selected entries are exactly those whose name contains the text. |
| ZipUtils.SelectEntries | loglibrary/src/main/java/com/xaye/loglibrary/utils/zip/ZipUtils.java:266-274 | The filter loop builds exactly that selection, in archive order. |
| ZipUtils.FileList.constructor | loglibrary/src/main/java/com/xaye/loglibrary/utils/zip/ZipUtils.java:253 | The returned list starts empty. |
| ZipUtils.FileList.Add | loglibrary/src/main/java/com/xaye/loglibrary/utils/zip/ZipUtils.java:336 | fileList.add appends. |
| ZipUtils.UpZipSelectedFile | loglibrary/src/main/java/com/xaye/loglibrary/utils/zip/ZipUtils.java:252-255 | The caller gets an empty list back at once. |
| ZipUtils.SelectedUnzipTask | loglibrary/src/main/java/com/xaye/loglibrary/utils/zip/ZipUtils.java:255-348 | Only the selected entries are extracted, numbered among themselves, and each file written is added to the caller's list. |
| ZipUtils.GetEntriesList | loglibrary/src/main/java/com/xaye/loglibrary/utils/zip/ZipUtils.java:405-414 | The entries of the archive, or the exception for a missing or malformed one. |
| ZipUtils.ReadWritten | loglibrary/src/main/java/com/xaye/loglibrary/utils/zip/ZipUtils.java:165 | A file holding an archive's image reads back as that archive. |
| ZipUtils.GetEntryName | loglibrary/src/main/java/com/xaye/loglibrary/utils/zip/ZipUtils.java:436-439 | The charset round trip leaves an ASCII name unchanged. |
| ZipUtils.GetEntryComment | loglibrary/src/main/java/com/xaye/loglibrary/utils/zip/ZipUtils.java:423-427 | No comment gives ""; an ASCII comment is unchanged. |
| ZipUtils.GetEntriesNames | loglibrary/src/main/java/com/xaye/loglibrary/utils/zip/ZipUtils.java:385-394 | One name per entry, re-read through the charsets twice. |
| ZipUtils.AsciiNamesListed | loglibrary/src/main/java/com/xaye/loglibrary/utils/zip/ZipUtils.java:385-394 | With ASCII names the listed names are the stored names. |
| ZipUtils.ExtractedElsewhere | loglibrary/src/main/java/com/xaye/loglibrary/utils/zip/ZipUtils.java:178-227 | Files that are no entry's destination are left alone. |
| ZipUtils.ExtractedHolds | loglibrary/src/main/java/com/xaye/loglibrary/utils/zip/ZipUtils.java:178-227 | A file entry not overwritten by a later one leaves its bytes at its destination. |
| ZipUtils.ZipThenUnzip | loglibrary/src/main/java/com/xaye/loglibrary/utils/zip/ZipUtils.java:69-241 | When every collected file was archived and the charsets keep the entry names, extracting the archive puts every collected file back under its entry path, with its own bytes. |
| ZipUtils.ZipThenUnzipDirs | loglibrary/src/main/java/com/xaye/loglibrary/utils/zip/ZipUtils.java:94-101 | Under the same conditions every empty directory of the zipped tree is a marker ending in '/' whose directory, the tree path under the target folder, is among those extraction makes, which is what UnzipFile adds to the disk's directories (the `mkdirs` of lines 184-185). |
| LogDirectory.Touched | loglibrary/src/main/java/com/xaye/loglibrary/file/SimpleWriter.java:27-40 | Opening a log creates it empty when missing and its directory accepts it, and changes no other file. |
| LogDirectory.OpenToday | loglibrary/src/main/java/com/xaye/loglibrary/LogToFile.java:79-82 | The directory is made and a fresh writer opened on the day's log; it holds the only new stream. |
| LogDirectory.OpenDay | loglibrary/src/main/java/com/xaye/loglibrary/LogToFile.java:75-83 | After the old writer is closed: a fresh writer owns the day's log, and the files are the day's log opened and then the date sweep. |
| LogDirectory.SweepByDate | loglibrary/src/main/java/com/xaye/loglibrary/LogToFile.java:91-103 | Exactly the listed files the sweep judges expired and that can be deleted are deleted; a missing directory changes nothing. |
| LogDirectory.SweptFrom | loglibrary/src/main/java/com/xaye/loglibrary/LogToFile.java:93-97 | The sweep's account before the loop and after the whole listing. |
| LogDirectory.SweptStep | loglibrary/src/main/java/com/xaye/loglibrary/LogToFile.java:97-100 | One listed name is deleted exactly when the sweep purges it. |
| LogDirectory.Candidates | loglibrary/src/main/java/com/xaye/loglibrary/LogToFile.java:128-141 | Each listed file with its length and whether delete() succeeds. |
| LogDirectory.SumLengths | loglibrary/src/main/java/com/xaye/loglibrary/LogToFile.java:119-122 | The first loop adds up the lengths of the listed files. |
| LogDirectory.TotalLengthPermutation | loglibrary/src/main/java/com/xaye/loglibrary/LogToFile.java:119-126 | Sorting does not change the total. |
| LogDirectory.SameMembers | loglibrary/src/main/java/com/xaye/loglibrary/LogToFile.java:126 | A permutation has the same members. |
| LogDirectory.MatchLast | loglibrary/src/main/java/com/xaye/loglibrary/LogToFile.java:126 | The last name sits somewhere in any permutation. |
| LogDirectory.RemoveAt | loglibrary/src/main/java/com/xaye/loglibrary/LogToFile.java:126 | Removing one element removes one copy of it. |
| LogDirectory.TotalLengthRemove | loglibrary/src/main/java/com/xaye/loglibrary/LogToFile.java:119-122 | Taking one file out takes its length out of the total. |
| LogDirectory.Matching | loglibrary/src/main/java/com/xaye/loglibrary/LogToFile.java:115 | listFiles(filter) keeps exactly the accepted names, each once. |
| LogDirectory.SweepBySize | loglibrary/src/main/java/com/xaye/loglibrary/LogToFile.java:110-149 | The files visited are exactly the accepted ones, distinct and sorted; the deletions are those Evict prescribes; once the sweep passed the day's log the writer is back on it (unless locked), and it comes back empty when it was deleted; a budget of zero or less changes nothing. |
| LogDirectory.EvictIfOver | loglibrary/src/main/java/com/xaye/loglibrary/LogToFile.java:119-148 | Within budget nothing is deleted; over it the sorted files are evicted as Evict prescribes. |
| LogDirectory.EvictOne | loglibrary/src/main/java/com/xaye/loglibrary/LogToFile.java:131-147 | The day's log is closed before its delete and reopened after, empty when it was deleted; the file goes exactly when it can be deleted; no file is deleted while a stream is open on it. |
| LogDirectory.EvictFiles | loglibrary/src/main/java/com/xaye/loglibrary/LogToFile.java:128-148 | The eviction loop is the one Evict describes; the writer ends on the day's log again once the sweep passed it. |
| LogDirectory.EvictLoop | loglibrary/src/main/java/com/xaye/loglibrary/LogToFile.java:128-148 | The loop stops when the files run out or the total fits. |
| LogDirectory.EvictStart | loglibrary/src/main/java/com/xaye/loglibrary/LogToFile.java:128 | Before the first turn nothing was deleted. |
| LogDirectory.EvictDone | loglibrary/src/main/java/com/xaye/loglibrary/LogToFile.java:129 | Once the loop stops, the account holds the whole plan. |
| LogDirectory.EvictTurn | loglibrary/src/main/java/com/xaye/loglibrary/LogToFile.java:129-147 | One turn evicts the next file and advances the account. |
| LogDirectory.EvictAdvance | loglibrary/src/main/java/com/xaye/loglibrary/LogToFile.java:139-141 | The plan's account advances by one file per turn. |
| LogDirectory.EvictNext | loglibrary/src/main/java/com/xaye/loglibrary/LogToFile.java:134-147 | What the next turn does to the disk. |
| LogDirectory.NotYetDeleted | loglibrary/src/main/java/com/xaye/loglibrary/LogToFile.java:128 | The next file was not deleted before. |
| LogDirectory.WithoutOneMore | loglibrary/src/main/java/com/xaye/loglibrary/LogToFile.java:139 | Deleting one more file takes that file away and nothing else. |
| LogDirectory.DeletedNamesOfPrefix | loglibrary/src/main/java/com/xaye/loglibrary/LogToFile.java:128-139 | Only files already visited were deleted. |
| LogDirectory.LimitAgainstToday | loglibrary/src/main/java/com/xaye/loglibrary/LogToFile.java:151-155 | With a sane clock, the limit date is on or after today exactly when the retention is zero or less. |
| LogDirectory.StampedLineParts | loglibrary/src/main/java/com/xaye/loglibrary/LogToFile.java:161-162 | The time stamp and the message can be read back out of a line. |
| LogToFileModule.SweepSparesToday | loglibrary/src/main/java/com/xaye/loglibrary/LogToFile.java:72-103 | The date sweep of a new day keeps the day's log when the retention is positive and deletes it when it is zero or less. |
| LogToFileModule.LogToFile.constructor | loglibrary/src/main/java/com/xaye/loglibrary/LogToFile.java:31-43 | Opens the day (the date sweep included) and schedules the size sweep exactly when the budget is positive. |
| LogToFileModule.LogToFile.OpenNewLogForToday | loglibrary/src/main/java/com/xaye/loglibrary/LogToFile.java:72-85 | On the same day nothing changes; on a new day a fresh writer owns the day's log and the files are the day's log opened, then swept by date. |
| LogToFileModule.LogToFile.StartDay | loglibrary/src/main/java/com/xaye/loglibrary/LogToFile.java:74-84 | The new-day branch: close, set the day, open, sweep. |
| LogToFileModule.LogToFile.CloseWriter | loglibrary/src/main/java/com/xaye/loglibrary/LogToFile.java:167-169 | The writer, if any, releases its stream. |
| LogToFileModule.LogToFile.CleanupOldLogsBySize | loglibrary/src/main/java/com/xaye/loglibrary/LogToFile.java:110-149 | The ".log" files are visited in name order and evicted as Evict prescribes, with the day's log closed and reopened around its delete. |
| LogToFileModule.LogToFile.SizeCleanupTick | loglibrary/src/main/java/com/xaye/loglibrary/LogToFile.java:56-67 | Unscheduled, nothing changes. Scheduled, it is the by-name sweep: the ".log" files sorted by name, the Evict plan, and the files that plan leaves. |
| LogToFileModule.LogToFile.AppendLog | loglibrary/src/main/java/com/xaye/loglibrary/LogToFile.java:157-164 | After opening the day, the stamped line is appended to the day's log when the writer is open, and nothing else changes. |
| LogToFileModule.LogToFile.Close | loglibrary/src/main/java/com/xaye/loglibrary/LogToFile.java:166-173 | The writer is closed and the size sweep never runs again. |
| XLoggerManagerModule.TaggedLineParts | loglibrary/src/main/java/com/xaye/loglibrary/XLoggerManager.java:75-76 | The time stamp, the tag and the message can be read back out of a line. |
| XLoggerManagerModule.SweepSparesToday | loglibrary/src/main/java/com/xaye/loglibrary/XLoggerManager.java:39-64 | The sweep of a new day keeps the day's log unless daysToKeep is negative, which deletes it. |
| XLoggerManagerModule.XLoggerManager.constructor | loglibrary/src/main/java/com/xaye/loglibrary/XLoggerManager.java:22-30 | The static daysToKeep and tag as they stand at the first getInstance (7 and "V5 Charge" unless a setter ran first), and the day opened and swept with that retention. |
| XLoggerManagerModule.XLoggerManager.OpenNewLogForToday | loglibrary/src/main/java/com/xaye/loglibrary/XLoggerManager.java:39-52 | On the same day nothing changes; on a new day a fresh writer owns the day's log and the files are the day's log opened, then swept. |
| XLoggerManagerModule.XLoggerManager.StartDay | loglibrary/src/main/java/com/xaye/loglibrary/XLoggerManager.java:41-51 | The new-day branch. |
| XLoggerManagerModule.XLoggerManager.AppendLog | loglibrary/src/main/java/com/xaye/loglibrary/XLoggerManager.java:72-78 | After opening the day, the tagged line is appended to the day's log when the writer is open. |
| XLoggerManagerModule.XLoggerManager.Close | loglibrary/src/main/java/com/xaye/loglibrary/XLoggerManager.java:80-84 | The writer releases its stream. |
| XLoggerManagerModule.XLoggerManager.SetDaysToKeep | loglibrary/src/main/java/com/xaye/loglibrary/XLoggerManager.java:86-88 | Later sweeps use the new retention. |
| XLoggerManagerModule.XLoggerManager.SetLogTag | loglibrary/src/main/java/com/xaye/loglibrary/XLoggerManager.java:90-92 | Later lines carry the new tag. |
| LogFileManagerModule.ArchiveIsNoLog | loglibrary/src/main/java/com/xaye/loglibrary/LogFileManager.java:132 | An archive name never ends in ".log", so compression never lists an archive. |
| LogFileManagerModule.CompressAllElsewhere | loglibrary/src/main/java/com/xaye/loglibrary/LogFileManager.java:112-144 | Compression leaves today's log, every unlisted ".log" file and every file of other directories as it was. |
| LogFileManagerModule.CompressedReadsBack | loglibrary/src/main/java/com/xaye/loglibrary/LogFileManager.java:149-178 | A compressed day reads back from its archive as one entry holding the log's bytes, and the log is gone exactly when it could be deleted. |
| LogFileManagerModule.ArchiveExpiresWithLog | loglibrary/src/main/java/com/xaye/loglibrary/LogFileManager.java:184-215 | A day's archive expires exactly when its log would. |
| LogFileManagerModule.SweepSparesToday | loglibrary/src/main/java/com/xaye/loglibrary/LogFileManager.java:184-215 | The date sweep of a new day keeps the day's log when the retention is positive and deletes it when it is zero or less. |
| LogFileManagerModule.ZipLog | loglibrary/src/main/java/com/xaye/loglibrary/LogFileManager.java:150 | zipFile on one log succeeds exactly when the archive can be opened, and the archive then holds the log alone. |
| LogFileManagerModule.LogFileManager.constructor | loglibrary/src/main/java/com/xaye/loglibrary/LogFileManager.java:42-61 | The writer holds the day's log exactly when it can be opened. The files are the day's log opened, swept by date, then the compression of the listed earlier ".log" files, each listed once. The size sweep is scheduled exactly when the budget is positive. |
| LogFileManagerModule.LogFileManager.OpenNewLogForToday | loglibrary/src/main/java/com/xaye/loglibrary/LogFileManager.java:88-106 | On the same day nothing changes; on a new day the day's log is opened, swept by date, then every listed earlier log compressed, or the shut-down executor refuses the compression job. |
| LogFileManagerModule.LogFileManager.StartDay | loglibrary/src/main/java/com/xaye/loglibrary/LogFileManager.java:90-102 | The new-day branch up to the compression. |
| LogFileManagerModule.LogFileManager.CloseWriter | loglibrary/src/main/java/com/xaye/loglibrary/LogFileManager.java:279-281 | The writer, if any, releases its stream. |
| LogFileManagerModule.LogFileManager.CompressHistoryLogFiles | loglibrary/src/main/java/com/xaye/loglibrary/LogFileManager.java:112-144 | The listed ".log" files other than today's are exactly those compressed, one after another, as CompressAll describes. |
| LogFileManagerModule.LogFileManager.CompressTurn | loglibrary/src/main/java/com/xaye/loglibrary/LogFileManager.java:125-140 | A listed log whose stem is a day and whose archive is missing is compressed; any other is skipped. |
| LogFileManagerModule.LogFileManager.CompressSingleLogFile | loglibrary/src/main/java/com/xaye/loglibrary/LogFileManager.java:149-178 | The archive is written when it can be opened, and the log is deleted after a successful zip when it can be. |
| LogFileManagerModule.LogFileManager.CleanupOldLogsBySize | loglibrary/src/main/java/com/xaye/loglibrary/LogFileManager.java:222-261 | The ".log" and ".zip" files are visited in ascending name order, each once, and evicted as Evict prescribes: nothing for a budget of zero or less, otherwise deletions until the total fits. The day's log is closed and reopened around its delete. |
| LogFileManagerModule.LogFileManager.CleanupOldLogsOldestFirst | loglibrary/src/main/java/com/xaye/loglibrary/LogFileManager.java:238-259 | The corrected sweep: the same files visited by the day each name carries, oldest first, and evicted as Evict prescribes. |
| LogFileManagerModule.LogFileManager.SizeCleanupTick | loglibrary/src/main/java/com/xaye/loglibrary/LogFileManager.java:73-83 | Unscheduled, nothing changes. Scheduled, it is the by-name sweep of line 240: the ".log" and ".zip" files sorted by name, the Evict plan, and the files that plan leaves. |
| LogFileManagerModule.LogFileManager.AppendLog | loglibrary/src/main/java/com/xaye/loglibrary/LogFileManager.java:269-276 | After opening the day, the stamped line is appended when the writer is open; when the compression task was refused, the exception leaves and nothing is written. |
| LogFileManagerModule.LogFileManager.Close | loglibrary/src/main/java/com/xaye/loglibrary/LogFileManager.java:278-288 | The writer is closed and both executors shut down. |

## Left out

- Threads and executors: `Executors`, `ScheduledExecutorService`, the `mainHandler` callbacks and the `synchronized` modifiers are left out. Each job runs to completion when it is started, so interleavings between the writer, the size sweep and compression are not modelled.
- The schedule: the delay and interval of `scheduleWithFixedDelay` (`getLogSizeCheckInterval`) are left out. One firing is `SizeCleanupTick`.
- Singletons: `getInstance` and the `instance` fields are left out. A manager is built by its constructor over a given `Disk`, and one manager per directory is assumed.
- Static fields: `XLoggerManager`'s static `daysToKeep` and `logTag` are fields of the one instance. Their values when `getInstance` first runs are constructor parameters.
- Configuration and paths: `LogConfiguration` and `LOG_DIRECTORY` (external storage plus `/charge_logs/`) are parameters: the directory, the retention days and the size budget.
- Dates: `SimpleDateFormat` and `Calendar` are the `Clock` parameter. `SaneClock` states what the lemmas assume of it: `daysAgo(0)` is today, earlier for positive counts, later for negative ones.
- Logging and callbacks: `Log.d`/`Log.e`/`Log.i`, `printStackTrace`, `ZipListener.onStart` and the failure message strings are left out. Success or failure is a result, and `onProgress` is a report event.
- Byte format: the deflate format and the `ZipOutputStream` byte layout are replaced by a length-prefixed encoding (`ZipArchive.Image`). Only the entries, their order and the comment are kept.
- Charsets: the GB2312 / ISO-8859-1 recoding is a parameter function. Its round trip is proved only for names it leaves unchanged.
- Bytes: file contents are `seq<char>`, one character per byte.
- Buffers: the 1 MiB buffer is an arbitrary positive chunk size for each read.
- Integer widths: sizes are unbounded. `long` overflow of byte totals is not modelled, and progress uses integer division in place of the float and double arithmetic of lines 120 and 214.
- I/O failures: three failures are modelled. A locked file and an unwritable directory are fixed when the `Disk` is built. A source file that `ZipFiles` cannot read is given by its `unreadable` set. A full disk, media removal and other `IOException`s are left out.
- ZipUtils.ZipFiles: takes the tree it zips (the `roots`, with their file contents) and the set of its files that cannot be opened for reading as inputs, not from the `Disk`. Nothing ties them to the files on disk. `LogFileManager` builds its single root from the disk's copy of the log and an empty `unreadable` set (`ZipLog`).
- Timestamps: file modification times are not used by the library and are not modelled.
- Zip-slip: entry names are joined to the target folder as given. Path normalisation (`..`, absolute names) is left out.
- ZipUtils.DestInjective: holds because destinations are compared as strings. Java's `File` collapses repeated separators, so `new File(folder, "a//b")` and `new File(folder, "a/b")` are one file, which the model treats as two.
- Deleting an open file: a file deleted while a stream is open on it loses later writes. The model records such deletes in `deletedWhileOpen`; the platform's handling of the unlinked file is left out.
- Sorting: `Arrays.sort` is modelled as insertion sort. With a total order over distinct names, the result is the same sorted permutation.
- Compression timing: `LogFileManager` compresses synchronously. In the source, `zipFile` runs on its own executor and the log is deleted in `onSuccess`; the model does this right after the archive is written.
- Overloads: `ZipUtils.zipFile(resFile, zipFile, comment, listener)` is `ZipFiles` with one root, like the overload without a comment.
- `SimpleWriter.isOpened`, `getOpenedFile` and `Writer` are predicates and fields without a row of their own. Their behaviour is part of the contracts that use them.
- The console printers, formatters, `XLogger`, `LoggerUtils` and the `app` module are not part of this model.
- Util.SplitStr: requires a positive `MAX_LENGTH`. For a non-positive length the source misbehaves, and the model does not return that outcome. Zero throws an `ArithmeticException`. A negative length throws (`substring` with a negative end, or `NegativeArraySizeException`), or returns an empty array when the message's length lies between `|MAX_LENGTH|` and `2·|MAX_LENGTH| - 1`: `splitStr(-1, "a")` is `[]`.
- Util.SplitStr and JavaString.CompareTo: Java strings count UTF-16 code units, and a Dafny `char` is a Unicode scalar value. For text with characters outside the Basic Multilingual Plane, piece lengths and comparisons are counted per character here, not per code unit.
- FileSystem.Disk.ListFiles: lists the regular files of a directory only. `File.listFiles()` also returns subdirectories. The three date sweeps (LogFileManager.java:186, LogToFile.java:93, XLoggerManager.java:55) list without an `isFile()` filter, so the source also deletes an empty subdirectory whose name the sweep judges expired: for XLoggerManager, any name such as `2020` that compares below the limit. The model does not capture this. The size sweeps and compression filter with `isFile()`, so they are unaffected.
- LogFileManagerModule.LogFileManager.OpenNewLogForToday: which logs are handed to compression is stated only when the day is new, the directory exists and the compression job is accepted. In the other cases the ghost listing is empty.
- ZipUtils.GetEntryName: states the result only for an ASCII name that the recoding keeps.
- ZipUtils.GetEntryComment: states the result only for a missing comment or an ASCII comment that the recoding keeps.
- ZipUtils.AsciiNamesListed: holds only for ASCII names that the recoding keeps.
- ZipUtils.UpZipSelectedFile: states only the empty list the caller gets back. The extraction itself is `ZipUtils.SelectedUnzipTask`.

## Findings

| source | as written | input that shows it | evidently intended | confidence | as-written member | corrected member |
|---|---|---|---|---|---|---|
| loglibrary/src/main/java/com/xaye/loglibrary/LogFileManager.java:240 | The size sweep sorts `.log` and `.zip` files by name. '-' (0x2D) sorts before '_' (0x5F), so today's `yyyy-MM-dd.log` comes before every `yyyy_MM_dd_log.zip` archive of the same year, however old. | A 90-byte budget and three 40-byte files: two archives of earlier days and today's log. Sorted by name, today's log goes first and is deleted; both older archives stay. | Oldest files first: order by the date each name carries. The sweep then deletes the oldest archive and keeps today's log. | not executed | Eviction.NameOrderEvictsToday | Eviction.AgeOrderEvictsOldest |
