/** How the three log managers read dates out of file names in the log directory,
    and how LogFileManager names the archive of a day's log. All comparisons are
    String.compareTo on "yyyy-MM-dd" strings. */
module LogNames {
  import opened Wrappers
  import opened JavaString

  /** \d{4}-\d{2}-\d{2}, the form of a day (SimpleDateFormat "yyyy-MM-dd"). */
  const DATE_SHAPE := "####-##-##"
  /** \d{4}_\d{2}_\d{2}_log\.zip, the archive name LogFileManager writes. */
  const ARCHIVE_SHAPE := "####_##_##" + ARCHIVE_SUFFIX
  const ARCHIVE_SUFFIX := "_log.zip"
  /** \d{4}-\d{2}-\d{2}\.zip, an older archive name still recognised. */
  const LEGACY_ZIP_SHAPE := DATE_SHAPE + ".zip"
  /** \d{4}-\d{2}-\d{2}_\d{4}\.zip, an older archive name with a time of day. */
  const LEGACY_TIMED_ZIP_SHAPE := DATE_SHAPE + "_####.zip"

  predicate IsDate(s: string)
  {
    MatchesShape(s, DATE_SHAPE)
  }

  /** The log file of a day: currentLogDate + ".log". */
  function LogName(date: string): string
  {
    date + ".log"
  }

  /** The stem the managers compare: the name with every ".log" removed. */
  function Stem(name: string): string
  {
    ReplaceAll(name, ".log", "")
  }

  /** LogFileManager.cleanupOldLogsByDate: the date read from a file name, if any. */
  function FileDate(name: string): Option<string>
  {
    if EndsWith(name, ".log") then Some(Stem(name))
    else if EndsWith(name, ".zip") then
      if MatchesShape(name, ARCHIVE_SHAPE) then Some(ReplaceAll(ReplaceAll(name, ARCHIVE_SUFFIX, ""), "_", "-"))
      else if MatchesShape(name, LEGACY_ZIP_SHAPE) then Some(ReplaceAll(name, ".zip", ""))
      else if MatchesShape(name, LEGACY_TIMED_ZIP_SHAPE) then Some(name[..10])
      else None
    else None
  }

  /** LogFileManager deletes a file whose date is on or before the limit date. */
  predicate ExpiredByDate(name: string, limitDate: string)
  {
    FileDate(name).Some? && Le(FileDate(name).value, limitDate)
  }

  /** compressHistoryLogFiles: a ".log" file other than today's whose stem is a date. */
  predicate ShouldArchive(name: string, currentLogDate: string)
  {
    EndsWith(name, ".log") && name != LogName(currentLogDate) && IsDate(Stem(name))
  }

  /** The archive of a day: the date with '-' turned into '_', then "_log.zip". */
  function ArchiveName(dateStr: string): string
  {
    ReplaceAll(dateStr, "-", "_") + ARCHIVE_SUFFIX
  }

  /** LogToFile.cleanupOldLogsByDate: ".log" files whose stem is on or before the limit. */
  predicate LogToFileExpired(name: string, limitDate: string)
  {
    EndsWith(name, ".log") && Le(Stem(name), limitDate)
  }

  /** XLoggerManager.cleanupOldLogs: any file whose stem is strictly before the limit. */
  predicate XLoggerExpired(name: string, limitDate: string)
  {
    CompareTo(Stem(name), limitDate) < 0
  }

  lemma DateChars(d: string)
    requires IsDate(d)
    ensures |d| == 10
    ensures forall i :: 0 <= i < 10 && i != 4 && i != 7 ==> IsDigit(d[i])
    ensures d[4] == '-' && d[7] == '-'
  {
  }

  /** The stem of a day's log file is the day. */
  lemma StemOfLogName(d: string)
    requires IsDate(d)
    ensures Stem(LogName(d)) == d
  {
    DateChars(d);
    NoMatchWhereCharDiffers(d, ".log", ".log", 0);
    ReplaceSkipsPrefix(d, ".log", ".log", "");
    ReplaceWhole(".log", "");
  }

  /** A day's log is dated by its day, and is purged exactly when that day is on or
      before the limit date: a file dated on the limit itself is deleted. */
  lemma LogExpiry(d: string, limitDate: string)
    requires IsDate(d)
    ensures FileDate(LogName(d)) == Some(d)
    ensures ExpiredByDate(LogName(d), limitDate) <==> Le(d, limitDate)
    ensures ExpiredByDate(LogName(d), d)
  {
    StemOfLogName(d);
    CompareToZero(d, d);
  }

  /** Swapping a literal character of a shape for another non-digit keeps the match. */
  lemma SwapKeepsShape(s: string, shape: string, from: char, to: char)
    requires MatchesShape(s, shape)
    requires from != '#' && to != '#' && !IsDigit(from) && !IsDigit(to)
    ensures MatchesShape(SwapChar(s, from, to), SwapChar(shape, from, to))
  {
  }

  lemma ArchiveShape(d: string)
    requires IsDate(d)
    ensures MatchesShape(ReplaceAll(d, "-", "_"), "####_##_##")
  {
    ReplaceCharIsSwap(d, '-', '_');
    SwapKeepsShape(d, DATE_SHAPE, '-', '_');
    assert SwapChar(DATE_SHAPE, '-', '_') == "####_##_##";
  }

  /** Turning '_' back into '-' undoes the archive naming of a date. */
  lemma SwapBack(d: string)
    requires IsDate(d)
    ensures SwapChar(SwapChar(d, '-', '_'), '_', '-') == d
  {
    DateChars(d);
    var r := SwapChar(SwapChar(d, '-', '_'), '_', '-');
    assert forall i :: 0 <= i < |d| ==> r[i] == d[i];
  }

  /** Removing "_log.zip" from a stem of digits and '_' followed by the suffix
      leaves the stem: no occurrence of the suffix starts inside it. */
  lemma StripArchiveSuffix(s: string)
    requires |s| == 10 && forall k :: 0 <= k < 10 ==> IsDigit(s[k]) || s[k] == '_'
    ensures ReplaceAll(s + ARCHIVE_SUFFIX, ARCHIVE_SUFFIX, "") == s
  {
    var name := s + ARCHIVE_SUFFIX;
    assert forall k :: 1 <= k < 11 ==> name[k] != 'l' by {
      assert forall k :: 0 <= k < 10 ==> name[k] == s[k];
      assert name[10] == '_';
    }
    NoMatchWhereCharDiffers(s, ARCHIVE_SUFFIX, ARCHIVE_SUFFIX, 1);
    ReplaceSkipsPrefix(s, ARCHIVE_SUFFIX, ARCHIVE_SUFFIX, "");
    ReplaceWhole(ARCHIVE_SUFFIX, "");
  }

  /** The archive name of a day has the new archive shape, and the retention sweep
      reads exactly that day back out of it. */
  lemma ArchiveNameRoundTrip(d: string)
    requires IsDate(d)
    ensures MatchesShape(ArchiveName(d), ARCHIVE_SHAPE)
    ensures FileDate(ArchiveName(d)) == Some(d)
  {
    DateChars(d);
    ReplaceCharIsSwap(d, '-', '_');
    var s := ReplaceAll(d, "-", "_");
    assert |s| == 10 && forall k :: 0 <= k < 10 ==> IsDigit(s[k]) || s[k] == '_';
    ArchiveShape(d);
    var name := s + ARCHIVE_SUFFIX;
    assert MatchesShape(name, ARCHIVE_SHAPE) by {
      assert forall i :: 10 <= i < 18 ==> name[i] == ARCHIVE_SHAPE[i];
    }
    assert !EndsWith(name, ".log") by {
      assert name[|name| - 1] == 'p';
    }
    assert EndsWith(name, ".zip") by {
      assert name[|name| - 4..] == ".zip";
    }
    StripArchiveSuffix(s);
    ReplaceCharIsSwap(s, '_', '-');
    SwapBack(d);
  }

  /** Different days get different archives. */
  lemma ArchiveNameInjective(a: string, b: string)
    requires IsDate(a) && IsDate(b)
    requires ArchiveName(a) == ArchiveName(b)
    ensures a == b
  {
    ArchiveNameRoundTrip(a);
    ArchiveNameRoundTrip(b);
  }

  /** Archives are never archived again, and today's log is never archived. */
  lemma ArchivalSelection(d: string, today: string)
    requires IsDate(d)
    ensures !ShouldArchive(ArchiveName(d), today)
    ensures !ShouldArchive(LogName(today), today)
    ensures ShouldArchive(LogName(d), today) <==> d != today
  {
    var archive := ArchiveName(d);
    assert archive[|archive| - 1] == 'p';
    StemOfLogName(d);
  }

  /** The two older archive names are dated by the day they start with. */
  lemma LegacyArchiveDates(d: string, hhmm: string)
    requires IsDate(d) && MatchesShape(hhmm, "####")
    ensures FileDate(d + ".zip") == Some(d)
    ensures FileDate(d + "_" + hhmm + ".zip") == Some(d)
  {
    LegacyZipDate(d);
    LegacyTimedZipDate(d, hhmm);
  }

  lemma LegacyZipDate(d: string)
    requires IsDate(d)
    ensures FileDate(d + ".zip") == Some(d)
  {
    DateChars(d);
    var legacy := d + ".zip";
    assert !EndsWith(legacy, ".log") && EndsWith(legacy, ".zip") by {
      assert legacy[|legacy| - 4..] == ".zip";
    }
    assert !MatchesShape(legacy, ARCHIVE_SHAPE) by {
      assert |legacy| != |ARCHIVE_SHAPE|;
    }
    assert MatchesShape(legacy, LEGACY_ZIP_SHAPE) by {
      assert forall i :: 10 <= i < 14 ==> legacy[i] == LEGACY_ZIP_SHAPE[i];
    }
    assert ReplaceAll(legacy, ".zip", "") == d by {
      NoMatchWhereCharDiffers(d, ".zip", ".zip", 0);
      ReplaceSkipsPrefix(d, ".zip", ".zip", "");
      ReplaceWhole(".zip", "");
      assert d + "" == d;
    }
  }

  lemma LegacyTimedZipDate(d: string, hhmm: string)
    requires IsDate(d) && MatchesShape(hhmm, "####")
    ensures FileDate(d + "_" + hhmm + ".zip") == Some(d)
  {
    DateChars(d);
    var timed := d + "_" + hhmm + ".zip";
    assert |timed| == 19;
    assert !EndsWith(timed, ".log") && EndsWith(timed, ".zip") by {
      assert timed[|timed| - 4..] == ".zip";
    }
    assert !MatchesShape(timed, ARCHIVE_SHAPE) && !MatchesShape(timed, LEGACY_ZIP_SHAPE) by {
      assert |ARCHIVE_SHAPE| == 18 && |LEGACY_ZIP_SHAPE| == 14;
    }
    assert MatchesShape(timed, LEGACY_TIMED_ZIP_SHAPE) by {
      assert forall i :: 10 <= i < 19 ==> (if LEGACY_TIMED_ZIP_SHAPE[i] == '#' then IsDigit(timed[i]) else timed[i] == LEGACY_TIMED_ZIP_SHAPE[i]);
    }
    assert timed[..10] == d;
  }

  /** Every other name carries no date, so the date sweep never deletes it. */
  lemma UndatedKept(name: string, limitDate: string)
    requires !EndsWith(name, ".log")
    requires EndsWith(name, ".zip") ==>
      !MatchesShape(name, ARCHIVE_SHAPE) && !MatchesShape(name, LEGACY_ZIP_SHAPE) && !MatchesShape(name, LEGACY_TIMED_ZIP_SHAPE)
    ensures FileDate(name) == None
    ensures !ExpiredByDate(name, limitDate)
  {
  }

  /** A ".log" name needs no date in it: "1.log" is dated "1", which sorts before
      every day of the years 2000 to 2999, so the sweep deletes it. */
  lemma UndatedLogExpires(limitDate: string)
    requires IsDate(limitDate) && limitDate[0] == '2'
    ensures FileDate("1.log") == Some("1")
    ensures ExpiredByDate("1.log", limitDate)
  {
    assert EndsWith("1.log", ".log");
    assert Stem("1.log") == "1" by {
      assert "1.log"[0..4][0] == '1' && ".log"[0] == '.';
      ReplaceStep("1.log", ".log", "");
      assert "1.log"[1..] == ".log";
      ReplaceWhole(".log", "");
    }
    CompareToAt("1", limitDate, 0);
  }

  /** LogToFile agrees with LogFileManager on ".log" files and never touches archives. */
  lemma LogToFileRetention(name: string, limitDate: string)
    ensures EndsWith(name, ".log") ==> (LogToFileExpired(name, limitDate) <==> ExpiredByDate(name, limitDate))
    ensures EndsWith(name, ".zip") ==> !LogToFileExpired(name, limitDate)
  {
    if EndsWith(name, ".zip") {
      assert name[|name| - 1] == 'p';
    }
  }

  /** XLoggerManager keeps the file dated on the limit, and purges a day's log exactly
      when the day is strictly before the limit. */
  lemma XLoggerBoundary(d: string, limitDate: string)
    requires IsDate(d)
    ensures !XLoggerExpired(LogName(d), d)
    ensures XLoggerExpired(LogName(d), limitDate) <==> CompareTo(d, limitDate) < 0
  {
    StemOfLogName(d);
    CompareToZero(d, d);
  }

  /** XLoggerManager checks no extension: any file whose name starts with a day before
      the limit is deleted, whatever follows the day. */
  lemma XLoggerSweepsAnyFile(d: string, rest: string, limitDate: string)
    requires IsDate(d) && IsDate(limitDate)
    requires CompareTo(d, limitDate) < 0
    ensures XLoggerExpired(d + rest, limitDate)
  {
    DateChars(d);
    NoMatchWhereCharDiffers(d, rest, ".log", 0);
    ReplaceSkipsPrefix(d, rest, ".log", "");
    CompareToZero(d, limitDate);
    CompareToExtend(d, ReplaceAll(rest, ".log", ""), limitDate);
  }
}
