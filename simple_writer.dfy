/** SimpleWriter: a log file opened in append mode, written one line at a time. */
module SimpleWriterModule {
  import opened Wrappers
  import opened FileSystem

  class SimpleWriter {
    var logFileName: Option<string>
    var logFile: Option<Path>
    /** The buffered writer, as the file its stream was opened on; None is null. */
    var stream: Option<Path>
    /** Files passed to the onNewFileCreated hook, in order. */
    ghost var newFilesReported: seq<Path>

    /** The fields agree with each other, and an open writer owns a stream on the disk. */
    ghost predicate Valid(disk: Disk)
      reads this, disk
    {
      disk.Valid() &&
      (stream.Some? ==> logFile == stream && stream.value in disk.handles) &&
      (logFile.Some? <==> logFileName.Some?) &&
      (logFile.Some? ==> logFileName.value == logFile.value.name)
    }

    constructor ()
      ensures logFileName == None && logFile == None && stream == None
      ensures newFilesReported == []
    {
      logFileName, logFile, stream := None, None, None;
      newFilesReported := [];
    }

    /** open(file): creates the parent directory and the file when missing, then opens
        it for appending; on any failure the writer is closed and false returned. */
    method Open(disk: Disk, file: Path) returns (ok: bool)
      requires disk.Valid()
      requires stream.Some? ==> stream.value in disk.handles
      modifies this`logFileName, this`logFile, this`stream, this`newFilesReported, disk`dirs, disk`files, disk`handles
      ensures Valid(disk)
      ensures ok == (file !in disk.locked && (file in old(disk.files) || file.dir !in disk.unwritable))
      ensures ok ==> stream == Some(file) && logFile == Some(file) && logFileName == Some(file.name)
      ensures !ok ==> stream == None && logFile == None && logFileName == None
      ensures disk.dirs == if file !in old(disk.files) && file.dir !in disk.unwritable
                           then old(disk.dirs) + {file.dir} else old(disk.dirs)
      ensures disk.files == if file !in old(disk.files) && file.dir !in disk.unwritable
                            then old(disk.files)[file := []] else old(disk.files)
      ensures disk.handles == if ok then old(disk.handles) + multiset{file}
                              else if old(stream).Some? then old(disk.handles) - multiset{old(stream).value}
                              else old(disk.handles)
      ensures newFilesReported == old(newFilesReported) + if ok && file !in old(disk.files) then [file] else []
    {
      logFileName := Some(file.name);
      logFile := Some(file);
      var isNewFile, createFailed := CreateIfMissing(disk, file);
      if createFailed {
        var _ := Close(disk);
        return false;
      }
      ok := Attach(disk, file);
      if ok && isNewFile {
        OnNewFileCreated(file);
      }
    }

    /** The second step of open, on an existing file: open a stream appending to it;
        when that fails the writer is closed. */
    method Attach(disk: Disk, file: Path) returns (ok: bool)
      requires disk.Valid() && file in disk.files
      requires logFile == Some(file) && logFileName == Some(file.name)
      requires stream.Some? ==> stream.value in disk.handles
      modifies this`logFileName, this`logFile, this`stream, disk`handles, disk`files
      ensures Valid(disk) && disk.files == old(disk.files)
      ensures ok == (file !in disk.locked)
      ensures ok ==> stream == Some(file) && logFile == Some(file) && logFileName == Some(file.name)
      ensures !ok ==> stream == None && logFile == None && logFileName == None
      ensures disk.handles == if ok then old(disk.handles) + multiset{file}
                              else if old(stream).Some? then old(disk.handles) - multiset{old(stream).value}
                              else old(disk.handles)
    {
      ok := disk.OpenOutput(file, true);
      if !ok {
        var _ := Close(disk);
        return;
      }
      stream := Some(file);
    }

    /** The first step of open: when the file is missing, its parent directory is
        made if absent and the file created; reports whether it was created and
        whether creating it failed. */
    static method CreateIfMissing(disk: Disk, file: Path) returns (isNewFile: bool, failed: bool)
      requires disk.Valid()
      modifies disk`dirs, disk`files
      ensures disk.Valid()
      ensures isNewFile == (file !in old(disk.files) && file.dir !in disk.unwritable)
      ensures failed == (file !in old(disk.files) && file.dir in disk.unwritable)
      ensures disk.dirs == if isNewFile then old(disk.dirs) + {file.dir} else old(disk.dirs)
      ensures disk.files == if isNewFile then old(disk.files)[file := []] else old(disk.files)
    {
      isNewFile, failed := false, false;
      if !disk.Exists(file) {
        if file.dir !in disk.dirs {
          disk.Mkdirs(file.dir);
        }
        var created := disk.CreateNewFile(file);
        if created == CreateFailed {
          return false, true;
        }
        isNewFile := true;
      }
    }

    /** The hook a subclass may override; this one does nothing but is recorded. */
    method OnNewFileCreated(file: Path)
      modifies this`newFilesReported
      ensures newFilesReported == old(newFilesReported) + [file]
    {
      newFilesReported := newFilesReported + [file];
    }

    /** isOpened(): a stream is held and its file still exists, so a file deleted
        behind the writer's back makes it false. */
    predicate IsOpened(disk: Disk)
      reads this, disk
    {
      stream.Some? && logFile.Some? && disk.Exists(logFile.value)
    }

    /** getOpenedFile() */
    function GetOpenedFile(): Option<Path>
      reads this
    {
      logFile
    }

    /** getOpenedFileName(): the name of the opened file, present exactly when it is. */
    function GetOpenedFileName(disk: Disk): (r: Option<string>)
      reads this, disk
      requires Valid(disk)
      ensures r.Some? <==> GetOpenedFile().Some?
      ensures r.Some? ==> r.value == GetOpenedFile().value.name
    {
      logFileName
    }

    /** appendLog(log): the text and a line separator, flushed; every failure, a
        missing stream included, is swallowed. */
    method AppendLog(disk: Disk, log: string)
      requires Valid(disk)
      modifies disk`files
      ensures Valid(disk)
      ensures disk.files == if stream.Some? && stream.value in old(disk.files)
                            then old(disk.files)[stream.value := old(disk.files)[stream.value] + (log + "\n")]
                            else old(disk.files)
    {
      if stream.Some? {
        disk.WriteOutput(stream.value, log + "\n");
      }
    }

    /** close(): releases the stream if there is one, forgets the file, answers true. */
    method Close(disk: Disk) returns (r: bool)
      requires stream.Some? ==> stream.value in disk.handles
      modifies this`stream, this`logFile, this`logFileName, disk`handles
      ensures r
      ensures stream == None && logFile == None && logFileName == None
      ensures disk.handles == if old(stream).Some? then old(disk.handles) - multiset{old(stream).value}
                              else old(disk.handles)
    {
      if stream.Some? {
        disk.CloseOutput(stream.value);
      }
      stream := None;
      logFileName := None;
      logFile := None;
      return true;
    }
  }
}
