/** The part of java.io.File and its streams that the log library relies on: one
    disk holding directories, files with their contents, and the output streams
    currently open on files. Permission failures are fixed sets given when the disk
    is built; every operation that the library guards with a try/catch reports the
    failure instead of throwing. */
module FileSystem {
  import opened Wrappers

  /** A file named `name` inside directory `dir` (java.io.File(dir, name)). */
  datatype Path = Path(dir: string, name: string)

  /** File.createNewFile: true, false, or an IOException. */
  datatype CreateOutcome = Created | AlreadyExists | CreateFailed

  class Disk {
    var dirs: set<string>
    var files: map<Path, seq<char>>
    /** One element per output stream that has been opened and not closed. */
    var handles: multiset<Path>
    /** Files that were removed while an output stream on them was still open. */
    ghost var deletedWhileOpen: set<Path>
    /** Directories in which nothing can be created or removed, and which mkdirs
        cannot create. */
    const unwritable: set<string>
    /** Files that cannot be opened for writing and cannot be deleted. */
    const locked: set<Path>

    /** Every file lives in an existing directory. */
    ghost predicate Valid()
      reads this
    {
      forall p :: p in files ==> p.dir in dirs
    }

    constructor (dirs0: set<string>, files0: map<Path, seq<char>>, unwritable0: set<string>, locked0: set<Path>)
      requires forall p :: p in files0 ==> p.dir in dirs0
      ensures Valid()
      ensures dirs == dirs0 && files == files0 && handles == multiset{} && deletedWhileOpen == {}
      ensures unwritable == unwritable0 && locked == locked0
    {
      dirs, files, handles, deletedWhileOpen := dirs0, files0, multiset{}, {};
      unwritable, locked := unwritable0, locked0;
    }

    /** File.exists() / File.isFile() for a file path. */
    predicate Exists(p: Path)
      reads this
    {
      p in files
    }

    /** File.length(): 0 for a file that does not exist. */
    function Length(p: Path): nat
      reads this
    {
      if p in files then |files[p]| else 0
    }

    /** A file can be created at `p` when its directory exists and accepts new entries. */
    predicate CanCreate(p: Path)
      reads this
    {
      p.dir in dirs && p.dir !in unwritable
    }

    /** File.mkdirs(): the directory exists afterwards unless it cannot be created. */
    method Mkdirs(d: string)
      requires Valid()
      modifies this`dirs
      ensures Valid()
      ensures dirs == if d in unwritable then old(dirs) else old(dirs) + {d}
    {
      if d !in unwritable {
        dirs := dirs + {d};
      }
    }

    /** File.createNewFile(): an empty file when none existed and the directory accepts it. */
    method CreateNewFile(p: Path) returns (r: CreateOutcome)
      requires Valid()
      modifies this`files
      ensures Valid()
      ensures r == (if p in old(files) then AlreadyExists else if CanCreate(p) then Created else CreateFailed)
      ensures files == if r == Created then old(files)[p := []] else old(files)
    {
      if p in files {
        r := AlreadyExists;
      } else if CanCreate(p) {
        files := files[p := []];
        r := Created;
      } else {
        r := CreateFailed;
      }
    }

    /** new FileWriter(p, append) / new FileOutputStream(p, append): creates a missing
        file, truncates an existing one unless appending, and opens a stream on it. */
    method OpenOutput(p: Path, append: bool) returns (ok: bool)
      requires Valid()
      modifies this`files, this`handles
      ensures Valid()
      ensures ok == (p !in locked && (p in old(files) || CanCreate(p)))
      ensures files == if !ok then old(files)
                       else if append && p in old(files) then old(files)
                       else old(files)[p := []]
      ensures handles == if ok then old(handles) + multiset{p} else old(handles)
    {
      ok := p !in locked && (p in files || CanCreate(p));
      if ok {
        if !(append && p in files) {
          files := files[p := []];
        }
        handles := handles + multiset{p};
      }
    }

    /** Closing one output stream on `p`. */
    method CloseOutput(p: Path)
      requires p in handles
      modifies this`handles
      ensures handles == old(handles) - multiset{p}
      ensures |handles| + 1 == |old(handles)|
    {
      handles := handles - multiset{p};
    }

    /** Writing through an open stream: the text lands at the end of the file; after
        the file was deleted the bytes go nowhere anyone can read them. */
    method WriteOutput(p: Path, text: seq<char>)
      requires Valid()
      requires p in handles
      modifies this`files
      ensures Valid()
      ensures files == if p in old(files) then old(files)[p := old(files)[p] + text] else old(files)
    {
      if p in files {
        files := files[p := files[p] + text];
      }
    }

    /** File.delete(): true exactly when the file existed and could be removed. */
    method Delete(p: Path) returns (ok: bool)
      requires Valid()
      modifies this`files, this`deletedWhileOpen
      ensures Valid()
      ensures ok == (p in old(files) && p !in locked && p.dir !in unwritable)
      ensures files == if ok then old(files) - {p} else old(files)
      ensures deletedWhileOpen == if ok && p in handles then old(deletedWhileOpen) + {p} else old(deletedWhileOpen)
    {
      ok := p in files && p !in locked && p.dir !in unwritable;
      if ok {
        files := files - {p};
        if p in handles {
          deletedWhileOpen := deletedWhileOpen + {p};
        }
      }
    }

    /** File.listFiles() on a directory: null when the directory does not exist, else
        the names of its files, each once, in an order the platform chooses. */
    method ListFiles(d: string) returns (r: Option<seq<string>>)
      requires Valid()
      ensures r.None? <==> d !in dirs
      ensures r.Some? ==> forall n :: n in r.value <==> Path(d, n) in files
      ensures r.Some? ==> forall i, j :: 0 <= i < j < |r.value| ==> r.value[i] != r.value[j]
    {
      if d !in dirs {
        return None;
      }
      var left := set p | p in files.Keys && p.dir == d;
      var names := [];
      while left != {}
        invariant forall p :: p in left ==> p in files && p.dir == d
        invariant forall n :: n in names <==> Path(d, n) in files && Path(d, n) !in left
        invariant forall i, j :: 0 <= i < j < |names| ==> names[i] != names[j]
        decreases |left|
      {
        var p :| p in left;
        names := names + [p.name];
        left := left - {p};
      }
      r := Some(names);
    }
  }
}
