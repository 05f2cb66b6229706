/** The steps the three log managers share on their log directory: opening the day's
    log with a fresh SimpleWriter, sweeping out files by date, and the size sweep
    that closes the writer before deleting the file it writes and reopens it after.
    Each manager writes through one SimpleWriter, and it is the only stream open on
    the disk. */
module LogDirectory {
  import opened Wrappers
  import opened JavaString
  import opened FileSystem
  import opened SimpleWriterModule
  import opened LogNames
  import opened Eviction

  /** The wall clock when a manager looks at it: the day and the time stamp it
      formats, and the day a number of days earlier (getDateDaysAgo), all formatted. */
  datatype Clock = Clock(today: string, timeStamp: string, daysAgo: int -> string)

  /** The streams the writer holds on the disk: one on its file, or none. */
  ghost function StreamSet(w: SimpleWriter): multiset<Path>
    reads w
  {
    if w.stream.Some? then multiset{w.stream.value} else multiset{}
  }

  /** The writer is consistent, holds the only open streams, and writes `today`. */
  ghost predicate Owns(disk: Disk, w: SimpleWriter, today: Path)
    reads disk, w
  {
    w.Valid(disk) && disk.handles == StreamSet(w) && (w.stream.Some? ==> w.stream.value == today)
  }

  /** Whether a new stream on `p` opens: it is not locked, and it exists or can be made. */
  predicate Openable(disk: Disk, files: map<Path, seq<char>>, p: Path)
  {
    p !in disk.locked && (p in files || p.dir !in disk.unwritable)
  }

  /** What opening `p` leaves on the disk: a missing file is created empty when its
      directory accepts it. */
  function Touched(disk: Disk, files: map<Path, seq<char>>, p: Path): (r: map<Path, seq<char>>)
    ensures p.dir !in disk.unwritable ==> p in r && (p in files ==> r[p] == files[p])
    ensures forall q :: q != p ==> (q in r <==> q in files)
  {
    if p !in files && p.dir !in disk.unwritable then files[p := []] else files
  }

  /** openNewLogForToday's middle: make the directory, then a new SimpleWriter opened
      on the day's log. */
  method OpenToday(disk: Disk, dir: string, today: string) returns (w: SimpleWriter)
    requires disk.Valid()
    modifies disk`dirs, disk`files, disk`handles
    ensures fresh(w) && w.Valid(disk)
    ensures disk.dirs == if dir in disk.unwritable then old(disk.dirs) else old(disk.dirs) + {dir}
    ensures disk.files == Touched(disk, old(disk.files), Path(dir, LogName(today)))
    ensures w.stream == if Openable(disk, old(disk.files), Path(dir, LogName(today))) then Some(Path(dir, LogName(today))) else None
    ensures disk.handles == old(disk.handles) + StreamSet(w)
    ensures w.newFilesReported == if w.stream.Some? && Path(dir, LogName(today)) !in old(disk.files) then [Path(dir, LogName(today))] else []
  {
    disk.Mkdirs(dir);
    var logFile := Path(dir, LogName(today));
    w := new SimpleWriter();
    var _ := w.Open(disk, logFile);
  }

  /** openNewLogForToday on a new day, once the old writer is closed: a new writer on
      the day's log, then the date sweep `expired` describes. */
  method OpenDay(disk: Disk, dir: string, today: string, expired: string -> bool) returns (w: SimpleWriter)
    requires disk.Valid() && disk.handles == multiset{}
    modifies disk`dirs, disk`files, disk`handles, disk`deletedWhileOpen
    ensures fresh(w) && disk.Valid() && Owns(disk, w, Path(dir, LogName(today)))
    ensures disk.dirs == if dir in disk.unwritable then old(disk.dirs) else old(disk.dirs) + {dir}
    ensures disk.files == NewDay(disk, old(disk.files), dir, today, expired)
    ensures w.stream == if Openable(disk, old(disk.files), Path(dir, LogName(today))) then Some(Path(dir, LogName(today))) else None
  {
    w := OpenToday(disk, dir, today);
    SweepByDate(disk, dir, expired);
  }

  /** The files a date sweep deletes: those of `dir` it judges expired and that can be
      deleted. */
  predicate Purged(disk: Disk, dir: string, expired: string -> bool, p: Path)
  {
    p.dir == dir && expired(p.name) && p !in disk.locked && dir !in disk.unwritable
  }

  ghost function Swept(disk: Disk, files: map<Path, seq<char>>, dir: string, expired: string -> bool): map<Path, seq<char>>
  {
    map p | p in files && !Purged(disk, dir, expired, p) :: files[p]
  }

  /** cleanupOldLogsByDate / cleanupOldLogs: list the directory and delete every file
      whose name the sweep judges expired; a failed delete is ignored. */
  method SweepByDate(disk: Disk, dir: string, expired: string -> bool)
    requires disk.Valid()
    modifies disk`files, disk`deletedWhileOpen
    ensures disk.Valid()
    ensures disk.files == Swept(disk, old(disk.files), dir, expired)
    ensures disk.deletedWhileOpen ==
      old(disk.deletedWhileOpen) + set p | p in old(disk.files) && p in disk.handles && Purged(disk, dir, expired, p)
  {
    ghost var files0, lost0 := disk.files, disk.deletedWhileOpen;
    var listing := disk.ListFiles(dir);
    var names := if listing.Some? then listing.value else [];
    SweptFrom(disk, files0, dir, expired, names, lost0);
    for i := 0 to |names|
      invariant disk.Valid()
      invariant disk.files == SweptUpTo(disk, files0, dir, expired, names[..i])
      invariant disk.deletedWhileOpen == LostUpTo(disk, files0, dir, expired, names[..i], lost0)
    {
      SweptStep(disk, files0, dir, expired, names, i, lost0);
      if expired(names[i]) {
        var _ := disk.Delete(Path(dir, names[i]));
      }
    }
    assert names[..|names|] == names;
  }

  /** The files left once the listed names in `done` were looked at. */
  ghost function SweptUpTo(disk: Disk, files0: map<Path, seq<char>>, dir: string, expired: string -> bool, done: seq<string>): map<Path, seq<char>>
  {
    map p | p in files0 && !(Purged(disk, dir, expired, p) && p.name in done) :: files0[p]
  }

  /** The open files deleted once the listed names in `done` were looked at. */
  ghost function LostUpTo(disk: Disk, files0: map<Path, seq<char>>, dir: string, expired: string -> bool, done: seq<string>,
                          lost0: set<Path>): set<Path>
    reads disk
  {
    lost0 + set p | p in files0 && p in disk.handles && Purged(disk, dir, expired, p) && p.name in done
  }

  /** Nothing looked at yet, and the listing holds exactly the directory's files. */
  lemma SweptFrom(disk: Disk, files0: map<Path, seq<char>>, dir: string, expired: string -> bool, names: seq<string>, lost0: set<Path>)
    requires (dir in disk.dirs ==> forall n :: n in names <==> Path(dir, n) in files0)
    requires dir !in disk.dirs ==> names == [] && forall p :: p in files0 ==> p.dir != dir
    ensures SweptUpTo(disk, files0, dir, expired, names[..0]) == files0
    ensures LostUpTo(disk, files0, dir, expired, names[..0], lost0) == lost0
    ensures SweptUpTo(disk, files0, dir, expired, names) == Swept(disk, files0, dir, expired)
    ensures LostUpTo(disk, files0, dir, expired, names, lost0) ==
      lost0 + set p | p in files0 && p in disk.handles && Purged(disk, dir, expired, p)
  {
    assert names[..0] == [];
    assert SweptUpTo(disk, files0, dir, expired, []) == files0;
  }

  /** Looking at the next listed name deletes its file exactly when the sweep purges it. */
  lemma SweptStep(disk: Disk, files0: map<Path, seq<char>>, dir: string, expired: string -> bool, names: seq<string>, i: nat,
                  lost0: set<Path>)
    requires i < |names| && forall a, b :: 0 <= a < b < |names| ==> names[a] != names[b]
    requires forall n :: n in names ==> Path(dir, n) in files0
    ensures var p, before := Path(dir, names[i]), SweptUpTo(disk, files0, dir, expired, names[..i]);
      && p in before
      && SweptUpTo(disk, files0, dir, expired, names[..i + 1]) ==
         (if Purged(disk, dir, expired, p) then before - {p} else before)
      && LostUpTo(disk, files0, dir, expired, names[..i + 1], lost0) ==
         (if Purged(disk, dir, expired, p) && p in disk.handles
          then LostUpTo(disk, files0, dir, expired, names[..i], lost0) + {p}
          else LostUpTo(disk, files0, dir, expired, names[..i], lost0))
  {
    assert names[..i + 1] == names[..i] + [names[i]];
    assert names[i] !in names[..i] by {
      assert forall k :: 0 <= k < i ==> names[k] != names[i];
    }
  }

  /** The files of the size sweep, in the order it looks at them, with their lengths
      and whether delete() succeeds on each. */
  function Candidates(disk: Disk, files: map<Path, seq<char>>, dir: string, order: seq<string>): (cs: seq<Candidate>)
    requires forall n :: n in order ==> Path(dir, n) in files
    ensures |cs| == |order|
    ensures forall i :: 0 <= i < |order| ==> cs[i].name == order[i] && cs[i].size == |files[Path(dir, order[i])]|
    ensures forall i :: 0 <= i < |order| ==> cs[i].deletable == (Path(dir, order[i]) !in disk.locked && dir !in disk.unwritable)
  {
    seq(|order|, i requires 0 <= i < |order| =>
      Candidate(order[i], |files[Path(dir, order[i])]|, Path(dir, order[i]) !in disk.locked && dir !in disk.unwritable))
  }

  /** The sum of the lengths of the named files. */
  function TotalLength(files: map<Path, seq<char>>, dir: string, names: seq<string>): nat
    requires forall n :: n in names ==> Path(dir, n) in files
  {
    if names == [] then 0 else TotalLength(files, dir, names[..|names| - 1]) + |files[Path(dir, names[|names| - 1])]|
  }

  /** The first loop of cleanupOldLogsBySize: the total length of the listed files. */
  method SumLengths(disk: Disk, dir: string, names: seq<string>) returns (total: nat)
    requires forall n :: n in names ==> Path(dir, n) in disk.files
    ensures total == TotalLength(disk.files, dir, names)
  {
    total := 0;
    for i := 0 to |names|
      invariant total == TotalLength(disk.files, dir, names[..i])
    {
      assert names[..i + 1][..i] == names[..i];
      total := total + disk.Length(Path(dir, names[i]));
    }
    assert names[..|names|] == names;
  }

  /** The lengths add up the same in any order. */
  lemma {:induction false} TotalLengthPermutation(files: map<Path, seq<char>>, dir: string, a: seq<string>, b: seq<string>)
    requires forall n :: n in a ==> Path(dir, n) in files
    requires multiset(a) == multiset(b)
    ensures forall n :: n in b ==> Path(dir, n) in files
    ensures TotalLength(files, dir, a) == TotalLength(files, dir, b)
    decreases |a|
  {
    SameMembers(a, b);
    if a != [] {
      var k := MatchLast(a, b);
      TotalLengthPermutation(files, dir, a[..|a| - 1], b[..k] + b[k + 1..]);
      TotalLengthRemove(files, dir, b, k);
    }
  }

  lemma SameMembers(a: seq<string>, b: seq<string>)
    requires multiset(a) == multiset(b)
    ensures forall n :: n in b ==> n in a
  {
    forall n | n in b ensures n in a {
      assert n in multiset(b);
    }
  }

  /** The last name of `a` sits somewhere in its permutation `b`; what is left of
      both is again a permutation. */
  lemma MatchLast(a: seq<string>, b: seq<string>) returns (k: nat)
    requires a != [] && multiset(a) == multiset(b)
    ensures k < |b| && b[k] == a[|a| - 1]
    ensures multiset(a[..|a| - 1]) == multiset(b[..k] + b[k + 1..])
    ensures forall n :: n in a[..|a| - 1] ==> n in a
  {
    var a', x := a[..|a| - 1], a[|a| - 1];
    assert a == a' + [x];
    assert x in multiset(b);
    k :| 0 <= k < |b| && b[k] == x;
    var b' := b[..k] + b[k + 1..];
    RemoveAt(b, k);
    assert multiset(a') + multiset{x} == multiset(b') + multiset{x};
    assert multiset(a') == multiset(a') + multiset{x} - multiset{x};
    assert multiset(b') == multiset(b') + multiset{x} - multiset{x};
  }

  /** Removing the element at `k` removes one copy of it and nothing else. */
  lemma RemoveAt(s: seq<string>, k: nat)
    requires k < |s|
    ensures multiset(s) == multiset(s[..k] + s[k + 1..]) + multiset{s[k]}
  {
    assert s == s[..k] + [s[k]] + s[k + 1..];
  }

  /** Taking one name out of the list takes its length out of the total. */
  lemma {:induction false} TotalLengthRemove(files: map<Path, seq<char>>, dir: string, b: seq<string>, k: nat)
    requires k < |b| && forall n :: n in b ==> Path(dir, n) in files
    ensures forall n :: n in b[..k] + b[k + 1..] ==> Path(dir, n) in files
    ensures TotalLength(files, dir, b) == TotalLength(files, dir, b[..k] + b[k + 1..]) + |files[Path(dir, b[k])]|
    decreases |b|
  {
    if k == |b| - 1 {
      assert b[..k] + b[k + 1..] == b[..|b| - 1];
    } else {
      var c := b[..|b| - 1];
      assert c[k] == b[k];
      TotalLengthRemove(files, dir, c, k);
      var r := b[..k] + b[k + 1..];
      assert r[..|r| - 1] == c[..k] + c[k + 1..];
      assert r[|r| - 1] == b[|b| - 1];
    }
  }

  /** File.listFiles(filter): the listed names the filter accepts, in listing order. */
  function Matching(names: seq<string>, keep: string -> bool): (r: seq<string>)
    ensures forall n :: n in r <==> n in names && keep(n)
    ensures Distinct(names) ==> Distinct(r)
  {
    if names == [] then []
    else
      assert Distinct(names) ==> names[0] !in names[1..];
      (if keep(names[0]) then [names[0]] else []) + Matching(names[1..], keep)
  }

  /** The names of the deleted candidates. */
  function DeletedNames(deleted: seq<Candidate>): set<string>
  {
    set c | c in deleted :: c.name
  }

  /** The files left once the deleted candidates are gone. */
  function Without(files: map<Path, seq<char>>, dir: string, deleted: seq<Candidate>): map<Path, seq<char>>
  {
    map p | p in files && !(p.dir == dir && p.name in DeletedNames(deleted)) :: files[p]
  }

  /** The disk after the size sweep deleted `deleted`: the day's log comes back empty
      when the sweep reached it and could delete it. */
  function AfterEviction(disk: Disk, files: map<Path, seq<char>>, dir: string, deleted: seq<Candidate>,
                         reopened: bool, today: Path): map<Path, seq<char>>
  {
    if reopened && today !in disk.locked && dir !in disk.unwritable
    then Without(files, dir, deleted)[today := []]
    else Without(files, dir, deleted)
  }

  /** Nothing deleted leaves the files as they were. */
  lemma WithoutNothing(files: map<Path, seq<char>>, dir: string)
    ensures Without(files, dir, []) == files
  {
    assert DeletedNames([]) == {};
  }

  /** cleanupOldLogsBySize, for a positive limit: list the files the filter `keep`
      accepts, add up their lengths, and when that exceeds the limit sort them by
      `o` and evict in that order until the total fits. The files visited are sorted
      by `o` and are exactly the accepted ones; the sweep is the one Evict describes
      over them. A limit of zero or less leaves everything as it was. */
  method SweepBySize(disk: Disk, dir: string, w: SimpleWriter, currentLogDate: string, maxSize: int,
                     keep: string -> bool, o: Order)
    returns (ghost order: seq<string>, ghost plan: Plan)
    requires disk.Valid() && Owns(disk, w, Path(dir, LogName(currentLogDate)))
    modifies disk`dirs, disk`files, disk`handles, disk`deletedWhileOpen
    modifies w`logFileName, w`logFile, w`stream, w`newFilesReported
    ensures disk.Valid() && Owns(disk, w, Path(dir, LogName(currentLogDate)))
    ensures disk.dirs == old(disk.dirs) && disk.deletedWhileOpen == old(disk.deletedWhileOpen)
    ensures forall n :: n in order <==> Path(dir, n) in old(disk.files) && keep(n)
    ensures Distinct(order) && SortedBy(o, order)
    ensures plan.visited <= |order|
    ensures plan == if maxSize <= 0 then Plan([], 0, 0)
                    else Evict(Candidates(disk, old(disk.files), dir, order), TotalLength(old(disk.files), dir, order), maxSize)
    ensures disk.files == AfterEviction(disk, old(disk.files), dir, plan.deleted,
                                        LogName(currentLogDate) in order[..plan.visited], Path(dir, LogName(currentLogDate)))
    ensures LogName(currentLogDate) in order[..plan.visited] ==>
      w.stream == if Path(dir, LogName(currentLogDate)) in disk.locked then None else Some(Path(dir, LogName(currentLogDate)))
    ensures LogName(currentLogDate) !in order[..plan.visited] ==> w.stream == old(w.stream) && w.logFile == old(w.logFile)
  {
    WithoutNothing(disk.files, dir);
    var listing := disk.ListFiles(dir);
    var names := if listing.Some? then Matching(listing.value, keep) else [];
    order := Sort(o, names);
    SortSpec(o, names);
    SortDistinct(o, names);
    plan := Plan([], 0, 0);
    if maxSize > 0 && names != [] {
      plan := EvictIfOver(disk, dir, w, currentLogDate, maxSize, names, o);
    }
  }

  /** The rest of cleanupOldLogsBySize once the files are listed: add up their
      lengths and, when the total exceeds the limit, sort them and evict. */
  method EvictIfOver(disk: Disk, dir: string, w: SimpleWriter, currentLogDate: string, maxSize: int,
                     names: seq<string>, o: Order)
    returns (ghost plan: Plan)
    requires Owns(disk, w, Path(dir, LogName(currentLogDate)))
    requires Distinct(names) && forall n :: n in names ==> Path(dir, n) in disk.files
    requires multiset(Sort(o, names)) == multiset(names) && Distinct(Sort(o, names))
    modifies disk`dirs, disk`files, disk`handles, disk`deletedWhileOpen
    modifies w`logFileName, w`logFile, w`stream, w`newFilesReported
    ensures Owns(disk, w, Path(dir, LogName(currentLogDate)))
    ensures disk.dirs == old(disk.dirs) && disk.deletedWhileOpen == old(disk.deletedWhileOpen)
    ensures forall n :: n in Sort(o, names) ==> Path(dir, n) in old(disk.files)
    ensures plan.visited <= |Sort(o, names)|
    ensures plan == Evict(Candidates(disk, old(disk.files), dir, Sort(o, names)),
                          TotalLength(old(disk.files), dir, Sort(o, names)), maxSize)
    ensures disk.files == AfterEviction(disk, old(disk.files), dir, plan.deleted,
                                        LogName(currentLogDate) in Sort(o, names)[..plan.visited], Path(dir, LogName(currentLogDate)))
    ensures LogName(currentLogDate) in Sort(o, names)[..plan.visited] ==>
      w.stream == if Path(dir, LogName(currentLogDate)) in disk.locked then None else Some(Path(dir, LogName(currentLogDate)))
    ensures LogName(currentLogDate) !in Sort(o, names)[..plan.visited] ==> w.stream == old(w.stream) && w.logFile == old(w.logFile)
  {
    ghost var order := Sort(o, names);
    WithoutNothing(disk.files, dir);
    TotalLengthPermutation(disk.files, dir, names, order);
    var total := SumLengths(disk, dir, names);
    if total > maxSize {
      var sorted := Sort(o, names);
      plan := EvictFiles(disk, dir, w, currentLogDate, sorted, total, maxSize);
    } else {
      plan := Evict(Candidates(disk, disk.files, dir, order), total, maxSize);
      assert plan == Plan([], total, 0);
      assert order[..0] == [];
    }
  }

  /** One turn of the size sweep's loop on a listed file: when it is the day's log the
      writer is closed first and reopened after (recreating the file if it was
      deleted); the file is deleted if it can be. */
  method EvictOne(disk: Disk, dir: string, w: SimpleWriter, currentLogDate: string, name: string) returns (ok: bool)
    requires disk.Valid() && Owns(disk, w, Path(dir, LogName(currentLogDate)))
    requires Path(dir, name) in disk.files
    modifies disk`dirs, disk`files, disk`handles, disk`deletedWhileOpen
    modifies w`logFileName, w`logFile, w`stream, w`newFilesReported
    ensures disk.Valid() && Owns(disk, w, Path(dir, LogName(currentLogDate)))
    ensures ok == (Path(dir, name) !in disk.locked && dir !in disk.unwritable)
    ensures disk.dirs == old(disk.dirs) && disk.deletedWhileOpen == old(disk.deletedWhileOpen)
    ensures disk.files == if !ok then old(disk.files)
                          else if name == LogName(currentLogDate) then old(disk.files)[Path(dir, name) := []]
                          else old(disk.files) - {Path(dir, name)}
    ensures name == LogName(currentLogDate) ==>
      w.stream == if Path(dir, name) in disk.locked then None else Some(Path(dir, name))
    ensures name != LogName(currentLogDate) ==> w.stream == old(w.stream) && w.logFile == old(w.logFile)
  {
    var p := Path(dir, name);
    var isCurrent := name == LogName(currentLogDate);
    if isCurrent {
      var _ := w.Close(disk);
    }
    ok := disk.Delete(p);
    if isCurrent {
      var _ := w.Open(disk, p);
    }
  }

  /** The loop of cleanupOldLogsBySize over the files in `order`, from `total`: stop
      once the total fits; else evict the next file, subtracting its length when it
      was deleted. The sweep is the one Evict describes, the day's log is never
      deleted while the writer has it open, and the writer ends on the day's log
      again once the sweep passed it. */
  method EvictFiles(disk: Disk, dir: string, w: SimpleWriter, currentLogDate: string, order: seq<string>, total: int, maxSize: int)
    returns (ghost plan: Plan)
    requires disk.Valid() && Owns(disk, w, Path(dir, LogName(currentLogDate)))
    requires forall n :: n in order ==> Path(dir, n) in disk.files
    requires forall i, j :: 0 <= i < j < |order| ==> order[i] != order[j]
    modifies disk`dirs, disk`files, disk`handles, disk`deletedWhileOpen
    modifies w`logFileName, w`logFile, w`stream, w`newFilesReported
    ensures plan == Evict(Candidates(disk, old(disk.files), dir, order), total, maxSize) && plan.visited <= |order|
    ensures disk.Valid() && Owns(disk, w, Path(dir, LogName(currentLogDate)))
    ensures disk.dirs == old(disk.dirs) && disk.deletedWhileOpen == old(disk.deletedWhileOpen)
    ensures disk.files == AfterEviction(disk, old(disk.files), dir, plan.deleted,
                                        LogName(currentLogDate) in order[..plan.visited], Path(dir, LogName(currentLogDate)))
    ensures LogName(currentLogDate) in order[..plan.visited] ==>
      w.stream == if Path(dir, LogName(currentLogDate)) in disk.locked then None else Some(Path(dir, LogName(currentLogDate)))
    ensures LogName(currentLogDate) !in order[..plan.visited] ==> w.stream == old(w.stream) && w.logFile == old(w.logFile)
  {
    ghost var files0 := disk.files;
    ghost var cs := Candidates(disk, files0, dir, order);
    EvictStart(disk, w, files0, dir, order, cs, currentLogDate, total, maxSize);
    var i, left := EvictLoop(disk, dir, w, currentLogDate, order, total, maxSize, files0, cs, w.stream, w.logFile);
    plan := Evict(cs, total, maxSize);
    EvictDone(cs, total, maxSize, i, left);
  }

  /** The loop itself: turns until the files run out or the total fits. */
  method EvictLoop(disk: Disk, dir: string, w: SimpleWriter, currentLogDate: string, order: seq<string>, total: int, maxSize: int,
                   ghost files0: map<Path, seq<char>>, ghost cs: seq<Candidate>,
                   ghost stream0: Option<Path>, ghost logFile0: Option<Path>) returns (i: nat, left: int)
    requires Owns(disk, w, Path(dir, LogName(currentLogDate)))
    requires forall n :: n in order ==> Path(dir, n) in files0
    requires forall a, b :: 0 <= a < b < |order| ==> order[a] != order[b]
    requires cs == Candidates(disk, files0, dir, order)
    requires Evicting(disk, w, files0, dir, order, cs, currentLogDate, total, maxSize, 0, total, stream0, logFile0)
    modifies disk`dirs, disk`files, disk`handles, disk`deletedWhileOpen
    modifies w`logFileName, w`logFile, w`stream, w`newFilesReported
    ensures Owns(disk, w, Path(dir, LogName(currentLogDate)))
    ensures disk.dirs == old(disk.dirs) && disk.deletedWhileOpen == old(disk.deletedWhileOpen)
    ensures i <= |order| && (i == |order| || left <= maxSize)
    ensures Evicting(disk, w, files0, dir, order, cs, currentLogDate, total, maxSize, i, left, stream0, logFile0)
  {
    left := total;
    i := 0;
    while i < |order| && left > maxSize
      invariant i <= |order|
      invariant Owns(disk, w, Path(dir, LogName(currentLogDate)))
      invariant disk.dirs == old(disk.dirs) && disk.deletedWhileOpen == old(disk.deletedWhileOpen)
      invariant Evicting(disk, w, files0, dir, order, cs, currentLogDate, total, maxSize, i, left, stream0, logFile0)
    {
      left := EvictTurn(disk, w, files0, dir, order, cs, currentLogDate, total, maxSize, i, left, stream0, logFile0);
      i := i + 1;
    }
  }

  /** Before the first turn the account is the whole plan, and nothing was deleted. */
  lemma EvictStart(disk: Disk, w: SimpleWriter, files0: map<Path, seq<char>>, dir: string, order: seq<string>,
                   cs: seq<Candidate>, currentLogDate: string, total: int, maxSize: int)
    requires files0 == disk.files && |cs| == |order|
    ensures Evicting(disk, w, files0, dir, order, cs, currentLogDate, total, maxSize, 0, total, w.stream, w.logFile)
  {
    assert cs[..0] == [] && cs[0..] == cs && order[..0] == [];
    WithoutNothing(files0, dir);
  }

  /** Once the loop stops, the account holds the whole plan. */
  lemma EvictDone(cs: seq<Candidate>, total: int, maxSize: int, i: nat, left: int)
    requires i <= |cs| && (i == |cs| || left <= maxSize)
    requires Evict(cs, total, maxSize) == Joined(Deletable(cs[..i]), i, Evict(cs[i..], left, maxSize))
    ensures Evict(cs, total, maxSize) == Plan(Deletable(cs[..i]), left, i)
  {
    assert Evict(cs[i..], left, maxSize) == Plan([], left, 0);
    assert Deletable(cs[..i]) + [] == Deletable(cs[..i]);
  }

  /** The loop's account after `i` turns: the plan splits into what the turns did
      and what the rest of the files will see, the disk lost what was deleted, and
      the writer is back on the day's log once the day's log was passed. */
  ghost predicate Evicting(disk: Disk, w: SimpleWriter, files0: map<Path, seq<char>>, dir: string, order: seq<string>,
                        cs: seq<Candidate>, currentLogDate: string, total: int, maxSize: int, i: nat, left: int,
                        stream0: Option<Path>, logFile0: Option<Path>)
    reads disk, w
  {
    var today := Path(dir, LogName(currentLogDate));
    && i <= |order| == |cs|
    && Evict(cs, total, maxSize) == Joined(Deletable(cs[..i]), i, Evict(cs[i..], left, maxSize))
    && disk.files == AfterEviction(disk, files0, dir, Deletable(cs[..i]), LogName(currentLogDate) in order[..i], today)
    && (LogName(currentLogDate) in order[..i] ==> w.stream == if today in disk.locked then None else Some(today))
    && (LogName(currentLogDate) !in order[..i] ==> w.stream == stream0 && w.logFile == logFile0)
  }

  /** One turn of the loop: the next file is evicted and the account moves on. */
  method EvictTurn(disk: Disk, w: SimpleWriter, ghost files0: map<Path, seq<char>>, dir: string, order: seq<string>,
                   ghost cs: seq<Candidate>, currentLogDate: string, total: int, maxSize: int, i: nat, left: int,
                   ghost stream0: Option<Path>, ghost logFile0: Option<Path>) returns (next: int)
    requires i < |order| && left > maxSize
    requires forall n :: n in order ==> Path(dir, n) in files0
    requires forall a, b :: 0 <= a < b < |order| ==> order[a] != order[b]
    requires cs == Candidates(disk, files0, dir, order)
    requires disk.Valid() && Owns(disk, w, Path(dir, LogName(currentLogDate)))
    requires Evicting(disk, w, files0, dir, order, cs, currentLogDate, total, maxSize, i, left, stream0, logFile0)
    modifies disk`dirs, disk`files, disk`handles, disk`deletedWhileOpen
    modifies w`logFileName, w`logFile, w`stream, w`newFilesReported
    ensures disk.Valid() && Owns(disk, w, Path(dir, LogName(currentLogDate)))
    ensures disk.dirs == old(disk.dirs) && disk.deletedWhileOpen == old(disk.deletedWhileOpen)
    ensures Evicting(disk, w, files0, dir, order, cs, currentLogDate, total, maxSize, i + 1, next, stream0, logFile0)
  {
    ghost var today := Path(dir, LogName(currentLogDate));
    ghost var reopened := LogName(currentLogDate) in order[..i + 1];
    EvictNext(disk, files0, dir, order, cs, i, LogName(currentLogDate));
    var size := disk.Length(Path(dir, order[i]));
    assert size == cs[i].size;
    var ok := EvictOne(disk, dir, w, currentLogDate, order[i]);
    assert ok == cs[i].deletable;
    assert disk.files == AfterEviction(disk, files0, dir, Deletable(cs[..i + 1]), reopened, today);
    next := if ok then left - size else left;
    EvictAdvance(cs, total, maxSize, i, left, next);
    assert reopened ==> w.stream == if today in disk.locked then None else Some(today);
    assert !reopened ==> w.stream == stream0 && w.logFile == logFile0;
  }

  ghost function Joined(d: seq<Candidate>, i: nat, p: Plan): Plan
  {
    Plan(d + p.deleted, p.remaining, i + p.visited)
  }

  /** The loop's account of the plan advances by one file per turn. */
  lemma EvictAdvance(cs: seq<Candidate>, total: int, maxSize: int, i: nat, left: int, next: int)
    requires i < |cs| && left > maxSize
    requires Evict(cs, total, maxSize) == Joined(Deletable(cs[..i]), i, Evict(cs[i..], left, maxSize))
    requires next == if cs[i].deletable then left - cs[i].size else left
    ensures Evict(cs, total, maxSize) == Joined(Deletable(cs[..i + 1]), i + 1, Evict(cs[i + 1..], next, maxSize))
  {
    assert cs[i..][0] == cs[i] && cs[i..][1..] == cs[i + 1..];
    DeletableSnoc(cs, i);
  }

  /** What the next turn does to the disk keeps the loop's account of it. */
  lemma EvictNext(disk: Disk, files0: map<Path, seq<char>>, dir: string, order: seq<string>, cs: seq<Candidate>, i: nat, todayName: string)
    requires i < |order|
    requires forall a, b :: 0 <= a < b < |order| ==> order[a] != order[b]
    requires forall n :: n in order ==> Path(dir, n) in files0
    requires cs == Candidates(disk, files0, dir, order)
    ensures todayName in order[..i + 1] <==> todayName in order[..i] || order[i] == todayName
    ensures var before := AfterEviction(disk, files0, dir, Deletable(cs[..i]), todayName in order[..i], Path(dir, todayName));
      var p := Path(dir, order[i]);
      && p in before && before[p] == files0[p]
      && AfterEviction(disk, files0, dir, Deletable(cs[..i + 1]), todayName in order[..i + 1], Path(dir, todayName))
         == if !cs[i].deletable then before
            else if order[i] == todayName then before[p := []]
            else before - {p}
  {
    var p, today := Path(dir, order[i]), Path(dir, todayName);
    var d := Deletable(cs[..i]);
    var w := Without(files0, dir, d);
    var r := todayName in order[..i];
    assert order[..i + 1] == order[..i] + [order[i]];
    assert order[i] !in order[..i];
    assert r ==> p != today;
    assert p in w && w[p] == files0[p] by {
      NotYetDeleted(cs, order, i);
    }
    DeletableSnoc(cs, i);
    if cs[i].deletable {
      WithoutOneMore(files0, dir, d, cs[i]);
      if order[i] == todayName {
        assert w[p := []] == (w - {p})[p := []];
      } else if r && today !in disk.locked && dir !in disk.unwritable {
        assert w[today := []] - {p} == (w - {p})[today := []];
      }
    } else {
      assert d + [] == d;
    }
  }

  /** The next file has not been deleted yet: the names are distinct. */
  lemma NotYetDeleted(cs: seq<Candidate>, order: seq<string>, i: nat)
    requires i < |order| == |cs|
    requires forall a, b :: 0 <= a < b < |order| ==> order[a] != order[b]
    requires forall k :: 0 <= k < |order| ==> cs[k].name == order[k]
    ensures order[i] !in DeletedNames(Deletable(cs[..i]))
  {
    DeletedNamesOfPrefix(cs, i);
  }

  /** Deleting one more candidate takes its file away and nothing else. */
  lemma WithoutOneMore(files: map<Path, seq<char>>, dir: string, d: seq<Candidate>, c: Candidate)
    ensures Without(files, dir, d + [c]) == Without(files, dir, d) - {Path(dir, c.name)}
  {
    assert DeletedNames(d + [c]) == DeletedNames(d) + {c.name};
  }

  /** Only names of the prefix are ever deleted. */
  lemma DeletedNamesOfPrefix(cs: seq<Candidate>, i: nat)
    requires i <= |cs|
    ensures forall n :: n in DeletedNames(Deletable(cs[..i])) ==> exists k :: 0 <= k < i && cs[k].name == n
  {
    DeletableWithin(cs[..i]);
  }

  /** A wall clock as the managers read it: today is a day, and getDateDaysAgo(k)
      formats today for k = 0, an earlier day for positive k and a later one for
      negative k. */
  ghost predicate SaneClock(c: Clock)
  {
    IsDate(c.today) && c.daysAgo(0) == c.today &&
    (forall k :: k > 0 ==> CompareTo(c.daysAgo(k), c.today) < 0) &&
    (forall k :: k < 0 ==> CompareTo(c.today, c.daysAgo(k)) < 0)
  }

  /** Where the limit date of a sweep `days` back falls against today. */
  lemma LimitAgainstToday(c: Clock, days: int)
    requires SaneClock(c)
    ensures Le(c.today, c.daysAgo(days)) <==> days <= 0
    ensures CompareTo(c.today, c.daysAgo(days)) < 0 <==> days < 0
  {
    CompareToAntisymmetric(c.today, c.daysAgo(days));
    CompareToZero(c.today, c.daysAgo(days));
  }

  /** The files once openNewLogForToday ran on a new day: the day's log opened
      (created when missing), then the date sweep. */
  ghost function NewDay(disk: Disk, files: map<Path, seq<char>>, dir: string, today: string, expired: string -> bool)
    : map<Path, seq<char>>
  {
    Swept(disk, Touched(disk, files, Path(dir, LogName(today))), dir, expired)
  }

  /** A line as LogToFile and LogFileManager write it: the time stamp, a space, the message. */
  function StampedLine(timeStamp: string, log: string): string
  {
    timeStamp + " " + log
  }

  /** The time stamp and the message can be read back out of a line. */
  lemma StampedLineParts(timeStamp: string, log: string)
    ensures var line := StampedLine(timeStamp, log);
      && |line| == |timeStamp| + 1 + |log|
      && line[..|timeStamp|] == timeStamp && line[|timeStamp|] == ' ' && line[|timeStamp| + 1..] == log
  {
    var line := StampedLine(timeStamp, log);
    assert line[..|timeStamp|] == timeStamp;
    assert line[|timeStamp| + 1..] == log;
  }

  /** A line appended through a writer that is open on `p`: it lands, followed by a
      line separator, at the end of the file when the file is still there. */
  function Logged(files: map<Path, seq<char>>, p: Path, open: bool, line: string): map<Path, seq<char>>
  {
    if open && p in files then files[p := files[p] + (line + "\n")] else files
  }
}
