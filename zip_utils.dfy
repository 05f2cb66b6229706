/** ZipUtils: collecting a file tree into archive entries, writing an archive with
    progress reports, and extracting all or some of its entries. Each task runs on a
    background executor in the library; here each runs to completion in one call, and
    the listener callbacks it posts are returned: onStart always comes first, so a
    task returns the onProgress reports that follow it, in order, and the final
    callback. */
module ZipUtils {
  import opened Wrappers
  import opened JavaString
  import opened FileSystem
  import opened ZipArchive

  /** The size of the copy buffer: one read never returns more than this. */
  const BUFF_SIZE: nat := 1024 * 1024

  /** The files below a File handed to zipFiles, as listed when the task runs. */
  datatype Node = FileNode(name: string, data: seq<char>) | DirNode(name: string, children: seq<Node>)

  /** A File handed to zipFiles: the directory holding it, and the tree it heads. */
  datatype Root = Root(location: string, node: Node)

  /** A regular file collected for the archive: its absolute path (the map key), the
      entry path it is stored under, its own name and its bytes. */
  datatype Item = Item(key: string, entryPath: string, name: string, data: seq<char>)

  /** The listener callbacks after onStart, as posted to the main thread. */
  datatype Event =
    | Progress(item: string, percent: int, totalItems: nat, index: nat, bytesDone: nat, bytesTotal: nat)
    | Succeeded(file: Path)
    | Failed

  /** new File(parent, name).getPath() */
  function ChildPath(parent: string, name: string): string
  {
    parent + "/" + name
  }

  /** collect's currentPath: the name alone at the top, else below the parent's path. */
  function EntryPath(parentPath: string, name: string): string
  {
    if parentPath == [] then name else parentPath + "/" + name
  }

  /** The regular files under `node`, in the order collect visits them. */
  function Walk(location: string, node: Node, parentPath: string): seq<Item>
    decreases node
  {
    match node
    case FileNode(name, data) => [Item(ChildPath(location, name), EntryPath(parentPath, name), name, data)]
    case DirNode(name, children) => WalkAll(ChildPath(location, name), children, EntryPath(parentPath, name))
  }

  function WalkAll(location: string, children: seq<Node>, parentPath: string): seq<Item>
    decreases children
  {
    if children == [] then []
    else WalkAll(location, children[..|children| - 1], parentPath) + Walk(location, children[|children| - 1], parentPath)
  }

  /** The markers collect adds for directories with no children: their path and '/'. */
  function EmptyDirs(node: Node, parentPath: string): set<string>
    decreases node
  {
    match node
    case FileNode(_, _) => {}
    case DirNode(name, children) =>
      if children == [] then {EntryPath(parentPath, name) + "/"}
      else EmptyDirsAll(children, EntryPath(parentPath, name))
  }

  function EmptyDirsAll(children: seq<Node>, parentPath: string): set<string>
    decreases children
  {
    if children == [] then {}
    else EmptyDirsAll(children[..|children| - 1], parentPath) + EmptyDirs(children[|children| - 1], parentPath)
  }

  /** collectFiles over a list of roots, each collected with an empty parent path. */
  function WalkRoots(roots: seq<Root>): seq<Item>
  {
    if roots == [] then []
    else WalkRoots(roots[..|roots| - 1]) + Walk(roots[|roots| - 1].location, roots[|roots| - 1].node, "")
  }

  function EmptyDirsRoots(roots: seq<Root>): set<string>
  {
    if roots == [] then {}
    else EmptyDirsRoots(roots[..|roots| - 1]) + EmptyDirs(roots[|roots| - 1].node, "")
  }

  /** A LinkedHashMap from absolute path to collected file: keys in first-insertion
      order. */
  datatype FileMap = FileMap(keys: seq<string>, values: map<string, Item>)

  ghost predicate WellFormed(m: FileMap)
  {
    (forall i, j :: 0 <= i < j < |m.keys| ==> m.keys[i] != m.keys[j]) &&
    (forall k :: k in m.keys <==> k in m.values)
  }

  /** LinkedHashMap.put: a new key goes last; a present key keeps its place and takes
      the new value. */
  function MapPut(m: FileMap, it: Item): FileMap
  {
    if it.key in m.values then FileMap(m.keys, m.values[it.key := it])
    else FileMap(m.keys + [it.key], m.values[it.key := it])
  }

  function PutAll(m: FileMap, items: seq<Item>): FileMap
    decreases |items|
  {
    if items == [] then m else PutAll(MapPut(m, items[0]), items[1..])
  }

  /** The map's entries in iteration order. */
  function Listed(m: FileMap): seq<Item>
    requires WellFormed(m)
  {
    ValuesOf(m.keys, m.values)
  }

  function ValuesOf(keys: seq<string>, values: map<string, Item>): (r: seq<Item>)
    requires forall k :: k in keys ==> k in values
    ensures |r| == |keys|
  {
    if keys == [] then [] else ValuesOf(keys[..|keys| - 1], values) + [values[keys[|keys| - 1]]]
  }

  /** Adding a key that is not listed leaves the values of the listed keys as they were. */
  lemma {:induction false} ValuesOfOther(keys: seq<string>, values: map<string, Item>, it: Item)
    requires forall k :: k in keys ==> k in values
    requires it.key !in keys
    ensures ValuesOf(keys, values[it.key := it]) == ValuesOf(keys, values)
    decreases |keys|
  {
    if keys != [] {
      ValuesOfOther(keys[..|keys| - 1], values, it);
    }
  }

  const EmptyMap := FileMap([], map[])

  lemma PutWellFormed(m: FileMap, it: Item)
    requires WellFormed(m)
    ensures WellFormed(MapPut(m, it))
    ensures |MapPut(m, it).keys| == |m.keys| + (if it.key in m.values then 0 else 1)
  {
  }

  lemma {:induction false} PutAllWellFormed(m: FileMap, items: seq<Item>)
    requires WellFormed(m)
    ensures WellFormed(PutAll(m, items))
    ensures |PutAll(m, items).keys| <= |m.keys| + |items|
    decreases |items|
  {
    if items != [] {
      PutWellFormed(m, items[0]);
      PutAllWellFormed(MapPut(m, items[0]), items[1..]);
    }
  }

  lemma {:induction false} PutAllAppend(m: FileMap, a: seq<Item>, b: seq<Item>)
    ensures PutAll(m, a + b) == PutAll(PutAll(m, a), b)
    decreases |a|
  {
    if a == [] {
      assert a + b == b;
    } else {
      assert (a + b)[1..] == a[1..] + b;
      PutAllAppend(MapPut(m, a[0]), a[1..], b);
    }
  }

  predicate DistinctKeys(items: seq<Item>)
  {
    forall i, j :: 0 <= i < j < |items| ==> items[i].key != items[j].key
  }

  /** Files with distinct absolute paths each get exactly one entry, in visiting order. */
  lemma {:induction false} PutAllDistinct(m: FileMap, items: seq<Item>)
    requires WellFormed(m)
    requires DistinctKeys(items)
    requires forall i :: 0 <= i < |items| ==> items[i].key !in m.values
    ensures WellFormed(PutAll(m, items))
    ensures Listed(PutAll(m, items)) == Listed(m) + items
    decreases |items|
  {
    PutAllWellFormed(m, items);
    if items != [] {
      var m' := MapPut(m, items[0]);
      PutNewListed(m, items[0]);
      DistinctRest(m, items);
      PutAllDistinct(m', items[1..]);
      AppendFirst(Listed(m), items);
    }
  }

  lemma AppendFirst<T>(a: seq<T>, s: seq<T>)
    requires s != []
    ensures (a + [s[0]]) + s[1..] == a + s
  {
    assert [s[0]] + s[1..] == s;
  }

  /** After the first item is put, the rest still have distinct keys not in the map. */
  lemma DistinctRest(m: FileMap, items: seq<Item>)
    requires items != [] && DistinctKeys(items)
    requires forall i :: 0 <= i < |items| ==> items[i].key !in m.values
    ensures DistinctKeys(items[1..])
    ensures forall i :: 0 <= i < |items[1..]| ==> items[1..][i].key !in MapPut(m, items[0]).values
  {
    forall i | 0 <= i < |items[1..]|
      ensures items[1..][i].key !in MapPut(m, items[0]).values
    {
      assert items[1..][i] == items[i + 1];
    }
  }

  /** Putting a new key lists its item last. */
  lemma PutNewListed(m: FileMap, it: Item)
    requires WellFormed(m) && it.key !in m.values
    ensures WellFormed(MapPut(m, it))
    ensures Listed(MapPut(m, it)) == Listed(m) + [it]
  {
    var m' := MapPut(m, it);
    PutWellFormed(m, it);
    ValuesOfOther(m.keys, m.values, it);
    assert m'.keys[..|m'.keys| - 1] == m.keys;
  }

  /** The two maps collectFiles fills in place. */
  class Collector {
    var filesMap: FileMap
    var emptyDirs: set<string>

    constructor ()
      ensures filesMap == EmptyMap && emptyDirs == {}
    {
      filesMap, emptyDirs := EmptyMap, {};
    }

    method Put(it: Item)
      modifies this`filesMap
      ensures filesMap == MapPut(old(filesMap), it)
    {
      filesMap := MapPut(filesMap, it);
    }

    method AddEmptyDir(marker: string)
      modifies this`emptyDirs
      ensures emptyDirs == old(emptyDirs) + {marker}
    {
      emptyDirs := emptyDirs + {marker};
    }
  }

  /** collect(file, parentPath, filesMap, emptyDirs) */
  method Collect(c: Collector, location: string, node: Node, parentPath: string)
    modifies c
    ensures c.filesMap == PutAll(old(c.filesMap), Walk(location, node, parentPath))
    ensures c.emptyDirs == old(c.emptyDirs) + EmptyDirs(node, parentPath)
    decreases node
  {
    var currentPath := EntryPath(parentPath, node.name);
    match node
    case DirNode(name, children) =>
      if |children| == 0 {
        c.AddEmptyDir(currentPath + "/");
      } else {
        var here := ChildPath(location, name);
        for i := 0 to |children|
          invariant c.filesMap == PutAll(old(c.filesMap), WalkAll(here, children[..i], currentPath))
          invariant c.emptyDirs == old(c.emptyDirs) + EmptyDirsAll(children[..i], currentPath)
        {
          assert children[..i + 1][..i] == children[..i];
          PutAllAppend(old(c.filesMap), WalkAll(here, children[..i], currentPath), Walk(here, children[i], currentPath));
          Collect(c, here, children[i], currentPath);
        }
        assert children[..|children|] == children;
      }
    case FileNode(name, data) =>
      c.Put(Item(ChildPath(location, name), currentPath, name, data));
      assert [Item(ChildPath(location, name), currentPath, name, data)][1..] == [];
  }

  /** collectFiles(resFileList, filesMap, emptyDirs) */
  method CollectFiles(c: Collector, roots: seq<Root>)
    modifies c
    ensures c.filesMap == PutAll(old(c.filesMap), WalkRoots(roots))
    ensures c.emptyDirs == old(c.emptyDirs) + EmptyDirsRoots(roots)
  {
    for i := 0 to |roots|
      invariant c.filesMap == PutAll(old(c.filesMap), WalkRoots(roots[..i]))
      invariant c.emptyDirs == old(c.emptyDirs) + EmptyDirsRoots(roots[..i])
    {
      assert roots[..i + 1][..i] == roots[..i];
      PutAllAppend(old(c.filesMap), WalkRoots(roots[..i]), Walk(roots[i].location, roots[i].node, ""));
      Collect(c, roots[i].location, roots[i].node, "");
    }
    assert roots[..|roots|] == roots;
  }

  /** Every marker ends in '/', so reading the archive back treats it as a directory. */
  lemma {:induction false} MarkersAreDirectories(node: Node, parentPath: string)
    ensures forall m :: m in EmptyDirs(node, parentPath) ==> IsDirectory(Entry(m, []))
    decreases node
  {
    match node
    case FileNode(_, _) =>
    case DirNode(name, children) =>
      if children == [] {
        var m := EntryPath(parentPath, name) + "/";
        assert m[|m| - 1..] == "/";
      } else {
        MarkersAreDirectoriesAll(children, EntryPath(parentPath, name));
      }
  }

  lemma {:induction false} MarkersAreDirectoriesAll(children: seq<Node>, parentPath: string)
    ensures forall m :: m in EmptyDirsAll(children, parentPath) ==> IsDirectory(Entry(m, []))
    decreases children
  {
    if children != [] {
      MarkersAreDirectoriesAll(children[..|children| - 1], parentPath);
      MarkersAreDirectories(children[|children| - 1], parentPath);
    }
  }

  lemma {:induction false} RootMarkersAreDirectories(roots: seq<Root>)
    ensures forall m :: m in EmptyDirsRoots(roots) ==> IsDirectory(Entry(m, []))
  {
    if roots != [] {
      RootMarkersAreDirectories(roots[..|roots| - 1]);
      MarkersAreDirectories(roots[|roots| - 1].node, "");
    }
  }

  /** The integer progress of one entry: bytes done as a whole percentage of its size,
      0 for an empty entry. */
  function Percent(done: nat, total: nat): (r: int)
    ensures done <= total ==> 0 <= r <= 100
    ensures 0 < total && done == total ==> r == 100
  {
    if total > 0 then PercentBounds(done, total); done * 100 / total else 0
  }

  lemma PercentBounds(done: nat, total: nat)
    requires total > 0
    ensures done <= total ==> 0 <= done * 100 / total <= 100
    ensures done == total ==> done * 100 / total == 100
  {
    var q, r := done * 100 / total, done * 100 % total;
    assert done * 100 == q * total + r && 0 <= r < total;
    if q < 0 {
      MulMono(q, -1, total);
      assert false;
    }
    if done <= total && q > 100 {
      MulMono(101, q, total);
      assert false;
    }
    if done == total && q < 100 {
      MulMono(q, 99, total);
      assert false;
    }
  }

  lemma {:induction false} MulMono(a: int, b: int, c: nat)
    requires a <= b
    ensures a * c <= b * c
    decreases c
  {
    if c > 0 {
      MulMono(a, b, c - 1);
      assert a * c == a * (c - 1) + a && b * c == b * (c - 1) + b;
    }
  }

  /** The reports of copying one file or entry: about it, numbered idx, with growing byte counts and the
      percentage those make of its size. */
  ghost predicate ReportsOnOne(reports: seq<Event>, name: string, data: seq<char>, total: nat, idx: nat)
  {
    (forall r :: 0 <= r < |reports| ==>
      reports[r].Progress? && reports[r].item == name && reports[r].index == idx &&
      reports[r].totalItems == total && reports[r].bytesTotal == |data| &&
      0 < reports[r].bytesDone <= |data| && reports[r].percent == Percent(reports[r].bytesDone, |data|)) &&
    (forall a, b :: 0 <= a < b < |reports| ==> reports[a].bytesDone < reports[b].bytesDone)
  }

  /** The copy loop: read at most BUFF_SIZE bytes at a time until the input runs out,
      write each chunk, and report the bytes done so far after each one. */
  method CopyChunks(item: string, data: seq<char>, totalItems: nat, index: nat)
    returns (copied: seq<char>, reports: seq<Event>)
    ensures copied == data
    ensures |data| == 0 <==> reports == []
    ensures ReportsOnOne(reports, item, data, totalItems, index)
    ensures reports != [] ==> reports[|reports| - 1].bytesDone == |data| && reports[|reports| - 1].percent == 100
  {
    var bytesRead := 0;
    copied, reports := [], [];
    while bytesRead < |data|
      invariant bytesRead <= |data| && copied == data[..bytesRead]
      invariant bytesRead == 0 <==> reports == []
      invariant forall i :: 0 <= i < |reports| ==>
        reports[i].Progress? && reports[i].item == item && reports[i].totalItems == totalItems &&
        reports[i].index == index && reports[i].bytesTotal == |data| &&
        0 < reports[i].bytesDone <= bytesRead && reports[i].percent == Percent(reports[i].bytesDone, |data|)
      invariant forall i, j :: 0 <= i < j < |reports| ==> reports[i].bytesDone < reports[j].bytesDone
      invariant reports != [] ==> reports[|reports| - 1].bytesDone == bytesRead
      decreases |data| - bytesRead
    {
      var realLength :| 0 < realLength <= BUFF_SIZE && bytesRead + realLength <= |data|;
      copied := copied + data[bytesRead..bytesRead + realLength];
      bytesRead := bytesRead + realLength;
      reports := reports + [Progress(item, Percent(bytesRead, |data|), totalItems, index, bytesRead, |data|)];
    }
    assert data[..bytesRead] == data;
  }

  /** The names of a sequence of entries. */
  function Names(es: seq<Entry>): (r: seq<string>)
    ensures |r| == |es| && forall i :: 0 <= i < |es| ==> r[i] == es[i].name
  {
    if es == [] then [] else Names(es[..|es| - 1]) + [es[|es| - 1].name]
  }

  /** The entry each collected file is stored as: its entry path and its bytes. */
  function FileEntries(items: seq<Item>): (r: seq<Entry>)
    ensures |r| == |items| && forall i :: 0 <= i < |items| ==> r[i] == Entry(items[i].entryPath, items[i].data)
  {
    if items == [] then [] else FileEntries(items[..|items| - 1]) + [Entry(items[|items| - 1].entryPath, items[|items| - 1].data)]
  }

  /** A file that stops the archive: it cannot be opened for reading, or its entry
      path was already written (ZipOutputStream refuses a duplicate entry). */
  predicate Refused(it: Item, written: seq<string>, unreadable: set<string>)
  {
    it.key in unreadable || it.entryPath in written
  }

  /** A report about the file at position index - base - 1 of `items`. */
  predicate ReportsOn(e: Event, items: seq<Item>, base: nat, totalItems: nat)
  {
    e.Progress? && base < e.index <= base + |items| && e.totalItems == totalItems &&
    e.item == items[e.index - base - 1].name && e.bytesTotal == |items[e.index - base - 1].data| &&
    0 < e.bytesDone <= e.bytesTotal && 0 <= e.percent <= 100
  }

  /** Reports come item by item, and within an item with growing byte counts. */
  predicate InOrder(events: seq<Event>)
  {
    forall i, j :: 0 <= i < j < |events| ==> ReportedBefore(events[i], events[j])
  }

  predicate ReportedBefore(a: Event, b: Event)
  {
    a.Progress? && b.Progress? &&
    (a.index < b.index || (a.index == b.index && a.bytesDone < b.bytesDone))
  }

  /** The first loop of zipFiles: one entry and one 100% report per empty-directory
      marker, in the set's iteration order. */
  method WriteEmptyDirs(dirs: set<string>, totalItems: nat) returns (order: seq<string>, entries: seq<Entry>, events: seq<Event>)
    ensures Distinct(order) && |order| == |dirs| && forall d :: d in order <==> d in dirs
    ensures |entries| == |order| && forall i :: 0 <= i < |order| ==> entries[i] == Entry(order[i], [])
    ensures |events| == |order| && forall i :: 0 <= i < |order| ==> events[i] == Progress(order[i], 100, totalItems, i + 1, 0, 0)
  {
    order, entries, events := [], [], [];
    var left := dirs;
    while left != {}
      invariant left <= dirs && Distinct(order)
      invariant forall d :: d in order <==> d in dirs && d !in left
      invariant |order| + |left| == |dirs|
      invariant |entries| == |order| && forall i :: 0 <= i < |order| ==> entries[i] == Entry(order[i], [])
      invariant |events| == |order| && forall i :: 0 <= i < |order| ==> events[i] == Progress(order[i], 100, totalItems, i + 1, 0, 0)
      decreases |left|
    {
      var dirEntry :| dirEntry in left;
      order := order + [dirEntry];
      entries := entries + [Entry(dirEntry, [])];
      events := events + [Progress(dirEntry, 100, totalItems, |order|, 0, 0)];
      left := left - {dirEntry};
    }
  }

  /** Every report is about one of `items` and numbered at most `bound`. */
  predicate ReportsUpTo(events: seq<Event>, items: seq<Item>, base: nat, totalItems: nat, bound: nat)
  {
    forall e :: 0 <= e < |events| ==> ReportsOn(events[e], items, base, totalItems) && events[e].index <= bound
  }

  /** None of the first k files was refused. */
  predicate AcceptedUpTo(items: seq<Item>, written: seq<string>, unreadable: set<string>, k: nat)
    requires k <= |items|
  {
    forall j :: 0 <= j < k ==> !Refused(items[j], written + Names(FileEntries(items[..j])), unreadable)
  }

  /** The reports of the next file extend an ordered run of reports. */
  lemma ExtendReports(events: seq<Event>, reports: seq<Event>, items: seq<Item>, base: nat, totalItems: nat, i: nat)
    requires i < |items|
    requires ReportsUpTo(events, items, base, totalItems, base + i) && InOrder(events)
    requires ReportsOnOne(reports, items[i].name, items[i].data, totalItems, base + i + 1)
    ensures ReportsUpTo(events + reports, items, base, totalItems, base + i + 1)
    ensures InOrder(events + reports)
  {
    var all := events + reports;
    forall e | 0 <= e < |all|
      ensures ReportsOn(all[e], items, base, totalItems) && all[e].index <= base + i + 1
    {
      if e >= |events| {
        assert all[e] == reports[e - |events|];
      }
    }
  }

  /** One turn of the file loop keeps its invariants. */
  lemma WriteStep(items: seq<Item>, written: seq<string>, unreadable: set<string>, totalItems: nat, i: nat,
                  entries: seq<Entry>, events: seq<Event>, reports: seq<Event>)
    requires i < |items| && entries == FileEntries(items[..i])
    requires AcceptedUpTo(items, written, unreadable, i)
    requires !Refused(items[i], written + Names(entries), unreadable)
    requires ReportsUpTo(events, items, |written|, totalItems, |written| + i) && InOrder(events)
    requires ReportsOnOne(reports, items[i].name, items[i].data, totalItems, |written| + i + 1)
    ensures entries + [Entry(items[i].entryPath, items[i].data)] == FileEntries(items[..i + 1])
    ensures AcceptedUpTo(items, written, unreadable, i + 1)
    ensures ReportsUpTo(events + reports, items, |written|, totalItems, |written| + i + 1) && InOrder(events + reports)
  {
    assert items[..i + 1][..i] == items[..i];
    ExtendReports(events, reports, items, |written|, totalItems, i);
  }

  /** The second loop of zipFiles: each collected file copied into an entry, chunk by
      chunk, numbered after the `written` directory markers. The first refused file
      ends the loop (the exception leaves the try block). */
  method WriteFiles(items: seq<Item>, written: seq<string>, totalItems: nat, unreadable: set<string>)
    returns (entries: seq<Entry>, events: seq<Event>, failedAt: Option<nat>)
    ensures var k := if failedAt.Some? then failedAt.value else |items|;
      k <= |items| && entries == FileEntries(items[..k]) && AcceptedUpTo(items, written, unreadable, k) &&
      (failedAt.Some? ==> k < |items| && Refused(items[k], written + Names(FileEntries(items[..k])), unreadable))
    ensures ReportsUpTo(events, items, |written|, totalItems, |written| + |items|)
    ensures InOrder(events)
  {
    entries, events, failedAt := [], [], None;
    var i := 0;
    while i < |items|
      invariant i <= |items| && entries == FileEntries(items[..i])
      invariant AcceptedUpTo(items, written, unreadable, i)
      invariant ReportsUpTo(events, items, |written|, totalItems, |written| + i)
      invariant InOrder(events)
    {
      var it := items[i];
      if Refused(it, written + Names(entries), unreadable) {
        return entries, events, Some(i);
      }
      var copied, reports := CopyChunks(it.name, it.data, totalItems, |written| + i + 1);
      WriteStep(items, written, unreadable, totalItems, i, entries, events, reports);
      entries := entries + [Entry(it.entryPath, copied)];
      events := events + reports;
      i := i + 1;
    }
    assert items[..|items|] == items;
  }

  /** The files collectFiles puts in its map, in the map's iteration order. */
  function Collected(roots: seq<Root>): seq<Item>
  {
    PutAllWellFormed(EmptyMap, WalkRoots(roots));
    Listed(PutAll(EmptyMap, WalkRoots(roots)))
  }

  lemma NamesAppend(a: seq<Entry>, b: seq<Entry>)
    ensures Names(a + b) == Names(a) + Names(b)
  {
  }

  /** Accepted files add names not yet written, so all names stay distinct. */
  lemma AcceptedDistinct(items: seq<Item>, written: seq<string>, unreadable: set<string>, k: nat)
    requires k <= |items| && Distinct(written) && AcceptedUpTo(items, written, unreadable, k)
    ensures Distinct(written + Names(FileEntries(items[..k])))
    ensures forall j :: 0 <= j < k ==> items[j].key !in unreadable
  {
    var all := written + Names(FileEntries(items[..k]));
    forall a, b | 0 <= a < b < |all| ensures all[a] != all[b] {
      if b >= |written| {
        var j := b - |written|;
        assert all[b] == items[j].entryPath;
        var before := written + Names(FileEntries(items[..j]));
        assert !Refused(items[j], before, unreadable);
        if a < |written| {
          assert all[a] == before[a];
        } else {
          assert all[a] == items[a - |written|].entryPath == before[a];
        }
      }
    }
  }

  /** What a successful zipFiles wrote: one empty entry per empty-directory marker,
      then every collected file under its entry path, in collection order; no name
      twice, and every file was readable. */
  ghost predicate ArchivedAll(roots: seq<Root>, written: seq<Entry>, unreadable: set<string>)
  {
    var files := Collected(roots);
    var n := |EmptyDirsRoots(roots)|;
    |written| == n + |files| &&
    MarkersFirst(written, EmptyDirsRoots(roots)) &&
    written[n..] == FileEntries(files) &&
    Distinct(Names(written)) &&
    (forall it :: it in files ==> it.key !in unreadable)
  }

  /** What a failed zipFiles left in the archive: the markers and the files before
      the first refused one. */
  ghost predicate StoppedAtRefused(roots: seq<Root>, written: seq<Entry>, unreadable: set<string>)
  {
    var files := Collected(roots);
    var n := |EmptyDirsRoots(roots)|;
    MarkersFirst(written, EmptyDirsRoots(roots)) &&
    exists k :: 0 <= k < |files| && written[n..] == FileEntries(files[..k]) && Refused(files[k], Names(written), unreadable)
  }

  /** The reports between onStart and the final callback: about items numbered
      1..totalItems, whole percentages, in order. */
  ghost predicate ProgressReports(reports: seq<Event>, totalItems: nat)
  {
    (forall i :: 0 <= i < |reports| ==>
      reports[i].Progress? && 0 < reports[i].index <= totalItems && reports[i].totalItems == totalItems &&
      0 <= reports[i].percent <= 100) &&
    InOrder(reports)
  }

  lemma DirsThenFiles(dirEvents: seq<Event>, order: seq<string>, fileEvents: seq<Event>, items: seq<Item>, totalItems: nat)
    requires |dirEvents| == |order| && |order| + |items| == totalItems
    requires forall i :: 0 <= i < |order| ==> dirEvents[i] == Progress(order[i], 100, totalItems, i + 1, 0, 0)
    requires ReportsUpTo(fileEvents, items, |order|, totalItems, |order| + |items|) && InOrder(fileEvents)
    ensures ProgressReports(dirEvents + fileEvents, totalItems)
  {
    var all := dirEvents + fileEvents;
    forall i, j | 0 <= i < j < |all| ensures ReportedBefore(all[i], all[j]) {
      if j < |dirEvents| {
      } else if i < |dirEvents| {
        assert all[j] == fileEvents[j - |dirEvents|];
      } else {
        assert all[i] == fileEvents[i - |dirEvents|] && all[j] == fileEvents[j - |dirEvents|];
      }
    }
    forall i | 0 <= i < |all|
      ensures all[i].Progress? && 0 < all[i].index <= totalItems && all[i].totalItems == totalItems && 0 <= all[i].percent <= 100
    {
      if i >= |dirEvents| {
        assert all[i] == fileEvents[i - |dirEvents|];
      }
    }
  }

  /** A FileOutputStream can be opened on `p` once its directory was made: it is not
      locked, and it exists or its directory accepts new files. */
  predicate CanOpen(disk: Disk, files: map<Path, seq<char>>, p: Path)
  {
    p !in disk.locked && (p in files || p.dir !in disk.unwritable)
  }

  /** zipFiles(resFileList, zipFile, comment, listener), as its background task runs:
      collect the trees, make the archive's directory, open the archive (truncating an
      old one), write the empty-directory markers and then the files, and close it;
      the final callback is onSuccess, or onFailure once anything threw. */
  method ZipFiles(disk: Disk, roots: seq<Root>, zipFile: Path, comment: string, unreadable: set<string>)
    returns (reports: seq<Event>, last: Event, written: seq<Entry>)
    requires disk.Valid()
    modifies disk`dirs, disk`files, disk`handles
    ensures disk.Valid() && disk.handles == old(disk.handles)
    ensures disk.dirs == if zipFile.dir in disk.unwritable then old(disk.dirs) else old(disk.dirs) + {zipFile.dir}
    ensures last == Succeeded(zipFile) || last == Failed
    ensures ProgressReports(reports, |Collected(roots)| + |EmptyDirsRoots(roots)|)
    ensures !CanOpen(disk, old(disk.files), zipFile) ==> disk.files == old(disk.files) && reports == [] && last == Failed
    ensures CanOpen(disk, old(disk.files), zipFile) ==>
      && disk.files == old(disk.files)[zipFile := Image(Archive(comment, written))]
      && Parse(disk.files[zipFile]) == Some(Archive(comment, written))
      && (last == Succeeded(zipFile) ==> ArchivedAll(roots, written, unreadable))
      && (last == Failed ==> StoppedAtRefused(roots, written, unreadable))
  {
    var files, emptyDirs := CollectAll(roots);
    var ok := OpenArchive(disk, zipFile);
    if !ok {
      written, reports, last := [], [], Failed;
    } else {
      var failedAt;
      reports, written, failedAt := WriteOpened(disk, roots, zipFile, comment, unreadable, files, emptyDirs);
      UpdateTwice(old(disk.files), zipFile, [], Image(Archive(comment, written)));
      last := if failedAt.None? then Succeeded(zipFile) else Failed;
    }
  }

  /** zipFile(resFile, zipFile, listener) on a regular file: the file is the only item
      collected, stored under its own name, and there are no directory markers. */
  lemma SingleFileCollected(location: string, name: string, data: seq<char>)
    ensures Collected([Root(location, FileNode(name, data))]) == [Item(ChildPath(location, name), name, name, data)]
    ensures EmptyDirsRoots([Root(location, FileNode(name, data))]) == {}
  {
    var roots := [Root(location, FileNode(name, data))];
    var it := Item(ChildPath(location, name), name, name, data);
    assert roots[..0] == [];
    assert WalkRoots(roots) == [it];
    PutNewListed(EmptyMap, it);
    assert PutAll(EmptyMap, [it]) == MapPut(EmptyMap, it);
    assert Listed(EmptyMap) == [];
  }

  /** Archiving one regular file ends in exactly two ways: the archive holds one entry,
      the file's name and bytes, or the file could not be read and nothing was written. */
  lemma SingleFileArchived(location: string, name: string, data: seq<char>, written: seq<Entry>, unreadable: set<string>)
    ensures ArchivedAll([Root(location, FileNode(name, data))], written, unreadable) <==>
            written == [Entry(name, data)] && ChildPath(location, name) !in unreadable
    ensures StoppedAtRefused([Root(location, FileNode(name, data))], written, unreadable) <==>
            written == [] && ChildPath(location, name) in unreadable
  {
    var roots := [Root(location, FileNode(name, data))];
    var it := Item(ChildPath(location, name), name, name, data);
    SingleFileCollected(location, name, data);
    assert FileEntries([it]) == [Entry(name, data)];
    assert FileEntries([it][..0]) == [];
    assert written[0..] == written;
    if written == [] && it.key in unreadable {
      assert Refused(Collected(roots)[0], Names(written), unreadable);
    }
  }

  /** A key updated twice keeps the second value. */
  lemma UpdateTwice<K, V>(m: map<K, V>, k: K, v1: V, v2: V)
    ensures m[k := v1][k := v2] == m[k := v2]
  {
  }

  /** The archive's directory is made and a truncating FileOutputStream is opened on it. */
  method OpenArchive(disk: Disk, zipFile: Path) returns (ok: bool)
    requires disk.Valid()
    modifies disk`dirs, disk`files, disk`handles
    ensures disk.Valid()
    ensures disk.dirs == if zipFile.dir in disk.unwritable then old(disk.dirs) else old(disk.dirs) + {zipFile.dir}
    ensures ok == CanOpen(disk, old(disk.files), zipFile)
    ensures !ok ==> disk.files == old(disk.files) && disk.handles == old(disk.handles)
    ensures ok ==> disk.files == old(disk.files)[zipFile := []] && disk.handles == old(disk.handles) + multiset{zipFile}
  {
    disk.Mkdirs(zipFile.dir);
    ok := disk.OpenOutput(zipFile, false);
  }

  /** zipFiles once the archive's stream is open: the two loops, then the archive
      saved and its stream closed. */
  method WriteOpened(disk: Disk, roots: seq<Root>, zipFile: Path, comment: string, unreadable: set<string>,
                     files: seq<Item>, emptyDirs: set<string>)
    returns (middle: seq<Event>, written: seq<Entry>, failedAt: Option<nat>)
    requires files == Collected(roots) && emptyDirs == EmptyDirsRoots(roots)
    requires disk.Valid() && zipFile in disk.handles && zipFile in disk.files && disk.files[zipFile] == []
    modifies disk`files, disk`handles
    ensures disk.Valid() && disk.handles == old(disk.handles) - multiset{zipFile}
    ensures disk.files == old(disk.files)[zipFile := Image(Archive(comment, written))]
    ensures Parse(disk.files[zipFile]) == Some(Archive(comment, written))
    ensures ProgressReports(middle, |files| + |emptyDirs|)
    ensures failedAt.None? ==> ArchivedAll(roots, written, unreadable)
    ensures failedAt.Some? ==> StoppedAtRefused(roots, written, unreadable)
  {
    middle, written, failedAt := WriteArchive(files, emptyDirs, unreadable);
    WrittenOutcomeOf(roots, files, emptyDirs, unreadable, written, failedAt);
    SaveData(disk, zipFile, Image(Archive(comment, written)));
    ParseImage(Archive(comment, written));
  }

  /** collectFiles into a fresh LinkedHashMap and HashSet. */
  method CollectAll(roots: seq<Root>) returns (files: seq<Item>, emptyDirs: set<string>)
    ensures files == Collected(roots) && emptyDirs == EmptyDirsRoots(roots)
  {
    var c := new Collector();
    CollectFiles(c, roots);
    PutAllWellFormed(EmptyMap, WalkRoots(roots));
    files, emptyDirs := Listed(c.filesMap), c.emptyDirs;
  }

  /** The two loops inside the try block of zipFiles: the entries they write, the
      reports they post, and the position of the file that stopped them, if any. */
  method WriteArchive(files: seq<Item>, emptyDirs: set<string>, unreadable: set<string>)
    returns (reports: seq<Event>, written: seq<Entry>, failedAt: Option<nat>)
    ensures ProgressReports(reports, |files| + |emptyDirs|)
    ensures WriteOutcome(files, emptyDirs, unreadable, written, failedAt)
  {
    var totalItems := |files| + |emptyDirs|;
    var order, dirEntries, dirEvents := WriteEmptyDirs(emptyDirs, totalItems);
    var fileEntries, fileEvents;
    fileEntries, fileEvents, failedAt := WriteFiles(files, order, totalItems, unreadable);
    DirsThenFiles(dirEvents, order, fileEvents, files, totalItems);
    reports, written := dirEvents + fileEvents, dirEntries + fileEntries;
    WrittenOutcome(files, emptyDirs, unreadable, order, dirEntries, fileEntries, failedAt);
  }

  /** What the two loops leave: on success every file, otherwise the files before the
      first refused one, in either case after the markers. */
  ghost predicate WriteOutcome(files: seq<Item>, emptyDirs: set<string>, unreadable: set<string>,
                               written: seq<Entry>, failedAt: Option<nat>)
  {
    var n := |emptyDirs|;
    MarkersFirst(written, emptyDirs) &&
    (failedAt.None? ==>
      |written| == n + |files| && written[n..] == FileEntries(files) && Distinct(Names(written)) &&
      (forall it :: it in files ==> it.key !in unreadable)) &&
    (failedAt.Some? ==>
      failedAt.value < |files| && written[n..] == FileEntries(files[..failedAt.value]) &&
      Refused(files[failedAt.value], Names(written), unreadable))
  }

  lemma WrittenOutcomeOf(roots: seq<Root>, files: seq<Item>, emptyDirs: set<string>, unreadable: set<string>,
                         written: seq<Entry>, failedAt: Option<nat>)
    requires files == Collected(roots) && emptyDirs == EmptyDirsRoots(roots)
    requires WriteOutcome(files, emptyDirs, unreadable, written, failedAt)
    ensures failedAt.None? ==> ArchivedAll(roots, written, unreadable)
    ensures failedAt.Some? ==> StoppedAtRefused(roots, written, unreadable)
  {
  }

  /** The markers come first in the archive: one empty entry per marker, and every
      marker among them. */
  predicate MarkersFirst(written: seq<Entry>, dirs: set<string>)
  {
    |dirs| <= |written| &&
    (forall i :: 0 <= i < |dirs| ==> written[i].data == [] && written[i].name in dirs) &&
    (forall d :: d in dirs ==> exists i :: 0 <= i < |dirs| && written[i] == Entry(d, []))
  }

  /** The two loops together leave either every file written or the files before the
      first refused one. */
  lemma WrittenOutcome(files: seq<Item>, emptyDirs: set<string>, unreadable: set<string>, order: seq<string>,
                       dirEntries: seq<Entry>, fileEntries: seq<Entry>, failedAt: Option<nat>)
    requires Distinct(order) && |order| == |emptyDirs| && forall d :: d in order <==> d in emptyDirs
    requires |dirEntries| == |order| && forall i :: 0 <= i < |order| ==> dirEntries[i] == Entry(order[i], [])
    requires var k := if failedAt.Some? then failedAt.value else |files|;
      k <= |files| && fileEntries == FileEntries(files[..k]) && AcceptedUpTo(files, order, unreadable, k) &&
      (failedAt.Some? ==> k < |files| && Refused(files[k], order + Names(FileEntries(files[..k])), unreadable))
    ensures WriteOutcome(files, emptyDirs, unreadable, dirEntries + fileEntries, failedAt)
  {
    var written := dirEntries + fileEntries;
    assert Names(written) == order + Names(fileEntries) by {
      assert Names(dirEntries) == order;
      NamesAppend(dirEntries, fileEntries);
    }
    assert written[|order|..] == fileEntries;
    MarkersWritten(emptyDirs, order, dirEntries, fileEntries);
    if failedAt.None? {
      assert files[..|files|] == files;
      AllAccepted(files, order, unreadable);
    } else {
      var k := failedAt.value;
      assert Refused(files[k], Names(written), unreadable);
    }
  }

  /** The marker loop's entries, whatever follows them, put every marker first. */
  lemma MarkersWritten(emptyDirs: set<string>, order: seq<string>, dirEntries: seq<Entry>, fileEntries: seq<Entry>)
    requires |order| == |emptyDirs| && forall d :: d in order <==> d in emptyDirs
    requires |dirEntries| == |order| && forall i :: 0 <= i < |order| ==> dirEntries[i] == Entry(order[i], [])
    ensures MarkersFirst(dirEntries + fileEntries, emptyDirs)
  {
    var written := dirEntries + fileEntries;
    forall i | 0 <= i < |order| ensures written[i].data == [] && written[i].name in emptyDirs {
      assert written[i] == dirEntries[i];
    }
    forall d | d in emptyDirs ensures exists i :: 0 <= i < |emptyDirs| && written[i] == Entry(d, []) {
      var i :| 0 <= i < |order| && order[i] == d;
      assert written[i] == dirEntries[i];
    }
  }

  lemma AllAccepted(files: seq<Item>, order: seq<string>, unreadable: set<string>)
    requires Distinct(order) && AcceptedUpTo(files, order, unreadable, |files|)
    ensures Distinct(order + Names(FileEntries(files)))
    ensures forall it :: it in files ==> it.key !in unreadable
  {
    AcceptedDistinct(files, order, unreadable, |files|);
    assert files[..|files|] == files;
    forall it | it in files ensures it.key !in unreadable {
      var j :| 0 <= j < |files| && files[j] == it;
    }
  }

  // ---------------------------------------------------------------- extracting

  /** The position of the last '/' in a name, if any. */
  function LastSlash(name: string): (r: Option<nat>)
    ensures r.Some? ==> r.value < |name| && name[r.value] == '/' && forall i :: r.value < i < |name| ==> name[i] != '/'
    ensures r.None? ==> forall i :: 0 <= i < |name| ==> name[i] != '/'
  {
    if name == [] then None
    else if name[|name| - 1] == '/' then Some(|name| - 1)
    else LastSlash(name[..|name| - 1])
  }

  /** new File(desDir, entryName) for a file entry: the entry's own name, in the
      sub-directory of the destination its path names. */
  function Dest(folder: string, name: string): Path
  {
    match LastSlash(name)
    case None => Path(folder, name)
    case Some(k) => Path(ChildPath(folder, name[..k]), name[k + 1..])
  }

  /** new File(desDir, entryName) for a directory entry, without its final '/'. */
  function DirPath(folder: string, name: string): string
  {
    ChildPath(folder, if EndsWith(name, "/") then name[..|name| - 1] else name)
  }

  /** Different entry names never share a destination file. */
  lemma DestInjective(folder: string, a: string, b: string)
    requires Dest(folder, a) == Dest(folder, b)
    ensures a == b
  {
    match (LastSlash(a), LastSlash(b))
    case (None, None) =>
    case (Some(i), Some(j)) =>
      var pa, pb := ChildPath(folder, a[..i]), ChildPath(folder, b[..j]);
      assert pa[|folder| + 1..] == a[..i] && pb[|folder| + 1..] == b[..j];
      assert a == a[..i] + a[i..] && a[i..] == ['/'] + a[i + 1..];
      assert b == b[..j] + b[j..] && b[j..] == ['/'] + b[j + 1..];
    case (Some(_), None) =>
    case (None, Some(_)) =>
  }

  /** The directory mkdirs is called on for an entry: the entry's own for a directory,
      else the parent of its destination. */
  function MadeFor(folder: string, e: Entry, recode: string -> string): string
  {
    if IsDirectory(e) then DirPath(folder, recode(e.name)) else Dest(folder, recode(e.name)).dir
  }

  function Made(folder: string, es: seq<Entry>, recode: string -> string): set<string>
  {
    if es == [] then {} else Made(folder, es[..|es| - 1], recode) + {MadeFor(folder, es[|es| - 1], recode)}
  }

  /** The files on disk after the entries are extracted: each file entry's bytes at
      its destination, a later entry replacing an earlier one with the same name. */
  function Extracted(files: map<Path, seq<char>>, folder: string, es: seq<Entry>, recode: string -> string): map<Path, seq<char>>
  {
    if es == [] then files
    else
      var prev := Extracted(files, folder, es[..|es| - 1], recode);
      var e := es[|es| - 1];
      if IsDirectory(e) then prev else prev[Dest(folder, recode(e.name)) := e.data]
  }

  /** The destination files, in order, of the file entries among `es`. */
  function ExtractedFiles(folder: string, es: seq<Entry>, recode: string -> string): seq<Path>
  {
    if es == [] then []
    else
      var e := es[|es| - 1];
      ExtractedFiles(folder, es[..|es| - 1], recode) + if IsDirectory(e) then [] else [Dest(folder, recode(e.name))]
  }

  /** A destination that cannot be written once its directory was made: it is locked,
      or it is missing and its directory refuses new files. */
  predicate Blocked(disk: Disk, files: map<Path, seq<char>>, p: Path)
  {
    p in disk.locked || (p !in files && p.dir in disk.unwritable)
  }

  /** None of the first k entries hit a blocked destination. */
  predicate ExtractableUpTo(disk: Disk, files: map<Path, seq<char>>, folder: string, es: seq<Entry>, recode: string -> string, k: nat)
    requires k <= |es|
  {
    forall j :: 0 <= j < k && !IsDirectory(es[j]) ==>
      !Blocked(disk, Extracted(files, folder, es[..j], recode), Dest(folder, recode(es[j].name)))
  }

  /** Every report is about one of the entries `es`, by its recoded name, numbered at
      most `bound`, with a whole percentage. */
  ghost predicate EntryReportsUpTo(reports: seq<Event>, es: seq<Entry>, recode: string -> string, bound: nat)
  {
    forall r :: 0 <= r < |reports| ==>
      reports[r].Progress? && 0 < reports[r].index <= bound && bound <= |es| && reports[r].totalItems == |es| &&
      reports[r].item == recode(es[reports[r].index - 1].name) && 0 <= reports[r].percent <= 100
  }

  /** The reports of an extraction: about its entries, in order. */
  ghost predicate ReportsOnEntries(reports: seq<Event>, es: seq<Entry>, recode: string -> string)
  {
    EntryReportsUpTo(reports, es, recode, |es|) && InOrder(reports)
  }

  /** One entry of unzipFile (createFirst: a missing file is made with createNewFile
      before the stream is opened) or of upZipSelectedFile (sizedDirs: a directory's
      report carries its size). */
  method ExtractOne(disk: Disk, folder: string, e: Entry, recode: string -> string, total: nat, idx: nat,
                    createFirst: bool, sizedDirs: bool)
    returns (ok: bool, reports: seq<Event>)
    requires disk.Valid()
    modifies disk`dirs, disk`files, disk`handles
    ensures disk.Valid() && disk.handles == old(disk.handles)
    ensures disk.dirs == old(disk.dirs) + ({MadeFor(folder, e, recode)} - disk.unwritable)
    ensures IsDirectory(e) ==>
      var size := if sizedDirs then |e.data| else 0;
      ok && disk.files == old(disk.files) && reports == [Progress(recode(e.name), 100, total, idx, size, size)]
    ensures !IsDirectory(e) ==> StepOutcome(disk, old(disk.files), disk.files, Dest(folder, recode(e.name)), e.data, createFirst, ok)
    ensures !IsDirectory(e) ==> (!ok ==> reports == []) && ReportsOnOne(reports, recode(e.name), e.data, total, idx)
  {
    var entryName := recode(e.name);
    if IsDirectory(e) {
      disk.Mkdirs(DirPath(folder, entryName));
      var size := if sizedDirs then |e.data| else 0;
      return true, [Progress(entryName, 100, total, idx, size, size)];
    }
    ok, reports := ExtractFile(disk, Dest(folder, entryName), entryName, e.data, total, idx, createFirst);
  }

  /** What extracting one file entry does to the files: its bytes at its destination,
      or, when the destination is blocked, nothing but the empty file createNewFile
      may have left. */
  ghost predicate StepOutcome(disk: Disk, before: map<Path, seq<char>>, after: map<Path, seq<char>>, p: Path,
                              data: seq<char>, createFirst: bool, ok: bool)
  {
    && ok == !Blocked(disk, before, p)
    && (ok ==> after == before[p := data])
    && (!ok ==> after == if createFirst && p !in before && p.dir !in disk.unwritable then before[p := []] else before)
  }

  method ExtractFile(disk: Disk, p: Path, entryName: string, data: seq<char>, total: nat, idx: nat, createFirst: bool)
    returns (ok: bool, reports: seq<Event>)
    requires disk.Valid()
    modifies disk`dirs, disk`files, disk`handles
    ensures disk.Valid() && disk.handles == old(disk.handles)
    ensures disk.dirs == old(disk.dirs) + ({p.dir} - disk.unwritable)
    ensures StepOutcome(disk, old(disk.files), disk.files, p, data, createFirst, ok)
    ensures (!ok ==> reports == []) && ReportsOnOne(reports, entryName, data, total, idx)
  {
    ok := OpenDestination(disk, p, createFirst);
    if !ok {
      return false, [];
    }
    var copied;
    copied, reports := CopyChunks(entryName, data, total, idx);
    SaveData(disk, p, copied);
    UpdateTwice(old(disk.files), p, [], data);
  }

  /** The first half of extracting a file: its directory is made, a missing file is
      created first when createFirst, and a truncating stream is opened on it. */
  method OpenDestination(disk: Disk, p: Path, createFirst: bool) returns (ok: bool)
    requires disk.Valid()
    modifies disk`dirs, disk`files, disk`handles
    ensures disk.Valid()
    ensures disk.dirs == old(disk.dirs) + ({p.dir} - disk.unwritable)
    ensures ok == !Blocked(disk, old(disk.files), p)
    ensures ok ==> disk.files == old(disk.files)[p := []] && disk.handles == old(disk.handles) + multiset{p}
    ensures !ok ==> disk.handles == old(disk.handles)
    ensures !ok ==>
      disk.files == if createFirst && p !in old(disk.files) && p.dir !in disk.unwritable then old(disk.files)[p := []] else old(disk.files)
  {
    disk.Mkdirs(p.dir);
    assert disk.CanCreate(p) <==> p.dir !in disk.unwritable;
    if createFirst && !disk.Exists(p) {
      var created := disk.CreateNewFile(p);
      if created == CreateFailed {
        return false;
      }
    }
    ok := disk.OpenOutput(p, false);
  }

  /** The end of writing a file, an extracted entry or zipFiles' archive: the bytes go
      to the stream just opened on `p`, which is then closed. */
  method SaveData(disk: Disk, p: Path, data: seq<char>)
    requires disk.Valid() && p in disk.handles && p in disk.files && disk.files[p] == []
    modifies disk`files, disk`handles
    ensures disk.Valid() && disk.handles == old(disk.handles) - multiset{p}
    ensures disk.files == old(disk.files)[p := data]
  {
    disk.WriteOutput(p, data);
    assert [] + data == data;
    disk.CloseOutput(p);
  }

  /** What an extraction leaves: the first k entries extracted, none of them blocked,
      and, when entry k stopped it, that entry blocked and at most the empty file
      createNewFile made. */
  ghost predicate ExtractOutcome(disk: Disk, before: map<Path, seq<char>>, after: map<Path, seq<char>>, folder: string,
                                 es: seq<Entry>, recode: string -> string, createFirst: bool, failedAt: Option<nat>)
  {
    var k := if failedAt.Some? then failedAt.value else |es|;
    k <= |es| && ExtractableUpTo(disk, before, folder, es, recode, k) &&
    (failedAt.None? ==> after == Extracted(before, folder, es, recode)) &&
    (failedAt.Some? ==>
      k < |es| && !IsDirectory(es[k]) &&
      StepOutcome(disk, Extracted(before, folder, es[..k], recode), after, Dest(folder, recode(es[k].name)), es[k].data, createFirst, false))
  }

  lemma ExtendEntryReports(reports: seq<Event>, more: seq<Event>, es: seq<Entry>, recode: string -> string, i: nat, sizedDirs: bool)
    requires i < |es| && EntryReportsUpTo(reports, es, recode, i) && InOrder(reports)
    requires IsDirectory(es[i]) ==>
      var size := if sizedDirs then |es[i].data| else 0;
      more == [Progress(recode(es[i].name), 100, |es|, i + 1, size, size)]
    requires !IsDirectory(es[i]) ==> ReportsOnOne(more, recode(es[i].name), es[i].data, |es|, i + 1)
    ensures EntryReportsUpTo(reports + more, es, recode, i + 1) && InOrder(reports + more)
  {
    var all := reports + more;
    forall r | |reports| <= r < |all|
      ensures all[r].Progress? && all[r].index == i + 1 && all[r].totalItems == |es| &&
              all[r].item == recode(es[i].name) && 0 <= all[r].percent <= 100
    {
      assert all[r] == more[r - |reports|];
    }
    forall a, b | 0 <= a < b < |all| ensures ReportedBefore(all[a], all[b]) {
      if b >= |reports| && a >= |reports| {
        assert all[a] == more[a - |reports|] && all[b] == more[b - |reports|];
      }
    }
  }

  /** One turn of the extraction loop keeps its invariants. */
  lemma ExtractStep(disk: Disk, before: map<Path, seq<char>>, folder: string, es: seq<Entry>, recode: string -> string,
                    i: nat, mid: map<Path, seq<char>>, after: map<Path, seq<char>>, createFirst: bool)
    requires i < |es| && mid == Extracted(before, folder, es[..i], recode)
    requires ExtractableUpTo(disk, before, folder, es, recode, i)
    requires IsDirectory(es[i]) ==> after == mid
    requires !IsDirectory(es[i]) ==> StepOutcome(disk, mid, after, Dest(folder, recode(es[i].name)), es[i].data, createFirst, true)
    ensures after == Extracted(before, folder, es[..i + 1], recode)
    ensures ExtractableUpTo(disk, before, folder, es, recode, i + 1)
  {
    assert es[..i + 1][..i] == es[..i];
  }

  /** The extraction stops at entry i, a file whose destination is blocked. */
  lemma ExtractStopped(disk: Disk, before: map<Path, seq<char>>, mid: map<Path, seq<char>>, after: map<Path, seq<char>>,
                       folder: string, es: seq<Entry>, recode: string -> string, createFirst: bool, i: nat, reports: seq<Event>)
    requires i < |es| && mid == Extracted(before, folder, es[..i], recode)
    requires ExtractableUpTo(disk, before, folder, es, recode, i) && !IsDirectory(es[i])
    requires StepOutcome(disk, mid, after, Dest(folder, recode(es[i].name)), es[i].data, createFirst, false)
    requires EntryReportsUpTo(reports, es, recode, i) && InOrder(reports)
    ensures ReportsOnEntries(reports, es, recode)
    ensures ExtractOutcome(disk, before, after, folder, es, recode, createFirst, Some(i))
  {
  }

  lemma MadeStep(folder: string, es: seq<Entry>, recode: string -> string, i: nat)
    requires i < |es|
    ensures Made(folder, es[..i + 1], recode) == Made(folder, es[..i], recode) + {MadeFor(folder, es[i], recode)}
    ensures ExtractedFiles(folder, es[..i + 1], recode) ==
      ExtractedFiles(folder, es[..i], recode) + if IsDirectory(es[i]) then [] else [Dest(folder, recode(es[i].name))]
  {
    assert es[..i + 1][..i] == es[..i];
  }

  /** The state after the first i entries were extracted, none of them blocked. */
  ghost predicate Extracting(disk: Disk, before: map<Path, seq<char>>, dirs0: set<string>, folder: string, es: seq<Entry>,
                             recode: string -> string, i: nat, reports: seq<Event>, extracted: seq<Path>)
    reads disk
  {
    && i <= |es| && disk.Valid()
    && disk.files == Extracted(before, folder, es[..i], recode)
    && ExtractableUpTo(disk, before, folder, es, recode, i)
    && disk.dirs == dirs0 + (Made(folder, es[..i], recode) - disk.unwritable)
    && extracted == ExtractedFiles(folder, es[..i], recode)
    && EntryReportsUpTo(reports, es, recode, i) && InOrder(reports)
  }

  /** One turn of the extraction loop: entry i is extracted, or it is a blocked file
      and the extraction stops there with the outcome ExtractEntries promises. */
  method ExtractTurn(disk: Disk, folder: string, es: seq<Entry>, recode: string -> string, createFirst: bool, sizedDirs: bool,
                     i: nat, reports: seq<Event>, extracted: seq<Path>, ghost before: map<Path, seq<char>>, ghost dirs0: set<string>)
    returns (ok: bool, reports': seq<Event>, extracted': seq<Path>)
    requires i < |es| && Extracting(disk, before, dirs0, folder, es, recode, i, reports, extracted)
    modifies disk`dirs, disk`files, disk`handles
    ensures disk.handles == old(disk.handles)
    ensures ok ==> Extracting(disk, before, dirs0, folder, es, recode, i + 1, reports', extracted')
    ensures !ok ==>
      && disk.Valid() && reports' == reports && extracted' == extracted
      && ReportsOnEntries(reports, es, recode)
      && ExtractOutcome(disk, before, disk.files, folder, es, recode, createFirst, Some(i))
      && disk.dirs == dirs0 + (Made(folder, es[..i + 1], recode) - disk.unwritable)
      && extracted == ExtractedFiles(folder, es[..i], recode)
  {
    ghost var mid := disk.files;
    var more;
    ok, more := ExtractOne(disk, folder, es[i], recode, |es|, i + 1, createFirst, sizedDirs);
    MadeStep(folder, es, recode, i);
    reports', extracted' := reports, extracted;
    if !ok {
      ExtractStopped(disk, before, mid, disk.files, folder, es, recode, createFirst, i, reports);
      return;
    }
    ExtractStep(disk, before, folder, es, recode, i, mid, disk.files, createFirst);
    ExtendEntryReports(reports, more, es, recode, i, sizedDirs);
    reports' := reports + more;
    if !IsDirectory(es[i]) {
      extracted' := extracted + [Dest(folder, recode(es[i].name))];
    }
  }

  /** The loop over the listed entries shared by unzipFile (createFirst) and
      upZipSelectedFile (sizedDirs): each entry extracted in turn, numbered from 1, until
      the first whose destination is blocked. */
  method ExtractEntries(disk: Disk, folder: string, es: seq<Entry>, recode: string -> string, createFirst: bool, sizedDirs: bool)
    returns (reports: seq<Event>, failedAt: Option<nat>, extracted: seq<Path>)
    requires disk.Valid()
    modifies disk`dirs, disk`files, disk`handles
    ensures disk.Valid() && disk.handles == old(disk.handles)
    ensures ReportsOnEntries(reports, es, recode)
    ensures ExtractOutcome(disk, old(disk.files), disk.files, folder, es, recode, createFirst, failedAt)
    ensures var m := if failedAt.Some? then failedAt.value + 1 else |es|;
      m <= |es| && disk.dirs == old(disk.dirs) + (Made(folder, es[..m], recode) - disk.unwritable)
    ensures var k := if failedAt.Some? then failedAt.value else |es|;
      k <= |es| && extracted == ExtractedFiles(folder, es[..k], recode)
  {
    reports, failedAt, extracted := [], None, [];
    var i := 0;
    while i < |es|
      invariant i <= |es| && disk.handles == old(disk.handles)
      invariant Extracting(disk, old(disk.files), old(disk.dirs), folder, es, recode, i, reports, extracted)
    {
      var ok;
      ok, reports, extracted := ExtractTurn(disk, folder, es, recode, createFirst, sizedDirs, i, reports, extracted,
                                            old(disk.files), old(disk.dirs));
      if !ok {
        return reports, Some(i), extracted;
      }
      i := i + 1;
    }
    assert es[..|es|] == es;
  }

  /** new ZipFile(file): the archive a file holds; None when the file is missing or is
      not an archive (the constructor throws). */
  function ReadArchive(files: map<Path, seq<char>>, p: Path): Option<Archive>
  {
    if p in files then Parse(files[p]) else None
  }

  /** The loop turning zf.entries() into a list. */
  method ListEntries(a: Archive) returns (list: seq<Entry>)
    ensures list == a.entries
  {
    list := [];
    for i := 0 to |a.entries|
      invariant list == a.entries[..i]
    {
      assert a.entries[..i + 1] == a.entries[..i] + [a.entries[i]];
      list := list + [a.entries[i]];
    }
    assert a.entries[..|a.entries|] == a.entries;
  }

  /** unzipFile(zipFile, folderPath, listener), as its thread runs: make the
      destination, open the archive, list its entries, extract them one by one. */
  method UnzipFile(disk: Disk, zipFile: Path, folderPath: string, recode: string -> string)
    returns (reports: seq<Event>, last: Event, ghost failedAt: Option<nat>)
    requires disk.Valid()
    modifies disk`dirs, disk`files, disk`handles
    ensures disk.Valid() && disk.handles == old(disk.handles)
    ensures last == (if failedAt.None? then Succeeded(zipFile) else Failed)
    ensures ReadArchive(old(disk.files), zipFile).None? ==>
      reports == [] && disk.files == old(disk.files) &&
      disk.dirs == old(disk.dirs) + ({folderPath} - disk.unwritable)
    ensures ReadArchive(old(disk.files), zipFile).Some? ==>
      var es := ReadArchive(old(disk.files), zipFile).value.entries;
      var m := if failedAt.Some? then failedAt.value + 1 else |es|;
      && ReportsOnEntries(reports, es, recode)
      && ExtractOutcome(disk, old(disk.files), disk.files, folderPath, es, recode, true, failedAt)
      && m <= |es| && disk.dirs == old(disk.dirs) + (({folderPath} + Made(folderPath, es[..m], recode)) - disk.unwritable)
  {
    MakeFolder(disk, folderPath);
    var archive := ReadArchive(disk.files, zipFile);
    if archive.None? {
      reports, last, failedAt := [], Failed, Some(0);
      return;
    }
    var entryList := ListEntries(archive.value);
    var stoppedAt, extracted;
    reports, stoppedAt, extracted := ExtractEntries(disk, folderPath, entryList, recode, true, false);
    failedAt := stoppedAt;
    assert disk.dirs == old(disk.dirs) + (({folderPath} + Made(folderPath, entryList[..if stoppedAt.Some? then stoppedAt.value + 1 else |entryList|], recode)) - disk.unwritable);
    last := if stoppedAt.None? then Succeeded(zipFile) else Failed;
  }

  /** The target folder is made when it does not exist. */
  method MakeFolder(disk: Disk, folderPath: string)
    requires disk.Valid()
    modifies disk`dirs
    ensures disk.Valid()
    ensures disk.dirs == old(disk.dirs) + ({folderPath} - disk.unwritable)
  {
    if folderPath !in disk.dirs {
      disk.Mkdirs(folderPath);
    }
  }

  /** The entries whose name contains the given text, in archive order. */
  function Selected(es: seq<Entry>, nameContains: string): (r: seq<Entry>)
    ensures |r| <= |es|
    ensures forall e :: e in r <==> e in es && Contains(e.name, nameContains)
  {
    if es == [] then []
    else
      Selected(es[..|es| - 1], nameContains) +
      if Contains(es[|es| - 1].name, nameContains) then [es[|es| - 1]] else []
  }

  /** The filtering loop of upZipSelectedFile over zf.entries(). */
  method SelectEntries(a: Archive, nameContains: string) returns (list: seq<Entry>)
    ensures list == Selected(a.entries, nameContains)
  {
    list := [];
    for i := 0 to |a.entries|
      invariant list == Selected(a.entries[..i], nameContains)
    {
      assert a.entries[..i + 1][..i] == a.entries[..i];
      if Contains(a.entries[i].name, nameContains) {
        list := list + [a.entries[i]];
      }
    }
    assert a.entries[..|a.entries|] == a.entries;
  }

  /** The ArrayList upZipSelectedFile hands back, which its task fills later. */
  class FileList {
    var files: seq<Path>

    constructor ()
      ensures files == []
    {
      files := [];
    }

    method Add(p: Path)
      modifies this
      ensures files == old(files) + [p]
    {
      files := files + [p];
    }
  }

  /** upZipSelectedFile(zipFile, folderPath, nameContains, listener) returns at once:
      the list it answers is empty, and the extraction that fills it is the task
      SelectedUnzipTask runs later on the shared executor. */
  method UpZipSelectedFile() returns (fileList: FileList)
    ensures fresh(fileList) && fileList.files == []
  {
    fileList := new FileList();
  }

  /** The task upZipSelectedFile submits: extract only the entries whose name contains
      `nameContains`, numbering them among themselves, and add each file written to the
      list the caller was given. */
  method SelectedUnzipTask(disk: Disk, zipFile: Path, folderPath: string, nameContains: string,
                           recode: string -> string, fileList: FileList)
    returns (reports: seq<Event>, last: Event, ghost failedAt: Option<nat>)
    requires disk.Valid()
    modifies disk`dirs, disk`files, disk`handles, fileList`files
    ensures disk.Valid() && disk.handles == old(disk.handles)
    ensures last == (if failedAt.None? then Succeeded(zipFile) else Failed)
    ensures ReadArchive(old(disk.files), zipFile).None? ==>
      reports == [] && disk.files == old(disk.files) && fileList.files == old(fileList.files) &&
      disk.dirs == old(disk.dirs) + ({folderPath} - disk.unwritable)
    ensures ReadArchive(old(disk.files), zipFile).Some? ==>
      var es := Selected(ReadArchive(old(disk.files), zipFile).value.entries, nameContains);
      var k := if failedAt.Some? then failedAt.value else |es|;
      var m := if failedAt.Some? then failedAt.value + 1 else |es|;
      && ReportsOnEntries(reports, es, recode)
      && ExtractOutcome(disk, old(disk.files), disk.files, folderPath, es, recode, false, failedAt)
      && m <= |es| && disk.dirs == old(disk.dirs) + (({folderPath} + Made(folderPath, es[..m], recode)) - disk.unwritable)
      && fileList.files == old(fileList.files) + ExtractedFiles(folderPath, es[..k], recode)
  {
    MakeFolder(disk, folderPath);
    var archive := ReadArchive(disk.files, zipFile);
    if archive.None? {
      reports, last, failedAt := [], Failed, Some(0);
      return;
    }
    var filtered := SelectEntries(archive.value, nameContains);
    var stoppedAt, extracted;
    reports, stoppedAt, extracted := ExtractEntries(disk, folderPath, filtered, recode, false, true);
    failedAt := stoppedAt;
    assert disk.dirs == old(disk.dirs) + (({folderPath} + Made(folderPath, filtered[..if stoppedAt.Some? then stoppedAt.value + 1 else |filtered|], recode)) - disk.unwritable);
    fileList.files := fileList.files + extracted;
    last := if stoppedAt.None? then Succeeded(zipFile) else Failed;
  }

  // ---------------------------------------------------------------- reading entries

  /** getEntriesList(zipFile): the entries of the archive, or None where the library
      throws (no such file, not an archive). */
  method GetEntriesList(disk: Disk, zipFile: Path) returns (r: Option<seq<Entry>>)
    ensures r.None? <==> ReadArchive(disk.files, zipFile).None?
    ensures r.Some? ==> r.value == ReadArchive(disk.files, zipFile).value.entries
  {
    var archive := ReadArchive(disk.files, zipFile);
    if archive.None? {
      return None;
    }
    var entryList := ListEntries(archive.value);
    return Some(entryList);
  }

  /** An archive file reads back as the archive written into it. */
  lemma ReadWritten(files: map<Path, seq<char>>, p: Path, a: Archive)
    requires p in files && files[p] == Image(a)
    ensures ReadArchive(files, p) == Some(a)
  {
    ParseImage(a);
  }

  predicate IsAscii(s: string)
  {
    forall i :: 0 <= i < |s| ==> s[i] < 128 as char
  }

  /** Encoding to GB2312 and decoding the bytes as ISO-8859-1 leaves ASCII text as it
      is: both agree with ASCII on its 128 characters. */
  ghost predicate KeepsAscii(recode: string -> string)
  {
    forall s :: IsAscii(s) ==> recode(s) == s
  }

  /** getEntryName(entry): the name re-read through the two charsets. */
  function GetEntryName(e: Entry, recode: string -> string): (r: string)
    ensures KeepsAscii(recode) && IsAscii(e.name) ==> r == e.name
  {
    recode(e.name)
  }

  /** getEntryComment(entry): "" for an entry without a comment, else the comment
      re-read through the two charsets. */
  function GetEntryComment(comment: Option<string>, recode: string -> string): (r: string)
    ensures comment.None? ==> r == ""
    ensures comment.Some? && KeepsAscii(recode) && IsAscii(comment.value) ==> r == comment.value
  {
    if comment.None? then "" else recode(comment.value)
  }

  /** getEntriesNames(zipFile): each entry's name as getEntryName gives it, re-read
      through the two charsets once more. */
  method GetEntriesNames(disk: Disk, zipFile: Path, recode: string -> string) returns (r: Option<seq<string>>)
    ensures r.None? <==> ReadArchive(disk.files, zipFile).None?
    ensures r.Some? ==>
      var es := ReadArchive(disk.files, zipFile).value.entries;
      |r.value| == |es| && forall i :: 0 <= i < |es| ==> r.value[i] == recode(GetEntryName(es[i], recode))
  {
    var entries := GetEntriesList(disk, zipFile);
    if entries.None? {
      return None;
    }
    var es := entries.value;
    var entryNames := [];
    for i := 0 to |es|
      invariant |entryNames| == i && forall j :: 0 <= j < i ==> entryNames[j] == recode(GetEntryName(es[j], recode))
    {
      entryNames := entryNames + [recode(GetEntryName(es[i], recode))];
    }
    return Some(entryNames);
  }

  /** With ASCII names, the doubled re-reading changes nothing: the names listed are
      the names stored. */
  lemma AsciiNamesListed(es: seq<Entry>, names: seq<string>, recode: string -> string)
    requires KeepsAscii(recode) && forall i :: 0 <= i < |es| ==> IsAscii(es[i].name)
    requires |names| == |es| && forall i :: 0 <= i < |es| ==> names[i] == recode(GetEntryName(es[i], recode))
    ensures names == Names(es)
  {
    forall i | 0 <= i < |es| ensures names[i] == es[i].name {
      assert GetEntryName(es[i], recode) == es[i].name;
    }
  }

  // ---------------------------------------------------------------- what extraction leaves

  /** Files that are no entry's destination keep their presence and contents. */
  lemma {:induction false} ExtractedElsewhere(files: map<Path, seq<char>>, folder: string, es: seq<Entry>,
                                              recode: string -> string, p: Path)
    requires p !in ExtractedFiles(folder, es, recode)
    ensures p in Extracted(files, folder, es, recode) <==> p in files
    ensures p in files ==> Extracted(files, folder, es, recode)[p] == files[p]
  {
    if es != [] {
      ExtractedElsewhere(files, folder, es[..|es| - 1], recode, p);
    }
  }

  /** A file entry that no later file entry shares a destination with leaves its bytes
      at its destination. */
  lemma {:induction false} ExtractedHolds(files: map<Path, seq<char>>, folder: string, es: seq<Entry>,
                                          recode: string -> string, i: nat)
    requires i < |es| && !IsDirectory(es[i])
    requires forall j :: i < j < |es| && !IsDirectory(es[j]) ==>
      Dest(folder, recode(es[j].name)) != Dest(folder, recode(es[i].name))
    ensures Dest(folder, recode(es[i].name)) in Extracted(files, folder, es, recode)
    ensures Extracted(files, folder, es, recode)[Dest(folder, recode(es[i].name))] == es[i].data
  {
    if i < |es| - 1 {
      var prefix := es[..|es| - 1];
      assert prefix[i] == es[i];
      forall j | i < j < |prefix| && !IsDirectory(prefix[j])
        ensures Dest(folder, recode(prefix[j].name)) != Dest(folder, recode(prefix[i].name))
      {
        assert prefix[j] == es[j];
      }
      ExtractedHolds(files, folder, prefix, recode, i);
    }
  }

  /** Zipping and then extracting with a recoding that leaves the stored names alone
      puts every collected file, under its entry path, back with its own bytes. */
  lemma ZipThenUnzip(roots: seq<Root>, written: seq<Entry>, unreadable: set<string>, files: map<Path, seq<char>>,
                     folder: string, recode: string -> string, j: nat)
    requires ArchivedAll(roots, written, unreadable)
    requires forall i :: 0 <= i < |written| ==> recode(written[i].name) == written[i].name
    requires j < |Collected(roots)| && !EndsWith(Collected(roots)[j].entryPath, "/")
    ensures var f := Collected(roots)[j];
      Dest(folder, f.entryPath) in Extracted(files, folder, written, recode) &&
      Extracted(files, folder, written, recode)[Dest(folder, f.entryPath)] == f.data
  {
    var f := Collected(roots)[j];
    var n := |EmptyDirsRoots(roots)|;
    var at := n + j;
    assert written[at] == written[n..][j] == Entry(f.entryPath, f.data);
    forall k | at < k < |written| && !IsDirectory(written[k])
      ensures Dest(folder, recode(written[k].name)) != Dest(folder, recode(written[at].name))
    {
      if Dest(folder, recode(written[k].name)) == Dest(folder, recode(written[at].name)) {
        DestInjective(folder, recode(written[k].name), recode(written[at].name));
      }
    }
    ExtractedHolds(files, folder, written, recode, at);
  }

  /** Every entry's directory is among those extraction makes. */
  lemma {:induction false} MadeHas(folder: string, es: seq<Entry>, recode: string -> string, i: nat)
    requires i < |es|
    ensures MadeFor(folder, es[i], recode) in Made(folder, es, recode)
    decreases |es|
  {
    if i < |es| - 1 {
      assert es[..|es| - 1][i] == es[i];
      MadeHas(folder, es[..|es| - 1], recode, i);
    }
  }

  /** Zipping and then extracting with a recoding that leaves the stored names alone
      makes every empty directory of the zipped tree again: each marker's directory
      is among those UnzipFile adds under the target folder. */
  lemma ZipThenUnzipDirs(roots: seq<Root>, written: seq<Entry>, unreadable: set<string>,
                         folder: string, recode: string -> string, m: string)
    requires ArchivedAll(roots, written, unreadable)
    requires forall i :: 0 <= i < |written| ==> recode(written[i].name) == written[i].name
    requires m in EmptyDirsRoots(roots)
    ensures EndsWith(m, "/") && DirPath(folder, m) == ChildPath(folder, m[..|m| - 1])
    ensures DirPath(folder, m) in Made(folder, written, recode)
  {
    RootMarkersAreDirectories(roots);
    assert IsDirectory(Entry(m, []));
    var i :| 0 <= i < |EmptyDirsRoots(roots)| && written[i] == Entry(m, []);
    MadeHas(folder, written, recode, i);
  }
}
