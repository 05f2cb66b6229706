/** The size sweep of a log directory: the order in which files are offered for
    deletion, and which of them the sweep removes to bring the directory back under
    its size budget. */
module Eviction {
  import opened Wrappers
  import opened JavaString
  import opened LogNames

  /** The order files are offered in: by name (Comparator.comparing(File::getName)),
      or by the day each name carries and then by name. */
  datatype Order = ByName | ByAge

  /** The day a name carries, read as the date sweep reads it; else the name itself. */
  function AgeKey(name: string): string
  {
    match FileDate(name)
    case Some(d) => d
    case None => name
  }

  predicate Precedes(o: Order, a: string, b: string)
  {
    match o
    case ByName => Le(a, b)
    case ByAge => CompareTo(AgeKey(a), AgeKey(b)) < 0 || (AgeKey(a) == AgeKey(b) && Le(a, b))
  }

  /** Both orders are total ... */
  lemma PrecedesTotal(o: Order, a: string, b: string)
    ensures Precedes(o, a, b) || Precedes(o, b, a)
  {
    LeTotal(a, b);
    CompareToAntisymmetric(AgeKey(a), AgeKey(b));
    CompareToZero(AgeKey(a), AgeKey(b));
  }

  /** ... and transitive, so a sort by them is well defined. */
  lemma PrecedesTransitive(o: Order, a: string, b: string, c: string)
    requires Precedes(o, a, b) && Precedes(o, b, c)
    ensures Precedes(o, a, c)
  {
    match o
    case ByName =>
      LeTransitive(a, b, c);
    case ByAge =>
      var ka, kb, kc := AgeKey(a), AgeKey(b), AgeKey(c);
      if CompareTo(ka, kb) < 0 && CompareTo(kb, kc) < 0 {
        LessTransitive(ka, kb, kc);
      } else if CompareTo(ka, kb) >= 0 && CompareTo(kb, kc) >= 0 {
        LeTransitive(a, b, c);
      }
  }

  predicate SortedBy(o: Order, s: seq<string>)
  {
    forall i, j :: 0 <= i < j < |s| ==> Precedes(o, s[i], s[j])
  }

  function Insert(o: Order, x: string, s: seq<string>): seq<string>
  {
    if s == [] || Precedes(o, x, s[0]) then [x] + s else [s[0]] + Insert(o, x, s[1..])
  }

  /** Arrays.sort with the order as comparator. */
  function Sort(o: Order, s: seq<string>): seq<string>
  {
    if s == [] then [] else Insert(o, s[0], Sort(o, s[1..]))
  }

  /** Inserting keeps the list sorted. */
  lemma {:induction false} InsertSorted(o: Order, x: string, s: seq<string>)
    requires SortedBy(o, s)
    ensures SortedBy(o, Insert(o, x, s))
  {
    if s == [] {
    } else if Precedes(o, x, s[0]) {
      forall y | y in s ensures Precedes(o, x, y) {
        if y != s[0] {
          SortedHead(o, s, y);
          PrecedesTransitive(o, x, s[0], y);
        }
      }
      ConsSorted(o, x, s);
    } else {
      PrecedesTotal(o, x, s[0]);
      var t := Insert(o, x, s[1..]);
      InsertSorted(o, x, s[1..]);
      InsertMembers(o, x, s[1..]);
      forall y | y in t ensures Precedes(o, s[0], y) {
        if y != x {
          SortedHead(o, s, y);
        }
      }
      ConsSorted(o, s[0], t);
    }
  }

  /** A name that precedes every name of a sorted list can go in front of it. */
  lemma ConsSorted(o: Order, h: string, t: seq<string>)
    requires SortedBy(o, t) && forall y :: y in t ==> Precedes(o, h, y)
    ensures SortedBy(o, [h] + t)
  {
    var r := [h] + t;
    forall i, j | 0 <= i < j < |r| ensures Precedes(o, r[i], r[j]) {
      assert r[j] == t[j - 1];
      if i > 0 {
        assert r[i] == t[i - 1];
      }
    }
  }

  /** The first name of a sorted list precedes every later one. */
  lemma SortedHead(o: Order, s: seq<string>, y: string)
    requires SortedBy(o, s) && s != [] && y in s[1..]
    ensures Precedes(o, s[0], y)
  {
    var k :| 0 <= k < |s[1..]| && s[1..][k] == y;
    assert s[k + 1] == y;
  }

  /** Inserting adds exactly one occurrence of the new name. */
  lemma {:induction false} InsertPerm(o: Order, x: string, s: seq<string>)
    ensures multiset(Insert(o, x, s)) == multiset(s) + multiset{x}
  {
    if s != [] && !Precedes(o, x, s[0]) {
      InsertPerm(o, x, s[1..]);
      assert s == [s[0]] + s[1..];
    }
  }

  /** The inserted list holds the new name and the old ones, nothing else. */
  lemma {:induction false} InsertMembers(o: Order, x: string, s: seq<string>)
    ensures forall y :: y in Insert(o, x, s) <==> y == x || y in s
  {
    if s != [] && !Precedes(o, x, s[0]) {
      InsertMembers(o, x, s[1..]);
      assert s == [s[0]] + s[1..];
    }
  }

  /** Inserting a new name into a list of distinct names keeps them distinct. */
  lemma {:induction false} InsertDistinct(o: Order, x: string, s: seq<string>)
    requires Distinct(s) && x !in s
    ensures Distinct(Insert(o, x, s))
  {
    if s != [] && !Precedes(o, x, s[0]) {
      InsertDistinct(o, x, s[1..]);
      InsertMembers(o, x, s[1..]);
      assert s[0] !in s[1..];
    }
  }

  /** The sort yields its input, reordered, in the order it was given. */
  lemma {:induction false} SortSpec(o: Order, s: seq<string>)
    ensures SortedBy(o, Sort(o, s))
    ensures multiset(Sort(o, s)) == multiset(s)
  {
    if s != [] {
      SortSpec(o, s[1..]);
      InsertSorted(o, s[0], Sort(o, s[1..]));
      InsertPerm(o, s[0], Sort(o, s[1..]));
      assert s == [s[0]] + s[1..];
    }
  }

  /** Sorting distinct names keeps them distinct and keeps exactly those names. */
  lemma {:induction false} SortDistinct(o: Order, s: seq<string>)
    requires Distinct(s)
    ensures Distinct(Sort(o, s))
    ensures forall y :: y in Sort(o, s) <==> y in s
  {
    if s != [] {
      SortDistinct(o, s[1..]);
      assert s[0] !in s[1..];
      InsertDistinct(o, s[0], Sort(o, s[1..]));
      InsertMembers(o, s[0], Sort(o, s[1..]));
      assert s == [s[0]] + s[1..];
    }
  }

  /** A file offered to the sweep: its name, its length, and whether delete() removes it. */
  datatype Candidate = Candidate(name: string, size: nat, deletable: bool)

  /** What the sweep does: the files it deletes, the total it ends with, and how many
      files it looked at before the total fitted. */
  datatype Plan = Plan(deleted: seq<Candidate>, remaining: int, visited: nat)

  /** The loop of cleanupOldLogsBySize over the sorted files, starting from `total`:
      stop once the total is within `maxSize`; otherwise delete the next file and, if
      that succeeds, subtract its length. */
  function Evict(cs: seq<Candidate>, total: int, maxSize: int): Plan
    decreases |cs|
  {
    if cs == [] || total <= maxSize then Plan([], total, 0)
    else
      var c := cs[0];
      var rest := Evict(cs[1..], if c.deletable then total - c.size else total, maxSize);
      Plan((if c.deletable then [c] else []) + rest.deleted, rest.remaining, rest.visited + 1)
  }

  function Deletable(cs: seq<Candidate>): seq<Candidate>
  {
    if cs == [] then [] else (if cs[0].deletable then [cs[0]] else []) + Deletable(cs[1..])
  }

  lemma {:induction false} DeletableAppend(a: seq<Candidate>, b: seq<Candidate>)
    ensures Deletable(a + b) == Deletable(a) + Deletable(b)
  {
    if a != [] {
      assert (a + b)[0] == a[0] && (a + b)[1..] == a[1..] + b;
      DeletableAppend(a[1..], b);
    } else {
      assert a + b == b;
    }
  }

  /** One more candidate adds itself to the deletable ones exactly when it is deletable. */
  lemma DeletableSnoc(cs: seq<Candidate>, i: nat)
    requires i < |cs|
    ensures Deletable(cs[..i + 1]) == Deletable(cs[..i]) + (if cs[i].deletable then [cs[i]] else [])
  {
    assert cs[..i + 1] == cs[..i] + [cs[i]];
    DeletableAppend(cs[..i], [cs[i]]);
  }

  function SizeOf(cs: seq<Candidate>): int
  {
    if cs == [] then 0 else cs[0].size + SizeOf(cs[1..])
  }

  lemma {:induction false} SizeOfAppend(a: seq<Candidate>, b: seq<Candidate>)
    ensures SizeOf(a + b) == SizeOf(a) + SizeOf(b)
  {
    if a != [] {
      assert (a + b)[0] == a[0] && (a + b)[1..] == a[1..] + b;
      SizeOfAppend(a[1..], b);
    } else {
      assert a + b == b;
    }
  }

  /** The sweep deletes exactly the deletable files among the first `visited`, ends
      with the total less what it deleted, stops early only once the budget is met,
      and looks at no file after the point where the budget was met. */
  lemma {:induction false} EvictShape(cs: seq<Candidate>, total: int, maxSize: int)
    ensures var p := Evict(cs, total, maxSize);
      && p.visited <= |cs|
      && p.deleted == Deletable(cs[..p.visited])
      && p.remaining == total - SizeOf(p.deleted)
      && (p.visited < |cs| ==> p.remaining <= maxSize)
      && (forall j :: 0 <= j < p.visited ==> total - SizeOf(Deletable(cs[..j])) > maxSize)
    decreases |cs|
  {
    if cs == [] || total <= maxSize {
      assert cs[..0] == [];
    } else {
      var c := cs[0];
      var t := if c.deletable then total - c.size else total;
      EvictShape(cs[1..], t, maxSize);
      var rest := Evict(cs[1..], t, maxSize);
      var p := Evict(cs, total, maxSize);
      var head := if c.deletable then [c] else [];
      assert cs[..p.visited] == [c] + cs[1..][..rest.visited];
      SizeOfAppend(head, rest.deleted);
      RunningTotals(cs, total, maxSize, t, p.visited);
    }
  }

  /** The running totals before each visited file, from those of the rest. */
  lemma RunningTotals(cs: seq<Candidate>, total: int, maxSize: int, t: int, k: nat)
    requires cs != [] && total > maxSize && 0 < k <= |cs|
    requires t == if cs[0].deletable then total - cs[0].size else total
    requires forall j :: 0 <= j < k - 1 ==> t - SizeOf(Deletable(cs[1..][..j])) > maxSize
    ensures forall j :: 0 <= j < k ==> total - SizeOf(Deletable(cs[..j])) > maxSize
  {
    var c := cs[0];
    var head := if c.deletable then [c] else [];
    forall j | 0 <= j < k ensures total - SizeOf(Deletable(cs[..j])) > maxSize {
      if j > 0 {
        assert cs[..j] == [c] + cs[1..][..j - 1];
        assert ([c] + cs[1..][..j - 1])[1..] == cs[1..][..j - 1];
        assert Deletable(cs[..j]) == head + Deletable(cs[1..][..j - 1]);
        SizeOfAppend(head, Deletable(cs[1..][..j - 1]));
      } else {
        assert cs[..0] == [];
      }
    }
  }

  /** The sweep ends within budget, or with every deletable file deleted. */
  lemma EvictMeetsBudget(cs: seq<Candidate>, total: int, maxSize: int)
    ensures var p := Evict(cs, total, maxSize);
      p.remaining <= maxSize || p.deleted == Deletable(cs)
  {
    EvictShape(cs, total, maxSize);
    assert cs[..|cs|] == cs;
  }

  /** With the candidates distinct, a candidate is among the deletable ones of a prefix
      exactly when it lies in the prefix and is deletable. */
  lemma {:induction false} DeletableOfPrefix(cs: seq<Candidate>, k: nat, i: nat)
    requires k <= |cs| && i < |cs|
    requires forall a, b :: 0 <= a < b < |cs| ==> cs[a].name != cs[b].name
    ensures cs[i] in Deletable(cs[..k]) <==> i < k && cs[i].deletable
  {
    if k > 0 {
      var c := cs[0];
      assert cs[..k] == [c] + cs[1..][..k - 1];
      if i == 0 {
        DeletableWithin(cs[1..][..k - 1]);
      } else {
        DeletableOfPrefix(cs[1..], k - 1, i - 1);
      }
    } else {
      assert cs[..0] == [];
    }
  }

  lemma {:induction false} DeletableWithin(cs: seq<Candidate>)
    ensures forall x :: x in Deletable(cs) ==> exists m :: 0 <= m < |cs| && cs[m] == x && x.deletable
  {
    if cs != [] {
      DeletableWithin(cs[1..]);
      forall x | x in Deletable(cs[1..]) ensures exists m :: 0 <= m < |cs| && cs[m] == x && x.deletable {
        var m :| 0 <= m < |cs[1..]| && cs[1..][m] == x && x.deletable;
        assert cs[m + 1] == x;
      }
    }
  }

  predicate Ordered(o: Order, cs: seq<Candidate>)
  {
    forall i, j :: 0 <= i < j < |cs| ==> Precedes(o, cs[i].name, cs[j].name)
  }

  /** Over candidates in an order, every deleted file comes before every deletable
      file the sweep keeps. */
  lemma EvictInOrder(o: Order, cs: seq<Candidate>, total: int, maxSize: int, i: nat, j: nat)
    requires Ordered(o, cs) && i < |cs| && j < |cs|
    requires forall a, b :: 0 <= a < b < |cs| ==> cs[a].name != cs[b].name
    requires cs[i] in Evict(cs, total, maxSize).deleted
    requires cs[j].deletable && cs[j] !in Evict(cs, total, maxSize).deleted
    ensures Precedes(o, cs[i].name, cs[j].name)
  {
    var p := Evict(cs, total, maxSize);
    EvictShape(cs, total, maxSize);
    DeletableOfPrefix(cs, p.visited, i);
    DeletableOfPrefix(cs, p.visited, j);
  }

  // The order LogFileManager offers its files in.

  /** By name, today's log comes before every archive of the same year, however old
      the archive: '-' sorts before '_'. */
  lemma NameOrderPutsLogFirst(today: string, older: string)
    requires IsDate(today) && IsDate(older) && today[..4] == older[..4]
    ensures Precedes(ByName, LogName(today), ArchiveName(older))
    ensures !Precedes(ByName, ArchiveName(older), LogName(today))
  {
    DateChars(today);
    DateChars(older);
    var log, archive := LogName(today), ArchiveName(older);
    ReplaceCharIsSwap(older, '-', '_');
    assert archive[..4] == older[..4] && archive[4] == '_';
    assert log[..4] == today[..4] && log[4] == '-';
    CompareToAt(log, archive, 4);
    CompareToAntisymmetric(log, archive);
  }

  /** By age, an archive of an earlier day comes before today's log. */
  lemma AgeOrderPutsOlderFirst(today: string, older: string)
    requires IsDate(today) && IsDate(older) && CompareTo(older, today) < 0
    ensures Precedes(ByAge, ArchiveName(older), LogName(today))
    ensures !Precedes(ByAge, LogName(today), ArchiveName(older))
  {
    LogExpiry(today, today);
    ArchiveNameRoundTrip(older);
    CompareToAntisymmetric(older, today);
  }

  /** Two archives of days that differ only in the last digit are ordered by day,
      both by name and by age. */
  lemma ArchivesByDay(a: string, b: string)
    requires IsDate(a) && IsDate(b) && a[..9] == b[..9] && a[9] < b[9]
    ensures Precedes(ByName, ArchiveName(a), ArchiveName(b))
    ensures Precedes(ByAge, ArchiveName(a), ArchiveName(b))
  {
    DateChars(a);
    DateChars(b);
    ArchiveNameRoundTrip(a);
    ArchiveNameRoundTrip(b);
    ReplaceCharIsSwap(a, '-', '_');
    ReplaceCharIsSwap(b, '-', '_');
    var x, y := ArchiveName(a), ArchiveName(b);
    assert x[..9] == y[..9] by {
      forall k | 0 <= k < 9 ensures x[k] == y[k] {
        assert a[k] == a[..9][k] == b[..9][k] == b[k];
      }
    }
    CompareToAt(a, b, 9);
    CompareToAt(x, y, 9);
  }

  const TODAY := "2025-07-23"
  const DAY1 := "2025-07-21"
  const DAY2 := "2025-07-22"

  /** The directory of the counterexample as listed: two archives of earlier days and
      today's log, 40 bytes each. */
  function Listing(): seq<string>
  {
    [ArchiveName(DAY1), ArchiveName(DAY2), LogName(TODAY)]
  }

  lemma Dates()
    ensures IsDate(TODAY) && IsDate(DAY1) && IsDate(DAY2)
  {
  }

  lemma DayOrder()
    ensures CompareTo(DAY1, TODAY) < 0 && CompareTo(DAY2, TODAY) < 0
  {
    assert DAY1[..9] == TODAY[..9];
    CompareToAt(DAY1, TODAY, 9);
    assert DAY2[..9] == TODAY[..9];
    CompareToAt(DAY2, TODAY, 9);
  }

  /** How the listing compares, both ways. */
  lemma ListingOrder()
    ensures !Precedes(ByName, ArchiveName(DAY1), LogName(TODAY)) && !Precedes(ByName, ArchiveName(DAY2), LogName(TODAY))
    ensures Precedes(ByName, ArchiveName(DAY1), ArchiveName(DAY2))
    ensures Precedes(ByAge, ArchiveName(DAY1), ArchiveName(DAY2)) && Precedes(ByAge, ArchiveName(DAY2), LogName(TODAY))
  {
    Dates();
    DayOrder();
    assert DAY1[..9] == DAY2[..9];
    assert TODAY[..4] == DAY1[..4] == DAY2[..4];
    NameOrderPutsLogFirst(TODAY, DAY1);
    NameOrderPutsLogFirst(TODAY, DAY2);
    AgeOrderPutsOlderFirst(TODAY, DAY2);
    ArchivesByDay(DAY1, DAY2);
  }

  /** As written: sorted by name, today's log is offered first, and a sweep from 120
      bytes down to 90 deletes it while both older archives stay. */
  lemma NameOrderEvictsToday()
    ensures Sort(ByName, Listing()) == [LogName(TODAY), ArchiveName(DAY1), ArchiveName(DAY2)]
    ensures Evict([Candidate(LogName(TODAY), 40, true), Candidate(ArchiveName(DAY1), 40, true),
                   Candidate(ArchiveName(DAY2), 40, true)], 120, 90).deleted
            == [Candidate(LogName(TODAY), 40, true)]
  {
    ListingOrder();
    var a1, a2, log := ArchiveName(DAY1), ArchiveName(DAY2), LogName(TODAY);
    assert Insert(ByName, log, []) == [log];
    assert Insert(ByName, a2, [log]) == [log, a2];
    assert Insert(ByName, a1, [a2]) == [a1, a2];
    assert Insert(ByName, a1, [log, a2]) == [log, a1, a2];
  }

  /** Corrected: sorted by age, the oldest archive is offered first, and the same
      sweep deletes it and keeps today's log. */
  lemma AgeOrderEvictsOldest()
    ensures Sort(ByAge, Listing()) == [ArchiveName(DAY1), ArchiveName(DAY2), LogName(TODAY)]
    ensures Evict([Candidate(ArchiveName(DAY1), 40, true), Candidate(ArchiveName(DAY2), 40, true),
                   Candidate(LogName(TODAY), 40, true)], 120, 90).deleted
            == [Candidate(ArchiveName(DAY1), 40, true)]
  {
    ListingOrder();
    var a1, a2, log := ArchiveName(DAY1), ArchiveName(DAY2), LogName(TODAY);
    assert Insert(ByAge, log, []) == [log];
    assert Insert(ByAge, a2, [log]) == [a2, log];
    assert Insert(ByAge, a1, [a2, log]) == [a1, a2, log];
  }
}
