/** The archive a ZipOutputStream leaves on disk and a ZipFile reads back: a comment
    and a sequence of named entries. The deflate format is replaced by a simple
    length-prefixed encoding, so an archive is a file like any other, with a size. */
module ZipArchive {
  import opened Wrappers
  import opened JavaString

  /** A ZipEntry: its name (a directory's ends in '/') and its uncompressed bytes. */
  datatype Entry = Entry(name: string, data: seq<char>)

  /** ZipEntry.isDirectory() */
  predicate IsDirectory(e: Entry)
  {
    EndsWith(e.name, "/")
  }

  datatype Archive = Archive(comment: string, entries: seq<Entry>)

  /** A field: its length in decimal, ':', then the field itself. */
  function Field(s: string): string
  {
    Digits(|s|) + [':'] + s
  }

  function EncodeEntries(es: seq<Entry>): string
  {
    if es == [] then [] else Field(es[0].name) + Field(es[0].data) + EncodeEntries(es[1..])
  }

  /** The bytes of an archive file. */
  function Image(a: Archive): string
  {
    Field(a.comment) + EncodeEntries(a.entries)
  }

  /** The length of the run of digits at the start of `s`. */
  function DigitRun(s: string): (k: nat)
    ensures k <= |s|
    ensures k < |s| ==> !IsDigit(s[k])
  {
    if s == [] || !IsDigit(s[0]) then 0 else 1 + DigitRun(s[1..])
  }

  /** Reads one field, giving it and what follows it. */
  function ReadField(s: string): (r: Option<(string, string)>)
    ensures r.Some? ==> |r.value.1| < |s|
  {
    var k := DigitRun(s);
    if k == 0 || k == |s| || s[k] != ':' || !AllDigits(s[..k]) then None
    else
      var n := ParseDigits(s[..k]);
      if k + 1 + n <= |s| then Some((s[k + 1..k + 1 + n], s[k + 1 + n..])) else None
  }

  function ParseEntries(s: string): Option<seq<Entry>>
    decreases |s|
  {
    if s == [] then Some([])
    else
      match ReadField(s)
      case None => None
      case Some((name, rest)) =>
        match ReadField(rest)
        case None => None
        case Some((data, rest')) =>
          match ParseEntries(rest')
          case None => None
          case Some(es) => Some([Entry(name, data)] + es)
  }

  /** new ZipFile(file): the archive the bytes hold, or None where the library would
      get a ZipException. */
  function Parse(s: string): Option<Archive>
  {
    match ReadField(s)
    case None => None
    case Some((comment, rest)) =>
      match ParseEntries(rest)
      case None => None
      case Some(es) => Some(Archive(comment, es))
  }

  lemma {:induction false} DigitRunOf(d: string, rest: string)
    requires AllDigits(d) && |rest| > 0 && !IsDigit(rest[0])
    ensures DigitRun(d + rest) == |d|
  {
    if |d| > 0 {
      assert (d + rest)[1..] == d[1..] + rest;
      DigitRunOf(d[1..], rest);
    } else {
      assert d + rest == rest;
    }
  }

  /** A field is read back whole, leaving exactly what followed it. */
  lemma ReadFieldOf(s: string, rest: string)
    ensures ReadField(Field(s) + rest) == Some((s, rest))
  {
    var d := Digits(|s|);
    var x := Field(s) + rest;
    assert x == d + ([':'] + s + rest);
    DigitRunOf(d, [':'] + s + rest);
    assert x[..|d|] == d;
    DigitsRoundTrip(|s|);
    assert x[|d| + 1..|d| + 1 + |s|] == s;
    assert x[|d| + 1 + |s|..] == rest;
  }

  lemma {:induction false} ParseEntriesRoundTrip(es: seq<Entry>)
    ensures ParseEntries(EncodeEntries(es)) == Some(es)
  {
    if es != [] {
      var e := es[0];
      var tail := EncodeEntries(es[1..]);
      assert EncodeEntries(es) == Field(e.name) + (Field(e.data) + tail);
      ReadFieldOf(e.name, Field(e.data) + tail);
      ReadFieldOf(e.data, tail);
      ParseEntriesRoundTrip(es[1..]);
      assert [e] + es[1..] == es;
    }
  }

  /** Reading an archive file gives back the archive that was written. */
  lemma ParseImage(a: Archive)
    ensures Parse(Image(a)) == Some(a)
  {
    ReadFieldOf(a.comment, EncodeEntries(a.entries));
    ParseEntriesRoundTrip(a.entries);
  }
}
