/** Android log priorities and the short names the library prints for them. */
module LogLevel {
  import opened JavaString
  import opened Wrappers

  /** Java's `int`. */
  newtype int32 = x: int | -0x8000_0000 <= x < 0x8000_0000

  const VERBOSE: int32 := 2
  const DEBUG: int32 := 3
  const INFO: int32 := 4
  const WARN: int32 := 5
  const ERROR: int32 := 6
  /** Integer.MIN_VALUE: every priority passes. */
  const ALL: int32 := -0x8000_0000
  /** Integer.MAX_VALUE: nothing passes. */
  const NONE: int32 := 0x7fff_ffff

  const TWO32: int := 0x1_0000_0000

  /** Java int arithmetic: the exact result reduced to 32-bit two's complement. */
  function Wrap(x: int): (r: int32)
    ensures (r as int - x) % TWO32 == 0
    ensures -0x8000_0000 <= x < 0x8000_0000 ==> r as int == x
  {
    var m := x % TWO32;
    (if m >= 0x8000_0000 then m - TWO32 else m) as int32
  }

  /** Two results that agree modulo 2^32 wrap to the same int. */
  lemma WrapCongruent(x: int, y: int)
    requires (x - y) % TWO32 == 0
    ensures Wrap(x) == Wrap(y)
  {
    assert x % TWO32 == y % TWO32 by {
      var q := (x - y) / TWO32;
      assert x == y + q * TWO32;
    }
  }

  /** LogLevel.getShortLevelName: one letter for VERBOSE..ERROR, otherwise the distance
      below VERBOSE ("V-k", computed as a Java int, so it wraps for the lowest levels)
      or above ERROR ("E+k"). */
  function ShortLevelName(level: int32): (r: string)
    ensures |r| > 0
    ensures r[0] == 'V' <==> level <= VERBOSE
    ensures r[0] == 'E' <==> level >= ERROR
  {
    match level
    case 2 => "V"
    case 3 => "D"
    case 4 => "I"
    case 5 => "W"
    case 6 => "E"
    case _ =>
      if level < 2 then "V-" + Decimal(Wrap(2 - level as int) as int)
      else "E+" + Decimal(level as int - 6)
  }

  /** Reads a short level name back; the inverse of ShortLevelName. */
  function LevelOfShortName(name: string): Option<int32>
  {
    if name == "V" then Some(VERBOSE)
    else if name == "D" then Some(DEBUG)
    else if name == "I" then Some(INFO)
    else if name == "W" then Some(WARN)
    else if name == "E" then Some(ERROR)
    else if |name| > 2 && name[..2] == "V-" then
      match ParseDecimal(name[2..])
      case Some(k) => Some(Wrap(2 - k))
      case None => None
    else if |name| > 2 && name[..2] == "E+" then
      match ParseDecimal(name[2..])
      case Some(k) => if 0 < k && k + 6 < 0x8000_0000 then Some((k + 6) as int32) else None
      case None => None
    else None
  }

  lemma ShortLevelNameRoundTrip(level: int32)
    ensures LevelOfShortName(ShortLevelName(level)) == Some(level)
  {
    if level < 2 {
      LowLevelRoundTrip(level);
    } else if level > 6 {
      HighLevelRoundTrip(level);
    }
  }

  /** Below VERBOSE the distance is read back and subtracted again, both in Java ints. */
  lemma LowLevelRoundTrip(level: int32)
    requires level < VERBOSE
    ensures LevelOfShortName(ShortLevelName(level)) == Some(level)
  {
    var k := Wrap(2 - level as int) as int;
    LowName(level);
    DecimalRoundTrip(k);
    ReadLow(Decimal(k), k);
    WrapBack(level);
  }

  /** Below VERBOSE the name is "V-" and the wrapped distance. */
  lemma LowName(level: int32)
    requires level < VERBOSE
    ensures ShortLevelName(level) == "V-" + Decimal(Wrap(2 - level as int) as int)
  {
  }

  /** "V-" and a number k name the level 2 - k, in Java ints. */
  lemma ReadLow(d: string, k: int)
    requires |d| > 0 && ParseDecimal(d) == Some(k)
    ensures LevelOfShortName("V-" + d) == Some(Wrap(2 - k))
  {
    ReadPrefixed("V-", d);
  }

  /** "E+" and a positive number k name the level k + 6. */
  lemma ReadHigh(d: string, k: int)
    requires |d| > 0 && ParseDecimal(d) == Some(k) && 0 < k && k + 6 < 0x8000_0000
    ensures LevelOfShortName("E+" + d) == Some((k + 6) as int32)
  {
    ReadPrefixed("E+", d);
  }

  /** A name made of a two-letter prefix and a nonempty rest is read by its prefix. */
  lemma ReadPrefixed(prefix: string, d: string)
    requires |prefix| == 2 && |d| > 0
    ensures var name := prefix + d;
      && |name| > 2 && name[..2] == prefix && name[2..] == d
      && name != "V" && name != "D" && name != "I" && name != "W" && name != "E"
  {
    var name := prefix + d;
    assert name[..2] == prefix && name[2..] == d;
  }

  /** Subtracting from VERBOSE twice, with wrap-around, gives the level back. */
  lemma WrapBack(level: int32)
    ensures Wrap(2 - Wrap(2 - level as int) as int) == level
  {
    var k := Wrap(2 - level as int) as int;
    var q := (k - (2 - level as int)) / TWO32;
    assert k - (2 - level as int) == q * TWO32;
    assert (2 - k) - level as int == -q * TWO32;
    WrapCongruent(2 - k, level as int);
  }

  /** Above ERROR the distance is read back and added to ERROR. */
  lemma HighLevelRoundTrip(level: int32)
    requires level > ERROR
    ensures LevelOfShortName(ShortLevelName(level)) == Some(level)
  {
    DecimalRoundTrip(level as int - 6);
    ReadHigh(Decimal(level as int - 6), level as int - 6);
  }

  /** Different levels never print the same short name. */
  lemma ShortLevelNameInjective(a: int32, b: int32)
    requires ShortLevelName(a) == ShortLevelName(b)
    ensures a == b
  {
    ShortLevelNameRoundTrip(a);
    ShortLevelNameRoundTrip(b);
  }

  /** The five named priorities print their initial letter. */
  lemma NamedLevelInitials()
    ensures ShortLevelName(VERBOSE) == "V" && ShortLevelName(DEBUG) == "D"
    ensures ShortLevelName(INFO) == "I" && ShortLevelName(WARN) == "W"
    ensures ShortLevelName(ERROR) == "E"
  {
  }

  /** ALL is Integer.MIN_VALUE: 2 - ALL overflows to -2147483646. */
  lemma AllLevelName()
    ensures ShortLevelName(ALL) == "V-" + Decimal(-2147483646)
  {
    assert Wrap(2 - ALL as int) as int == -2147483646;
  }
}
