/** The java.lang.String operations the log library relies on: compareTo, endsWith,
    contains, replace(CharSequence, CharSequence), the fixed-width patterns it hands
    to String.matches, and the decimal form of an int (Integer.toString). */
module JavaString {
  import opened Wrappers

  /** String.compareTo: the difference of the first differing characters, or of the
      lengths when one string is a prefix of the other. */
  function CompareTo(a: string, b: string): int
  {
    if |a| == 0 || |b| == 0 then |a| - |b|
    else if a[0] != b[0] then a[0] as int - b[0] as int
    else CompareTo(a[1..], b[1..])
  }

  /** a.compareTo(b) <= 0 */
  predicate Le(a: string, b: string) { CompareTo(a, b) <= 0 }

  lemma {:induction false} CompareToAntisymmetric(a: string, b: string)
    ensures CompareTo(a, b) == -CompareTo(b, a)
  {
    if |a| != 0 && |b| != 0 && a[0] == b[0] {
      CompareToAntisymmetric(a[1..], b[1..]);
    }
  }

  lemma {:induction false} CompareToZero(a: string, b: string)
    ensures CompareTo(a, b) == 0 <==> a == b
  {
    if |a| != 0 && |b| != 0 && a[0] == b[0] {
      CompareToZero(a[1..], b[1..]);
      assert a == [a[0]] + a[1..] && b == [b[0]] + b[1..];
    }
  }

  lemma LeTotal(a: string, b: string)
    ensures Le(a, b) || Le(b, a)
  {
    CompareToAntisymmetric(a, b);
  }

  lemma {:induction false} LeTransitive(a: string, b: string, c: string)
    requires Le(a, b) && Le(b, c)
    ensures Le(a, c)
  {
    if |a| == 0 || |b| == 0 || |c| == 0 {
    } else if a[0] != b[0] || b[0] != c[0] {
    } else {
      LeTransitive(a[1..], b[1..], c[1..]);
    }
  }

  /** The strict order of compareTo is transitive. */
  lemma LessTransitive(a: string, b: string, c: string)
    requires CompareTo(a, b) < 0 && CompareTo(b, c) < 0
    ensures CompareTo(a, c) < 0
  {
    LeTransitive(a, b, c);
    CompareToZero(a, c);
    if a == c {
      CompareToAntisymmetric(a, b);
    }
  }

  /** compareTo is decided by the first position where the strings differ. */
  lemma {:induction false} CompareToAt(a: string, b: string, i: nat)
    requires i < |a| && i < |b| && a[..i] == b[..i] && a[i] != b[i]
    ensures CompareTo(a, b) == a[i] as int - b[i] as int
  {
    if i > 0 {
      assert a[0] == a[..i][0] == b[..i][0] == b[0];
      assert a[1..][..i - 1] == a[1..i] == a[..i][1..];
      assert b[1..][..i - 1] == b[1..i] == b[..i][1..];
      CompareToAt(a[1..], b[1..], i - 1);
    }
  }

  /** A proper extension of a string compares greater than it. */
  lemma {:induction false} PrefixLess(a: string, t: string)
    requires |t| > 0
    ensures CompareTo(a, a + t) < 0
  {
    if |a| > 0 {
      assert (a + t)[1..] == a[1..] + t;
      PrefixLess(a[1..], t);
    }
  }

  /** String.endsWith */
  predicate EndsWith(s: string, suffix: string)
  {
    |suffix| <= |s| && s[|s| - |suffix|..] == suffix
  }

  /** String.startsWith */
  predicate StartsWith(s: string, prefix: string)
  {
    |prefix| <= |s| && s[..|prefix|] == prefix
  }

  /** String.contains */
  predicate Contains(s: string, t: string)
  {
    StartsWith(s, t) || (|s| > 0 && Contains(s[1..], t))
  }

  /** An occurrence of `t` starts at index `i` of `s`. */
  predicate MatchAt(s: string, t: string, i: nat)
  {
    i + |t| <= |s| && s[i..i + |t|] == t
  }

  lemma MatchAtShift(s: string, t: string, i: nat)
    requires |s| > 0
    ensures MatchAt(s, t, i + 1) <==> MatchAt(s[1..], t, i)
  {
    if i + 1 + |t| <= |s| {
      assert s[1..][i..i + |t|] == s[i + 1..i + 1 + |t|];
    }
  }

  /** String.replace(target, replacement) for a non-empty target: every occurrence,
      scanning left to right without overlap, is replaced. */
  function ReplaceAll(s: string, target: string, replacement: string): string
    requires |target| > 0
    decreases |s|
  {
    if |s| < |target| then s
    else if s[..|target|] == target then replacement + ReplaceAll(s[|target|..], target, replacement)
    else [s[0]] + ReplaceAll(s[1..], target, replacement)
  }

  /** Replacing one character by another is a character-wise map. */
  function SwapChar(s: string, from: char, to: char): (r: string)
    ensures |r| == |s|
    ensures forall i :: 0 <= i < |s| ==> r[i] == if s[i] == from then to else s[i]
  {
    if s == [] then [] else [if s[0] == from then to else s[0]] + SwapChar(s[1..], from, to)
  }

  lemma {:induction false} ReplaceCharIsSwap(s: string, from: char, to: char)
    ensures ReplaceAll(s, [from], [to]) == SwapChar(s, from, to)
  {
    if |s| > 0 {
      ReplaceCharIsSwap(s[1..], from, to);
    }
  }

  /** No occurrence of `target` starts inside `s`, even one that runs on into `t`. */
  predicate NoMatchStartsIn(s: string, t: string, target: string)
  {
    forall i: nat :: i < |s| ==> !MatchAt(s + t, target, i)
  }

  /** Where no occurrence starts, replace copies one character and moves on. */
  lemma ReplaceStep(u: string, target: string, replacement: string)
    requires |target| > 0 && |u| > 0
    requires !MatchAt(u, target, 0)
    ensures ReplaceAll(u, target, replacement) == [u[0]] + ReplaceAll(u[1..], target, replacement)
  {
    if |u| >= |target| {
      assert u[..|target|] == u[0..0 + |target|];
    } else {
      assert ReplaceAll(u[1..], target, replacement) == u[1..];
      assert [u[0]] + u[1..] == u;
    }
  }

  lemma {:induction false} ReplaceSkipsPrefix(s: string, t: string, target: string, replacement: string)
    requires |target| > 0
    requires NoMatchStartsIn(s, t, target)
    ensures ReplaceAll(s + t, target, replacement) == s + ReplaceAll(t, target, replacement)
    decreases |s|
  {
    if |s| > 0 {
      var u := s + t;
      assert u[1..] == s[1..] + t;
      forall i: nat | i < |s[1..]|
        ensures !MatchAt(s[1..] + t, target, i)
      {
        MatchAtShift(u, target, i);
      }
      ReplaceSkipsPrefix(s[1..], t, target, replacement);
      assert !MatchAt(u, target, 0);
      ReplaceStep(u, target, replacement);
      var r := ReplaceAll(t, target, replacement);
      assert [u[0]] + (s[1..] + r) == ([s[0]] + s[1..]) + r;
      assert [s[0]] + s[1..] == s;
    } else {
      assert s + t == t;
    }
  }

  lemma ReplaceWhole(target: string, replacement: string)
    requires |target| > 0
    ensures ReplaceAll(target, target, replacement) == replacement
  {
    assert target[|target|..] == [];
    assert target[..|target|] == target;
  }

  lemma {:induction false} ReplaceAbsent(s: string, target: string, replacement: string)
    requires |target| > 0
    requires forall i: nat :: !MatchAt(s, target, i)
    ensures ReplaceAll(s, target, replacement) == s
    decreases |s|
  {
    if |s| >= |target| {
      assert !MatchAt(s, target, 0);
      forall i: nat
        ensures !MatchAt(s[1..], target, i)
      {
        MatchAtShift(s, target, i);
      }
      ReplaceAbsent(s[1..], target, replacement);
      assert [s[0]] + s[1..] == s;
    }
  }

  /** No occurrence of `target` starts inside `s` when, `j` characters after every
      start position, the text differs from `target[j]`. */
  lemma NoMatchWhereCharDiffers(s: string, t: string, target: string, j: nat)
    requires j < |target|
    requires forall k :: j <= k < |s| + j && k < |s + t| ==> (s + t)[k] != target[j]
    ensures NoMatchStartsIn(s, t, target)
  {
    forall i: nat | i < |s|
      ensures !MatchAt(s + t, target, i)
    {
      if i + |target| <= |s + t| {
        assert (s + t)[i..i + |target|][j] == (s + t)[i + j];
      }
    }
  }

  /** Between strings of equal length that differ, what follows the first one does
      not change the comparison. */
  lemma {:induction false} CompareToExtend(a: string, x: string, b: string)
    requires |a| == |b| && a != b
    ensures CompareTo(a + x, b) == CompareTo(a, b)
  {
    assert (a + x)[0] == a[0];
    if a[0] == b[0] {
      assert a == [a[0]] + a[1..] && b == [b[0]] + b[1..];
      assert (a + x)[1..] == a[1..] + x;
      CompareToExtend(a[1..], x, b[1..]);
    }
  }

  /** The patterns given to String.matches in the library are fixed-width: each '#' in
      `shape` stands for \d (an ASCII digit), every other character for itself. */
  predicate MatchesShape(s: string, shape: string)
  {
    |s| == |shape| &&
    forall i :: 0 <= i < |s| ==> if shape[i] == '#' then IsDigit(s[i]) else s[i] == shape[i]
  }

  predicate IsDigit(c: char) { '0' <= c <= '9' }

  function DigitChar(d: nat): char
    requires d < 10
  {
    "0123456789"[d]
  }

  function DigitValue(c: char): nat
    requires IsDigit(c)
  {
    c as int - '0' as int
  }

  predicate AllDigits(s: string)
  {
    forall i :: 0 <= i < |s| ==> IsDigit(s[i])
  }

  /** The decimal digits of a non-negative number, without leading zeros. */
  function Digits(n: nat): (r: string)
    ensures |r| > 0 && AllDigits(r)
  {
    if n < 10 then [DigitChar(n)] else Digits(n / 10) + [DigitChar(n % 10)]
  }

  /** Integer.toString(n) */
  function Decimal(n: int): string
  {
    if n < 0 then "-" + Digits(-n) else Digits(n)
  }

  /** The value of a string of decimal digits. */
  function ParseDigits(s: string): nat
    requires AllDigits(s)
  {
    if s == [] then 0 else ParseDigits(s[..|s| - 1]) * 10 + DigitValue(s[|s| - 1])
  }

  /** Integer.parseInt without the range check: an optional '-' and at least one digit. */
  function ParseDecimal(s: string): Option<int>
  {
    if |s| > 1 && s[0] == '-' && AllDigits(s[1..]) then Some(-(ParseDigits(s[1..]) as int))
    else if |s| > 0 && AllDigits(s) then Some(ParseDigits(s))
    else None
  }

  lemma {:induction false} DigitsRoundTrip(n: nat)
    ensures ParseDigits(Digits(n)) == n
  {
    if n >= 10 {
      DigitsRoundTrip(n / 10);
      var s := Digits(n / 10) + [DigitChar(n % 10)];
      assert s[..|s| - 1] == Digits(n / 10);
    }
  }

  lemma DecimalRoundTrip(n: int)
    ensures ParseDecimal(Decimal(n)) == Some(n)
  {
    if n < 0 {
      NegativeRoundTrip(n);
    } else {
      NaturalRoundTrip(n);
    }
  }

  lemma NegativeRoundTrip(n: int)
    requires n < 0
    ensures ParseDecimal("-" + Digits(-n)) == Some(n)
  {
    DigitsRoundTrip(-n);
    SignedParse(Digits(-n));
  }

  /** A '-' followed by digits parses to the negated value of the digits. */
  lemma SignedParse(d: string)
    requires |d| > 0 && AllDigits(d)
    ensures ParseDecimal("-" + d) == Some(-(ParseDigits(d) as int))
  {
    assert ("-" + d)[1..] == d;
  }

  lemma NaturalRoundTrip(n: nat)
    ensures ParseDecimal(Digits(n)) == Some(n)
  {
    DigitsRoundTrip(n);
    var s := Digits(n);
    assert IsDigit(s[0]);
  }
}
