/** Util.splitStr: cutting a long message into pieces a console line can hold. */
module Util {

  /** The pieces splitStr returns: full pieces of `max` characters, then the remainder,
      which is "" when the length is a multiple of `max`. */
  function Pieces(max: nat, s: string): (r: seq<string>)
    requires max > 0
    ensures |r| == |s| / max + 1
    decreases |s|
  {
    if |s| < max then [s]
    else
      DivStep(|s|, max);
      [s[..max]] + Pieces(max, s[max..])
  }

  /** Every piece but the last holds exactly `max` characters; the last holds what is
      left, |s| % max of them. */
  lemma {:induction false} PiecesSizes(max: nat, s: string)
    requires max > 0
    ensures var r := Pieces(max, s);
      (forall i :: 0 <= i < |r| - 1 ==> |r[i]| == max) && |r[|r| - 1]| == |s| % max
    decreases |s|
  {
    if |s| >= max {
      PiecesSizes(max, s[max..]);
      DivStep(|s|, max);
      var r, rest := Pieces(max, s), Pieces(max, s[max..]);
      assert r == [s[..max]] + rest;
      forall i | 0 < i < |r| - 1
        ensures |r[i]| == max
      {
        assert r[i] == rest[i - 1];
      }
    }
  }

  lemma DivStep(n: int, m: int)
    requires 0 < m <= n
    ensures n / m == (n - m) / m + 1 && n % m == (n - m) % m
  {
    var q, r := (n - m) / m, (n - m) % m;
    assert n == (q + 1) * m + r;
    DivUnique(n, m, q + 1, r);
  }

  lemma DivUnique(n: int, m: int, q: int, r: int)
    requires m > 0 && 0 <= r < m && n == q * m + r
    ensures n / m == q && n % m == r
  {
    var q', r' := n / m, n % m;
    assert n == q' * m + r';
    if q' > q {
      AtLeastOnce(q' - q, m);
      Distribute(q', q, m);
    } else if q' < q {
      AtLeastOnce(q - q', m);
      Distribute(q, q', m);
    }
  }

  lemma AtLeastOnce(d: int, m: int)
    requires d >= 1 && m > 0
    ensures d * m >= m
  {
  }

  lemma Distribute(a: int, b: int, m: int)
    ensures (a - b) * m == a * m - b * m
  {
  }

  function Concat(pieces: seq<string>): string
  {
    if pieces == [] then "" else pieces[0] + Concat(pieces[1..])
  }

  /** Joining the pieces in order gives the message back. */
  lemma {:induction false} PiecesConcat(max: nat, s: string)
    requires max > 0
    ensures Concat(Pieces(max, s)) == s
    decreases |s|
  {
    if |s| >= max {
      PiecesConcat(max, s[max..]);
      var r := Pieces(max, s);
      assert r[1..] == Pieces(max, s[max..]);
      assert s[..max] + s[max..] == s;
    }
  }

  /** The piece splitStr cuts at `start` when the rest is longer than one piece. */
  lemma PiecesLong(max: nat, s: string, start: nat)
    requires max > 0 && start + max < |s|
    ensures Pieces(max, s[start..]) == [s[start..start + max]] + Pieces(max, s[start + max..])
  {
    var rest := s[start..];
    assert rest[..max] == s[start..start + max];
    assert rest[max..] == s[start + max..];
  }

  /** The piece splitStr cuts when the rest is at most one piece long: either it is the
      last one, or exactly one empty piece follows it. */
  lemma PiecesShort(max: nat, s: string, start: nat)
    requires max > 0 && start <= |s| <= start + max
    ensures |s| < start + max ==> Pieces(max, s[start..]) == [s[start..]]
    ensures |s| == start + max ==> Pieces(max, s[start..]) == [s[start..]] + Pieces(max, s[|s|..])
  {
    if |s| == start + max {
      var rest := s[start..];
      assert rest[max..] == s[|s|..];
      assert rest[..max] == rest;
    }
  }

  /** One turn of splitStr's loop: the piece it cuts at `start` is the i-th one, and
      the pieces of what is left are the ones after it. */
  lemma SplitStep(max: nat, s: string, start: nat, all: seq<string>, i: nat)
    requires max > 0 && start <= |s| && i < |all| && Pieces(max, s[start..]) == all[i..]
    ensures start + max < |s| ==>
      all[i] == s[start..start + max] && (i + 1 < |all| ==> Pieces(max, s[start + max..]) == all[i + 1..])
    ensures start + max >= |s| ==>
      all[i] == s[start..] && (i + 1 < |all| ==> Pieces(max, s[|s|..]) == all[i + 1..])
  {
    ghost var tail := all[i..];
    assert tail[0] == all[i] && tail[1..] == all[i + 1..];
    if start + max < |s| {
      PiecesLong(max, s, start);
    } else {
      PiecesShort(max, s, start);
    }
  }

  /** Util.splitStr(MAX_LENGTH, str); a zero MAX_LENGTH divides by zero in the source. */
  method SplitStr(maxLength: int, str: string) returns (strs: array<string>)
    requires maxLength > 0
    ensures fresh(strs)
    ensures strs[..] == Pieces(maxLength, str)
  {
    ghost var all := Pieces(maxLength, str);
    var length := |str|;
    strs := new string[length / maxLength + 1];
    assert |all| == strs.Length;
    var start := 0;
    assert str[start..] == str;
    for i := 0 to strs.Length
      invariant 0 <= start <= length
      invariant forall k :: 0 <= k < i ==> strs[k] == all[k]
      invariant i < strs.Length ==> Pieces(maxLength, str[start..]) == all[i..]
    {
      SplitStep(maxLength, str, start, all, i);
      var piece;
      if start + maxLength < length {
        piece := str[start..start + maxLength];
        start := start + maxLength;
      } else {
        piece := str[start..length];
        start := length;
      }
      strs[i] := piece;
    }
    assert strs[..] == all;
  }
}
