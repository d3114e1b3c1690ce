/**
 * String helpers with the semantics of the JavaScript built-ins the
 * application relies on: `includes`, `indexOf`, `lastIndexOf`,
 * `startsWith`, `trim`, `split`, `join`, `repeat`, number-to-string and a
 * global replace of a literal pattern.
 */
module Strings {

  /** `p` occurs in `s` starting at index `i`. */
  predicate OccursAt(s: string, p: string, i: int) {
    0 <= i && i + |p| <= |s| && s[i..i + |p|] == p
  }

  /** `String.prototype.startsWith`. */
  predicate StartsWith(s: string, p: string) {
    |p| <= |s| && s[..|p|] == p
  }

  /** Number of occurrences of the character `c` in `s`. */
  function Count(s: string, c: char): nat
    decreases |s|
  {
    if |s| == 0 then 0 else (if s[0] == c then 1 else 0) + Count(s[1..], c)
  }

  lemma {:induction false} CountAppend(a: string, b: string, c: char)
    ensures Count(a + b, c) == Count(a, c) + Count(b, c)
    decreases |a|
  {
    if |a| == 0 {
      assert a + b == b;
    } else {
      assert (a + b)[1..] == a[1..] + b;
      CountAppend(a[1..], b, c);
    }
  }

  /** A string of `n` copies of `c` (`c.repeat(n)`). */
  function Repeat(c: char, n: nat): (r: string)
    ensures |r| == n
    ensures forall i | 0 <= i < n :: r[i] == c
  {
    if n == 0 then "" else [c] + Repeat(c, n - 1)
  }

  lemma {:induction false} CountAbsent(s: string, c: char)
    requires c !in s
    ensures Count(s, c) == 0
    decreases |s|
  {
    if |s| > 0 {
      assert s[0] in s;
      assert forall x | x in s[1..] :: x in s;
      CountAbsent(s[1..], c);
    }
  }

  lemma {:induction false} CountRepeat(c: char, d: char, n: nat)
    ensures Count(Repeat(c, n), d) == if c == d then n else 0
    decreases n
  {
    if n > 0 {
      assert Repeat(c, n)[1..] == Repeat(c, n - 1);
      CountRepeat(c, d, n - 1);
    }
  }

  /** First index at or after `from` where `p` occurs, or -1 (`indexOf`). */
  function IndexFrom(s: string, p: string, from: nat): (r: int)
    requires from <= |s|
    ensures r == -1 || (from <= r && OccursAt(s, p, r))
    decreases |s| - from
  {
    if from + |p| > |s| then -1
    else if s[from..from + |p|] == p then from
    else if from == |s| then -1
    else IndexFrom(s, p, from + 1)
  }

  /** The search finds the first occurrence at or after `from`, and -1 only when there is none. */
  lemma {:induction false} IndexFromFirst(s: string, p: string, from: nat)
    requires from <= |s|
    ensures IndexFrom(s, p, from) == -1 ==> forall j | from <= j :: !OccursAt(s, p, j)
    ensures IndexFrom(s, p, from) != -1 ==> forall j | from <= j < IndexFrom(s, p, from) :: !OccursAt(s, p, j)
    decreases |s| - from
  {
    if from + |p| <= |s| && s[from..from + |p|] != p && from < |s| {
      IndexFromFirst(s, p, from + 1);
    }
  }

  /** `s.indexOf(p)`. */
  function IndexOf(s: string, p: string): int {
    IndexFrom(s, p, 0)
  }

  /** `s.includes(p)`. */
  predicate Contains(s: string, p: string) {
    IndexOf(s, p) != -1
  }

  /** Last index at or before `upto` where `p` occurs, or -1. */
  function LastFrom(s: string, p: string, upto: nat): (r: int)
    requires upto + |p| <= |s|
    ensures r == -1 || (r <= upto && OccursAt(s, p, r))
    decreases upto
  {
    if s[upto..upto + |p|] == p then upto
    else if upto == 0 then -1
    else LastFrom(s, p, upto - 1)
  }

  /** The backward search finds the last occurrence at or before `upto`. */
  lemma {:induction false} LastFromLast(s: string, p: string, upto: nat)
    requires upto + |p| <= |s|
    ensures forall j | LastFrom(s, p, upto) < j <= upto :: !OccursAt(s, p, j)
    decreases upto
  {
    if s[upto..upto + |p|] != p && upto > 0 {
      LastFromLast(s, p, upto - 1);
    }
  }

  /** `s.lastIndexOf(p)`. */
  function LastIndexOf(s: string, p: string): (r: int)
    ensures r == -1 || OccursAt(s, p, r)
  {
    if |p| > |s| then -1 else LastFrom(s, p, |s| - |p|)
  }

  /** Nothing occurs after the index `lastIndexOf` reports. */
  lemma LastIndexOfLast(s: string, p: string)
    ensures forall j | LastIndexOf(s, p) < j :: !OccursAt(s, p, j)
  {
    if |p| <= |s| {
      LastFromLast(s, p, |s| - |p|);
    }
  }

  lemma ContainsIff(s: string, p: string)
    ensures Contains(s, p) <==> exists j :: OccursAt(s, p, j)
  {
    IndexFromFirst(s, p, 0);
    if !Contains(s, p) {
      forall j ensures !OccursAt(s, p, j) {
        if 0 <= j {
          assert !OccursAt(s, p, j);
        }
      }
    }
  }

  /** A pattern whose first character is absent cannot occur. */
  lemma NotContainsFirstChar(s: string, p: string)
    requires |p| > 0 && p[0] !in s
    ensures !Contains(s, p)
  {
    forall j | 0 <= j && j + |p| <= |s|
      ensures !OccursAt(s, p, j)
    {
      assert s[j..j + |p|][0] == s[j];
      assert s[j] in s;
    }
    ContainsIff(s, p);
  }

  /** An occurrence with none before it is the one `indexOf` reports. */
  lemma IndexOfIs(s: string, p: string, i: int)
    requires OccursAt(s, p, i)
    requires forall j | 0 <= j < i :: !OccursAt(s, p, j)
    ensures IndexOf(s, p) == i
  {
    IndexFromFirst(s, p, 0);
  }

  /** An occurrence with none after it is the one `lastIndexOf` reports. */
  lemma LastIndexOfIs(s: string, p: string, i: int)
    requires OccursAt(s, p, i)
    requires forall j | i < j :: !OccursAt(s, p, j)
    ensures LastIndexOf(s, p) == i
  {
    LastIndexOfLast(s, p);
  }

  /** `p` is absent when no position holds its first two characters in a row. */
  lemma NotContainsFirstTwo(s: string, p: string)
    requires |p| >= 2
    requires forall j | 0 <= j < |s| - 1 :: !(s[j] == p[0] && s[j + 1] == p[1])
    ensures !Contains(s, p)
  {
    forall j | 0 <= j && j + |p| <= |s| ensures !OccursAt(s, p, j) {
      assert s[j..j + |p|][0] == s[j] && s[j..j + |p|][1] == s[j + 1];
    }
    ContainsIff(s, p);
  }

  /** A piece of an occurrence is an occurrence of the piece. */
  lemma OccursInside(s: string, p: string, i: int, a: nat, b: nat)
    requires OccursAt(s, p, i) && a <= b <= |p|
    ensures OccursAt(s, p[a..b], i + a)
  {
    var t := s[i..i + |p|];
    assert t == p;
    forall k | 0 <= k < b - a
      ensures s[i + a..i + b][k] == p[a..b][k]
    {
      assert p[a..b][k] == t[a + k];
    }
  }

  /** A string occurs where it is spliced in. */
  lemma OccursInMiddle(a: string, m: string, b: string)
    ensures OccursAt(a + m + b, m, |a|)
  {
    assert (a + m + b)[|a|..|a| + |m|] == m;
  }

  /** An occurrence in a suffix is an occurrence in the whole string. */
  lemma OccursInSuffix(s: string, k: nat, p: string, j: int)
    requires k <= |s| && OccursAt(s[k..], p, j)
    ensures OccursAt(s, p, k + j)
  {
    assert s[k..][j..j + |p|] == s[k + j..k + j + |p|];
  }

  /** An occurrence of `p` at a known index means `s.includes(p)`. */
  lemma ContainsAt(s: string, p: string, i: int)
    requires OccursAt(s, p, i)
    ensures Contains(s, p)
  {
    ContainsIff(s, p);
  }

  // ---------------------------------------------------------------------
  // trim

  /**
   * The characters `String.prototype.trim` removes: the ECMAScript
   * WhiteSpace and LineTerminator code points.
   */
  predicate IsJsSpace(c: char) {
    || c == '\t' || c == '\n' || c == '\U{000B}' || c == '\U{000C}' || c == '\r'
    || c == ' ' || c == '\U{00A0}' || c == '\U{1680}'
    || ('\U{2000}' <= c <= '\U{200A}')
    || c == '\U{2028}' || c == '\U{2029}' || c == '\U{202F}' || c == '\U{205F}'
    || c == '\U{3000}' || c == '\U{FEFF}'
  }

  function TrimStart(s: string): (r: string)
    ensures |r| <= |s| && r == s[|s| - |r|..]
    ensures |r| > 0 ==> !IsJsSpace(r[0])
    decreases |s|
  {
    if |s| > 0 && IsJsSpace(s[0]) then TrimStart(s[1..]) else s
  }

  /** Every character of `s` is white space. */
  predicate AllSpace(s: string) {
    forall i | 0 <= i < |s| :: IsJsSpace(s[i])
  }

  /** What `TrimStart` drops is white space. */
  lemma {:induction false} TrimStartSpaces(s: string)
    ensures AllSpace(s[..|s| - |TrimStart(s)|])
    decreases |s|
  {
    if |s| > 0 && IsJsSpace(s[0]) {
      TrimStartSpaces(s[1..]);
      var k := |s| - |TrimStart(s)|;
      forall i | 0 <= i < k ensures IsJsSpace(s[..k][i]) {
        if i > 0 {
          assert s[..k][i] == s[1..][..k - 1][i - 1];
        }
      }
    } else {
      assert s[..|s| - |TrimStart(s)|] == [];
    }
  }

  function TrimEnd(s: string): (r: string)
    ensures |r| <= |s| && r == s[..|r|]
    ensures |r| > 0 ==> !IsJsSpace(r[|r| - 1])
    decreases |s|
  {
    if |s| > 0 && IsJsSpace(s[|s| - 1]) then TrimEnd(s[..|s| - 1]) else s
  }

  /** What `TrimEnd` drops is white space. */
  lemma {:induction false} TrimEndSpaces(s: string)
    ensures AllSpace(s[|TrimEnd(s)|..])
    decreases |s|
  {
    if |s| > 0 && IsJsSpace(s[|s| - 1]) {
      var m := |TrimEnd(s)|;
      TrimEndSpaces(s[..|s| - 1]);
      forall i | 0 <= i < |s| - m ensures IsJsSpace(s[m..][i]) {
        if m + i < |s| - 1 {
          assert s[m..][i] == s[..|s| - 1][m..][i];
        }
      }
    } else {
      assert s[|TrimEnd(s)|..] == [];
    }
  }

  /** `s.trim()`. */
  function Trim(s: string): string {
    TrimEnd(TrimStart(s))
  }

  lemma {:induction false} CountAllSpace(s: string, c: char)
    requires !IsJsSpace(c) && AllSpace(s)
    ensures Count(s, c) == 0
    decreases |s|
  {
    if |s| > 0 {
      assert AllSpace(s[1..]) by {
        forall i | 0 <= i < |s| - 1 ensures IsJsSpace(s[1..][i]) {
          assert s[1..][i] == s[i + 1];
        }
      }
      CountAllSpace(s[1..], c);
    }
  }

  /** Counting over the two sides of a cut. */
  lemma SplitCount(s: string, k: nat, c: char)
    requires k <= |s|
    ensures Count(s, c) == Count(s[..k], c) + Count(s[k..], c)
  {
    assert s == s[..k] + s[k..];
    CountAppend(s[..k], s[k..], c);
  }

  lemma TrimStartKeepsCount(s: string, c: char)
    requires !IsJsSpace(c)
    ensures Count(TrimStart(s), c) == Count(s, c)
  {
    var k := |s| - |TrimStart(s)|;
    TrimStartSpaces(s);
    SplitCount(s, k, c);
    CountAllSpace(s[..k], c);
  }

  lemma TrimEndKeepsCount(s: string, c: char)
    requires !IsJsSpace(c)
    ensures Count(TrimEnd(s), c) == Count(s, c)
  {
    var k := |TrimEnd(s)|;
    TrimEndSpaces(s);
    SplitCount(s, k, c);
    CountAllSpace(s[k..], c);
  }

  /** Trimming never changes how often a non-space character occurs. */
  lemma TrimKeepsCount(s: string, c: char)
    requires !IsJsSpace(c)
    ensures Count(Trim(s), c) == Count(s, c)
  {
    TrimStartKeepsCount(s, c);
    TrimEndKeepsCount(TrimStart(s), c);
  }

  // ---------------------------------------------------------------------
  // global replace of a literal pattern

  /**
   * `s.replace(new RegExp(p, 'g'), r)` for a pattern `p` without regular
   * expression metacharacters: a left-to-right scan replacing each
   * non-overlapping occurrence. An empty pattern matches at every position,
   * as it does in JavaScript.
   */
  function ReplaceAll(s: string, p: string, r: string): string
    decreases |s|
  {
    if |p| == 0 then
      (if |s| == 0 then r else r + [s[0]] + ReplaceAll(s[1..], p, r))
    else if |s| == 0 then ""
    else if StartsWith(s, p) then r + ReplaceAll(s[|p|..], p, r)
    else [s[0]] + ReplaceAll(s[1..], p, r)
  }

  /** Replacing a pattern by itself changes nothing. */
  lemma {:induction false} ReplaceAllSelf(s: string, p: string)
    ensures ReplaceAll(s, p, p) == s
    decreases |s|
  {
    if |p| == 0 {
      if |s| > 0 {
        ReplaceAllSelf(s[1..], p);
        assert s == [s[0]] + s[1..];
      }
    } else if |s| > 0 {
      if StartsWith(s, p) {
        ReplaceAllSelf(s[|p|..], p);
        assert s == s[..|p|] + s[|p|..];
      } else {
        ReplaceAllSelf(s[1..], p);
        assert s == [s[0]] + s[1..];
      }
    }
  }

  /** A character that cannot start the pattern is copied and scanning moves on. */
  lemma ReplaceAllCopy(s: string, p: string, r: string)
    requires |p| > 0 && |s| > 0 && s[0] != p[0]
    ensures ReplaceAll(s, p, r) == [s[0]] + ReplaceAll(s[1..], p, r)
  {
    assert !StartsWith(s, p) by {
      if |p| <= |s| {
        assert s[..|p|][0] == s[0];
      }
    }
  }

  lemma AppendHead(a: string, b: string)
    requires |a| > 0
    ensures (a + b)[0] == a[0] && (a + b)[1..] == a[1..] + b
    ensures [a[0]] + (a[1..] + b) == a + b
  {
  }

  /** A text without the pattern's first character is copied through unchanged. */
  lemma {:induction false} ReplaceAllSkip(a: string, t: string, p: string, r: string)
    requires |p| > 0 && p[0] !in a
    ensures ReplaceAll(a + t, p, r) == a + ReplaceAll(t, p, r)
    decreases |a|
  {
    if |a| > 0 {
      AppendHead(a, t);
      assert a[0] in a;
      ReplaceAllCopy(a + t, p, r);
      assert p[0] !in a[1..] by {
        assert forall x | x in a[1..] :: x in a;
      }
      ReplaceAllSkip(a[1..], t, p, r);
      AppendHead(a, ReplaceAll(t, p, r));
    } else {
      assert a + t == t;
    }
  }

  lemma Associate(a: string, b: string, c: string)
    ensures a + b + c == a + (b + c)
  {
  }

  /** An occurrence at the front is replaced and scanning resumes after it. */
  lemma ReplaceAllHead(p: string, t: string, r: string)
    requires |p| > 0
    ensures ReplaceAll(p + t, p, r) == r + ReplaceAll(t, p, r)
  {
    assert (p + t)[..|p|] == p;
    assert (p + t)[|p|..] == t;
  }

  /** Without an occurrence of the pattern the text is unchanged. */
  lemma NoFirstCharNoChange(s: string, p: string, r: string)
    requires |p| > 0 && p[0] !in s
    ensures ReplaceAll(s, p, r) == s
  {
    ReplaceAllSkip(s, "", p, r);
    assert s + "" == s;
  }

  /** Text that cannot start the pattern is copied, then the occurrence is replaced. */
  lemma ReplaceAfter(a: string, p: string, t: string, r: string)
    requires |p| > 0 && p[0] !in a
    ensures ReplaceAll(a + p + t, p, r) == a + r + ReplaceAll(t, p, r)
  {
    var u := p + t;
    Associate(a, p, t);
    ReplaceAllSkip(a, u, p, r);
    ReplaceAllHead(p, t, r);
    Associate(a, r, ReplaceAll(t, p, r));
  }

  /** One occurrence of a pattern, surrounded by text that cannot start it. */
  lemma ReplaceOne(a: string, b: string, p: string, r: string)
    requires |p| > 0 && p[0] !in a && p[0] !in b
    ensures ReplaceAll(a + p + b, p, r) == a + r + b
  {
    ReplaceAfter(a, p, b, r);
    NoFirstCharNoChange(b, p, r);
  }

  /**
   * A global replace rewrites every occurrence: text split by the pattern,
   * where no part holds the pattern's first character, comes back joined by
   * the replacement.
   */
  lemma {:induction false} ReplaceAllJoin(ps: seq<string>, p: string, r: string)
    requires |p| > 0 && |ps| > 0
    requires forall k | 0 <= k < |ps| :: p[0] !in ps[k]
    ensures ReplaceAll(Join(ps, p), p, r) == Join(ps, r)
    decreases |ps|
  {
    if |ps| == 1 {
      NoFirstCharNoChange(ps[0], p, r);
    } else {
      assert p[0] !in ps[0];
      ReplaceAllJoin(ps[1..], p, r);
      ReplaceAfter(ps[0], p, Join(ps[1..], p), r);
    }
  }

  // ---------------------------------------------------------------------
  // split / join

  /** `parts.join(sep)`. */
  function Join(parts: seq<string>, sep: string): string
    decreases |parts|
  {
    if |parts| == 0 then ""
    else if |parts| == 1 then parts[0]
    else parts[0] + sep + Join(parts[1..], sep)
  }

  /** `s.split(c)` for a one-character separator. */
  function Split(s: string, c: char): (parts: seq<string>)
    ensures |parts| >= 1
    ensures forall k | 0 <= k < |parts| :: c !in parts[k]
    decreases |s|
  {
    if |s| == 0 then [""]
    else
      var rest := Split(s[1..], c);
      if s[0] == c then [""] + rest
      else [[s[0]] + rest[0]] + rest[1..]
  }

  /** Splitting and joining with the same separator gives back the text. */
  lemma {:induction false} JoinSplit(s: string, c: char)
    ensures Join(Split(s, c), [c]) == s
    decreases |s|
  {
    if |s| > 0 {
      var rest := Split(s[1..], c);
      JoinSplit(s[1..], c);
      if s[0] == c {
        assert Split(s, c)[1..] == rest;
        assert s == [c] + s[1..];
      } else {
        var parts := Split(s, c);
        assert parts[1..] == rest[1..];
        if |rest| == 1 {
          assert s == [s[0]] + rest[0];
        } else {
          assert Join(rest, [c]) == rest[0] + [c] + Join(rest[1..], [c]);
          assert s == [s[0]] + s[1..];
        }
      }
    }
  }

  /** The text before the first `c` (`s.split(c)[0]`). */
  function FirstSegment(s: string, c: char): (r: string)
    ensures c !in r
    ensures StartsWith(s, r)
    ensures |r| < |s| ==> s[|r|] == c
  {
    var parts := Split(s, c);
    JoinSplit(s, c);
    if |parts| == 1 then
      s
    else
      assert s == parts[0] + [c] + Join(parts[1..], [c]);
      parts[0]
  }

  /** The segment before the first separator is the text up to it. */
  lemma FirstSegmentOf(a: string, c: char, b: string)
    requires c !in a
    ensures FirstSegment(a + [c] + b, c) == a
  {
    var s := a + [c] + b;
    var r := FirstSegment(s, c);
    assert s[|a|] == c;
    if |r| != |a| {
      assert false;
    }
    assert r == s[..|a|] == a;
  }

  /** Text after the first separator does not change the first segment. */
  lemma FirstSegmentExtend(a: string, c: char, b: string)
    requires c in a
    ensures FirstSegment(a + b, c) == FirstSegment(a, c)
  {
    var r := FirstSegment(a, c);
    var r' := FirstSegment(a + b, c);
    if |r| == |a| {
      assert false;
    }
    assert (a + b)[|r|] == c;
    if |r'| != |r| {
      assert false;
    }
    assert r' == (a + b)[..|r|] == a[..|r|];
  }

  /** Joining one part more appends the separator and the part. */
  lemma {:induction false} JoinSnoc(parts: seq<string>, sep: string, w: string)
    ensures Join(parts + [w], sep) == if |parts| == 0 then w else Join(parts, sep) + sep + w
    decreases |parts|
  {
    if |parts| == 0 {
      assert parts + [w] == [w];
    } else if |parts| == 1 {
      assert (parts + [w])[1..] == [w];
    } else {
      assert (parts + [w])[1..] == parts[1..] + [w];
      JoinSnoc(parts[1..], sep, w);
    }
  }

  // ---------------------------------------------------------------------
  // numbers

  function DigitChar(d: nat): (c: char)
    requires d < 10
    ensures '0' <= c <= '9'
  {
    "0123456789"[d]
  }

  /** Decimal text of a natural number, as `String(n)` renders it. */
  function NatToString(n: nat): (r: string)
    ensures |r| > 0
    ensures forall i | 0 <= i < |r| :: '0' <= r[i] <= '9'
    ensures |r| > 1 ==> r[0] != '0'
  {
    if n < 10 then [DigitChar(n)] else NatToString(n / 10) + [DigitChar(n % 10)]
  }

  function DigitValue(c: char): nat
    requires '0' <= c <= '9'
  {
    (c as int - '0' as int) as nat
  }

  /** Reads a string of decimal digits. */
  function ParseDigits(s: string): nat
    requires forall i | 0 <= i < |s| :: '0' <= s[i] <= '9'
    decreases |s|
  {
    if |s| == 0 then 0 else 10 * ParseDigits(s[..|s| - 1]) + DigitValue(s[|s| - 1])
  }

  /** Rendering a number in decimal loses nothing. */
  lemma {:induction false} ParseNatToString(n: nat)
    ensures ParseDigits(NatToString(n)) == n
    decreases n
  {
    if n >= 10 {
      ParseNatToString(n / 10);
      var r := NatToString(n);
      assert r[..|r| - 1] == NatToString(n / 10);
    }
  }
}
