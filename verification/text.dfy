/**
 * Character classes and string operations shared by the validation helpers
 * and the routes. A JavaScript string is modelled as a `seq<char>`, whose
 * elements are Unicode scalar values (code points), not UTF-16 code units:
 * a character outside the Basic Multilingual Plane is one element here.
 */
module Text {

  predicate IsAsciiLetter(c: char) {
    'a' <= c <= 'z' || 'A' <= c <= 'Z'
  }

  predicate IsAsciiDigit(c: char) {
    '0' as int <= c as int <= '9' as int
  }

  /** `\w` in a regular expression without the `u` flag. */
  predicate IsWordChar(c: char) {
    IsAsciiLetter(c) || IsAsciiDigit(c) || c == '_'
  }

  /**
   * `\s` in a regular expression, and what `String.prototype.trim` removes:
   * the ECMAScript WhiteSpace and LineTerminator code points.
   */
  predicate IsWhitespace(c: char) {
    c in WhitespaceChars
  }

  const WhitespaceChars: set<char> := {
    '\U{0009}', '\U{000A}', '\U{000B}', '\U{000C}', '\U{000D}', '\U{0020}', '\U{00A0}', '\U{1680}',
    '\U{2000}', '\U{2001}', '\U{2002}', '\U{2003}', '\U{2004}', '\U{2005}', '\U{2006}', '\U{2007}',
    '\U{2008}', '\U{2009}', '\U{200A}', '\U{2028}', '\U{2029}', '\U{202F}', '\U{205F}', '\U{3000}',
    '\U{FEFF}'
  }

  /** Lower-cases ASCII letters and leaves every other character alone. */
  function LowerAscii(c: char): (r: char)
    ensures IsAsciiLetter(c) <==> IsAsciiLetter(r)
    ensures !IsAsciiLetter(c) ==> r == c
    ensures 'A' <= c <= 'Z' ==> r as int == c as int + 32
  {
    if 'A' <= c <= 'Z' then (c as int + 32) as char else c
  }

  /** `s.startsWith(prefix)`. */
  predicate StartsWith(s: string, prefix: string) {
    |prefix| <= |s| && s[..|prefix|] == prefix
  }

  /**
   * Does the lower-case ASCII pattern `pat` occur at index `i` of `s` under
   * the `i` flag? Without the `u` flag no non-ASCII character folds onto an
   * ASCII letter, so folding ASCII letters alone is exact.
   */
  predicate OccursIgnoreCaseAt(s: string, i: nat, pat: string) {
    i + |pat| <= |s| && forall k | 0 <= k < |pat| :: LowerAscii(s[i + k]) == pat[k]
  }

  /** Drops leading whitespace. */
  function TrimStart(s: string): (r: string)
    ensures |r| <= |s| && r == s[|s| - |r|..]
    ensures |r| > 0 ==> !IsWhitespace(r[0])
    ensures forall i | 0 <= i < |s| - |r| :: IsWhitespace(s[i])
    decreases |s|
  {
    if |s| > 0 && IsWhitespace(s[0]) then TrimStart(s[1..]) else s
  }

  /** Drops trailing whitespace. */
  function TrimEnd(s: string): (r: string)
    ensures |r| <= |s| && r == s[..|r|]
    ensures |r| > 0 ==> !IsWhitespace(r[|r| - 1])
    ensures forall i | |r| <= i < |s| :: IsWhitespace(s[i])
    decreases |s|
  {
    if |s| > 0 && IsWhitespace(s[|s| - 1]) then TrimEnd(s[..|s| - 1]) else s
  }

  /**
   * `s.trim()`: the infix `s[start..start + |r|]` that is left once the
   * whitespace on both ends is gone.
   */
  function Trim(s: string): (r: string)
    ensures |r| <= |s|
    ensures |r| > 0 ==> !IsWhitespace(r[0]) && !IsWhitespace(r[|r| - 1])
    ensures TrimmedFrom(s, |s| - |TrimStart(s)|, r)
  {
    TrimIsInfix(s);
    TrimEnd(TrimStart(s))
  }

  /** Trimming both ends leaves an infix of `s` with only whitespace around it. */
  lemma TrimIsInfix(s: string)
    ensures TrimmedFrom(s, |s| - |TrimStart(s)|, TrimEnd(TrimStart(s)))
  {
    var t := TrimStart(s);
    WhitespaceAround(s, |s| - |t|, t, TrimEnd(t));
  }

  /** A prefix `r` of the suffix `t == s[start..]`, with whitespace before `t` and after `r`, is trimmed from `s`. */
  lemma WhitespaceAround(s: string, start: nat, t: string, r: string)
    requires start <= |s| && t == s[start..] && |r| <= |t| && r == t[..|r|]
    requires forall i | 0 <= i < start :: IsWhitespace(s[i])
    requires forall i | |r| <= i < |t| :: IsWhitespace(t[i])
    ensures TrimmedFrom(s, start, r)
  {
    forall i | start + |r| <= i < |s| ensures IsWhitespace(s[i]) {
      assert s[i] == t[i - start];
    }
  }

  /** `r` sits at `start` in `s`, and everything of `s` around it is whitespace. */
  ghost predicate TrimmedFrom(s: string, start: nat, r: string) {
    && start + |r| <= |s|
    && r == s[start..start + |r|]
    && (forall i | 0 <= i < start :: IsWhitespace(s[i]))
    && (forall i | start + |r| <= i < |s| :: IsWhitespace(s[i]))
  }

  /** A string without whitespace at its ends trims to itself. */
  lemma TrimNoop(s: string)
    requires |s| > 0 ==> !IsWhitespace(s[0]) && !IsWhitespace(s[|s| - 1])
    ensures Trim(s) == s
  {
  }

  /** `a` can be obtained from `b` by deleting elements. */
  ghost predicate IsSubsequence<T>(a: seq<T>, b: seq<T>)
    decreases |b|
  {
    |a| == 0
    || (|b| > 0 && ((a[0] == b[0] && IsSubsequence(a[1..], b[1..])) || IsSubsequence(a, b[1..])))
  }

  lemma {:induction false} SubsequenceLength<T>(a: seq<T>, b: seq<T>)
    requires IsSubsequence(a, b)
    ensures |a| <= |b|
    decreases |b|
  {
    if |a| > 0 {
      if a[0] == b[0] && IsSubsequence(a[1..], b[1..]) {
        SubsequenceLength(a[1..], b[1..]);
      } else {
        SubsequenceLength(a, b[1..]);
      }
    }
  }

  lemma {:induction false} SubsequenceReflexive<T>(a: seq<T>)
    ensures IsSubsequence(a, a)
    decreases |a|
  {
    if |a| > 0 {
      SubsequenceReflexive(a[1..]);
    }
  }

  lemma {:induction false} SubsequenceTransitive<T>(a: seq<T>, b: seq<T>, c: seq<T>)
    requires IsSubsequence(a, b) && IsSubsequence(b, c)
    ensures IsSubsequence(a, c)
    decreases |a| + |b| + |c|
  {
    if |a| == 0 {
    } else if IsSubsequence(b, c[1..]) {
      SubsequenceTransitive(a, b, c[1..]);
    } else {
      assert b[0] == c[0] && IsSubsequence(b[1..], c[1..]);
      if a[0] == b[0] && IsSubsequence(a[1..], b[1..]) {
        SubsequenceTransitive(a[1..], b[1..], c[1..]);
      } else {
        SubsequenceTransitive(a, b[1..], c[1..]);
      }
    }
  }

  /** Keeping the head and a subsequence of the tail is a subsequence. */
  lemma SubsequenceCons<T>(x: T, a: seq<T>, b: seq<T>)
    requires IsSubsequence(a, b)
    ensures IsSubsequence([x] + a, [x] + b)
  {
    assert ([x] + a)[1..] == a;
    assert ([x] + b)[1..] == b;
  }

  /** A subsequence of a suffix is a subsequence of the whole. */
  lemma {:induction false} SubsequenceOfSuffix<T>(a: seq<T>, b: seq<T>, n: nat)
    requires n <= |b| && IsSubsequence(a, b[n..])
    ensures IsSubsequence(a, b)
    decreases n
  {
    if n > 0 {
      assert b[1..][n - 1..] == b[n..];
      SubsequenceOfSuffix(a, b[1..], n - 1);
    }
  }

  /** Every infix is a subsequence. */
  lemma {:induction false} InfixIsSubsequence<T>(b: seq<T>, i: nat, j: nat)
    requires i <= j <= |b|
    ensures IsSubsequence(b[i..j], b)
    decreases j - i
  {
    if i == j {
    } else {
      InfixIsSubsequence(b[i + 1..], 0, j - i - 1);
      assert b[i + 1..][0..j - i - 1] == b[i..j][1..];
      assert b[i..j][0] == b[i..][0];
      assert b[i..][1..] == b[i + 1..];
      SubsequenceOfSuffix(b[i..j], b, i);
    }
  }

  function DigitChar(d: nat): (c: char)
    requires d < 10
    ensures IsAsciiDigit(c) && c as int - '0' as int == d
  {
    ('0' as int + d) as char
  }

  /** `String(n)` for a natural number: its decimal digits, without leading zeros. */
  function NatToString(n: nat): (r: string)
    ensures |r| >= 1
    ensures forall i | 0 <= i < |r| :: IsAsciiDigit(r[i])
    ensures r[0] == '0' ==> n == 0 && r == "0"
    decreases n
  {
    if n < 10 then [DigitChar(n)] else NatToString(n / 10) + [DigitChar(n % 10)]
  }

  /** The value of a string of decimal digits. */
  function DecimalValue(s: string): nat
    requires forall i | 0 <= i < |s| :: IsAsciiDigit(s[i])
  {
    if |s| == 0 then 0
    else
      assert IsAsciiDigit(s[|s| - 1]);
      DecimalValue(s[..|s| - 1]) * 10 + (s[|s| - 1] as int - '0' as int)
  }

  /** Reading the digits back gives the number: `NatToString` is injective. */
  lemma {:induction false} DecimalRoundTrip(n: nat)
    ensures DecimalValue(NatToString(n)) == n
    decreases n
  {
    if n >= 10 {
      DecimalRoundTrip(n / 10);
      var r := NatToString(n);
      assert r[..|r| - 1] == NatToString(n / 10);
    }
  }

  /** Does `pat` occur, exactly, at index `i` of `s`? */
  predicate OccursAt(s: string, i: nat, pat: string) {
    i + |pat| <= |s| && s[i..i + |pat|] == pat
  }

  /** The first index at or after `from` where `pat` occurs, or -1: `s.indexOf(pat, from)`. */
  function IndexOfFrom(s: string, pat: string, from: nat): (k: int)
    requires from <= |s|
    ensures k == -1 || (from <= k && OccursAt(s, k, pat))
    ensures forall j | from <= j < (if k == -1 then |s| + 1 else k) :: !OccursAt(s, j, pat)
    decreases |s| - from
  {
    if OccursAt(s, from, pat) then from
    else if from == |s| then -1
    else IndexOfFrom(s, pat, from + 1)
  }

  /**
   * `s.split(sep)` for a non-empty separator: cut at the first occurrence,
   * then split what follows it.
   */
  function Split(s: string, sep: string): (parts: seq<string>)
    requires |sep| > 0
    ensures |parts| >= 1
    decreases |s|
  {
    var k := IndexOfFrom(s, sep, 0);
    if k < 0 then [s] else [s[..k]] + Split(s[k + |sep|..], sep)
  }

  /** `parts.join(sep)`. */
  function Join(parts: seq<string>, sep: string): string
    requires |parts| >= 1
  {
    if |parts| == 1 then parts[0] else parts[0] + sep + Join(parts[1..], sep)
  }

  /** Cutting at an occurrence: what is before it, the separator, and what follows make up `s`. */
  lemma CutAt(s: string, k: nat, sep: string)
    requires OccursAt(s, k, sep)
    ensures s == s[..k] + sep + s[k + |sep|..]
  {
    assert s == s[..k] + s[k..k + |sep|] + s[k + |sep|..];
  }

  /** Splitting loses nothing: joining the parts with the separator gives the string back. */
  lemma {:induction false} SplitJoin(s: string, sep: string)
    requires |sep| > 0
    ensures Join(Split(s, sep), sep) == s
    decreases |s|
  {
    var k := IndexOfFrom(s, sep, 0);
    if k >= 0 {
      var rest := s[k + |sep|..];
      var tail := Split(rest, sep);
      SplitJoin(rest, sep);
      assert Split(s, sep) == [s[..k]] + tail;
      assert ([s[..k]] + tail)[1..] == tail;
      CutAt(s, k, sep);
    }
  }

  lemma PrefixSlice(s: string, k: nat, i: nat, j: nat)
    requires i <= j <= k <= |s|
    ensures s[..k][i..j] == s[i..j]
  {
  }

  /** No part of a split holds the separator. */
  lemma {:induction false} SplitPartsAreFree(s: string, sep: string)
    requires |sep| > 0
    ensures var parts := Split(s, sep);
      forall i, j | 0 <= i < |parts| && 0 <= j <= |parts[i]| :: !OccursAt(parts[i], j, sep)
    decreases |s|
  {
    var k := IndexOfFrom(s, sep, 0);
    if k >= 0 {
      var head := s[..k];
      var rest := s[k + |sep|..];
      SplitPartsAreFree(rest, sep);
      forall j | 0 <= j <= |head| ensures !OccursAt(head, j, sep) {
        if j + |sep| <= |head| {
          assert !OccursAt(s, j, sep);
          PrefixSlice(s, k, j, j + |sep|);
        }
      }
      var parts := Split(s, sep);
      assert parts == [head] + Split(rest, sep);
      forall i | 1 <= i < |parts| ensures parts[i] == Split(rest, sep)[i - 1] {
      }
    }
  }
}
