/** Plain-text primitives the transcript parser is built from: literal substring
    search, the character classes of the score pattern, maximal runs of those
    classes, and decimal numerals. Characters are compared as code points; there
    is no normalisation or case folding. */
module Text {

  /** `pat` occurs in `s` starting at index `i`. */
  predicate MatchesAt(s: string, pat: string, i: nat) {
    i + |pat| <= |s| && s[i..i + |pat|] == pat
  }

  /** `pat` occurs somewhere in `s`. */
  predicate Contains(s: string, pat: string) {
    exists i: nat :: i <= |s| && MatchesAt(s, pat, i)
  }

  /** The first character of `pat` does not occur again in it, so two occurrences
      of `pat` can never overlap. The marker and both score labels have this shape. */
  predicate Unbordered(pat: string) {
    |pat| > 0 && pat[0] !in pat[1..]
  }

  /** Character `k` of an occurrence at `i` is character `k` of the pattern. */
  lemma MatchesAtFirst(s: string, pat: string, i: nat, k: nat)
    requires MatchesAt(s, pat, i) && k < |pat|
    ensures s[i + k] == pat[k]
  {
    assert s[i..i + |pat|][k] == s[i + k];
  }

  /** Inside one occurrence of an unbordered pattern no other occurrence starts. */
  lemma NoMatchInside(s: string, pat: string, i: nat, j: nat)
    requires Unbordered(pat) && MatchesAt(s, pat, i) && i < j < i + |pat|
    ensures !MatchesAt(s, pat, j)
  {
    MatchesAtFirst(s, pat, i, j - i);
    assert pat[j - i] == pat[1..][j - i - 1];
    assert s[j] != pat[0];
    if j + |pat| <= |s| {
      assert s[j..j + |pat|][0] == s[j];
    }
  }

  /** A text in which the pattern's first character never appears does not
      contain the pattern. */
  lemma AbsentFirst(s: string, pat: string)
    requires |pat| > 0 && pat[0] !in s
    ensures !Contains(s, pat)
  {
    forall i: nat | i <= |s|
      ensures !MatchesAt(s, pat, i)
    {
      if i + |pat| <= |s| {
        assert s[i..i + |pat|][0] == s[i];
      }
    }
  }

  /** Two pattern-free texts stay pattern-free when joined, provided the second
      opens with a character the pattern does not use: no occurrence can straddle
      the joint. */
  lemma JoinFree(a: string, b: string, pat: string)
    requires |pat| > 0 && !Contains(a, pat) && !Contains(b, pat)
    requires |b| > 0 ==> b[0] !in pat
    ensures !Contains(a + b, pat)
  {
    var t, m := a + b, |pat|;
    forall k: nat | k <= |t|
      ensures !MatchesAt(t, pat, k)
    {
      if k + m <= |a| {
        assert t[k..k + m] == a[k..k + m];
        assert !MatchesAt(a, pat, k);
      } else if k >= |a| {
        if k + m <= |t| {
          assert t[k..k + m] == b[k - |a|..k - |a| + m];
          assert !MatchesAt(b, pat, k - |a|);
        }
      } else if k + m <= |t| {
        assert t[k..k + m][|a| - k] == b[0];
        assert pat[|a| - k] in pat;
      }
    }
  }

  /** Adjacent slices concatenate. */
  lemma SliceSplit(s: string, a: nat, b: nat, c: nat)
    requires a <= b <= c <= |s|
    ensures s[a..c] == s[a..b] + s[b..c]
  {
  }

  /** An occurrence inside a slice is an occurrence in the whole text. */
  lemma SliceMatch(s: string, pat: string, lo: nat, hi: nat, j: nat)
    requires lo <= hi <= |s| && MatchesAt(s[lo..hi], pat, j)
    ensures MatchesAt(s, pat, lo + j) && lo + j + |pat| <= hi
  {
    var u, v := s[lo..hi][j..j + |pat|], s[lo + j..lo + j + |pat|];
    assert forall k :: 0 <= k < |pat| ==> u[k] == v[k];
    assert u == v;
  }

  /** Start positions of the non-overlapping occurrences of `pat` in `s` at or
      after `from`, found left to right the way a regular-expression `finditer`
      over a literal pattern finds them: after a match the search resumes at its
      end, otherwise one character further on. */
  function FindAll(s: string, pat: string, from: nat): (ps: seq<nat>)
    requires |pat| > 0
    ensures forall k :: 0 <= k < |ps| ==> from <= ps[k] && MatchesAt(s, pat, ps[k])
    ensures forall i, j :: 0 <= i < j < |ps| ==> ps[i] + |pat| <= ps[j]
    decreases |s| - from
  {
    if from + |pat| > |s| then []
    else if MatchesAt(s, pat, from) then [from] + FindAll(s, pat, from + |pat|)
    else FindAll(s, pat, from + 1)
  }

  /** For an unbordered pattern the left-to-right scan misses nothing: a position
      is reported exactly when the pattern occurs there. */
  lemma {:induction false} FindAllComplete(s: string, pat: string, from: nat, j: nat)
    requires Unbordered(pat) && from <= j
    ensures j in FindAll(s, pat, from) <==> MatchesAt(s, pat, j)
    decreases |s| - from
  {
    var ps := FindAll(s, pat, from);
    if from + |pat| > |s| {
    } else if MatchesAt(s, pat, from) {
      if j == from {
      } else if j < from + |pat| {
        NoMatchInside(s, pat, from, j);
        assert j !in ps;
      } else {
        FindAllComplete(s, pat, from + |pat|, j);
      }
    } else if j > from {
      FindAllComplete(s, pat, from + 1, j);
    }
  }

  /** The positions at which `pat` occurs in `s`. */
  function Occurrences(s: string, pat: string): set<nat> {
    set k: nat | k <= |s| && MatchesAt(s, pat, k)
  }

  /** For an unbordered pattern the scan reports one position per occurrence:
      its length is the number of occurrences. */
  lemma CountOccurrences(s: string, pat: string)
    requires Unbordered(pat)
    ensures |FindAll(s, pat, 0)| == |Occurrences(s, pat)|
  {
    var ps := FindAll(s, pat, 0);
    forall k: nat
      ensures k in Occurrences(s, pat) <==> k in ps
    {
      FindAllComplete(s, pat, 0, k);
    }
    assert Occurrences(s, pat) == Elements(ps);
    IncreasingCard(ps);
  }

  /** The values held by `ps`. */
  function Elements(ps: seq<nat>): set<nat> {
    set k: nat | k in ps
  }

  /** A strictly increasing sequence holds as many values as it is long. */
  lemma {:induction false} IncreasingCard(ps: seq<nat>)
    requires forall i, j :: 0 <= i < j < |ps| ==> ps[i] < ps[j]
    ensures |Elements(ps)| == |ps|
  {
    if ps != [] {
      IncreasingCard(ps[1..]);
      assert ps[0] !in ps[1..];
      assert Elements(ps) == {ps[0]} + Elements(ps[1..]);
    }
  }

  /** The ASCII part of the whitespace class `\s` of a Python text pattern:
      tab, line feed, vertical tab, form feed, carriage return, the four
      information separators and space. */
  predicate IsSpace(c: char) {
    (9 <= c as int <= 13) || (28 <= c as int <= 32)
  }

  /** The ASCII decimal digits, the part of `\d` the model keeps. */
  predicate IsDigit(c: char) {
    '0' <= c <= '9'
  }

  /** Every character of `s` is a digit. */
  predicate AllDigits(s: string) {
    forall k :: 0 <= k < |s| ==> IsDigit(s[k])
  }

  /** Length of the longest prefix of `s` made of whitespace (what a greedy `\s*` consumes). */
  function SpanSpaces(s: string): (n: nat)
    ensures n <= |s|
    ensures forall k :: 0 <= k < n ==> IsSpace(s[k])
    ensures n < |s| ==> !IsSpace(s[n])
  {
    if |s| > 0 && IsSpace(s[0]) then 1 + SpanSpaces(s[1..]) else 0
  }

  /** Length of the longest prefix of `s` made of digits (what a greedy `\d+` consumes). */
  function SpanDigits(s: string): (n: nat)
    ensures n <= |s|
    ensures AllDigits(s[..n])
    ensures n < |s| ==> !IsDigit(s[n])
  {
    if |s| > 0 && IsDigit(s[0]) then 1 + SpanDigits(s[1..]) else 0
  }

  /** The value of one digit. */
  function DigitValue(c: char): (d: nat)
    requires IsDigit(c)
    ensures d < 10
  {
    c as int - '0' as int
  }

  /** The digit of a value below ten. */
  function DigitChar(d: nat): (c: char)
    requires d < 10
    ensures IsDigit(c) && DigitValue(c) == d
  {
    ('0' as int + d) as char
  }

  /** The value of a decimal numeral, as Python's `int` reads it (leading zeros allowed). */
  function DecimalValue(s: string): nat
    requires AllDigits(s)
  {
    if |s| == 0 then 0 else DecimalValue(s[..|s| - 1]) * 10 + DigitValue(s[|s| - 1])
  }

  /** The shortest decimal numeral of `n`, as a program prints an integer. */
  function Render(n: nat): (s: string)
    ensures |s| > 0 && AllDigits(s)
    ensures DecimalValue(s) == n
  {
    if n < 10 then [DigitChar(n)]
    else
      var s := Render(n / 10) + [DigitChar(n % 10)];
      assert s[..|s| - 1] == Render(n / 10);
      s
  }

  /** The whitespace run is determined by its two defining facts. */
  lemma {:induction false} SpanSpacesIs(t: string, n: nat)
    requires n <= |t| && (forall k :: 0 <= k < n ==> IsSpace(t[k]))
    requires n < |t| ==> !IsSpace(t[n])
    ensures SpanSpaces(t) == n
  {
    if n > 0 {
      SpanSpacesIs(t[1..], n - 1);
    }
  }

  /** The digit run is determined by its two defining facts. */
  lemma {:induction false} SpanDigitsIs(t: string, n: nat)
    requires n <= |t| && AllDigits(t[..n])
    requires n < |t| ==> !IsDigit(t[n])
    ensures SpanDigits(t) == n
  {
    if n > 0 {
      assert t[1..][..n - 1] == t[..n][1..];
      SpanDigitsIs(t[1..], n - 1);
    }
  }

  /** Text that does not start with whitespace does not lengthen a whitespace run. */
  lemma SpanSpacesAppend(u: string, y: string)
    requires |y| > 0 ==> !IsSpace(y[0])
    ensures SpanSpaces(u + y) == SpanSpaces(u)
  {
    SpanSpacesIs(u + y, SpanSpaces(u));
  }

  /** Text that does not start with a digit does not lengthen a digit run. */
  lemma SpanDigitsAppend(u: string, y: string)
    requires |y| > 0 ==> !IsDigit(y[0])
    ensures SpanDigits(u + y) == SpanDigits(u)
  {
    var n := SpanDigits(u);
    assert (u + y)[..n] == u[..n];
    SpanDigitsIs(u + y, n);
  }

  /** A character that is not a digit does not occur in a numeral. */
  lemma NotInDigits(c: char, s: string)
    requires AllDigits(s) && !IsDigit(c)
    ensures c !in s
  {
  }
}
