/**
 * The few `kotlin.String` and `kotlin.Int` operations the pipeline relies on:
 * `trim()`, `equals(other, ignoreCase = true)` and `Int.toString()`.
 * The character classes are restricted to ASCII.
 */
module Text {

  /** The ASCII characters for which Kotlin's `Char.isWhitespace()` holds:
      TAB, LF, VT, FF, CR, the separators FS..US, and SPACE. */
  predicate IsWhitespace(c: char) {
    c == ' ' || (9 <= c as int <= 13) || (28 <= c as int <= 31)
  }

  ghost predicate AllWhitespace(s: string) {
    forall i :: 0 <= i < |s| ==> IsWhitespace(s[i])
  }

  /** The number of leading whitespace characters of `s`. */
  function LeadingSpace(s: string): (i: nat)
    ensures i <= |s| && AllWhitespace(s[..i])
    ensures i < |s| ==> !IsWhitespace(s[i])
  {
    if |s| > 0 && IsWhitespace(s[0]) then
      var n := LeadingSpace(s[1..]);
      assert forall k :: 0 < k < n + 1 ==> s[k] == s[1..][..n][k - 1];
      n + 1
    else 0
  }

  /** Where the trailing whitespace of `s` begins. */
  function TrailingSpace(s: string): (j: nat)
    ensures j <= |s| && AllWhitespace(s[j..])
    ensures j > 0 ==> !IsWhitespace(s[j - 1])
  {
    if |s| > 0 && IsWhitespace(s[|s| - 1]) then
      var p := s[..|s| - 1];
      var n := TrailingSpace(p);
      assert forall k :: n <= k < |s| - 1 ==> s[k] == p[n..][k - n];
      n
    else |s|
  }

  /** Kotlin's `String.trim()`: `s` without its leading and trailing whitespace.
      The result is empty or neither starts nor ends with whitespace. */
  function Trim(s: string): (r: string)
    ensures |r| <= |s|
    ensures r == [] || (!IsWhitespace(r[0]) && !IsWhitespace(r[|r| - 1]))
  {
    var j := TrailingSpace(s);
    var i := LeadingSpace(s[..j]);
    s[..j][i..]
  }

  /** Trimming removes only whitespace: the result is a slice of `s` with whitespace
      alone on either side of it. */
  lemma TrimIsSlice(s: string)
    ensures exists i, j :: 0 <= i <= j <= |s| && Trim(s) == s[i..j] && AllWhitespace(s[..i]) && AllWhitespace(s[j..])
  {
    var j := TrailingSpace(s);
    var i := LeadingSpace(s[..j]);
    assert s[..j][..i] == s[..i];
    assert Trim(s) == s[i..j];
  }

  /** `s` followed by whitespace only trims to `s` when `s` neither starts nor ends
      with whitespace; with `w` empty, this says that trimming is idempotent. */
  lemma TrimDropsTrailing(s: string, w: string)
    requires s == [] || (!IsWhitespace(s[0]) && !IsWhitespace(s[|s| - 1]))
    requires AllWhitespace(w)
    ensures Trim(s + w) == s
  {
    var t := s + w;
    assert t[..|s|] == s && t[|s|..] == w;
    TrailingSpaceOf(s, w);
    assert LeadingSpace(s) == 0;
  }

  /** Helper: the trailing whitespace of `s + w` is exactly `w`. */
  lemma {:induction false} TrailingSpaceOf(s: string, w: string)
    requires s == [] || !IsWhitespace(s[|s| - 1])
    requires AllWhitespace(w)
    ensures TrailingSpace(s + w) == |s|
    decreases |w|
  {
    var t := s + w;
    if w == [] {
      assert t == s;
    } else {
      var p := w[..|w| - 1];
      assert t[..|t| - 1] == s + p;
      assert t[|t| - 1] == w[|w| - 1];
      TrailingSpaceOf(s, p);
    }
  }

  /** Whitespace appended to any string never changes what it trims to. */
  lemma TrimAppendWs(s: string, w: string)
    requires AllWhitespace(w)
    ensures Trim(s + w) == Trim(s)
  {
    TrailingSpaceAppend(s, w);
    var j := TrailingSpace(s);
    assert (s + w)[..j] == s[..j];
  }

  /** Whitespace prepended to any string never changes what it trims to. */
  lemma TrimPrependWs(w: string, s: string)
    requires AllWhitespace(w)
    ensures Trim(w + s) == Trim(s)
  {
    TrailingSpacePrepend(w, s);
    var j := TrailingSpace(s);
    if j > 0 {
      assert (w + s)[..|w| + j] == w + s[..j];
      LeadingSpacePrepend(w, s[..j]);
      var i := LeadingSpace(s[..j]);
      assert (w + s[..j])[|w| + i..] == s[..j][i..];
    }
  }

  /** Helper: whitespace at the end of `s + w` that is all of `w` adds to the trailing run of `s`. */
  lemma {:induction false} TrailingSpaceAppend(s: string, w: string)
    requires AllWhitespace(w)
    ensures TrailingSpace(s + w) == TrailingSpace(s)
    decreases |w|
  {
    var t := s + w;
    if w == [] {
      assert t == s;
    } else {
      var p := w[..|w| - 1];
      assert t[..|t| - 1] == s + p;
      assert IsWhitespace(t[|t| - 1]);
      TrailingSpaceAppend(s, p);
    }
  }

  /** Helper: the trailing run of `w + s` starts `|w|` later than that of `s`, unless
      `s` is whitespace throughout. */
  lemma {:induction false} TrailingSpacePrepend(w: string, s: string)
    requires AllWhitespace(w)
    ensures TrailingSpace(w + s) == if TrailingSpace(s) > 0 then |w| + TrailingSpace(s) else 0
    decreases |s|
  {
    var t := w + s;
    if s == [] {
      assert t == w;
    } else if IsWhitespace(s[|s| - 1]) {
      var p := s[..|s| - 1];
      assert t[..|t| - 1] == w + p;
      TrailingSpacePrepend(w, p);
    }
  }

  /** Helper: the leading run of `w + s` is `w` followed by the leading run of `s`. */
  lemma {:induction false} LeadingSpacePrepend(w: string, s: string)
    requires AllWhitespace(w)
    ensures LeadingSpace(w + s) == |w| + LeadingSpace(s)
    decreases |w|
  {
    var t := w + s;
    if w == [] {
      assert t == s;
    } else {
      assert t[1..] == w[1..] + s;
      assert IsWhitespace(t[0]);
      LeadingSpacePrepend(w[1..], s);
    }
  }

  /** ASCII lower-casing of one character: upper-case letters become lower case and
      every other character stays as it is. */
  function FoldCase(c: char): (r: char)
    ensures !('A' <= r <= 'Z')
    ensures !('A' <= c <= 'Z') ==> r == c
    ensures 'A' <= c <= 'Z' ==> 'a' <= r <= 'z' && r as int - 'a' as int == c as int - 'A' as int
  {
    if 'A' <= c <= 'Z' then (c as int + 32) as char else c
  }

  /** The whole string lower-cased. */
  function Lowered(s: string): (r: string)
    ensures |r| == |s|
    ensures forall i :: 0 <= i < |s| ==> r[i] == FoldCase(s[i])
  {
    seq(|s|, i requires 0 <= i < |s| => FoldCase(s[i]))
  }

  /** `a.equals(b, ignoreCase = true)` on ASCII: equal length and equal
      characters once both are folded to lower case. */
  predicate EqualsIgnoreCase(a: string, b: string) {
    |a| == |b| && forall i :: 0 <= i < |a| ==> FoldCase(a[i]) == FoldCase(b[i])
  }

  /** Comparing ignoring case is comparing the lower-cased strings. */
  lemma EqualsIgnoreCaseIsLoweredEquality(a: string, b: string)
    ensures EqualsIgnoreCase(a, b) <==> Lowered(a) == Lowered(b)
  {
    if Lowered(a) == Lowered(b) {
      forall i | 0 <= i < |a| ensures FoldCase(a[i]) == FoldCase(b[i]) {
        assert Lowered(a)[i] == Lowered(b)[i];
      }
    }
  }

  /** Comparing ignoring case is an equivalence relation. */
  lemma EqualsIgnoreCaseIsEquivalence(a: string, b: string, c: string)
    ensures EqualsIgnoreCase(a, a)
    ensures EqualsIgnoreCase(a, b) ==> EqualsIgnoreCase(b, a)
    ensures EqualsIgnoreCase(a, b) && EqualsIgnoreCase(b, c) ==> EqualsIgnoreCase(a, c)
  {
  }

  predicate IsDigit(c: char) {
    '0' <= c <= '9'
  }

  function DigitChar(d: nat): (c: char)
    requires d < 10
    ensures IsDigit(c) && c as int - '0' as int == d
  {
    ('0' as int + d) as char
  }

  /** Decimal digits of `n`, most significant first, no leading zero. */
  function NatToString(n: nat): (r: string)
    ensures |r| > 0 && forall k :: 0 <= k < |r| ==> IsDigit(r[k])
    ensures |r| > 1 ==> r[0] != '0'
  {
    if n < 10 then [DigitChar(n)] else NatToString(n / 10) + [DigitChar(n % 10)]
  }

  /** Kotlin's `Int.toString()`: a minus sign before the digits of a negative number. */
  function IntToString(n: int): (r: string)
    ensures |r| > 0
    ensures (r[0] == '-') == (n < 0)
    ensures var d := if n < 0 then r[1..] else r;
            |d| > 0 && (forall k :: 0 <= k < |d| ==> IsDigit(d[k])) && (|d| > 1 ==> d[0] != '0')
  {
    if n < 0 then "-" + NatToString(-n) else NatToString(n)
  }

  /** Reads a string of decimal digits back. */
  function ParseNat(s: string): int {
    if s == [] then 0
    else 10 * ParseNat(s[..|s| - 1]) + (s[|s| - 1] as int - '0' as int)
  }

  /** Reads an optionally negative decimal number back. */
  function ParseInt(s: string): int {
    if |s| > 0 && s[0] == '-' then -ParseNat(s[1..]) else ParseNat(s)
  }

  lemma {:induction false} NatToStringRoundTrip(n: nat)
    ensures ParseNat(NatToString(n)) == n
  {
    if n >= 10 {
      var s := NatToString(n);
      NatToStringRoundTrip(n / 10);
      assert s[..|s| - 1] == NatToString(n / 10);
    }
  }

  /** The text `Int.toString()` renders determines the number. */
  lemma IntToStringRoundTrip(n: int)
    ensures ParseInt(IntToString(n)) == n
  {
    if n < 0 {
      NatToStringRoundTrip(-n);
      assert IntToString(n)[1..] == NatToString(-n);
    } else {
      NatToStringRoundTrip(n);
    }
  }
}
