/** The java.lang.String operations both log parsers are built from:
    indexOf, lastIndexOf, contains, trim, and the decimal conversions
    behind String.valueOf(int) and Integer.parseInt. Positions are `int`
    because the Java methods answer -1 for "not found". */
module JavaStrings {

  /** `pat` occurs in `s` starting at index `k`. */
  predicate Occurs(s: string, pat: string, k: int)
  {
    0 <= k && k + |pat| <= |s| && s[k..k + |pat|] == pat
  }

  /** Java clamps the fromIndex of indexOf into 0..length. */
  function Clamp(from: int, n: nat): (r: nat)
    ensures r <= n
    ensures 0 <= from <= n ==> r == from
  {
    if from < 0 then 0 else if from > n then n else from
  }

  /** The first occurrence of `pat` at or after `k`, or -1. */
  function IndexFrom(s: string, pat: string, k: nat): (r: int)
    requires k <= |s|
    decreases |s| - k
    ensures r == -1 || (k <= r && Occurs(s, pat, r))
    ensures forall i :: k <= i && (r == -1 || i < r) ==> !Occurs(s, pat, i)
  {
    if k + |pat| > |s| then -1
    else if s[k..k + |pat|] == pat then k
    else IndexFrom(s, pat, k + 1)
  }

  /** String.indexOf(String str, int fromIndex). */
  function IndexOf(s: string, pat: string, from: int): (r: int)
    ensures r == -1 || (Clamp(from, |s|) <= r && Occurs(s, pat, r))
    ensures pat != [] && r != -1 ==> from <= r
    ensures forall i :: from <= i && (r == -1 || i < r) ==> !Occurs(s, pat, i)
  {
    IndexFrom(s, pat, Clamp(from, |s|))
  }

  /** The last occurrence of `pat` starting at or before `k`, or -1. */
  function LastIndexFrom(s: string, pat: string, k: int): (r: int)
    requires k + |pat| <= |s|
    decreases k + 1
    ensures r == -1 || (r <= k && Occurs(s, pat, r))
    ensures forall i :: r < i <= k ==> !Occurs(s, pat, i)
  {
    if k < 0 then -1
    else if s[k..k + |pat|] == pat then k
    else LastIndexFrom(s, pat, k - 1)
  }

  /** String.lastIndexOf(String str, int fromIndex); with a one-character
      `pat` this is also String.lastIndexOf(int ch, int fromIndex). */
  function LastIndexOf(s: string, pat: string, from: int): (r: int)
    ensures r == -1 || (r <= from && Occurs(s, pat, r))
    ensures forall i :: r < i <= from ==> !Occurs(s, pat, i)
  {
    LastIndexFrom(s, pat, if from > |s| - |pat| then |s| - |pat| else from)
  }

  /** String.contains. */
  function Contains(s: string, pat: string): (r: bool)
    ensures r <==> exists k :: Occurs(s, pat, k)
  {
    var i := IndexOf(s, pat, 0);
    assert i != -1 ==> Occurs(s, pat, i);
    i != -1
  }

  /** String.lastIndexOf(String str) searches from the end: it finds
      something exactly when the pattern occurs. */
  lemma LastIndexOfContains(s: string, pat: string)
    ensures LastIndexOf(s, pat, |s|) != -1 <==> Contains(s, pat)
  {
    if Contains(s, pat) {
      var k :| Occurs(s, pat, k);
      assert k <= |s|;
    }
  }

  /** A one-character pattern occurs exactly where that character stands. */
  lemma OccursChar(s: string, c: char, k: int)
    ensures Occurs(s, [c], k) <==> 0 <= k < |s| && s[k] == c
  {
    if 0 <= k < |s| && s[k] == c {
      assert s[k..k + 1] == [c];
    }
  }

  /** StringBuilder appends regroup freely. */
  lemma ConcatAssoc(x: string, y: string, z: string)
    ensures (x + y) + z == x + (y + z)
  {
  }

  predicate EndsWith(s: string, suffix: string)
  {
    |suffix| <= |s| && s[|s| - |suffix|..] == suffix
  }

  predicate NoDot(s: string)
  {
    forall k :: 0 <= k < |s| ==> s[k] != '.'
  }

  /** String.trim removes every character whose code is at most U+0020. */
  predicate IsJavaSpace(c: char)
  {
    c <= ' '
  }

  /** s[i..j] is what is left of `s` once the spaces at both ends are removed. */
  ghost predicate IsTrimOf(s: string, i: int, j: int)
  {
    && 0 <= i <= j <= |s|
    && (forall k :: 0 <= k < i ==> IsJavaSpace(s[k]))
    && (forall k :: j <= k < |s| ==> IsJavaSpace(s[k]))
    && (i < j ==> !IsJavaSpace(s[i]) && !IsJavaSpace(s[j - 1]))
  }

  /** The first loop of String.trim: `st` advances over spaces from `i`. */
  function SpacesFrom(s: string, i: nat): (n: nat)
    requires i <= |s|
    decreases |s| - i
    ensures i <= n <= |s|
    ensures forall k :: i <= k < n ==> IsJavaSpace(s[k])
    ensures n < |s| ==> !IsJavaSpace(s[n])
  {
    if i < |s| && IsJavaSpace(s[i]) then SpacesFrom(s, i + 1) else i
  }

  /** How many spaces `s` starts with. */
  function LeadingSpaces(s: string): (n: nat)
    ensures n <= |s|
    ensures forall k :: 0 <= k < n ==> IsJavaSpace(s[k])
    ensures n < |s| ==> !IsJavaSpace(s[n])
  {
    SpacesFrom(s, 0)
  }

  /** The second loop of String.trim: `len` moves back over spaces, but
      never below `st`. */
  function TrimmedEnd(s: string, st: nat, len: nat): (n: nat)
    requires st <= len <= |s|
    decreases len
    ensures st <= n <= len
    ensures forall k :: n <= k < len ==> IsJavaSpace(s[k])
    ensures st < n ==> !IsJavaSpace(s[n - 1])
  {
    if st < len && IsJavaSpace(s[len - 1]) then TrimmedEnd(s, st, len - 1) else len
  }

  /** String.trim: the text between the leading and the trailing spaces. */
  function Trim(s: string): (r: string)
    ensures IsTrimOf(s, LeadingSpaces(s), LeadingSpaces(s) + |r|)
    ensures r == s[LeadingSpaces(s)..LeadingSpaces(s) + |r|]
  {
    var st := LeadingSpaces(s);
    s[st..TrimmedEnd(s, st, |s|)]
  }

  /** A trimmed text neither starts nor ends with a space. */
  lemma TrimEnds(s: string)
    ensures var r := Trim(s);
            r == [] || (!IsJavaSpace(r[0]) && !IsJavaSpace(r[|r| - 1]))
  {
    var i, r := LeadingSpaces(s), Trim(s);
    if r != [] {
      assert r[0] == s[i] && r[|r| - 1] == s[i + |r| - 1];
    }
  }

  /** Trimming never removes a non-space character at the end: a suffix made
      of non-space characters survives, and only leading spaces go. */
  lemma TrimKeepsSuffix(s: string, w: string)
    requires w != [] && EndsWith(s, w)
    requires forall k :: 0 <= k < |w| ==> !IsJavaSpace(w[k])
    ensures LeadingSpaces(s) <= |s| - |w|
    ensures Trim(s) == s[LeadingSpaces(s)..]
    ensures EndsWith(Trim(s), w)
  {
    var n := |s| - |w|;
    assert s[n..][0] == w[0] && s[n..][|w| - 1] == w[|w| - 1];
    assert !IsJavaSpace(s[n]);
    TrimToEnd(s);
    var i, r := LeadingSpaces(s), Trim(s);
    assert r[|r| - |w|..] == s[n..];
  }

  /** A text ending in a non-space keeps its end when trimmed. */
  lemma TrimToEnd(s: string)
    requires s != [] && !IsJavaSpace(s[|s| - 1])
    ensures Trim(s) == s[LeadingSpaces(s)..]
  {
    var i, r := LeadingSpaces(s), Trim(s);
    assert IsTrimOf(s, i, i + |r|);
  }

  /** The same, for a slice s[a..b]: trimming it leaves s[m..b] for the
      first non-space position m, with only spaces in between. */
  lemma TrimSliceKeepsSuffix(s: string, a: int, b: int, w: string) returns (m: int)
    requires 0 <= a <= b <= |s|
    requires w != [] && EndsWith(s[a..b], w)
    requires forall k :: 0 <= k < |w| ==> !IsJavaSpace(w[k])
    ensures a <= m <= b - |w|
    ensures Trim(s[a..b]) == s[m..b]
    ensures EndsWith(s[m..b], w) && !IsJavaSpace(s[m])
    ensures forall k :: a <= k < m ==> IsJavaSpace(s[k])
  {
    var t := s[a..b];
    TrimKeepsSuffix(t, w);
    var l := LeadingSpaces(t);
    SliceTail(s, a, b, l);
    m := a + l;
    SliceSpaces(s, a, b, l);
  }

  lemma SliceTail(s: string, a: int, b: int, l: nat)
    requires 0 <= a <= b <= |s| && l <= b - a
    ensures s[a..b][l..] == s[a + l..b]
  {
  }

  /** The leading spaces of a slice, seen in the whole sequence. */
  lemma SliceSpaces(s: string, a: int, b: int, l: nat)
    requires 0 <= a <= b <= |s| && l <= b - a
    requires forall k :: 0 <= k < l ==> IsJavaSpace(s[a..b][k])
    requires l < b - a ==> !IsJavaSpace(s[a..b][l])
    ensures forall k :: a <= k < a + l ==> IsJavaSpace(s[k])
    ensures l < b - a ==> !IsJavaSpace(s[a + l])
  {
    forall k | a <= k < a + l ensures IsJavaSpace(s[k]) {
      assert s[k] == s[a..b][k - a];
    }
  }

  /** Characters of decimal numerals. */
  predicate IsDigit(c: char)
  {
    '0' <= c <= '9'
  }

  function DigitChar(d: nat): (c: char)
    requires d < 10
    ensures IsDigit(c)
  {
    (('0' as int) + d) as char
  }

  function DigitValue(c: char): (d: nat)
    requires IsDigit(c)
    ensures d < 10 && DigitChar(d) == c
  {
    (c as int) - ('0' as int)
  }

  /** String.valueOf(int) and StringBuilder.append(int) for a non-negative
      value: the shortest decimal numeral. */
  function NatToString(n: nat): (r: string)
    ensures r != []
    ensures forall k :: 0 <= k < |r| ==> IsDigit(r[k])
    ensures |r| > 1 ==> r[0] != '0'
  {
    if n < 10 then [DigitChar(n)]
    else NatToString(n / 10) + [DigitChar(n % 10)]
  }

  /** Integer.parseInt on a numeral made only of decimal digits. */
  function ParseDecimal(s: string): (r: nat)
    requires forall k :: 0 <= k < |s| ==> IsDigit(s[k])
    ensures r == 0 <==> forall k :: 0 <= k < |s| ==> s[k] == '0'
  {
    if s == [] then 0
    else 10 * ParseDecimal(s[..|s| - 1]) + DigitValue(s[|s| - 1])
  }

  /** The counts are stored as strings and every increment parses the stored
      string and writes back valueOf(n + 1): parsing undoes printing, so the
      stored string always denotes the number of increments. */
  lemma {:induction false} ParsePrinted(n: nat)
    ensures ParseDecimal(NatToString(n)) == n
  {
    var s := NatToString(n);
    if n >= 10 {
      ParsePrinted(n / 10);
      assert s[..|s| - 1] == NatToString(n / 10);
      assert DigitValue(s[|s| - 1]) == n % 10;
    } else {
      assert s[..0] == [];
      assert DigitValue(s[0]) == n;
    }
  }

  /** The other direction: printing the parsed value of a numeral without a
      leading zero gives the numeral back. */
  lemma {:induction false} PrintParsed(s: string)
    requires s != [] && (forall k :: 0 <= k < |s| ==> IsDigit(s[k]))
    requires |s| > 1 ==> s[0] != '0'
    ensures NatToString(ParseDecimal(s)) == s
  {
    var t, c := s[..|s| - 1], s[|s| - 1];
    if t == [] {
      assert s == [c];
    } else {
      PrintParsed(t);
      var n := ParseDecimal(s);
      assert t[0] != '0' && ParseDecimal(t) > 0;
      assert n / 10 == ParseDecimal(t) && n % 10 == DigitValue(c);
      assert s == t + [c];
    }
  }
}
