/** String helpers with the meaning JavaScript gives them: `trim`, the regular
    expression class `\s`, `includes`, `startsWith`, `replace` with a string
    pattern, the last element of `split`, and decimal rendering of a number
    inside a template literal. */
module Text {
  import opened Wrappers

  /** ECMAScript WhiteSpace and LineTerminator code points (section 12.2 and
      12.3 of ECMA-262): what `trim` strips and what `\s` matches. */
  predicate IsSpace(c: char) {
    var n := c as int;
    || n == 0x09 || n == 0x0A || n == 0x0B || n == 0x0C || n == 0x0D || n == 0x20
    || n == 0xA0 || n == 0x1680 || (0x2000 <= n <= 0x200A)
    || n == 0x2028 || n == 0x2029 || n == 0x202F || n == 0x205F
    || n == 0x3000 || n == 0xFEFF
  }

  predicate AllSpace(s: string) {
    forall i :: 0 <= i < |s| ==> IsSpace(s[i])
  }

  /** Number of whitespace characters at the front of `s`. */
  function LeadingSpaces(s: string): (n: nat)
    ensures n <= |s|
    ensures forall i :: 0 <= i < n ==> IsSpace(s[i])
    ensures n < |s| ==> !IsSpace(s[n])
  {
    if |s| == 0 || !IsSpace(s[0]) then 0 else 1 + LeadingSpaces(s[1..])
  }

  /** Index at which the run of trailing whitespace of `s` begins. */
  function TrailingStart(s: string): (m: nat)
    ensures m <= |s|
    ensures forall i :: m <= i < |s| ==> IsSpace(s[i])
    ensures 0 < m ==> !IsSpace(s[m - 1])
  {
    if |s| == 0 || !IsSpace(s[|s| - 1]) then |s| else TrailingStart(s[..|s| - 1])
  }

  /** JavaScript `s.trim()`. */
  function Trim(s: string): (t: string)
    ensures t == [] <==> AllSpace(s)
    ensures t != [] ==> !IsSpace(t[0]) && !IsSpace(t[|t| - 1])
    ensures LeadingSpaces(s) + |t| <= |s|
    ensures t == s[LeadingSpaces(s)..LeadingSpaces(s) + |t|]
    ensures AllSpace(s[..LeadingSpaces(s)]) && AllSpace(s[LeadingSpaces(s) + |t|..])
  {
    var a := LeadingSpaces(s);
    if a == |s| then
      []
    else
      var b := TrailingStart(s);
      assert !IsSpace(s[a]);
      s[a..b]
  }

  /** `!s.trim()`: the string is empty once trimmed. */
  predicate Blank(s: string) {
    Trim(s) == []
  }

  /** Trimming twice is trimming once. */
  lemma TrimIdempotent(s: string)
    ensures Trim(Trim(s)) == Trim(s)
  {
    var t := Trim(s);
    if t != [] {
      assert LeadingSpaces(t) == 0;
      assert TrailingStart(t) == |t| by {
        assert !IsSpace(t[|t| - 1]);
      }
    }
  }

  /** A string is blank exactly when every character is whitespace. */
  lemma BlankIffAllSpace(s: string)
    ensures Blank(s) <==> AllSpace(s)
  {
  }

  /** `s` holds at least two non-whitespace characters. */
  predicate TwoNonSpace(s: string) {
    exists i, j :: 0 <= i < j < |s| && !IsSpace(s[i]) && !IsSpace(s[j])
  }

  /** `s` holds exactly one non-whitespace character. */
  predicate OneNonSpace(s: string) {
    exists i :: 0 <= i < |s| && !IsSpace(s[i]) && forall j :: 0 <= j < |s| && j != i ==> IsSpace(s[j])
  }

  /** Trimming leaves at least two characters exactly when the string holds two
      non-whitespace characters. */
  lemma {:induction false} TrimAtLeastTwo(s: string)
    ensures |Trim(s)| >= 2 <==> TwoNonSpace(s)
  {
    var t := Trim(s);
    var a := LeadingSpaces(s);
    if |t| >= 2 {
      assert s[a] == t[0] && s[a + |t| - 1] == t[|t| - 1];
      assert !IsSpace(s[a]) && !IsSpace(s[a + |t| - 1]);
    }
    if exists i, j :: 0 <= i < j < |s| && !IsSpace(s[i]) && !IsSpace(s[j]) {
      var i, j :| 0 <= i < j < |s| && !IsSpace(s[i]) && !IsSpace(s[j]);
      InsideTrim(s, i);
      InsideTrim(s, j);
    }
  }

  /** A character JavaScript stores as a surrogate pair: one above U+FFFF.
      None of them is whitespace. */
  predicate Astral(c: char) {
    c as int > 0xFFFF
  }

  predicate HasAstral(s: string) {
    exists i :: 0 <= i < |s| && Astral(s[i])
  }

  lemma HasAstralCons(s: string)
    requires s != []
    ensures HasAstral(s) <==> Astral(s[0]) || HasAstral(s[1..])
  {
    if HasAstral(s) && !Astral(s[0]) {
      var i :| 0 <= i < |s| && Astral(s[i]);
      assert s[1..][i - 1] == s[i];
    }
    if HasAstral(s[1..]) {
      var i :| 0 <= i < |s| - 1 && Astral(s[1..][i]);
      assert s[i + 1] == s[1..][i];
    }
  }

  /** JavaScript's `s.length`: UTF-16 code units, two for an astral
      character and one for any other. It equals the character count exactly
      when there is no astral character. */
  function Utf16Length(s: string): (n: nat)
    ensures |s| <= n <= 2 * |s|
    ensures n == |s| <==> !HasAstral(s)
  {
    if s == [] then 0
    else
      HasAstralCons(s);
      (if Astral(s[0]) then 2 else 1) + Utf16Length(s[1..])
  }

  /** Trimming leaves at least two UTF-16 code units exactly when the string
      holds two non-whitespace characters or one astral character. */
  lemma TrimUnitsAtLeastTwo(s: string)
    ensures Utf16Length(Trim(s)) >= 2 <==> TwoNonSpace(s) || HasAstral(s)
  {
    TrimAtLeastTwo(s);
    var t := Trim(s);
    var a := LeadingSpaces(s);
    if HasAstral(s) {
      var i :| 0 <= i < |s| && Astral(s[i]);
      assert !IsSpace(s[i]);
      InsideTrim(s, i);
      assert t[i - a] == s[i];
      assert HasAstral(t);
    }
    if |t| == 1 {
      assert s[a] == t[0];
      assert HasAstral(t) <==> Astral(t[0]);
      if Astral(t[0]) {
        assert HasAstral(s);
      }
    }
  }

  /** A non-blank string trims to fewer than two code units exactly when it
      holds one non-whitespace character and that one is not astral. */
  lemma TrimUnitsShort(s: string)
    ensures !Blank(s) && Utf16Length(Trim(s)) < 2 <==> OneNonSpace(s) && !HasAstral(s)
  {
    TrimExactlyOne(s);
    TrimAtLeastTwo(s);
    TrimUnitsAtLeastTwo(s);
  }

  /** Trimming leaves exactly one character exactly when the string holds
      exactly one non-whitespace character. */
  lemma {:induction false} TrimExactlyOne(s: string)
    ensures |Trim(s)| == 1 <==> OneNonSpace(s)
  {
    var t := Trim(s);
    var a := LeadingSpaces(s);
    if |t| == 1 {
      assert s[a] == t[0];
      forall j | 0 <= j < |s| && j != a
        ensures IsSpace(s[j])
      {
        if j < a {
          assert s[..a][j] == s[j];
        } else {
          assert s[a + 1..][j - a - 1] == s[j];
        }
      }
    }
    if exists i :: 0 <= i < |s| && !IsSpace(s[i]) && forall j :: 0 <= j < |s| && j != i ==> IsSpace(s[j]) {
      var i :| 0 <= i < |s| && !IsSpace(s[i]) && forall j :: 0 <= j < |s| && j != i ==> IsSpace(s[j]);
      InsideTrim(s, i);
      assert s[a] == t[0] && s[a + |t| - 1] == t[|t| - 1];
      assert !IsSpace(s[a]) && !IsSpace(s[a + |t| - 1]);
      assert a == i && a + |t| - 1 == i;
    }
  }

  /** Every non-whitespace character lies inside the trimmed part. */
  lemma InsideTrim(s: string, i: int)
    requires 0 <= i < |s| && !IsSpace(s[i])
    ensures LeadingSpaces(s) <= i < LeadingSpaces(s) + |Trim(s)|
  {
    var a := LeadingSpaces(s);
    var t := Trim(s);
    forall j | a + |t| <= j < |s|
      ensures IsSpace(s[j])
    {
      assert s[a + |t|..][j - a - |t|] == s[j];
    }
  }

  // ---------------------------------------------------------------------
  // Substring search

  /** `pat` occurs in `s` starting at index `i`. */
  predicate OccursAt(s: string, pat: string, i: int) {
    0 <= i && i + |pat| <= |s| && s[i..i + |pat|] == pat
  }

  /** Leftmost occurrence of `pat` in `s` at or after `from`. */
  function IndexFrom(s: string, pat: string, from: nat): (r: Option<nat>)
    requires from <= |s|
    ensures r.Some? ==> from <= r.value && OccursAt(s, pat, r.value)
    ensures r.Some? ==> forall j :: from <= j < r.value ==> !OccursAt(s, pat, j)
    ensures r.None? ==> forall j :: from <= j ==> !OccursAt(s, pat, j)
    decreases |s| - from
  {
    if from + |pat| > |s| then None
    else if s[from..from + |pat|] == pat then Some(from)
    else IndexFrom(s, pat, from + 1)
  }

  /** JavaScript `s.indexOf(pat)`, with `None` for -1. */
  function IndexOf(s: string, pat: string): (r: Option<nat>)
    ensures r.Some? ==> OccursAt(s, pat, r.value)
    ensures r.Some? ==> forall j :: 0 <= j < r.value ==> !OccursAt(s, pat, j)
    ensures r.None? ==> forall j :: !OccursAt(s, pat, j)
  {
    IndexFrom(s, pat, 0)
  }

  /** JavaScript `s.includes(pat)`. */
  predicate Contains(s: string, pat: string) {
    IndexOf(s, pat).Some?
  }

  lemma ContainsIffOccurs(s: string, pat: string)
    ensures Contains(s, pat) <==> exists i :: OccursAt(s, pat, i)
  {
  }

  /** JavaScript `s.startsWith(p)`. */
  predicate StartsWith(s: string, p: string) {
    |p| <= |s| && s[..|p|] == p
  }

  /** JavaScript `s.replace(pat, rep)` with a string pattern: only the leftmost
      occurrence is replaced. */
  function ReplaceFirst(s: string, pat: string, rep: string): (r: string)
    ensures IndexOf(s, pat).None? ==> r == s
    ensures IndexOf(s, pat).Some? ==>
      var i := IndexOf(s, pat).value;
      && |r| == |s| - |pat| + |rep|
      && r[..i] == s[..i]
      && r[i..i + |rep|] == rep
      && r[i + |rep|..] == s[i + |pat|..]
  {
    match IndexOf(s, pat)
    case None => s
    case Some(i) => s[..i] + rep + s[i + |pat|..]
  }

  /** Removing the leftmost occurrence is undone by putting `pat` back at the
      index where it was found. */
  lemma RemoveFirstInverse(s: string, pat: string)
    requires Contains(s, pat)
    ensures var i := IndexOf(s, pat).value;
      var r := ReplaceFirst(s, pat, "");
      r[..i] + pat + r[i..] == s
  {
    var i := IndexOf(s, pat).value;
    assert s == s[..i] + s[i..i + |pat|] + s[i + |pat|..];
  }

  // ---------------------------------------------------------------------
  // Path segments

  /** The last element of `s.split(sep)`: the text after the last `sep`, or
      all of `s` when it contains none. */
  function LastSegment(s: string, sep: char): (r: string)
    ensures sep !in r
    ensures |r| <= |s| && r == s[|s| - |r|..]
    ensures |r| < |s| ==> s[|s| - |r| - 1] == sep
  {
    if |s| == 0 || s[|s| - 1] == sep then []
    else LastSegment(s[..|s| - 1], sep) + [s[|s| - 1]]
  }

  /** The segment after a separator that is followed by no other separator is
      the last segment, whatever precedes it. */
  lemma {:induction false} LastSegmentAfterSeparator(prefix: string, sep: char, tail: string)
    requires sep !in tail
    ensures LastSegment(prefix + [sep] + tail, sep) == tail
  {
    var s := prefix + [sep] + tail;
    if |tail| > 0 {
      var init := tail[..|tail| - 1];
      assert s[..|s| - 1] == prefix + [sep] + init;
      LastSegmentAfterSeparator(prefix, sep, init);
      assert init + [tail[|tail| - 1]] == tail;
    }
  }

  // ---------------------------------------------------------------------
  // Decimal numbers

  function DigitChar(d: nat): (c: char)
    requires d < 10
    ensures '0' <= c <= '9'
  {
    ['0', '1', '2', '3', '4', '5', '6', '7', '8', '9'][d]
  }

  predicate IsDigit(c: char) {
    '0' <= c <= '9'
  }

  /** A natural number as a template literal renders it. */
  function NatToString(n: nat): (r: string)
    ensures |r| >= 1
    ensures forall i :: 0 <= i < |r| ==> IsDigit(r[i])
    ensures n >= 10 ==> r[0] != '0'
  {
    if n < 10 then [DigitChar(n)] else NatToString(n / 10) + [DigitChar(n % 10)]
  }

  /** The number a string of decimal digits denotes. */
  function DecimalValue(s: string): nat
    requires forall i :: 0 <= i < |s| ==> IsDigit(s[i])
  {
    if |s| == 0 then 0
    else 10 * DecimalValue(s[..|s| - 1]) + DigitValue(s[|s| - 1])
  }

  function DigitValue(c: char): (d: nat)
    requires IsDigit(c)
    ensures d < 10
  {
    (c as int) - ('0' as int)
  }

  /** Rendering a number in decimal and reading it back gives the number. */
  lemma {:induction false} NatToStringRoundTrip(n: nat)
    ensures DecimalValue(NatToString(n)) == n
  {
    if n >= 10 {
      NatToStringRoundTrip(n / 10);
      var s := NatToString(n);
      assert s[..|s| - 1] == NatToString(n / 10);
    }
  }

  /** Distinct numbers render as distinct strings. */
  lemma NatToStringInjective(m: nat, n: nat)
    requires NatToString(m) == NatToString(n)
    ensures m == n
  {
    NatToStringRoundTrip(m);
    NatToStringRoundTrip(n);
  }
}
