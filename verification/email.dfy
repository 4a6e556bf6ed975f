/** The e-mail check both authentication screens share: the regular expression
    `\S+@\S+\.\S+` tested WITHOUT anchors, so it passes as soon as some
    substring has the shape "non-blanks, `@`, non-blanks, `.`, non-blanks".
    `\S` is any character outside JavaScript's whitespace class, which
    includes `@` and `.` themselves. */
module EmailPattern {
  import Text

  predicate NonBlank(s: string, lo: int, hi: int)
    requires 0 <= lo <= hi <= |s|
  {
    forall k :: lo <= k < hi ==> !Text.IsSpace(s[k])
  }

  /** The regular expression read literally: `s[a..p]`, `s[p+1..q]` and
      `s[q+1..b]` are the three `\S+` runs, `s[p]` the `@`, `s[q]` the dot. */
  ghost predicate RegexMatches(s: string) {
    exists a, p, q, b :: RegexMatchesAt(s, a, p, q, b)
  }

  ghost predicate RegexMatchesAt(s: string, a: int, p: int, q: int, b: int) {
    && 0 <= a < p < q < b <= |s| && p + 1 < q && q + 1 < b
    && s[p] == '@' && s[q] == '.'
    && NonBlank(s, a, p) && NonBlank(s, p + 1, q) && NonBlank(s, q + 1, b)
  }

  /** A witness for a match: an `@` at `p` and a dot at `q`, with a non-blank
      just before the `@`, only non-blanks in between, and a non-blank just
      after the dot. Taking every run as short as possible shows this is the
      same test as the regular expression. */
  predicate MatchAt(s: string, p: int, q: int) {
    && 0 < p && p + 1 < q && q + 1 < |s|
    && s[p] == '@' && s[q] == '.'
    && !Text.IsSpace(s[p - 1]) && NonBlank(s, p + 1, q) && !Text.IsSpace(s[q + 1])
  }

  predicate LooksLikeEmail(s: string) {
    exists p, q :: 0 <= p < q < |s| && MatchAt(s, p, q)
  }

  /** The witness form and the literal reading of the regular expression
      accept the same strings. */
  lemma LooksLikeEmailIffRegex(s: string)
    ensures LooksLikeEmail(s) <==> RegexMatches(s)
  {
    if LooksLikeEmail(s) {
      var p, q :| 0 <= p < q < |s| && MatchAt(s, p, q);
      assert RegexMatchesAt(s, p - 1, p, q, q + 2);
    }
    if RegexMatches(s) {
      var a, p, q, b :| RegexMatchesAt(s, a, p, q, b);
      assert !Text.IsSpace(s[p - 1]) && !Text.IsSpace(s[q + 1]);
      assert MatchAt(s, p, q);
    }
  }

  /** A linear scan deciding the test: it keeps the start of the current run
      of non-blanks and the first `@` inside that run that has a non-blank
      before it; a dot later in the same run, followed by a non-blank, with at
      least one character between it and that `@`, completes a match. */
  method Scan(s: string) returns (found: bool)
    ensures found <==> LooksLikeEmail(s)
  {
    var runStart := 0;
    var firstAt := -1;
    var i := 0;
    while i < |s|
      invariant 0 <= runStart <= i <= |s|
      invariant NonBlank(s, runStart, i)
      invariant runStart > 0 ==> Text.IsSpace(s[runStart - 1])
      invariant firstAt == -1 ==> forall k :: runStart < k < i ==> s[k] != '@'
      invariant firstAt != -1 ==> runStart < firstAt < i && s[firstAt] == '@'
      invariant firstAt != -1 ==> forall k :: runStart < k < firstAt ==> s[k] != '@'
      invariant forall p, q :: 0 <= p < q < i ==> !MatchAt(s, p, q)
    {
      if Text.IsSpace(s[i]) {
        NoMatchEndingAt(s, runStart, firstAt, i);
        runStart := i + 1;
        firstAt := -1;
      } else {
        if s[i] == '@' && i > runStart && firstAt == -1 {
          firstAt := i;
        }
        if s[i] == '.' && firstAt != -1 && firstAt + 1 < i && i + 1 < |s| && !Text.IsSpace(s[i + 1]) {
          assert MatchAt(s, firstAt, i);
          return true;
        }
        NoMatchEndingAt(s, runStart, firstAt, i);
      }
      i := i + 1;
    }
    return false;
  }

  /** With the scan's bookkeeping at index `i`, and the scan not having found a
      match there, no witness has its dot at `i`. */
  lemma NoMatchEndingAt(s: string, runStart: int, firstAt: int, i: int)
    requires 0 <= runStart <= i < |s|
    requires NonBlank(s, runStart, i)
    requires runStart > 0 ==> Text.IsSpace(s[runStart - 1])
    requires firstAt == -1 ==> forall k :: runStart < k < i ==> s[k] != '@'
    requires firstAt != -1 ==> runStart < firstAt < i + 1 && s[firstAt] == '@'
    requires firstAt != -1 ==> forall k :: runStart < k < firstAt ==> s[k] != '@'
    requires !(s[i] == '.' && firstAt != -1 && firstAt + 1 < i && i + 1 < |s| && !Text.IsSpace(s[i + 1]))
    ensures forall p :: 0 <= p < i ==> !MatchAt(s, p, i)
  {
    forall p | 0 <= p < i
      ensures !MatchAt(s, p, i)
    {
      // every character from p - 1 up to i is a non-blank, so the run that
      // contains i started before p, and p is an `@` the scan has seen
      assert MatchAt(s, p, i) ==> runStart < p;
      assert MatchAt(s, p, i) ==> firstAt != -1 && firstAt <= p;
    }
  }
}
