/** JavaScript `decodeURIComponent`: percent-escapes (section 2.1 of RFC 3986)
    are turned back into characters, where consecutive escapes spell one code
    point in UTF-8 (RFC 3629). The ECMAScript algorithm throws a `URIError` for
    a `%` that is not followed by two hexadecimal digits, for a byte that
    cannot start a UTF-8 sequence, for a missing or malformed continuation
    byte, and for an overlong form, a surrogate or a value above U+10FFFF;
    every such throw is `None` here. Every other character is copied. */
module PercentDecoding {
  import opened Wrappers
  import Text

  predicate IsHexDigit(c: char) {
    ('0' <= c <= '9') || ('a' <= c <= 'f') || ('A' <= c <= 'F')
  }

  function HexValue(c: char): (v: nat)
    requires IsHexDigit(c)
    ensures v < 16
  {
    if '0' <= c <= '9' then (c as int) - ('0' as int)
    else if 'a' <= c <= 'f' then (c as int) - ('a' as int) + 10
    else (c as int) - ('A' as int) + 10
  }

  /** The byte written `%XY` at index `k` of `s`, if there is one. */
  function EscapedByte(s: string, k: nat): (b: Option<nat>)
    ensures b.Some? ==> k + 3 <= |s| && s[k] == '%' && IsHexDigit(s[k + 1]) && IsHexDigit(s[k + 2])
    ensures b.Some? ==> b.value < 256
  {
    if k + 3 <= |s| && s[k] == '%' && IsHexDigit(s[k + 1]) && IsHexDigit(s[k + 2]) then
      Some(16 * HexValue(s[k + 1]) + HexValue(s[k + 2]))
    else
      None
  }

  /** Every character in `s[lo..hi]` can belong to an escape. */
  predicate EscapeChars(s: string, lo: int, hi: int)
    requires 0 <= lo <= hi <= |s|
  {
    forall j :: lo <= j < hi ==> s[j] == '%' || IsHexDigit(s[j])
  }

  predicate IsContinuation(b: nat) {
    0x80 <= b < 0xC0
  }

  /** `count` escaped continuation bytes `10xxxxxx` starting at index `k`. */
  function Continuations(s: string, k: nat, count: nat): (r: Option<seq<nat>>)
    requires k <= |s|
    ensures r.Some? ==> |r.value| == count && k + 3 * count <= |s|
    ensures r.Some? ==> EscapeChars(s, k, k + 3 * count)
    ensures r.Some? ==> forall i :: 0 <= i < count ==> IsContinuation(r.value[i])
    decreases count
  {
    if count == 0 then Some([])
    else
      match EscapedByte(s, k)
      case None => None
      case Some(b) =>
        if !IsContinuation(b) then None
        else
          match Continuations(s, k + 3, count - 1)
          case None => None
          case Some(rest) => Some([b] + rest)
  }

  /** Length of the UTF-8 sequence a lead byte announces (the number of its
      leading one bits), for a lead byte that can start a multi-byte sequence. */
  function SequenceLength(b0: nat): (n: nat)
    requires 0xC0 <= b0 < 0xF8
    ensures 2 <= n <= 4
  {
    if b0 < 0xE0 then 2 else if b0 < 0xF0 then 3 else 4
  }

  /** The code point a lead byte and its continuation bytes spell. */
  function CodePoint(b0: nat, cs: seq<nat>): (cp: int)
    requires 0xC0 <= b0 < 0xF8 && |cs| == SequenceLength(b0) - 1
    requires forall i :: 0 <= i < |cs| ==> IsContinuation(cs[i])
    ensures 0 <= cp < 0x20_0000
  {
    var lead := b0 as int;
    if |cs| == 1 then
      (lead - 0xC0) * 0x40 + Payload(cs[0])
    else if |cs| == 2 then
      (lead - 0xE0) * 0x1000 + Payload(cs[0]) * 0x40 + Payload(cs[1])
    else
      (lead - 0xF0) * 0x4_0000 + Payload(cs[0]) * 0x1000 + Payload(cs[1]) * 0x40 + Payload(cs[2])
  }

  /** The six low bits a continuation byte carries. */
  function Payload(b: nat): (v: int)
    requires IsContinuation(b)
    ensures 0 <= v < 0x40
  {
    b as int - 0x80
  }

  /** The shortest-form and range rules of UTF-8: an `n`-byte sequence must
      need `n` bytes, and must not spell a surrogate or exceed U+10FFFF. */
  predicate WellFormed(n: nat, cp: int) {
    if n == 2 then cp >= 0x80
    else if n == 3 then cp >= 0x800 && !(0xD800 <= cp < 0xE000)
    else 0x1_0000 <= cp < 0x11_0000
  }

  /** The character an escape group at the front of `s` spells, and how many
      characters of `s` the group spans. */
  function DecodeEscape(s: string): (r: Option<(char, nat)>)
    requires |s| > 0 && s[0] == '%'
    ensures r.Some? ==> 3 <= r.value.1 <= |s| && EscapeChars(s, 0, r.value.1)
  {
    match EscapedByte(s, 0)
    case None => None
    case Some(b0) =>
      if b0 < 0x80 then Some((b0 as char, 3))
      else if b0 < 0xC0 || b0 >= 0xF8 then None
      else
        var n := SequenceLength(b0);
        match Continuations(s, 3, n - 1)
        case None => None
        case Some(cs) =>
          var cp := CodePoint(b0, cs);
          if WellFormed(n, cp) then Some((cp as char, 3 * n)) else None
  }

  /** `decodeURIComponent(s)`, with `None` where it throws. */
  function Decode(s: string): (r: Option<string>)
    ensures r.Some? ==> |r.value| <= |s|
    decreases |s|
  {
    if |s| == 0 then Some([])
    else if s[0] != '%' then
      match Decode(s[1..])
      case None => None
      case Some(rest) => Some([s[0]] + rest)
    else
      match DecodeEscape(s)
      case None => None
      case Some((c, n)) =>
        match Decode(s[n..])
        case None => None
        case Some(rest) => Some([c] + rest)
  }

  /** A string without `%` decodes to itself. */
  lemma {:induction false} DecodeWithoutPercent(s: string)
    requires '%' !in s
    ensures Decode(s) == Some(s)
  {
    if |s| > 0 {
      assert s[0] != '%';
      DecodeWithoutPercent(s[1..]);
      assert [s[0]] + s[1..] == s;
    }
  }

  /** A decodable string that starts with a run `x` free of `%` decodes to a
      string that starts with the same run. */
  lemma {:induction false} DecodeKeepsLiteralPrefix(s: string, x: string)
    requires Decode(s).Some?
    requires Text.StartsWith(s, x) && '%' !in x
    ensures Text.StartsWith(Decode(s).value, x)
    decreases |x|
  {
    if |x| > 0 {
      assert s[0] == x[0];
      assert x[1..] == s[1..][..|x| - 1];
      DecodeKeepsLiteralPrefix(s[1..], x[1..]);
    }
  }

  /** An escape group at the front ends before any character that can
      belong to no escape. */
  lemma EscapeEndsBefore(s: string, k: nat)
    requires |s| > 0 && s[0] == '%' && DecodeEscape(s).Some?
    requires k < |s| && s[k] != '%' && !IsHexDigit(s[k])
    ensures DecodeEscape(s).value.1 <= k
  {
    var n := DecodeEscape(s).value.1;
    assert EscapeChars(s, 0, n);
  }

  /** A decodable string with a literal head decodes to that head followed by
      the decoding of the rest. */
  lemma DecodeLiteralHead(s: string)
    requires |s| > 0 && s[0] != '%' && Decode(s).Some?
    ensures Decode(s[1..]).Some? && Decode(s).value == [s[0]] + Decode(s[1..]).value
  {
  }

  /** A decodable string with an escape group at its head decodes to the
      group's character followed by the decoding of the rest. */
  lemma DecodeEscapeHead(s: string)
    requires |s| > 0 && s[0] == '%' && Decode(s).Some?
    ensures DecodeEscape(s).Some?
    ensures var n := DecodeEscape(s).value.1;
      Decode(s[n..]).Some? && Decode(s).value == [DecodeEscape(s).value.0] + Decode(s[n..]).value
  {
  }

  /** An occurrence after a dropped prefix is an occurrence in the rest. */
  lemma OccursAfterDrop(s: string, x: string, k: nat, n: nat)
    requires n <= k && Text.OccursAt(s, x, k)
    ensures Text.OccursAt(s[n..], x, k - n)
  {
    assert s[n..][k - n..k - n + |x|] == s[k..k + |x|];
  }

  /** An occurrence keeps its place, shifted by one, behind a new head. */
  lemma OccursBehindHead(c: char, d: string, x: string, j: nat)
    requires Text.OccursAt(d, x, j)
    ensures Text.OccursAt([c] + d, x, j + 1)
  {
    assert ([c] + d)[j + 1..j + 1 + |x|] == d[j..j + |x|];
  }

  /** A run free of `%` whose first character is no hexadecimal digit cannot
      lie inside an escape group, so it survives decoding unchanged: it occurs
      in the decoded string too. */
  lemma {:induction false} LiteralSurvivesDecoding(s: string, x: string, k: nat) returns (j: nat)
    requires Decode(s).Some?
    requires Text.OccursAt(s, x, k) && |x| > 0
    requires '%' !in x && !IsHexDigit(x[0])
    ensures Text.OccursAt(Decode(s).value, x, j)
    decreases |s|
  {
    assert s[k] == x[0];
    if k == 0 {
      assert Text.StartsWith(s, x);
      DecodeKeepsLiteralPrefix(s, x);
      j := 0;
    } else if s[0] != '%' {
      DecodeLiteralHead(s);
      OccursAfterDrop(s, x, k, 1);
      var j' := LiteralSurvivesDecoding(s[1..], x, k - 1);
      OccursBehindHead(s[0], Decode(s[1..]).value, x, j');
      j := j' + 1;
    } else {
      DecodeEscapeHead(s);
      var (c, n) := DecodeEscape(s).value;
      EscapeEndsBefore(s, k);
      OccursAfterDrop(s, x, k, n);
      var j' := LiteralSurvivesDecoding(s[n..], x, k - n);
      OccursBehindHead(c, Decode(s[n..]).value, x, j');
      j := j' + 1;
    }
  }

  /** A run free of `%` that begins with no hexadecimal digit and occurs in a
      decodable string is still contained in its decoding. */
  lemma LiteralContainedAfterDecoding(s: string, x: string)
    requires Decode(s).Some? && Text.Contains(s, x) && |x| > 0
    requires '%' !in x && !IsHexDigit(x[0])
    ensures Text.Contains(Decode(s).value, x)
  {
    var k := Text.IndexOf(s, x).value;
    var j := LiteralSurvivesDecoding(s, x, k);
  }


  // ---------------------------------------------------------------------
  // UTF-8: what an escape group spells

  /** The UTF-8 bytes of one character (section 3 of RFC 3629): the code
      point's bits, six to a continuation byte, behind a lead byte that
      announces the length. */
  function Utf8(c: char): (bs: seq<nat>)
    ensures 1 <= |bs| <= 4
    ensures forall i :: 0 <= i < |bs| ==> bs[i] < 256
  {
    var cp := c as int;
    var q1 := cp / 0x40;
    var q2 := q1 / 0x40;
    if cp < 0x80 then [cp]
    else if cp < 0x800 then [0xC0 + q1, 0x80 + cp % 0x40]
    else if cp < 0x1_0000 then [0xE0 + q2, 0x80 + q1 % 0x40, 0x80 + cp % 0x40]
    else [0xF0 + q2 / 0x40, 0x80 + q2 % 0x40, 0x80 + q1 % 0x40, 0x80 + cp % 0x40]
  }

  /** `s` begins with escapes of the bytes `bs`, three characters each, in
      either case of hexadecimal digit. */
  predicate EscapesBytes(s: string, bs: seq<nat>) {
    forall i :: 0 <= i < |bs| ==> EscapedByte(s, 3 * i) == Some(bs[i])
  }

  /** A character's bytes form a sequence the decoder accepts: a single
      ASCII byte, or a lead byte announcing the length followed by
      continuation bytes that spell the character in shortest form. */
  lemma Utf8Shape(c: char)
    ensures var bs := Utf8(c);
      || (|bs| == 1 && bs[0] < 0x80 && bs[0] == c as int)
      || (&& 0xC0 <= bs[0] < 0xF8 && SequenceLength(bs[0]) == |bs|
          && (forall i :: 1 <= i < |bs| ==> IsContinuation(bs[i]))
          && CodePoint(bs[0], bs[1..]) == c as int
          && WellFormed(|bs|, c as int))
  {
    var cp := c as int;
    var q1 := cp / 0x40;
    var q2 := q1 / 0x40;
    assert cp == q1 * 0x40 + cp % 0x40;
    assert q1 == q2 * 0x40 + q1 % 0x40;
    assert q2 == (q2 / 0x40) * 0x40 + q2 % 0x40;
  }

  /** A well-formed sequence is the UTF-8 encoding of the character it
      spells: the decoder and `Utf8` are inverse on multi-byte sequences. */
  lemma Utf8Unique(b0: nat, cs: seq<nat>)
    requires 0xC0 <= b0 < 0xF8 && |cs| == SequenceLength(b0) - 1
    requires forall i :: 0 <= i < |cs| ==> IsContinuation(cs[i])
    requires WellFormed(SequenceLength(b0), CodePoint(b0, cs))
    ensures Utf8(CodePoint(b0, cs) as char) == [b0] + cs
  {
    var cp := CodePoint(b0, cs);
    var q1 := cp / 0x40;
    var q2 := q1 / 0x40;
    if |cs| == 1 {
      assert q1 == b0 - 0xC0 && cp % 0x40 == Payload(cs[0]);
    } else if |cs| == 2 {
      assert q1 == (b0 - 0xE0) * 0x40 + Payload(cs[0]) && cp % 0x40 == Payload(cs[1]);
      assert q2 == b0 - 0xE0 && q1 % 0x40 == Payload(cs[0]);
    } else {
      assert q1 == (b0 - 0xF0) * 0x1000 + Payload(cs[0]) * 0x40 + Payload(cs[1]) && cp % 0x40 == Payload(cs[2]);
      assert q2 == (b0 - 0xF0) * 0x40 + Payload(cs[0]) && q1 % 0x40 == Payload(cs[1]);
      assert q2 / 0x40 == b0 - 0xF0 && q2 % 0x40 == Payload(cs[0]);
    }
  }

  lemma ConsTail(xs: seq<nat>)
    requires |xs| > 0
    ensures [xs[0]] + xs[1..] == xs
  {
  }

  /** `count` escaped continuation bytes read back as the bytes written. */
  lemma {:induction false} ContinuationsRead(s: string, k: nat, cs: seq<nat>)
    requires k <= |s|
    requires forall i :: 0 <= i < |cs| ==> EscapedByte(s, k + 3 * i) == Some(cs[i]) && IsContinuation(cs[i])
    ensures Continuations(s, k, |cs|) == Some(cs)
    decreases |cs|
  {
    if cs != [] {
      assert EscapedByte(s, k + 3 * 0) == Some(cs[0]);
      var rest := cs[1..];
      forall i | 0 <= i < |rest|
        ensures EscapedByte(s, k + 3 + 3 * i) == Some(rest[i]) && IsContinuation(rest[i])
      {
        assert rest[i] == cs[i + 1];
        assert EscapedByte(s, k + 3 * (i + 1)) == Some(cs[i + 1]);
      }
      ContinuationsRead(s, k + 3, rest);
      ConsTail(cs);
    }
  }

  /** An escape group at the front that spells the UTF-8 bytes of `c`
      decodes to `c` and spans three characters per byte. */
  lemma DecodeEscapeUtf8(s: string, c: char)
    requires |s| > 0 && s[0] == '%'
    ensures EscapesBytes(s, Utf8(c)) ==> DecodeEscape(s) == Some((c, 3 * |Utf8(c)|))
  {
    var bs := Utf8(c);
    if EscapesBytes(s, bs) {
      Utf8Shape(c);
      assert EscapedByte(s, 3 * 0) == Some(bs[0]);
      if |bs| > 1 {
        forall i | 0 <= i < |bs| - 1
          ensures EscapedByte(s, 3 + 3 * i) == Some(bs[1..][i]) && IsContinuation(bs[1..][i])
        {
          assert EscapedByte(s, 3 * (i + 1)) == Some(bs[i + 1]);
        }
        ContinuationsRead(s, 3, bs[1..]);
      }
    }
  }

  /** The continuation bytes read are the escaped bytes at their places. */
  lemma {:induction false} ContinuationsReadBack(s: string, k: nat, count: nat)
    requires k <= |s| && Continuations(s, k, count).Some?
    ensures var cs := Continuations(s, k, count).value;
      forall i :: 0 <= i < count ==> EscapedByte(s, k + 3 * i) == Some(cs[i])
    decreases count
  {
    if count > 0 {
      var cs := Continuations(s, k, count).value;
      var rest := Continuations(s, k + 3, count - 1).value;
      assert cs == [cs[0]] + rest;
      ContinuationsReadBack(s, k + 3, count - 1);
      forall i | 0 <= i < count
        ensures EscapedByte(s, k + 3 * i) == Some(cs[i])
      {
        if i > 0 {
          assert cs[i] == rest[i - 1];
          assert k + 3 * i == k + 3 + 3 * (i - 1);
        }
      }
    }
  }

  /** A multi-byte group spells its lead byte and continuation bytes. */
  lemma SpellsMultiByte(s: string, b0: nat, cs: seq<nat>)
    requires EscapedByte(s, 0) == Some(b0) && 0xC0 <= b0 < 0xF8
    requires |cs| == SequenceLength(b0) - 1 && 3 <= |s|
    requires forall i :: 0 <= i < |cs| ==> EscapedByte(s, 3 + 3 * i) == Some(cs[i])
    ensures EscapesBytes(s, [b0] + cs)
  {
    var bs := [b0] + cs;
    forall i | 0 <= i < |bs|
      ensures EscapedByte(s, 3 * i) == Some(bs[i])
    {
      if i > 0 {
        assert bs[i] == cs[i - 1];
        assert EscapedByte(s, 3 + 3 * (i - 1)) == Some(cs[i - 1]);
      }
    }
  }

  /** Conversely, every escape group the decoder accepts spells the UTF-8
      bytes of the character it yields. */
  lemma DecodeEscapeSpellsUtf8(s: string)
    requires |s| > 0 && s[0] == '%' && DecodeEscape(s).Some?
    ensures var (c, n) := DecodeEscape(s).value;
      n == 3 * |Utf8(c)| && EscapesBytes(s, Utf8(c))
  {
    var (c, n) := DecodeEscape(s).value;
    var b0 := EscapedByte(s, 0).value;
    if b0 < 0x80 {
      assert Utf8(c) == [b0];
      assert EscapedByte(s, 3 * 0) == Some(b0);
    } else {
      var cs := Continuations(s, 3, SequenceLength(b0) - 1).value;
      ContinuationsReadBack(s, 3, SequenceLength(b0) - 1);
      Utf8Unique(b0, cs);
      SpellsMultiByte(s, b0, cs);
    }
  }

  /** The head group's character and length decide it: the group decodes
      to `c` exactly when it spells the UTF-8 bytes of `c`. */
  lemma DecodeEscapeIffUtf8(s: string, c: char)
    requires |s| > 0 && s[0] == '%'
    ensures DecodeEscape(s) == Some((c, 3 * |Utf8(c)|)) <==> EscapesBytes(s, Utf8(c))
  {
    DecodeEscapeUtf8(s, c);
    if DecodeEscape(s) == Some((c, 3 * |Utf8(c)|)) {
      DecodeEscapeSpellsUtf8(s);
    }
  }

  /** An escape depends on its own three characters only. */
  lemma EscapedByteShift(s: string, n: nat, k: nat)
    requires n <= k <= |s|
    ensures EscapedByte(s[n..], k - n) == EscapedByte(s, k)
  {
    if k + 3 <= |s| {
      assert s[n..][k - n..k - n + 3] == s[k..k + 3];
    }
  }

  /** An escape is read from its three characters alone. */
  lemma EscapedByteSame(s: string, t: string, k: nat)
    requires k + 3 <= |s| && k + 3 <= |t|
    requires s[k] == t[k] && s[k + 1] == t[k + 1] && s[k + 2] == t[k + 2]
    ensures EscapedByte(s, k) == EscapedByte(t, k)
  {
  }

  /** Escapes read in a prefix read the same in any extension of it, and in
      any truncation that keeps them. */
  lemma EscapesBytesWindow(s: string, t: string, bs: seq<nat>)
    requires 3 * |bs| <= |s| && 3 * |bs| <= |t| && s[..3 * |bs|] == t[..3 * |bs|]
    ensures EscapesBytes(s, bs) <==> EscapesBytes(t, bs)
  {
    forall i | 0 <= i < |bs|
      ensures EscapedByte(s, 3 * i) == EscapedByte(t, 3 * i)
    {
      assert s[3 * i] == s[..3 * |bs|][3 * i] && t[3 * i] == t[..3 * |bs|][3 * i];
      assert s[3 * i + 1] == s[..3 * |bs|][3 * i + 1] && t[3 * i + 1] == t[..3 * |bs|][3 * i + 1];
      assert s[3 * i + 2] == s[..3 * |bs|][3 * i + 2] && t[3 * i + 2] == t[..3 * |bs|][3 * i + 2];
    }
  }

  /** The head group decodes the same whatever follows it. */
  lemma DecodeEscapeLocal(s: string, t: string)
    requires |s| > 0 && s[0] == '%' && DecodeEscape(s).Some?
    requires DecodeEscape(s).value.1 <= |t| && s[..DecodeEscape(s).value.1] == t[..DecodeEscape(s).value.1]
    ensures |t| > 0 && t[0] == '%' && DecodeEscape(t) == DecodeEscape(s)
  {
    var (c, n) := DecodeEscape(s).value;
    DecodeEscapeSpellsUtf8(s);
    assert t[0] == t[..n][0];
    EscapesBytesWindow(s, t, Utf8(c));
    DecodeEscapeUtf8(t, c);
  }

  /** One step of decoding past a literal character. */
  lemma DecodeLiteralStep(s: string)
    requires |s| > 0 && s[0] != '%'
    ensures Decode(s).Some? <==> Decode(s[1..]).Some?
    ensures Decode(s).Some? ==> Decode(s).value == [s[0]] + Decode(s[1..]).value
  {
  }

  /** One step of decoding past an accepted escape group. */
  lemma DecodeEscapeStep(s: string)
    requires |s| > 0 && s[0] == '%' && DecodeEscape(s).Some?
    ensures var (c, n) := DecodeEscape(s).value;
      && (Decode(s).Some? <==> Decode(s[n..]).Some?)
      && (Decode(s).Some? ==> Decode(s).value == [c] + Decode(s[n..]).value)
  {
  }

  /** What `DecodeAppend` states of a prefix `a` and a rest `b`. */
  predicate AppendsGroupwise(a: string, b: string)
    requires Decode(a).Some?
  {
    && (Decode(a + b).Some? <==> Decode(b).Some?)
    && (Decode(b).Some? ==> Decode(a + b) == Some(Decode(a).value + Decode(b).value))
  }

  /** How a concatenation splits, proved apart from any decoding. */
  lemma ConcatSplit(a: string, b: string, n: nat)
    requires n <= |a|
    ensures (a + b)[..n] == a[..n] && (a + b)[n..] == a[n..] + b
    ensures n < |a| ==> (a + b)[n] == a[n]
  {
  }

  lemma ConsAssoc(c: char, x: string, y: string)
    ensures [c] + (x + y) == ([c] + x) + y
  {
  }

  lemma AppendLiteralStep(a: string, b: string)
    requires |a| > 0 && a[0] != '%' && Decode(a).Some?
    requires Decode(a[1..]).Some? && AppendsGroupwise(a[1..], b)
    ensures AppendsGroupwise(a, b)
  {
    ConcatSplit(a, b, 1);
    DecodeLiteralStep(a);
    DecodeLiteralStep(a + b);
    if Decode(b).Some? {
      ConsAssoc(a[0], Decode(a[1..]).value, Decode(b).value);
    }
  }

  lemma AppendEscapeStep(a: string, b: string)
    requires |a| > 0 && a[0] == '%' && Decode(a).Some? && DecodeEscape(a).Some?
    requires var n := DecodeEscape(a).value.1; Decode(a[n..]).Some? && AppendsGroupwise(a[n..], b)
    ensures AppendsGroupwise(a, b)
  {
    var (c, n) := DecodeEscape(a).value;
    ConcatSplit(a, b, n);
    DecodeEscapeLocal(a, a + b);
    DecodeEscapeStep(a);
    DecodeEscapeStep(a + b);
    if Decode(b).Some? {
      ConsAssoc(c, Decode(a[n..]).value, Decode(b).value);
    }
  }

  /** Decoding works group by group: a decodable prefix contributes its own
      decoding, and the whole fails exactly when the rest does. */
  lemma {:induction false} DecodeAppend(a: string, b: string)
    requires Decode(a).Some?
    ensures Decode(a + b).Some? <==> Decode(b).Some?
    ensures Decode(b).Some? ==> Decode(a + b) == Some(Decode(a).value + Decode(b).value)
    decreases |a|
  {
    if a == [] {
      assert a + b == b;
      assert Decode(a) == Some([]);
      if Decode(b).Some? {
        assert [] + Decode(b).value == Decode(b).value;
      }
    } else if a[0] != '%' {
      DecodeLiteralStep(a);
      DecodeAppend(a[1..], b);
      AppendLiteralStep(a, b);
    } else {
      DecodeEscapeStep(a);
      var n := DecodeEscape(a).value.1;
      DecodeAppend(a[n..], b);
      AppendEscapeStep(a, b);
    }
  }

  /** A '%' that is followed by two hexadecimal digits never lies inside an
      accepted group except at a byte boundary. */
  lemma PercentInsideGroup(s: string)
    requires |s| > 0 && s[0] == '%' && DecodeEscape(s).Some?
    ensures forall j :: 0 <= j < DecodeEscape(s).value.1 && s[j] == '%' ==> EscapedByte(s, j).Some?
  {
    var (c, n) := DecodeEscape(s).value;
    DecodeEscapeSpellsUtf8(s);
    var bs := Utf8(c);
    forall j | 0 <= j < n && s[j] == '%'
      ensures EscapedByte(s, j).Some?
    {
      var i := j / 3;
      assert 3 * i <= j < 3 * i + 3;
      PercentAtGroupStart(s, bs, i, j);
    }
  }

  /** Within the escape of byte `i`, a '%' can only be the escape's own. */
  lemma PercentAtGroupStart(s: string, bs: seq<nat>, i: nat, j: nat)
    requires EscapesBytes(s, bs) && i < |bs| && 3 * i <= j < 3 * i + 3 && j < |s| && s[j] == '%'
    ensures EscapedByte(s, j).Some?
  {
    assert EscapedByte(s, 3 * i) == Some(bs[i]);
  }

  /** A '%' anywhere that is not followed by two hexadecimal digits makes
      the whole decoding fail. */
  lemma {:induction false} BadEscapeFails(s: string, k: nat)
    requires k < |s| && s[k] == '%' && EscapedByte(s, k).None?
    ensures Decode(s).None?
    decreases |s|
  {
    if s[0] != '%' {
      EscapedByteShift(s, 1, k);
      BadEscapeFails(s[1..], k - 1);
    } else if DecodeEscape(s).Some? {
      var n := DecodeEscape(s).value.1;
      PercentInsideGroup(s);
      EscapedByteShift(s, n, k);
      BadEscapeFails(s[n..], k - n);
    }
  }

  /** Decoding breaks at `k`: what comes before decodes, and a '%' there
      starts no escape group that spells a character in UTF-8 (a malformed
      escape, a stray continuation byte, a byte no sequence starts with, a
      missing continuation, an overlong form, a surrogate or a code point
      above U+10FFFF). */
  predicate BreaksAt(s: string, k: nat) {
    && k < |s| && s[k] == '%' && Decode(s[..k]).Some?
    && forall c: char :: !EscapesBytes(s[k..], Utf8(c))
  }

  /** A decoding fails exactly when it breaks somewhere. */
  lemma DecodeFailsIff(s: string)
    ensures Decode(s).None? <==> exists k: nat :: BreaksAt(s, k)
  {
    if Decode(s).None? {
      var k := FailurePoint(s);
    } else {
      forall k: nat | BreaksAt(s, k)
        ensures false
      {
        BreakFails(s, k);
      }
    }
  }

  lemma BreakFails(s: string, k: nat)
    requires BreaksAt(s, k)
    ensures Decode(s).None?
  {
    var t := s[k..];
    if DecodeEscape(t).Some? {
      DecodeEscapeSpellsUtf8(t);
    }
    DecodeAppend(s[..k], t);
    assert s[..k] + t == s;
  }

  lemma {:induction false} FailurePoint(s: string) returns (k: nat)
    requires Decode(s).None?
    ensures BreaksAt(s, k)
    decreases |s|
  {
    if s[0] != '%' {
      var k' := FailurePoint(s[1..]);
      k := k' + 1;
      var p := s[..k];
      assert p[1..] == s[1..][..k'];
      assert Decode(p).Some?;
      assert s[k..] == s[1..][k'..];
    } else if DecodeEscape(s).None? {
      k := 0;
      assert Decode(s[..0]) == Some([]);
      forall c: char
        ensures !EscapesBytes(s[0..], Utf8(c))
      {
        assert s[0..] == s;
        DecodeEscapeUtf8(s, c);
      }
    } else {
      var (c, n) := DecodeEscape(s).value;
      var k' := FailurePoint(s[n..]);
      k := n + k';
      var p := s[..k];
      assert p[..n] == s[..n];
      DecodeEscapeLocal(s, p);
      assert p[n..] == s[n..][..k'];
      assert Decode(p).Some?;
      assert s[k..] == s[n..][k'..];
    }
  }

  // ---------------------------------------------------------------------
  // Escaping, as the inverse of decoding

  function HexDigitChar(v: nat): (c: char)
    requires v < 16
    ensures IsHexDigit(c) && HexValue(c) == v
  {
    if v < 10 then (('0' as int) + v) as char else (('A' as int) + v - 10) as char
  }

  /** `%XY` for one byte. */
  function EscapeByte(b: nat): (e: string)
    requires b < 256
    ensures |e| == 3 && EscapedByte(e, 0) == Some(b)
  {
    ['%', HexDigitChar(b / 16), HexDigitChar(b % 16)]
  }

  lemma EscapeAfterHead(head: string, tail: string, i: nat)
    requires |head| == 3 && i > 0 && EscapedByte(tail, 3 * (i - 1)).Some?
    ensures EscapedByte(head + tail, 3 * i) == EscapedByte(tail, 3 * (i - 1))
  {
    var e := head + tail;
    assert e[3..] == tail;
    EscapedByteShift(e, 3, 3 * i);
  }

  lemma EscapeOfHead(head: string, tail: string)
    requires |head| == 3
    ensures EscapedByte(head + tail, 0) == EscapedByte(head, 0)
  {
    var e := head + tail;
    assert e[0] == head[0] && e[1] == head[1] && e[2] == head[2];
    EscapedByteSame(head, e, 0);
  }

  /** Escapes of one byte followed by escapes of more bytes. */
  lemma EscapesCons(head: string, tail: string, b: nat, bs: seq<nat>)
    requires |head| == 3 && EscapedByte(head, 0) == Some(b) && EscapesBytes(tail, bs)
    ensures EscapesBytes(head + tail, [b] + bs)
  {
    var cs := [b] + bs;
    forall i | 0 <= i < |cs|
      ensures EscapedByte(head + tail, 3 * i) == Some(cs[i])
    {
      if i == 0 {
        EscapeOfHead(head, tail);
      } else {
        assert cs[i] == bs[i - 1];
        assert EscapedByte(tail, 3 * (i - 1)) == Some(bs[i - 1]);
        EscapeAfterHead(head, tail, i);
      }
    }
  }

  function EscapeBytes(bs: seq<nat>): (e: string)
    requires forall i :: 0 <= i < |bs| ==> bs[i] < 256
    ensures |e| == 3 * |bs| && EscapesBytes(e, bs)
  {
    if bs == [] then []
    else
      var head, tail := EscapeByte(bs[0]), EscapeBytes(bs[1..]);
      EscapesCons(head, tail, bs[0], bs[1..]);
      ConsTail(bs);
      head + tail
  }

  /** Every character written as the escapes of its UTF-8 bytes, the
      strictest form `encodeURIComponent` could produce. */
  function EscapeAll(s: string): (e: string)
    ensures 3 * |s| <= |e| <= 12 * |s|
  {
    if s == [] then [] else EscapeBytes(Utf8(s[0])) + EscapeAll(s[1..])
  }

  /** Decoding undoes escaping, for every character, not just ASCII. */
  lemma {:induction false} DecodeEscapeAll(s: string)
    ensures Decode(EscapeAll(s)) == Some(s)
  {
    if s != [] {
      var bs := Utf8(s[0]);
      var head := EscapeBytes(bs);
      var e := EscapeAll(s);
      assert e == head + EscapeAll(s[1..]);
      assert e[..|head|] == head;
      EscapesBytesWindow(head, e, bs);
      DecodeEscapeUtf8(e, s[0]);
      assert e[3 * |bs|..] == EscapeAll(s[1..]);
      DecodeEscapeAll(s[1..]);
      assert [s[0]] + s[1..] == s;
    }
  }
}
