/** How a note's PDF links are named on screen: the drawer shown before
    purchase (`getPdfName`, decoding inside a try/catch) and the viewer shown
    after purchase (decoding during rendering, unguarded), plus the viewer's
    count label and list/reader state. */
module PdfNames {
  import opened Wrappers
  import Text
  import PercentDecoding

  const PdfSuffix: string := ".pdf"

  /** The drawer's generic name for the link at `index`: numbered from 1. */
  function DrawerFallback(index: nat): (r: string)
    ensures Text.StartsWith(r, "PDF Document ")
  {
    "PDF Document " + Text.NatToString(index + 1)
  }

  lemma DrawerFallbackNumbers(i: nat, j: nat)
    requires DrawerFallback(i) == DrawerFallback(j)
    ensures i == j
  {
    var p := "PDF Document ";
    assert DrawerFallback(i)[|p|..] == Text.NatToString(i + 1);
    assert DrawerFallback(j)[|p|..] == Text.NatToString(j + 1);
    Text.NatToStringInjective(i + 1, j + 1);
  }

  /** `getPdfName`: the last path segment names the document when it mentions
      ".pdf" and percent-decodes; the decoded text loses its first ".pdf".
      Any other link, and any link whose decoding throws, gets the numbered
      fallback. */
  function GetPdfName(url: string, index: nat): (r: string)
    ensures var seg := Text.LastSegment(url, '/');
      !Text.Contains(seg, PdfSuffix) || PercentDecoding.Decode(seg).None? ==> r == DrawerFallback(index)
    ensures var seg := Text.LastSegment(url, '/');
      Text.Contains(seg, PdfSuffix) && PercentDecoding.Decode(seg).Some? ==>
        var d := PercentDecoding.Decode(seg).value;
        && Text.Contains(d, PdfSuffix)
        && |r| + |PdfSuffix| == |d|
        && (var i := Text.IndexOf(d, PdfSuffix).value; r[..i] + PdfSuffix + r[i..] == d)
  {
    var filename := Text.LastSegment(url, '/');
    if filename != [] && Text.Contains(filename, PdfSuffix) then
      match PercentDecoding.Decode(filename)
      case None => DrawerFallback(index)
      case Some(d) =>
        DecodedKeepsSuffix(filename);
        StripSuffix(d);
        Text.ReplaceFirst(d, PdfSuffix, "")
    else
      NonEmptyWhenContains(filename);
      DrawerFallback(index)
  }

  /** Only a non-empty name can mention ".pdf". */
  lemma NonEmptyWhenContains(s: string)
    ensures Text.Contains(s, PdfSuffix) ==> s != []
  {
    if Text.Contains(s, PdfSuffix) {
      Text.ContainsIffOccurs(s, PdfSuffix);
    }
  }

  /** ".pdf" in a raw segment is still there after decoding: it has no '%'
      and starts with no hexadecimal digit. */
  lemma DecodedKeepsSuffix(filename: string)
    requires PercentDecoding.Decode(filename).Some? && Text.Contains(filename, PdfSuffix)
    ensures Text.Contains(PercentDecoding.Decode(filename).value, PdfSuffix)
  {
    assert !PercentDecoding.IsHexDigit(PdfSuffix[0]);
    assert '%' !in PdfSuffix;
    PercentDecoding.LiteralContainedAfterDecoding(filename, PdfSuffix);
  }

  /** Removing the first ".pdf" shortens the name by four characters, and
      putting it back at the first occurrence restores the name. */
  lemma StripSuffix(d: string)
    requires Text.Contains(d, PdfSuffix)
    ensures var r := Text.ReplaceFirst(d, PdfSuffix, "");
      && |r| + |PdfSuffix| == |d|
      && (var i := Text.IndexOf(d, PdfSuffix).value; r[..i] + PdfSuffix + r[i..] == d)
  {
    Text.RemoveFirstInverse(d, PdfSuffix);
  }

  /** ".pdf" has no border, so it cannot straddle the end of a text that does
      not itself contain it: its first occurrence after appending is the
      appended one. */
  lemma FirstSuffixIsAppended(name: string)
    requires !Text.Contains(name, PdfSuffix)
    ensures Text.IndexOf(name + PdfSuffix, PdfSuffix) == Some(|name|)
  {
    var s := name + PdfSuffix;
    assert Text.OccursAt(s, PdfSuffix, |name|);
    forall k | 0 <= k < |name|
      ensures !Text.OccursAt(s, PdfSuffix, k)
    {
      if k + |PdfSuffix| <= |name| {
        assert s[k..k + |PdfSuffix|] == name[k..k + |PdfSuffix|];
        assert !Text.OccursAt(name, PdfSuffix, k);
      } else {
        // the appended '.' would have to match one of "pdf"
        assert s[k..k + |PdfSuffix|][|name| - k] == '.';
      }
    }
  }

  /** Appending ".pdf" adds neither a separator nor an escape. */
  lemma PlainFile(name: string)
    requires '/' !in name && '%' !in name
    ensures '/' !in name + PdfSuffix && '%' !in name + PdfSuffix
  {
    var file := name + PdfSuffix;
    forall k | 0 <= k < |file|
      ensures file[k] != '/' && file[k] != '%'
    {
      if k < |name| {
        assert file[k] == name[k];
      } else {
        assert file[k] == PdfSuffix[k - |name|];
      }
    }
  }

  /** Removing the first ".pdf" from "<name>.pdf" gives the name back. */
  lemma StripAppendedSuffix(name: string)
    requires !Text.Contains(name, PdfSuffix)
    ensures Text.Contains(name + PdfSuffix, PdfSuffix)
    ensures Text.ReplaceFirst(name + PdfSuffix, PdfSuffix, "") == name
  {
    var file := name + PdfSuffix;
    FirstSuffixIsAppended(name);
    Text.ContainsIffOccurs(file, PdfSuffix);
    var r := Text.ReplaceFirst(file, PdfSuffix, "");
    assert r[..|name|] == file[..|name|] == name;
  }

  /** A document stored as "<name>.pdf" under any path, with a plain name
      (no '/', no '%', no ".pdf" of its own), is shown by that name. */
  lemma {:induction false} DrawerShowsStoredName(path: string, name: string, index: nat)
    requires '/' !in name && '%' !in name && !Text.Contains(name, PdfSuffix)
    ensures GetPdfName(path + "/" + name + PdfSuffix, index) == name
  {
    var file := name + PdfSuffix;
    assert path + "/" + name + PdfSuffix == path + ['/'] + file;
    PlainFile(name);
    Text.LastSegmentAfterSeparator(path, '/', file);
    PercentDecoding.DecodeWithoutPercent(file);
    StripAppendedSuffix(name);
  }

  /** The position of a link in the list matters only to the fallback: a
      name derived from the link is the same at every position. */
  lemma DrawerNameIgnoresIndex(url: string, i: nat, j: nat)
    ensures GetPdfName(url, i) != DrawerFallback(i) ==> GetPdfName(url, j) == GetPdfName(url, i)
  {
  }

  /** A link ending in '/' has an empty file name and gets the fallback. */
  lemma TrailingSlashFallsBack(url: string, index: nat)
    requires |url| > 0 && url[|url| - 1] == '/'
    ensures GetPdfName(url, index) == DrawerFallback(index)
  {
  }

  /** A link without a ".pdf" file name never shows a file name. */
  lemma DrawerIgnoresOtherLinks(path: string, seg: string, index: nat)
    requires '/' !in seg && !Text.Contains(seg, PdfSuffix)
    ensures GetPdfName(path + "/" + seg, index) == DrawerFallback(index)
  {
    assert path + "/" + seg == path + ['/'] + seg;
    Text.LastSegmentAfterSeparator(path, '/', seg);
  }

  // ---------------------------------------------------------------------
  // The purchased-note viewer

  /** `url.split('/').pop() || 'PDF n'`: the last segment, or a numbered
      name when it is empty (a link ending in '/'). */
  function FileName(url: string, index: nat): (r: string)
    ensures r != []
    ensures Text.LastSegment(url, '/') != [] ==> r == Text.LastSegment(url, '/')
    ensures Text.LastSegment(url, '/') == [] ==> r == "PDF " + Text.NatToString(index + 1)
  {
    var seg := Text.LastSegment(url, '/');
    if seg != [] then seg else "PDF " + Text.NatToString(index + 1)
  }

  /** Appending ".pdf" to a name that lacks it yields a name with it. */
  function WithPdfSuffix(d: string): (r: string)
    ensures Text.Contains(r, PdfSuffix)
    ensures Text.Contains(d, PdfSuffix) ==> r == d
    ensures !Text.Contains(d, PdfSuffix) ==> r == d + PdfSuffix
  {
    if Text.Contains(d, PdfSuffix) then d
    else
      assert Text.OccursAt(d + PdfSuffix, PdfSuffix, |d|);
      Text.ContainsIffOccurs(d + PdfSuffix, PdfSuffix);
      d + PdfSuffix
  }

  /** The viewer's list entry as written: `decodeURIComponent` is applied to
      the file name with no guard, so a malformed escape throws during
      rendering; `None` stands for that throw. */
  function DisplayNameAsWritten(url: string, index: nat): (r: Option<string>)
    ensures r.None? <==> PercentDecoding.Decode(FileName(url, index)).None?
    ensures r.Some? ==> Text.Contains(r.value, PdfSuffix)
  {
    match PercentDecoding.Decode(FileName(url, index))
    case None => None
    case Some(d) => Some(WithPdfSuffix(d))
  }

  /** A literal head does not rescue an undecodable rest. */
  lemma FailureBehindLiteral(c: char, s: string)
    requires c != '%' && PercentDecoding.Decode(s).None?
    ensures PercentDecoding.Decode([c] + s).None?
  {
    assert ([c] + s)[1..] == s;
  }

  /** The viewer's file name for the counterexample link. */
  lemma PercentLinkFileName()
    ensures FileName("https://cdn.example/notes/100%.pdf", 0) == "100%.pdf"
  {
    Text.LastSegmentAfterSeparator("https://cdn.example/notes", '/', "100%.pdf");
    assert "https://cdn.example/notes/100%.pdf" == "https://cdn.example/notes" + ['/'] + "100%.pdf";
  }

  /** "%." is no escape group, and the failure propagates to the front. */
  lemma PercentFileUndecodable()
    ensures PercentDecoding.Decode("100%.pdf").None?
  {
    assert !PercentDecoding.IsHexDigit('.');
    assert PercentDecoding.EscapedByte("%.pdf", 0).None?;
    assert PercentDecoding.Decode("%.pdf").None?;
    FailureBehindLiteral('0', "%.pdf");
    FailureBehindLiteral('0', "0%.pdf");
    FailureBehindLiteral('1', "00%.pdf");
    assert "100%.pdf" == ['1'] + (['0'] + (['0'] + "%.pdf"));
  }

  /** A file name with a bare '%' (a price or a percentage in the title)
      makes the viewer throw instead of listing the document. */
  lemma BarePercentBreaksViewer()
    ensures DisplayNameAsWritten("https://cdn.example/notes/100%.pdf", 0).None?
  {
    PercentLinkFileName();
    PercentFileUndecodable();
  }

  /** The viewer's list entry with the decoding guarded, as the notes drawer
      guards its own. The drawer then falls back to a numbered name; the
      viewer has no such fallback of its own, so this version keeps the
      undecoded file name, which still names the document. */
  function DisplayName(url: string, index: nat): (r: string)
    ensures Text.Contains(r, PdfSuffix)
    ensures DisplayNameAsWritten(url, index).Some? ==> r == DisplayNameAsWritten(url, index).value
    ensures DisplayNameAsWritten(url, index).None? ==> r == WithPdfSuffix(FileName(url, index))
  {
    var fileName := FileName(url, index);
    WithPdfSuffix(PercentDecoding.Decode(fileName).GetOr(fileName))
  }

  /** `${n} PDF${n !== 1 ? 's' : ''} available`. */
  function CountLabel(n: nat): (r: string)
  {
    Text.NatToString(n) + " PDF" + (if n != 1 then "s" else "") + " available"
  }

  /** The label leads with the count in decimal and uses the plural for
      every count but one. */
  lemma CountLabelShape(n: nat)
    ensures var digits := Text.NatToString(n);
      && |digits| < |CountLabel(n)|
      && Text.DecimalValue(CountLabel(n)[..|digits|]) == n
      && (CountLabel(n)[|digits| + 4] == 's' <==> n != 1)
  {
    var digits := Text.NatToString(n);
    assert CountLabel(n)[..|digits|] == digits;
    Text.NatToStringRoundTrip(n);
  }

  /** The viewer shows the list until a document is picked; dragging the
      sheet closed is disabled while a document is open. */
  datatype Viewer = Viewer(selected: Option<nat>)
  {
    predicate DragDisabled() { selected.Some? }
  }

  function Select(v: Viewer, index: nat): (r: Viewer)
    ensures r.DragDisabled() && r.selected == Some(index)
  {
    Viewer(Some(index))
  }

  function BackToList(v: Viewer): (r: Viewer)
    ensures !r.DragDisabled()
  {
    Viewer(None)
  }

  /** Going back after reading any document restores the list exactly. */
  lemma BackUndoesSelect(v: Viewer, index: nat)
    requires v.selected.None?
    ensures BackToList(Select(v, index)) == v
  {
  }
}
