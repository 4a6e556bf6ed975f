/** The PDF service: normalising page images to data URLs, the uniform
    failure result of a conversion, the in-memory page cache keyed by link
    and serialised options, and the gate in front of a note's PDF link. The
    conversion backend and the auth and table lookups are inputs. */
module PdfService {
  import opened Wrappers
  import Text
  import opened Backend

  const DataScheme: string := "data:"
  const PngBase64Prefix: string := "data:image/png;base64,"
  const ConversionFailed: string := "PDF conversion failed"
  const UnknownError: string := "Unknown error occurred"
  const HttpErrorPrefix: string := "HTTP error! status: "

  datatype Page = Page(pageNumber: int, imageUrl: string, width: int, height: int)

  /** An image that is already a data URL is kept; anything else is taken
      for bare base64 PNG data and prefixed. Only the image changes. */
  function NormalizePage(p: Page): (r: Page)
    ensures Text.StartsWith(r.imageUrl, DataScheme)
    ensures Text.StartsWith(p.imageUrl, DataScheme) ==> r == p
    ensures !Text.StartsWith(p.imageUrl, DataScheme) ==> r.imageUrl == PngBase64Prefix + p.imageUrl
    ensures r.pageNumber == p.pageNumber && r.width == p.width && r.height == p.height
  {
    if Text.StartsWith(p.imageUrl, DataScheme) then p
    else
      assert (PngBase64Prefix + p.imageUrl)[..|DataScheme|] == DataScheme;
      p.(imageUrl := PngBase64Prefix + p.imageUrl)
  }

  lemma NormalizePageIdempotent(p: Page)
    ensures NormalizePage(NormalizePage(p)) == NormalizePage(p)
  {
  }

  /** Bare data is recovered from the normalised image by dropping the
      prefix. */
  lemma NormalizeKeepsPayload(p: Page)
    requires !Text.StartsWith(p.imageUrl, DataScheme)
    ensures NormalizePage(p).imageUrl[|PngBase64Prefix|..] == p.imageUrl
  {
  }

  datatype Result = Result(success: bool, pages: seq<Page>, totalPages: int, error: Option<string>)

  /** What the conversion request came to: a non-2xx status, a JSON body, or
      a throw (with the message of an `Error`, or none for other values). */
  datatype ConversionReply =
    | NotOk(status: nat)
    | Body(success: bool, bodyError: Option<string>, pages: seq<Page>, totalPages: int)
    | Raised(message: Option<string>)

  /** Every failure has the same shape: unsuccessful, no pages, zero pages
      in total, and a message. */
  function Failure(message: string): (r: Result)
    ensures !r.success && r.pages == [] && r.totalPages == 0 && r.error == Some(message)
  {
    Result(false, [], 0, Some(message))
  }

  /** `convertPdfToImages`: a successful body gives its pages, normalised and
      in order, with the body's page total; a bad status, an unsuccessful
      body or a throw gives a failure with the matching message. */
  function Convert(reply: ConversionReply): (r: Result)
    ensures r.success <==> reply.Body? && reply.success
    ensures !r.success ==> r.error.Some? && r == Failure(r.error.value)
    ensures r.success ==> r.error.None? && r.totalPages == reply.totalPages
    ensures r.success ==>
      && |r.pages| == |reply.pages|
      && forall i :: 0 <= i < |r.pages| ==> r.pages[i] == NormalizePage(reply.pages[i])
    ensures reply.NotOk? ==> r.error == Some(HttpErrorPrefix + Text.NatToString(reply.status))
    ensures reply.Body? && !reply.success ==>
      r.error == Some(if reply.bodyError.Some? && reply.bodyError.value != "" then reply.bodyError.value else ConversionFailed)
    ensures reply == Raised(None) ==> r.error == Some(UnknownError)
  {
    match reply
    case NotOk(status) => Failure(HttpErrorPrefix + Text.NatToString(status))
    case Body(ok, bodyError, pages, total) =>
      if !ok then
        Failure(if bodyError.Some? && bodyError.value != "" then bodyError.value else ConversionFailed)
      else
        Result(true, seq(|pages|, i requires 0 <= i < |pages| => NormalizePage(pages[i])), total, None)
    case Raised(message) => Failure(message.GetOr(UnknownError))
  }

  lemma ConvertedPagesAreDataUrls(reply: ConversionReply)
    ensures forall i :: 0 <= i < |Convert(reply).pages| ==>
      Text.StartsWith(Convert(reply).pages[i].imageUrl, DataScheme)
  {
  }

  // ---------------------------------------------------------------------
  // Cache keys: `${pdfUrl}_${JSON.stringify(options)}`

  /** Conversion options. Members are serialised in this order and absent
      ones are left out, as `JSON.stringify` does for an object literal
      written in this order. */
  datatype Options = Options(scale: Option<int>, maxPages: Option<int>, startPage: Option<int>)

  function IntToString(v: int): (r: string)
    ensures |r| > 0
    ensures forall i :: 0 <= i < |r| ==> Text.IsDigit(r[i]) || r[i] == '-'
  {
    if v < 0 then "-" + Text.NatToString(-v) else Text.NatToString(v)
  }

  lemma IntToStringInjective(a: int, b: int)
    requires IntToString(a) == IntToString(b)
    ensures a == b
  {
    // the sign shows in the first character
    assert a < 0 <==> IntToString(a)[0] == '-';
    assert b < 0 <==> IntToString(b)[0] == '-';
    if a < 0 {
      assert IntToString(a)[1..] == Text.NatToString(-a);
      assert IntToString(b)[1..] == Text.NatToString(-b);
      Text.NatToStringInjective(-a, -b);
    } else {
      Text.NatToStringInjective(a, b);
    }
  }

  datatype Member = Member(name: string, value: int)

  /** The members present, in serialisation order. */
  function Members(o: Options): (ms: seq<Member>)
    ensures forall i :: 0 <= i < |ms| ==> ms[i].name in {"scale", "maxPages", "startPage"}
  {
    (if o.scale.Some? then [Member("scale", o.scale.value)] else [])
    + (if o.maxPages.Some? then [Member("maxPages", o.maxPages.value)] else [])
    + (if o.startPage.Some? then [Member("startPage", o.startPage.value)] else [])
  }

  /** The value of the first member with this name. */
  function Find(ms: seq<Member>, name: string): Option<int>
    decreases |ms|
  {
    if |ms| == 0 then None
    else if ms[0].name == name then Some(ms[0].value)
    else Find(ms[1..], name)
  }

  lemma {:induction false} FindAppend(a: seq<Member>, b: seq<Member>, name: string)
    ensures Find(a + b, name) == if Find(a, name).Some? then Find(a, name) else Find(b, name)
    decreases |a|
  {
    if |a| == 0 {
      assert a + b == b;
    } else {
      assert (a + b)[1..] == a[1..] + b;
      FindAppend(a[1..], b, name);
    }
  }

  /** Each option is read back from the members by its name. */
  lemma FindMembers(o: Options)
    ensures Find(Members(o), "scale") == o.scale
    ensures Find(Members(o), "maxPages") == o.maxPages
    ensures Find(Members(o), "startPage") == o.startPage
  {
    var x := if o.scale.Some? then [Member("scale", o.scale.value)] else [];
    var y := if o.maxPages.Some? then [Member("maxPages", o.maxPages.value)] else [];
    var z := if o.startPage.Some? then [Member("startPage", o.startPage.value)] else [];
    assert Members(o) == (x + y) + z;
    FindAppend(x + y, z, "scale");
    FindAppend(x, y, "scale");
    FindAppend(x + y, z, "maxPages");
    FindAppend(x, y, "maxPages");
    FindAppend(x + y, z, "startPage");
    FindAppend(x, y, "startPage");
  }

  lemma MembersInjective(o: Options, o': Options)
    requires Members(o) == Members(o')
    ensures o == o'
  {
    FindMembers(o);
    FindMembers(o');
  }

  function MemberJson(m: Member): string {
    "\"" + m.name + "\":" + IntToString(m.value)
  }

  function MembersJson(ms: seq<Member>): string
    decreases |ms|
  {
    if |ms| == 0 then ""
    else if |ms| == 1 then MemberJson(ms[0])
    else MemberJson(ms[0]) + "," + MembersJson(ms[1..])
  }

  /** `JSON.stringify(options)`: the object, or `undefined` (rendered as the
      text "undefined" by the template) when no options were given. */
  function OptionsJson(o: Option<Options>): string {
    match o
    case None => "undefined"
    case Some(opts) => "{" + MembersJson(Members(opts)) + "}"
  }

  function CacheKey(pdfUrl: string, o: Option<Options>): string {
    pdfUrl + "_" + OptionsJson(o)
  }

  /** Two texts that each run up to a first `c` and agree after joining
      agree on both sides of that `c`. */
  lemma SplitAtFirst(a: string, b: string, a': string, b': string, c: char)
    requires a + [c] + b == a' + [c] + b'
    requires c !in a && c !in a'
    ensures a == a' && b == b'
  {
    var s := a + [c] + b;
    assert s[|a|] == c && s[|a'|] == c;
    assert forall k :: 0 <= k < |a| ==> s[k] == a[k];
    assert forall k :: 0 <= k < |a'| ==> s[k] == a'[k];
    assert |a| == |a'|;
    assert a == s[..|a|];
    assert a' == s[..|a'|];
    assert b == s[|a| + 1..];
    assert b' == s[|a'| + 1..];
  }

  predicate NameChars(name: string) {
    forall i :: 0 <= i < |name| ==> 'a' <= name[i] <= 'z' || 'A' <= name[i] <= 'Z'
  }

  lemma MemberJsonChars(m: Member)
    requires NameChars(m.name)
    ensures ',' !in MemberJson(m) && '_' !in MemberJson(m)
  {
    var s := MemberJson(m);
    var d := IntToString(m.value);
    assert s == "\"" + m.name + "\":" + d;
    forall i | 0 <= i < |s|
      ensures s[i] != ',' && s[i] != '_'
    {
      if i == 0 {
      } else if i < 1 + |m.name| {
        assert s[i] == m.name[i - 1];
      } else if i < 3 + |m.name| {
      } else {
        assert s[i] == d[i - 3 - |m.name|];
      }
    }
  }

  lemma MemberJsonInjective(m: Member, m': Member)
    requires NameChars(m.name) && NameChars(m'.name)
    requires MemberJson(m) == MemberJson(m')
    ensures m == m'
  {
    var rest := ":" + IntToString(m.value);
    var rest' := ":" + IntToString(m'.value);
    assert MemberJson(m)[1..] == m.name + ['"'] + rest;
    assert MemberJson(m')[1..] == m'.name + ['"'] + rest';
    assert '"' !in m.name && '"' !in m'.name by {
      assert forall i :: 0 <= i < |m.name| ==> m.name[i] != '"';
      assert forall i :: 0 <= i < |m'.name| ==> m'.name[i] != '"';
    }
    SplitAtFirst(m.name, rest, m'.name, rest', '"');
    assert rest[1..] == IntToString(m.value) && rest'[1..] == IntToString(m'.value);
    IntToStringInjective(m.value, m'.value);
  }

  predicate NamedMembers(ms: seq<Member>) {
    forall i :: 0 <= i < |ms| ==> NameChars(ms[i].name)
  }

  lemma {:induction false} MembersJsonChars(ms: seq<Member>)
    requires NamedMembers(ms)
    ensures '_' !in MembersJson(ms)
    decreases |ms|
  {
    if |ms| == 1 {
      MemberJsonChars(ms[0]);
    } else if |ms| > 1 {
      MemberJsonChars(ms[0]);
      MembersJsonChars(ms[1..]);
    }
  }

  /** The members each followed by a comma: the serialised members with one
      more comma at the end. */
  function Terminated(ms: seq<Member>): (r: string)
    ensures |r| == 0 <==> |ms| == 0
    decreases |ms|
  {
    if |ms| == 0 then "" else MemberJson(ms[0]) + "," + Terminated(ms[1..])
  }

  lemma {:induction false} TerminatedJson(ms: seq<Member>)
    requires |ms| > 0
    ensures MembersJson(ms) + "," == Terminated(ms)
    decreases |ms|
  {
    if |ms| > 1 {
      TerminatedJson(ms[1..]);
    }
  }

  lemma {:induction false} TerminatedInjective(ms: seq<Member>, ms': seq<Member>)
    requires NamedMembers(ms) && NamedMembers(ms')
    requires Terminated(ms) == Terminated(ms')
    ensures ms == ms'
    decreases |ms|
  {
    if |ms| > 0 && |ms'| > 0 {
      MemberJsonChars(ms[0]);
      MemberJsonChars(ms'[0]);
      assert Terminated(ms) == MemberJson(ms[0]) + [','] + Terminated(ms[1..]);
      assert Terminated(ms') == MemberJson(ms'[0]) + [','] + Terminated(ms'[1..]);
      SplitAtFirst(MemberJson(ms[0]), Terminated(ms[1..]), MemberJson(ms'[0]), Terminated(ms'[1..]), ',');
      MemberJsonInjective(ms[0], ms'[0]);
      TerminatedInjective(ms[1..], ms'[1..]);
      assert ms == [ms[0]] + ms[1..];
      assert ms' == [ms'[0]] + ms'[1..];
    }
  }

  lemma MembersJsonInjective(ms: seq<Member>, ms': seq<Member>)
    requires NamedMembers(ms) && NamedMembers(ms')
    requires MembersJson(ms) == MembersJson(ms')
    ensures ms == ms'
  {
    // only the empty list serialises to nothing
    assert |ms| > 0 ==> MemberJson(ms[0])[0] == '"' && MembersJson(ms)[0] == '"';
    assert |ms'| > 0 ==> MemberJson(ms'[0])[0] == '"' && MembersJson(ms')[0] == '"';
    if |ms| > 0 && |ms'| > 0 {
      TerminatedJson(ms);
      TerminatedJson(ms');
      TerminatedInjective(ms, ms');
    }
  }

  lemma MembersNamed(o: Options)
    ensures NamedMembers(Members(o))
  {
    var ms := Members(o);
    forall i | 0 <= i < |ms|
      ensures NameChars(ms[i].name)
    {
      var n := ms[i].name;
      assert n == "scale" || n == "maxPages" || n == "startPage";
    }
  }

  lemma OptionsJsonChars(o: Option<Options>)
    ensures '_' !in OptionsJson(o)
  {
    if o.Some? {
      MembersNamed(o.value);
      MembersJsonChars(Members(o.value));
    }
  }

  lemma OptionsJsonInjective(o: Option<Options>, o': Option<Options>)
    requires OptionsJson(o) == OptionsJson(o')
    ensures o == o'
  {
    // an object starts with '{', the absent options with 'u'
    assert OptionsJson(o)[0] == if o.Some? then '{' else 'u';
    assert OptionsJson(o')[0] == if o'.Some? then '{' else 'u';
    if o.Some? && o'.Some? {
      var j := MembersJson(Members(o.value));
      var j' := MembersJson(Members(o'.value));
      assert OptionsJson(o)[1..|OptionsJson(o)| - 1] == j;
      assert OptionsJson(o')[1..|OptionsJson(o')| - 1] == j';
      MembersNamed(o.value);
      MembersNamed(o'.value);
      MembersJsonInjective(Members(o.value), Members(o'.value));
      MembersInjective(o.value, o'.value);
    }
  }

  /** Distinct links, and distinct options for one link, never share a cache
      entry: the serialised options contain no '_', so the key splits back
      at its last '_'. */
  lemma CacheKeyInjective(u: string, o: Option<Options>, u': string, o': Option<Options>)
    requires CacheKey(u, o) == CacheKey(u', o')
    ensures u == u' && o == o'
  {
    var j, j' := OptionsJson(o), OptionsJson(o');
    OptionsJsonChars(o);
    OptionsJsonChars(o');
    assert CacheKey(u, o) == u + ['_'] + j;
    assert CacheKey(u', o') == u' + ['_'] + j';
    Text.LastSegmentAfterSeparator(u, '_', j);
    Text.LastSegmentAfterSeparator(u', '_', j');
    OptionsJsonInjective(o, o');
    var k := CacheKey(u, o);
    assert u == k[..|k| - |j| - 1];
    assert u' == k[..|k| - |j'| - 1];
  }

  // ---------------------------------------------------------------------
  // The page cache

  type Cache = map<string, seq<Page>>

  datatype Lookup = Lookup(result: Result, cache: Cache)

  /** `getCachedPdfImages`: a cached key answers from the cache, reporting
      as many pages in total as it holds, and converts nothing; a missing key
      converts, and the pages are stored only when the conversion succeeded. */
  function GetCached(cache: Cache, pdfUrl: string, o: Option<Options>, reply: ConversionReply): (r: Lookup)
    ensures var key := CacheKey(pdfUrl, o);
      key in cache ==> r.cache == cache && r.result == Result(true, cache[key], |cache[key]|, None)
    ensures var key := CacheKey(pdfUrl, o);
      key !in cache ==>
        && r.result == Convert(reply)
        && (r.result.success ==> r.cache == cache[key := r.result.pages])
        && (!r.result.success ==> r.cache == cache)
  {
    var key := CacheKey(pdfUrl, o);
    if key in cache then
      Lookup(Result(true, cache[key], |cache[key]|, None), cache)
    else
      var result := Convert(reply);
      Lookup(result, if result.success then cache[key := result.pages] else cache)
  }

  /** A failed conversion leaves no trace: the next lookup converts again. */
  lemma FailuresAreNotCached(cache: Cache, pdfUrl: string, o: Option<Options>, r1: ConversionReply, r2: ConversionReply)
    requires CacheKey(pdfUrl, o) !in cache && !Convert(r1).success
    ensures GetCached(GetCached(cache, pdfUrl, o, r1).cache, pdfUrl, o, r2).result == Convert(r2)
  {
  }

  /** After a successful conversion the same request is answered with the
      same pages, whatever the backend would say the second time. */
  lemma SuccessIsReused(cache: Cache, pdfUrl: string, o: Option<Options>, r1: ConversionReply, r2: ConversionReply)
    requires CacheKey(pdfUrl, o) !in cache && Convert(r1).success
    ensures var second := GetCached(GetCached(cache, pdfUrl, o, r1).cache, pdfUrl, o, r2).result;
      second.success && second.pages == Convert(r1).pages
  {
  }

  /** Lookups for other requests do not disturb an entry. */
  lemma OtherRequestsKeepEntry(cache: Cache, pdfUrl: string, o: Option<Options>, other: string, o': Option<Options>, reply: ConversionReply)
    requires CacheKey(pdfUrl, o) in cache && (other != pdfUrl || o' != o)
    ensures var c := GetCached(cache, other, o', reply).cache;
      CacheKey(pdfUrl, o) in c && c[CacheKey(pdfUrl, o)] == cache[CacheKey(pdfUrl, o)]
  {
    if CacheKey(other, o') == CacheKey(pdfUrl, o) {
      CacheKeyInjective(other, o', pdfUrl, o);
    }
  }

  /** `clearCache`: after it, every lookup is a miss. */
  function ClearCache(cache: Cache): (r: Cache)
    ensures forall key :: key !in r
  {
    map[]
  }

  lemma ClearedLookupConverts(cache: Cache, pdfUrl: string, o: Option<Options>, reply: ConversionReply)
    ensures GetCached(ClearCache(cache), pdfUrl, o, reply).result == Convert(reply)
  {
  }

  // ---------------------------------------------------------------------
  // The secure link

  /** The note row `getSecurePdfUrl` reads: its link column may be unset. */
  datatype NoteLink = NoteLink(pdfUrl: Option<string>)

  /** `getSecurePdfUrl`: a link only for a signed-in user who has a purchase
      row for the note, when the note is found; any failure along the way
      gives `null`. */
  function GetSecurePdfUrl<E>(user: UserLookup<E>, purchase: Reply<string, E>, note: Reply<NoteLink, E>)
    : (r: Option<string>)
    ensures r.Some? ==> user.User? && purchase.Data? && purchase.payload.Some?
                        && note.Data? && note.payload.Some? && r == note.payload.value.pdfUrl
    ensures user.User? && purchase.Data? && purchase.payload.Some? && note.Data? && note.payload.Some? ==>
              r == note.payload.value.pdfUrl
  {
    if !user.User? then None
    else if !(purchase.Data? && purchase.payload.Some?) then None
    else if !(note.Data? && note.payload.Some?) then None
    else note.payload.value.pdfUrl
  }
}
