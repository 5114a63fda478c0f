/**
 * The Filemoon/Fembed extractor: which embed URLs it accepts, how it pulls the
 * video ID out of one, how it rewrites Fembed links to Filemoon, which
 * requests it makes, and how it picks the HLS (".m3u8") stream out of a page.
 *
 * HTTP is the parameter `fetch` (None stands for an unsuccessful response or a
 * failed request), and the `<iframe[^>]+src=["']([^"']+)["']` search is the
 * parameter `findIframe`; the stream handed to the host's M3U8 helper is
 * returned as a value.
 */
module Filemoon {
  import opened Wrappers
  import opened Text
  import opened Numbers
  import opened Regex
  import opened Lists

  const MainUrl: string := "https://filemoon.in"
  const FilemoonEmbed: string := "https://filemoon.in/e/"
  const FembedHome: string := "https://fembed.sx/"
  const FembedOrigin: string := "https://fembed.sx"

  /** The hosts the extractor claims. */
  predicate IsUrlSupported(url: string) {
    Contains(url, "filemoon.") || Contains(url, "fembed.") || Contains(url, "ico3c.")
  }

  /** The search for a pattern in `s`, as a function of the pattern. */
  function FindIn(s: string): Pattern -> Option<string> {
    p => Find(p, s)
  }

  /** The first capture of the first pattern in `ps` that matches `s` at all. */
  function FirstCapture(ps: seq<Pattern>, s: string): Option<string> {
    FirstSome(ps, FindIn(s))
  }

  /** Priority: a pattern that matches wins over every pattern after it. */
  lemma FirstCaptureIsFirst(ps: seq<Pattern>, s: string, k: nat)
    requires k < |ps| && Find(ps[k], s).Some?
    requires forall j :: 0 <= j < k ==> Find(ps[j], s).None?
    ensures FirstCapture(ps, s) == Find(ps[k], s)
  {
    FirstSomeIsFirst(ps, FindIn(s), k);
  }

  /** `/e/(\d+)`, `/v/([a-zA-Z0-9]+)`, `embed/([a-zA-Z0-9]+)`, in this order. */
  const IdPatterns: seq<Pattern> := [
    Capture(Literal("/e/"), Digit, None),
    Capture(Literal("/v/"), AsciiAlnum, None),
    Capture(Literal("embed/"), AsciiAlnum, None)
  ]

  /** The last path segment, cut before the first '?' and then before the first '-'. */
  function FallbackId(url: string): (id: string)
    ensures '/' !in id && '?' !in id && '-' !in id
    ensures Contains(url, id)
  {
    var segment := SubstringAfterLast(url, "/");
    var noQuery := SubstringBefore(segment, "?");
    var id := SubstringBefore(noQuery, "-");
    ContainsChar(segment, '/');
    ContainsChar(noQuery, '?');
    ContainsChar(id, '-');
    assert id == segment[..|id|];
    OccursContains(url, id, |url| - |segment|);
    id
  }

  /** What a capturing pattern captures is a piece of the input. */
  lemma CaptureIsPiece(p: Pattern, s: string)
    requires p.Capture? && Find(p, s).Some?
    ensures Contains(s, Find(p, s).value)
  {
    var j := CaptureFound(p.prefix, p.run, p.closer, s);
    OccursContains(s, Find(p, s).value, j + |p.prefix|);
  }

  /** The first capture among capturing patterns is a piece of the input. */
  lemma FirstCaptureIsPiece(ps: seq<Pattern>, s: string)
    requires forall k :: 0 <= k < |ps| ==> ps[k].Capture?
    ensures var c := FirstCapture(ps, s); c.Some? ==> Contains(s, c.value)
  {
    var c := FirstCapture(ps, s);
    if c.Some? {
      var k :| 0 <= k < |ps| && FindIn(s)(ps[k]) == c;
      CaptureIsPiece(ps[k], s);
    }
  }

  lemma IdPatternsCapture()
    ensures forall k :: 0 <= k < |IdPatterns| ==> IdPatterns[k].Capture?
  {
  }

  /** The ID the extractor works with: the first pattern's capture, else the fallback; either way a piece of the URL. */
  function VideoId(url: string): (id: string)
    ensures Contains(url, id)
  {
    IdPatternsCapture();
    FirstCaptureIsPiece(IdPatterns, url);
    FirstCapture(IdPatterns, url).GetOr(FallbackId(url))
  }

  /** The loop over the ID patterns, returning at the first one that matches. */
  method ExtractVideoId(url: string) returns (id: string)
    ensures id == VideoId(url)
  {
    var patterns := IdPatterns;
    var index := 0;
    while index < |patterns|
      invariant 0 <= index <= |patterns|
      invariant FirstCapture(patterns, url) == FirstCapture(patterns[index..], url)
    {
      var m := Find(patterns[index], url);
      if m.Some? {
        return m.value;
      }
      assert patterns[index..][1..] == patterns[index + 1..];
      index := index + 1;
    }
    return FallbackId(url);
  }

  /** An ID taken through "/e/" is all digits and follows "/e/" in the URL. */
  lemma IdFromEmbedPath(url: string)
    requires Find(IdPatterns[0], url).Some?
    ensures VideoId(url) == Find(IdPatterns[0], url).value
    ensures VideoId(url) != [] && AllDigits(VideoId(url))
    ensures Contains(url, "/e/" + VideoId(url))
  {
    FirstCaptureIsFirst(IdPatterns, url, 0);
    EmbedPathCapture(url);
  }

  lemma EmbedPathCapture(url: string)
    requires Find(IdPatterns[0], url).Some?
    ensures var c := Find(IdPatterns[0], url).value; c != [] && AllDigits(c) && Contains(url, "/e/" + c)
  {
    var c := Find(IdPatterns[0], url).value;
    var j := CaptureFound(Literal("/e/"), Digit, None, url);
    LiteralAt(url, j, "/e/");
    assert url[j..j + 3] == "/e/";
    assert url[j + 3..j + 3 + |c|] == c;
    assert url[j..j + 3 + |c|] == "/e/" + c;
    OccursContains(url, "/e/" + c, j);
  }

  /** When no pattern matches, the ID is the fallback, which has no '/', '?' or '-'. */
  lemma IdFromFallback(url: string)
    requires forall k :: 0 <= k < |IdPatterns| ==> Find(IdPatterns[k], url).None?
    ensures VideoId(url) == FallbackId(url)
    ensures '/' !in VideoId(url) && '?' !in VideoId(url) && '-' !in VideoId(url)
  {
  }

  /** A "fembed.sx" URL is fetched as the Filemoon embed page of its ID; any other URL as it is. */
  function ProcessedUrl(url: string, videoId: string): (r: string)
    ensures Contains(url, "fembed.sx") ==> StartsWith(r, FilemoonEmbed) && r[|FilemoonEmbed|..] == videoId
    ensures !Contains(url, "fembed.sx") ==> r == url
  {
    if Contains(url, "fembed.sx") then FilemoonEmbed + videoId else url
  }

  /** The rewrite never leaves the extractor's own hosts. */
  lemma RewriteStaysSupported(url: string, videoId: string)
    requires IsUrlSupported(url)
    ensures IsUrlSupported(ProcessedUrl(url, videoId))
  {
    if Contains(url, "fembed.sx") {
      var r := ProcessedUrl(url, videoId);
      assert r[8..17] == "filemoon.";
      OccursContains(r, "filemoon.", 8);
    }
  }

  /** A digit ID put into the Filemoon embed URL is the ID read back from it. */
  lemma RewriteKeepsId(id: string)
    requires id != [] && AllDigits(id)
    ensures VideoId(FilemoonEmbed + id) == id
  {
    EmbedUrlMatch(id);
    FirstCaptureIsFirst(IdPatterns, FilemoonEmbed + id, 0);
  }

  /** "/e/" first occurs in the Filemoon embed URL right before the ID. */
  lemma NoEarlierEmbedPath(id: string)
    ensures forall i :: 0 <= i < |FilemoonEmbed| - 3 ==> !OccursAt(FilemoonEmbed + id, "/e/", i)
  {
    var s := FilemoonEmbed + id;
    forall i | 0 <= i < |FilemoonEmbed| - 3
      ensures !OccursAt(s, "/e/", i)
    {
      assert s[i + 1] == FilemoonEmbed[i + 1];
      assert s[i] == FilemoonEmbed[i];
    }
  }

  lemma EmbedUrlMatch(id: string)
    requires id != [] && AllDigits(id)
    ensures Find(IdPatterns[0], FilemoonEmbed + id) == Some(id)
  {
    var s := FilemoonEmbed + id;
    var p := IdPatterns[0];
    var n := |FilemoonEmbed|;
    assert s[n - 3..n] == "/e/";
    LiteralAt(s, n - 3, "/e/");
    assert forall k :: n <= k < |s| ==> IsDigit(s[k]) by {
      assert forall k :: n <= k < |s| ==> s[k] == id[k - n];
    }
    assert RunEnd(s, n, Digit) == |s|;
    assert s[n..] == id;
    NoEarlierEmbedPath(id);
    forall i | 0 <= i < n - 3
      ensures MatchAt(p, s, i).None?
    {
      LiteralAt(s, i, "/e/");
    }
    assert OccursAt(s, "/e/", n - 3);
    assert |Literal("/e/")| == 3 && AtomsAt(s, n - 3, Literal("/e/"));
    assert s[n..|s|] == id;
    assert MatchAt(p, s, n - 3) == CaptureAt(Literal("/e/"), Digit, None, s, n - 3);
    assert CaptureAt(Literal("/e/"), Digit, None, s, n - 3) == Some(Hit(id, |s|));
    FindIsLeftmost(p, s, n - 3);
  }

  /** A protocol-relative iframe address gets "https:" in front. */
  function FixIframeUrl(src: string): (r: string)
    ensures StartsWith(r, "http")
    ensures StartsWith(src, "http") ==> r == src
    ensures |src| <= |r| && r[|r| - |src|..] == src
    ensures !StartsWith(src, "http") ==> r == "https:" + src
  {
    if StartsWith(src, "http") then src
    else
      var r := "https:" + src;
      assert r[..4] == "http";
      r
  }

  /** Fixing an address that is already fixed changes nothing. */
  lemma FixIframeIdempotent(src: string)
    ensures FixIframeUrl(FixIframeUrl(src)) == FixIframeUrl(src)
  {
  }

  /** A protocol-relative address "//host/path" becomes "https://host/path". */
  lemma FixProtocolRelative(rest: string)
    ensures FixIframeUrl("//" + rest) == "https://" + rest
  {
    assert !StartsWith("//" + rest, "http") by {
      assert ("//" + rest)[0] == '/';
    }
  }

  /** `["'](https?://[^"']+\.m3u8[^"']*)["']`, then `file`, `src` and `hls` keyed, then a bare https URL. */
  const M3u8Patterns: seq<Pattern> := [QuotedM3u8Url, KeyedM3u8("file"), KeyedM3u8("src"), KeyedM3u8("hls"), BareM3u8Url]

  /** Pattern by pattern, match by match: the first group that contains ".m3u8". */
  function M3u8Among(ps: seq<Pattern>, html: string): (r: Option<string>)
    ensures r.Some? ==> Contains(r.value, ".m3u8")
  {
    if ps == [] then None
    else FirstContaining(FindAll(ps[0], html, 0), ".m3u8").Or(M3u8Among(ps[1..], html))
  }

  /** What the extractor reads as the stream address of a page. */
  function ExtractedM3u8(html: string): (r: Option<string>)
    ensures r.Some? ==> Contains(r.value, ".m3u8")
  {
    M3u8Among(M3u8Patterns, html)
  }

  /** The loops over the m3u8 patterns and their matches, returning at the first group that contains ".m3u8". */
  method ExtractM3u8Url(html: string) returns (r: Option<string>)
    ensures r == ExtractedM3u8(html)
  {
    var patterns := M3u8Patterns;
    var index := 0;
    while index < |patterns|
      invariant 0 <= index <= |patterns|
      invariant M3u8Among(patterns, html) == M3u8Among(patterns[index..], html)
    {
      var matches := FindAll(patterns[index], html, 0);
      var m := 0;
      while m < |matches|
        invariant 0 <= m <= |matches|
        invariant FirstContaining(matches, ".m3u8") == FirstContaining(matches[m..], ".m3u8")
      {
        var u := matches[m];
        if Contains(u, ".m3u8") {
          return Some(u);
        }
        assert matches[m..][1..] == matches[m + 1..];
        m := m + 1;
      }
      assert patterns[index..][1..] == patterns[index + 1..];
      index := index + 1;
    }
    return None;
  }

  /** For an m3u8 pattern, the first match already carries ".m3u8", so the search stops there. */
  lemma FirstMatchSuffices(p: Pattern, html: string)
    requires IsM3u8Pattern(p)
    ensures FirstContaining(FindAll(p, html, 0), ".m3u8") == Find(p, html)
  {
  }

  lemma {:induction false} M3u8AmongIsFirstCapture(ps: seq<Pattern>, html: string)
    requires forall k :: 0 <= k < |ps| ==> IsM3u8Pattern(ps[k])
    ensures M3u8Among(ps, html) == FirstCapture(ps, html)
    decreases |ps|
  {
    if ps != [] {
      FirstMatchSuffices(ps[0], html);
      M3u8AmongIsFirstCapture(ps[1..], html);
    }
  }

  /** Every pattern of the m3u8 search is one whose captures carry ".m3u8". */
  lemma M3u8PatternsAreM3u8()
    ensures forall k :: 0 <= k < |M3u8Patterns| ==> IsM3u8Pattern(M3u8Patterns[k])
  {
  }

  /** A pattern that matches wins over every later pattern. */
  lemma M3u8AmongPriority(ps: seq<Pattern>, html: string, k: nat)
    requires forall j :: 0 <= j < |ps| ==> IsM3u8Pattern(ps[j])
    requires k < |ps| && Find(ps[k], html).Some?
    requires forall j :: 0 <= j < k ==> Find(ps[j], html).None?
    ensures M3u8Among(ps, html) == Find(ps[k], html)
  {
    M3u8AmongIsFirstCapture(ps, html);
    FirstCaptureIsFirst(ps, html, k);
  }

  /** The search finds nothing exactly when no pattern matches at all. */
  lemma M3u8AmongNoneIff(ps: seq<Pattern>, html: string)
    requires forall j :: 0 <= j < |ps| ==> IsM3u8Pattern(ps[j])
    ensures M3u8Among(ps, html).None? <==> forall k :: 0 <= k < |ps| ==> Find(ps[k], html).None?
  {
    M3u8AmongIsFirstCapture(ps, html);
  }

  /** The nine header names that every request carries. */
  datatype HeaderName =
    | UserAgent | Accept | AcceptLanguage | AcceptEncoding | Referer
    | Origin | Connection | UpgradeInsecureRequests | CacheControl

  /** The name as it is sent. */
  function HeaderText(n: HeaderName): string {
    match n
    case UserAgent => "User-Agent"
    case Accept => "Accept"
    case AcceptLanguage => "Accept-Language"
    case AcceptEncoding => "Accept-Encoding"
    case Referer => "Referer"
    case Origin => "Origin"
    case Connection => "Connection"
    case UpgradeInsecureRequests => "Upgrade-Insecure-Requests"
    case CacheControl => "Cache-Control"
  }

  const AllHeaderNames: set<HeaderName> := {
    UserAgent, Accept, AcceptLanguage, AcceptEncoding, Referer,
    Origin, Connection, UpgradeInsecureRequests, CacheControl
  }

  type Headers = map<HeaderName, string>

  const BrowserAgent: string := "Mozilla/5.0 (Windows NT 10.0; Win64; x64) AppleWebKit/537.36 (KHTML, like Gecko) Chrome/120.0.0.0 Safari/537.36"
  const AcceptedTypes: string := "text/html,application/xhtml+xml,application/xml;q=0.9,image/webp,*/*;q=0.8"
  const AcceptedLanguages: string := "pt-BR,pt;q=0.9,en-US;q=0.8,en;q=0.7"
  const AcceptedEncodings: string := "gzip, deflate, br"

  /** The request headers; `url` only appears in the extractor's log. */
  function GetHeaders(url: string, referer: Option<string>): (h: Headers)
    ensures h.Keys == AllHeaderNames
    ensures h[Origin] == FembedOrigin
    ensures h[Referer] == if referer.Some? then referer.value else FembedHome
  {
    map[
      UserAgent := BrowserAgent,
      Accept := AcceptedTypes,
      AcceptLanguage := AcceptedLanguages,
      AcceptEncoding := AcceptedEncodings,
      Referer := referer.GetOr(FembedHome),
      Origin := FembedOrigin,
      Connection := "keep-alive",
      UpgradeInsecureRequests := "1",
      CacheControl := "max-age=0"
    ]
  }

  /** Apart from the Referer, every request carries the same headers, whatever its URL. */
  lemma HeadersDifferOnlyInReferer(u1: string, r1: Option<string>, u2: string, r2: Option<string>)
    ensures forall n :: n in AllHeaderNames && n != Referer ==> GetHeaders(u1, r1)[n] == GetHeaders(u2, r2)[n]
  {
  }

  datatype Request = Request(url: string, headers: Headers)

  /** The arguments of the host's M3U8 helper call: stream URL, referer and headers. */
  datatype Stream = Stream(streamUrl: string, referer: string, headers: Headers)

  datatype Outcome = Outcome(requests: seq<Request>, stream: Option<Stream>)

  function StreamFor(m3u8: string, referer: string): Stream {
    Stream(m3u8, referer, GetHeaders(m3u8, Some(referer)))
  }

  /** The page request: the (rewritten) embed URL with the caller's referer. */
  function PageRequest(url: string, referer: Option<string>): Request {
    var page := ProcessedUrl(url, VideoId(url));
    Request(page, GetHeaders(page, referer))
  }

  /** The iframe request: the fixed iframe address with the page as referer. */
  function IframeRequest(page: string, src: string): Request {
    var iframeUrl := FixIframeUrl(src);
    Request(iframeUrl, GetHeaders(iframeUrl, Some(page)))
  }

  /** A stream request the extractor may hand to the host: an m3u8 address, with headers that name its referer. */
  predicate IsStreamRequest(st: Stream) {
    Contains(st.streamUrl, ".m3u8") && st.headers == GetHeaders(st.streamUrl, Some(st.referer))
  }

  /** The stream that `html` offers, fetched with `referer`. */
  function PageStream(html: string, referer: string): (r: Option<Stream>)
    ensures r.Some? <==> ExtractedM3u8(html).Some?
    ensures r.Some? ==> IsStreamRequest(r.value) && r.value.referer == referer
  {
    match ExtractedM3u8(html)
    case Some(m) => Some(StreamFor(m, referer))
    case None => None
  }

  /**
   * After the page `first` has loaded as `page`: follow its iframe and take the
   * iframe's stream; an iframe without a stream, or a page without an iframe,
   * falls back to a stream on the page itself; a failed iframe fetch ends the
   * attempt.
   */
  function FromPage(first: Request, page: string, fetch: Request -> Option<string>, findIframe: string -> Option<string>): (o: Outcome)
    ensures 1 <= |o.requests| <= 2 && o.requests[0] == first
    ensures o.stream.Some? ==> IsStreamRequest(o.stream.value)
    ensures o.stream.Some? ==> o.stream.value.referer == first.url || (|o.requests| == 2 && o.stream.value.referer == o.requests[1].url)
  {
    match findIframe(page)
    case None => Outcome([first], PageStream(page, first.url))
    case Some(src) =>
      var second := IframeRequest(first.url, src);
      match fetch(second)
      case None => Outcome([first, second], None)
      case Some(iframeHtml) => Outcome([first, second], PageStream(iframeHtml, second.url).Or(PageStream(page, first.url)))
  }

  /** What `getUrl` does: no ID, no request at all; otherwise fetch the page, and go on from it if that succeeds. */
  function GetUrlOutcome(url: string, referer: Option<string>, fetch: Request -> Option<string>, findIframe: string -> Option<string>): (o: Outcome)
    ensures o.requests == [] <==> VideoId(url) == []
    ensures |o.requests| <= 2
    ensures o.requests != [] ==> o.requests[0] == PageRequest(url, referer)
    ensures o.stream.Some? ==> o.requests != [] && IsStreamRequest(o.stream.value)
    ensures o.stream.Some? ==> o.stream.value.referer == o.requests[0].url || o.stream.value.referer == o.requests[|o.requests| - 1].url
  {
    if VideoId(url) == [] then Outcome([], None)
    else
      var first := PageRequest(url, referer);
      match fetch(first)
      case None => Outcome([first], None)
      case Some(page) => FromPage(first, page, fetch, findIframe)
  }

  /** A stream found in the iframe wins over one on the page itself. */
  lemma IframeStreamFirst(url: string, referer: Option<string>, fetch: Request -> Option<string>, findIframe: string -> Option<string>)
    requires VideoId(url) != []
    requires fetch(PageRequest(url, referer)).Some?
    requires findIframe(fetch(PageRequest(url, referer)).value).Some?
    requires var second := IframeRequest(PageRequest(url, referer).url, findIframe(fetch(PageRequest(url, referer)).value).value);
      fetch(second).Some? && ExtractedM3u8(fetch(second).value).Some?
    ensures var o := GetUrlOutcome(url, referer, fetch, findIframe);
      |o.requests| == 2 && o.stream == Some(StreamFor(ExtractedM3u8(fetch(o.requests[1]).value).value, o.requests[1].url))
  {
  }

  /** A failed iframe fetch ends the attempt, even when the page itself offers a stream. */
  lemma IframeFailureEndsAttempt(url: string, referer: Option<string>, fetch: Request -> Option<string>, findIframe: string -> Option<string>)
    requires VideoId(url) != []
    requires fetch(PageRequest(url, referer)).Some?
    requires findIframe(fetch(PageRequest(url, referer)).value).Some?
    requires fetch(IframeRequest(PageRequest(url, referer).url, findIframe(fetch(PageRequest(url, referer)).value).value)).None?
    ensures GetUrlOutcome(url, referer, fetch, findIframe).stream.None?
  {
  }

  /** Without an iframe, the stream is the one the page itself offers, if any. */
  lemma NoIframeUsesPage(url: string, referer: Option<string>, fetch: Request -> Option<string>, findIframe: string -> Option<string>)
    requires VideoId(url) != []
    requires fetch(PageRequest(url, referer)).Some?
    requires findIframe(fetch(PageRequest(url, referer)).value).None?
    ensures var o := GetUrlOutcome(url, referer, fetch, findIframe);
      |o.requests| == 1 && o.stream == PageStream(fetch(o.requests[0]).value, o.requests[0].url)
  {
  }

  /** The extractor, as a sequence of steps. */
  method GetUrl(url: string, referer: Option<string>, fetch: Request -> Option<string>, findIframe: string -> Option<string>)
    returns (requests: seq<Request>, stream: Option<Stream>)
    ensures Outcome(requests, stream) == GetUrlOutcome(url, referer, fetch, findIframe)
  {
    var videoId := ExtractVideoId(url);
    if videoId == [] {
      return [], None;
    }
    var processedUrl := ProcessedUrl(url, videoId);
    var first := Request(processedUrl, GetHeaders(processedUrl, referer));
    var response := fetch(first);
    if response.None? {
      return [first], None;
    }
    requests, stream := FollowPage(first, response.value, fetch, findIframe);
  }

  /** The steps after the page has loaded; they reassign the iframe address. */
  method FollowPage(first: Request, playerResponse: string, fetch: Request -> Option<string>, findIframe: string -> Option<string>)
    returns (requests: seq<Request>, stream: Option<Stream>)
    ensures Outcome(requests, stream) == FromPage(first, playerResponse, fetch, findIframe)
  {
    requests := [first];
    stream := None;
    var processedUrl := first.url;
    var iframeMatch := findIframe(playerResponse);
    if iframeMatch.Some? {
      var iframeUrl := iframeMatch.value;
      if !StartsWith(iframeUrl, "http") {
        iframeUrl := "https:" + iframeUrl;
      }
      assert iframeUrl == FixIframeUrl(iframeMatch.value);
      var second := Request(iframeUrl, GetHeaders(iframeUrl, Some(processedUrl)));
      requests := requests + [second];
      var iframeResponse := fetch(second);
      if iframeResponse.None? {
        return;
      }
      stream := StreamOf(iframeResponse.value, iframeUrl);
      if stream.Some? {
        return;
      }
    }
    stream := StreamOf(playerResponse, processedUrl);
  }

  /** Look for an m3u8 address in `html` and, when there is one, hand it to the M3U8 helper with `referer`. */
  method StreamOf(html: string, referer: string) returns (stream: Option<Stream>)
    ensures stream == PageStream(html, referer)
  {
    var m3u8Url := ExtractM3u8Url(html);
    if m3u8Url.Some? {
      stream := Some(Stream(m3u8Url.value, referer, GetHeaders(m3u8Url.value, Some(referer))));
    } else {
      stream := None;
    }
  }
}
