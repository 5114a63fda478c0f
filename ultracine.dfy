/**
 * The SuperFlix21 provider of the UltraCine plugin: listing and search
 * cards, the detail page (title, year, poster, TMDB ID, Fembed address,
 * episodes) and the address handling of `loadLinks`.
 *
 * What Jsoup selects is an input: `selectFirst(...)?.text()` is an `Option`,
 * `select(...)` a `seq`. The host's `fixUrl` is the parameter `fixUrl`, the
 * page fetch of `loadLinks` the parameter `fetch` (None when it throws), and
 * the `<iframe[^>]+src=...fembed...>` search the parameter `findIframe`.
 */
module UltraCine {
  import opened Wrappers
  import opened Text
  import opened Numbers
  import opened Lists
  import opened Regex
  import JsonLd

  const MainUrl: string := "https://superflix21.lol"

  datatype Kind = Movie | TvSeries

  // ---------------------------------------------------------------------
  // Listing pages

  /** The listing address: the section address, with "?page=N" from page 2 on. */
  function MainPageUrl(page: Int32, data: string): (url: string)
    ensures page <= 1 ==> url == data
    ensures page > 1 ==> StartsWith(url, data + "?page=")
  {
    if page > 1 then
      var url := data + "?page=" + IntToString(page);
      assert url[..|data| + 6] == data + "?page=";
      url
    else data
  }

  /** From page 2 on, the text after the last '=' of the listing address reads back as the page number. */
  lemma PageNumberReadsBack(page: Int32, data: string)
    requires page > 1
    ensures ToIntOrNull(SubstringAfterLast(MainPageUrl(page, data), "=")) == Some(page)
  {
    var n := IntToString(page);
    assert '=' !in n by {
      IntToStringDigits(page);
    }
    assert MainPageUrl(page, data) == (data + "?page") + "=" + n;
    AfterLastOfEnd(data + "?page", "=", n);
    ParseIntToString(page);
  }

  // ---------------------------------------------------------------------
  // Search cards

  /** No "(dddd)" starts anywhere in `s`. */
  predicate NoYearGroup(s: string) {
    forall i :: 0 <= i < |s| ==> !YearGroupAtIndex(s, i)
  }

  /** Dropping a prefix shifts the year groups with it. */
  lemma YearGroupShift(s: string, d: nat, i: nat)
    requires d <= |s|
    ensures YearGroupAtIndex(s[d..], i) <==> YearGroupAtIndex(s, d + i)
  {
    if i + 6 <= |s| - d {
      assert s[d..][i + 1..i + 5] == s[d + i + 1..d + i + 5];
    }
  }

  /** `s.replace(Regex("\\(\\d{4}\\)"), "")`: every "(dddd)", left to right, removed. */
  function RemoveYears(s: string): (r: string)
    ensures |r| <= |s|
    decreases |s|
  {
    if |s| == 0 then []
    else if YearGroupAtIndex(s, 0) then RemoveYears(s[6..])
    else [s[0]] + RemoveYears(s[1..])
  }

  /** Removal leaves a prefix in which no year starts untouched. */
  lemma {:induction false} RemoveYearsFrom(s: string, n: nat)
    requires n <= |s|
    requires forall i :: 0 <= i < n ==> !YearGroupAtIndex(s, i)
    ensures RemoveYears(s) == s[..n] + RemoveYears(s[n..])
    decreases n
  {
    if n > 0 {
      var t := s[1..];
      forall i | 0 <= i < n - 1 ensures !YearGroupAtIndex(t, i) {
        YearGroupShift(s, 1, i);
      }
      RemoveYearsFrom(t, n - 1);
      assert t[n - 1..] == s[n..];
      var rest := RemoveYears(s[n..]);
      calc {
        RemoveYears(s);
        { assert !YearGroupAtIndex(s, 0); }
        [s[0]] + RemoveYears(t);
        [s[0]] + (t[..n - 1] + rest);
        ([s[0]] + t[..n - 1]) + rest;
        { assert [s[0]] + t[..n - 1] == s[..n]; }
        s[..n] + rest;
      }
    }
  }

  /** A text without "(dddd)" comes back unchanged. */
  lemma NoYearsUnchanged(s: string)
    requires NoYearGroup(s)
    ensures RemoveYears(s) == s
  {
    RemoveYearsFrom(s, |s|);
    assert s[..|s|] == s && s[|s|..] == [];
  }

  /**
   * In "a(yyyy)b" where `a` holds no year, no year group starts inside `a`:
   * one that started there would need the '(' at |a| to be a digit or a ')'.
   */
  lemma NoYearBeforeGroup(a: string, y: string, b: string)
    requires NoYearGroup(a) && |y| == 4
    ensures forall i :: 0 <= i < |a| ==> !YearGroupAtIndex(a + "(" + y + ")" + b, i)
  {
    var s := a + "(" + y + ")" + b;
    forall i | 0 <= i < |a| ensures !YearGroupAtIndex(s, i) {
      if i + 6 <= |a| {
        assert s[i + 1..i + 5] == a[i + 1..i + 5];
        assert !YearGroupAtIndex(a, i);
      } else {
        assert s[|a|] == '(';
        if |a| <= i + 4 {
          assert s[i + 1..i + 5][|a| - i - 1] == '(';
        }
      }
    }
  }

  /** A title "name(yyyy)" whose name holds no year: no year group starts inside the name. */
  lemma NoYearBeforeSuffix(name: string, y: string)
    requires NoYearGroup(name) && |y| == 4
    ensures forall i :: 0 <= i < |name| ==> !YearGroupAtIndex(name + "(" + y + ")", i)
  {
    NoYearBeforeGroup(name, y, []);
    assert name + "(" + y + ")" + [] == name + "(" + y + ")";
  }

  /** A year group after a year-free part is removed, and removal goes on after it. */
  lemma RemoveYearsGroup(a: string, y: string, b: string)
    requires NoYearGroup(a) && |y| == 4 && AllDigits(y)
    ensures RemoveYears(a + "(" + y + ")" + b) == a + RemoveYears(b)
  {
    var s := a + "(" + y + ")" + b;
    NoYearBeforeGroup(a, y, b);
    RemoveYearsFrom(s, |a|);
    var g := s[|a|..];
    assert s[..|a|] == a;
    assert g == "(" + y + ")" + b;
    assert g[1..5] == y;
    assert YearGroupAtIndex(g, 0);
    assert g[6..] == b;
  }

  /** Four ASCII digits always parse, to their decimal value. */
  lemma FourDigitText(d: string)
    requires |d| == 4 && AllDigits(d)
    ensures ToIntOrNull(d) == Some(DigitsValue(d))
  {
    var d3 := d[..3];
    var d2 := d3[..2];
    var d1 := d2[..1];
    assert d1[..0] == [];
    assert DigitsValue(d1) <= 9;
    assert DigitsValue(d2) <= 99;
    assert DigitsValue(d3) <= 999;
    assert IsDigit(d[0]);
  }

  /** The group of a "(dddd)" match is its four digits. */
  lemma YearGroupFound(title: string)
    requires Find(YearGroup, title).Some?
    ensures |Find(YearGroup, title).value| == 4 && AllDigits(Find(YearGroup, title).value)
  {
    var j := FindAt(YearGroup, title);
  }

  /** The year in a title: its first "(dddd)", as an `Int`. */
  function TitleYear(title: string): (y: Option<Int32>)
    ensures y.Some? <==> exists i :: 0 <= i <= |title| && YearGroupAtIndex(title, i)
  {
    match Find(YearGroup, title)
    case Some(d) =>
      YearGroupFound(title);
      FourDigitText(d);
      ToIntOrNull(d)
    case None =>
      assert forall i :: 0 <= i <= |title| && YearGroupAtIndex(title, i) ==> MatchAt(YearGroup, title, i).Some?;
      None
  }

  /** "name(yyyy)" gives back the year and, once the year is removed, the name. */
  lemma TitleYearRoundTrip(name: string, year: int)
    requires 1000 <= year <= 9999 && NoYearGroup(name)
    ensures TitleYear(name + "(" + NatToString(year) + ")") == Some(year)
    ensures RemoveYears(name + "(" + NatToString(year) + ")") == name
  {
    var y := NatToString(year);
    JsonLd.FourDigits(year);
    NatToStringValue(year);
    var tail := "(" + y + ")";
    var s := name + tail;
    assert s == name + "(" + y + ")";
    NoYearBeforeSuffix(name, y);
    assert s[|name| + 1..|name| + 5] == y;
    assert YearGroupAtIndex(s, |name|);
    FindIsLeftmost(YearGroup, s, |name|);
    ParseIntToString(year);
    assert IntToString(year) == y;
    RemoveYearsFrom(s, |name|);
    assert s[..|name|] == name && s[|name|..] == tail;
    assert tail[1..5] == y && YearGroupAtIndex(tail, 0);
    assert RemoveYears(tail) == RemoveYears(tail[6..]);
  }

  /** A listing or search card: the texts and attributes that `toSearchResult` selects. */
  datatype Card = Card(
    title: Option<string>,     // div.movie-title, h2, h3, .title: its text
    href: Option<string>,      // a: its href
    imgSrc: Option<string>,    // img: its src
    yearText: Option<string>)  // .movie-year, .year: its text

  datatype SearchResult = SearchResult(name: string, url: string, kind: Kind, poster: Option<string>, year: Option<Int32>)

  /** The poster: the image's src, unless blank, through `fixUrl`. */
  function CardPoster(src: Option<string>, fixUrl: string -> string): (p: Option<string>)
    ensures p.Some? <==> src.Some? && !IsBlank(src.value)
    ensures p.Some? ==> p.value == fixUrl(src.value)
  {
    match src
    case Some(s) => if IsBlank(s) then None else Some(fixUrl(s))
    case None => None
  }

  /** The year of a card: from the title, else from the year element's text. */
  function CardYear(title: string, yearText: Option<string>): (y: Option<Int32>)
    ensures TitleYear(title).Some? ==> y == TitleYear(title)
    ensures TitleYear(title).None? && yearText.Some? ==> y == ToIntOrNull(yearText.value)
    ensures TitleYear(title).None? && yearText.None? ==> y.None?
  {
    TitleYear(title).Or(if yearText.Some? then ToIntOrNull(yearText.value) else None)
  }

  /** `Element.toSearchResult()`: null without a title or a link. */
  function ToSearchResult(card: Card, fixUrl: string -> string): (r: Option<SearchResult>)
    ensures r.None? <==> card.title.None? || card.href.None?
    ensures r.Some? ==> r.value.url == fixUrl(card.href.value)
    ensures r.Some? ==> r.value.name == Trim(RemoveYears(card.title.value))
    ensures r.Some? ==> (r.value.kind == TvSeries <==> Contains(card.href.value, "/serie/"))
    ensures r.Some? ==> r.value.poster == CardPoster(card.imgSrc, fixUrl)
    ensures r.Some? ==> r.value.year == CardYear(card.title.value, card.yearText)
  {
    if card.title.None? || card.href.None? then None
    else
      var title := card.title.value;
      var href := card.href.value;
      Some(SearchResult(
        Trim(RemoveYears(title)),
        fixUrl(href),
        if Contains(href, "/serie/") then TvSeries else Movie,
        CardPoster(card.imgSrc, fixUrl),
        CardYear(title, card.yearText)))
  }

  /** A card titled "name (yyyy)" is listed under its trimmed name and that year. */
  lemma CardTitleRoundTrip(name: string, year: int, href: string, img: Option<string>, yearText: Option<string>, fixUrl: string -> string)
    requires 1000 <= year <= 9999 && NoYearGroup(name)
    ensures var r := ToSearchResult(Card(Some(name + "(" + NatToString(year) + ")"), Some(href), img, yearText), fixUrl);
      r.Some? && r.value.name == Trim(name) && r.value.year == Some(year)
  {
    TitleYearRoundTrip(name, year);
  }

  /** The results of a listing or search page: the cards that yield one, in page order. */
  function CardResults(cards: seq<Card>, fixUrl: string -> string): (r: seq<SearchResult>)
    ensures |r| <= |cards|
    ensures forall k :: 0 <= k < |cards| && cards[k].title.Some? && cards[k].href.Some? ==> ToSearchResult(cards[k], fixUrl).value in r
    ensures forall x :: x in r ==> exists k :: 0 <= k < |cards| && ToSearchResult(cards[k], fixUrl) == Some(x)
  {
    MapNotNull(cards, c => ToSearchResult(c, fixUrl))
  }

  // ---------------------------------------------------------------------
  // The TMDB ID in the page's HTML

  /**
   * The four patterns, in the order in which they are tried:
   * `https://www.themoviedb.org/movie/(\d+)`, `tmdb.org/movie/(\d+)`,
   * `data-id=["'](\d+)["']` and `id=["']movie_(\d+)["']`; an unescaped '.'
   * matches any character but a line terminator.
   */
  const TmdbPatterns: seq<Pattern> := [
    Capture(Atoms("https://www.themoviedb.org/movie/"), Digit, None),
    Capture(Atoms("tmdb.org/movie/"), Digit, None),
    Capture(Literal("data-id=") + [QuoteChar], Digit, Some(QuoteChar)),
    Capture(Literal("id=") + [QuoteChar] + Literal("movie_"), Digit, Some(QuoteChar))
  ]

  /** An ID is taken when it is not blank and has 4 to 10 characters. */
  predicate AcceptableId(id: string) {
    !IsBlank(id) && 4 <= |id| <= 10
  }

  /** The group of the first match of `p`, when it is an acceptable ID. */
  function AcceptedMatch(p: Pattern, html: string): (r: Option<string>)
    ensures r.Some? ==> Find(p, html) == r && AcceptableId(r.value)
    ensures r.None? ==> Find(p, html).None? || !AcceptableId(Find(p, html).value)
  {
    match Find(p, html)
    case Some(id) => if AcceptableId(id) then Some(id) else None
    case None => None
  }

  /** The first of `patterns` whose first match is an acceptable ID. */
  function AcceptedAmong(patterns: seq<Pattern>, html: string): Option<string> {
    FirstSome(patterns, p => AcceptedMatch(p, html))
  }

  /** The specification of `extractTmdbIdFromHtml`. */
  function TmdbIdFromHtml(html: string): Option<string> {
    AcceptedAmong(TmdbPatterns, html)
  }

  /** `extractTmdbIdFromHtml`: try each pattern in turn and return at the first acceptable ID. */
  method ExtractTmdbIdFromHtml(html: string) returns (id: Option<string>)
    ensures id == TmdbIdFromHtml(html)
  {
    var patterns := TmdbPatterns;
    var index := 0;
    while index < |patterns|
      invariant 0 <= index <= |patterns|
      invariant AcceptedAmong(patterns, html) == AcceptedAmong(patterns[index..], html)
    {
      var found := Find(patterns[index], html);
      if found.Some? && AcceptableId(found.value) {
        return found;
      }
      assert patterns[index..][1..] == patterns[index + 1..];
      index := index + 1;
    }
    return None;
  }

  /** Every pattern captures a run of digits. */
  lemma TmdbPatternsCaptureDigits()
    ensures forall k :: 0 <= k < |TmdbPatterns| ==> TmdbPatterns[k].Capture? && TmdbPatterns[k].run == Digit
  {
  }

  /** What patterns that all capture digit runs accept is digits. */
  lemma AcceptedDigits(patterns: seq<Pattern>, html: string)
    requires forall k :: 0 <= k < |patterns| ==> patterns[k].Capture? && patterns[k].run == Digit
    requires AcceptedAmong(patterns, html).Some?
    ensures var id := AcceptedAmong(patterns, html).value; AllDigits(id) && 4 <= |id| <= 10
  {
    var k :| 0 <= k < |patterns| && AcceptedMatch(patterns[k], html) == AcceptedAmong(patterns, html);
    var p := patterns[k];
    var j := CaptureFound(p.prefix, p.run, p.closer, html);
  }

  /** An ID found in the HTML is 4 to 10 ASCII digits. */
  lemma TmdbIdIsDigits(html: string)
    requires TmdbIdFromHtml(html).Some?
    ensures var id := TmdbIdFromHtml(html).value; AllDigits(id) && 4 <= |id| <= 10
  {
    TmdbPatternsCaptureDigits();
    AcceptedDigits(TmdbPatterns, html);
  }

  /** A pattern earlier in the list wins: the first acceptable match, in pattern order, is the ID. */
  lemma TmdbPatternPriority(html: string, k: nat)
    requires k < |TmdbPatterns| && AcceptedMatch(TmdbPatterns[k], html).Some?
    requires forall j :: 0 <= j < k ==> AcceptedMatch(TmdbPatterns[j], html).None?
    ensures TmdbIdFromHtml(html) == Find(TmdbPatterns[k], html)
  {
    FirstSomeIsFirst(TmdbPatterns, p => AcceptedMatch(p, html), k);
  }

  // ---------------------------------------------------------------------
  // The detail page

  /**
   * The ID at the end of the page address: the text after the last '-',
   * when it parses as an `Int`, which the Fembed address then spells in
   * decimal.
   */
  function SlugId(url: string): (id: Option<string>)
    ensures id.Some? ==> ToIntOrNull(SubstringAfterLast(url, "-")).Some?
    ensures id.Some? ==> id.value == IntToString(ToIntOrNull(SubstringAfterLast(url, "-")).value)
  {
    match ToIntOrNull(SubstringAfterLast(url, "-"))
    case Some(n) => Some(IntToString(n))
    case None => None
  }

  /** An address "base-N", for a non-negative `Int` N, carries N as its ID, whatever the base. */
  lemma SlugRoundTrip(base: string, n: Int32)
    requires n >= 0
    ensures SlugId(base + "-" + IntToString(n)) == Some(IntToString(n))
  {
    var t := IntToString(n);
    assert '-' !in t by {
      IntToStringDigits(n);
    }
    AfterLastOfEnd(base, "-", t);
    ParseIntToString(n);
  }

  /** The TMDB ID: from the JSON-LD, else from the address, else from the HTML. */
  function TmdbId(ld: JsonLd.JsonLdData, url: string, html: string): (id: Option<string>)
    ensures ld.tmdbId.Some? ==> id == ld.tmdbId
    ensures ld.tmdbId.None? && SlugId(url).Some? ==> id == SlugId(url)
    ensures ld.tmdbId.None? && SlugId(url).None? ==> id == TmdbIdFromHtml(html)
  {
    ld.tmdbId.Or(SlugId(url)).Or(TmdbIdFromHtml(html))
  }

  /** The Fembed address: built from the TMDB ID, else the page's Fembed iframe. */
  function FembedUrl(tmdbId: Option<string>, fembedSrc: Option<string>): (u: Option<string>)
    ensures tmdbId.Some? ==> u.Some? && StartsWith(u.value, HttpsFembed) && u.value[|HttpsFembed|..] == tmdbId.value
    ensures tmdbId.None? ==> u == fembedSrc
  {
    if tmdbId.Some? then
      var u := HttpsFembed + tmdbId.value;
      assert u[..|HttpsFembed|] == HttpsFembed;
      Some(u)
    else fembedSrc
  }

  /** The poster: the JSON-LD image in its original size, else the og:image through `fixUrl`. */
  function Poster(ldPoster: Option<string>, ogImage: Option<string>, fixUrl: string -> string): (p: Option<string>)
    ensures p.Some? <==> ldPoster.Some? || ogImage.Some?
    ensures ldPoster.Some? ==> p == Some(Replace(ldPoster.value, "/w500/", "/original/"))
    ensures ldPoster.None? && ogImage.Some? ==> p == Some(fixUrl(ogImage.value))
  {
    match ldPoster
    case Some(u) => Some(Replace(u, "/w500/", "/original/"))
    case None => if ogImage.Some? then Some(fixUrl(ogImage.value)) else None
  }

  /** A TMDB image address ".../w500/file" becomes ".../original/file". */
  lemma PosterUpgrade(prefix: string, file: string)
    requires 'w' !in prefix && '/' !in file
    ensures Replace(prefix + "/w500/" + file, "/w500/", "/original/") == prefix + "/original/" + file
  {
    var s := prefix + "/w500/" + file;
    var n := |prefix|;
    assert s[n..n + 6] == "/w500/";
    assert OccursAt(s, "/w500/", n);
    forall j | 0 <= j < n ensures !OccursAt(s, "/w500/", j) {
      assert s[j + 1] != 'w';
      assert "/w500/"[1] == 'w';
    }
    assert IndexOf(s, "/w500/") == Some(n);
    assert s[..n] == prefix && s[n + 6..] == file;
    CharBlocksContains(file, "/w500/", '/');
  }

  /** Cast members as the host's `Actor`: a name and a second text (the link, "", or "Diretor"). */
  datatype Actor = Actor(name: string, image: string)

  const DirectorLabel: string := "Diretor"

  /** The detail page's parts that `load` selects, besides its HTML. */
  datatype DetailPage = DetailPage(
    h1: Option<string>,                // h1: its text
    ogImage: Option<string>,           // meta[property='og:image']: its content
    synopsis: Option<string>,          // .description, .sinopse, p: its text
    genreLinks: seq<string>,           // a[href*='/genero/']: their texts
    castLinks: seq<Actor>,             // .cast a, .actors a: text and href
    youtubeSrc: Option<string>,        // iframe[src*='youtube']: its src
    fembedSrc: Option<string>,         // iframe[src*='fembed']: its src
    seasons: seq<seq<EpisodeCard>>)    // .season, .temporada and, in each, .episode, .episodio

  /**
   * What `load` sets on the response. `director` and `actors` are the lists
   * of the two `addActors` calls, in call order; the first call is made only
   * when there is a director.
   */
  datatype Details = Details(
    poster: Option<string>,
    year: Option<Int32>,
    plot: Option<string>,
    tags: seq<string>,
    director: Option<Actor>,
    actors: seq<Actor>,
    trailer: Option<string>)

  datatype LoadResponse =
    | MovieLoad(title: string, url: string, dataUrl: string, details: Details)
    | SeriesLoad(title: string, url: string, episodes: seq<Episode>, details: Details)

  /** The first director named in the JSON-LD, credited as "Diretor". */
  function DirectorCredit(director: Option<seq<string>>): (a: Option<Actor>)
    ensures a.Some? <==> director.Some? && director.value != []
    ensures a.Some? ==> a.value == Actor(director.value[0], DirectorLabel)
  {
    if director.Some? && director.value != [] then Some(Actor(director.value[0], DirectorLabel)) else None
  }

  /** The cast: the JSON-LD actors with an empty second text, else the page's cast links. */
  function Cast(ldActors: Option<seq<string>>, castLinks: seq<Actor>): (r: seq<Actor>)
    ensures ldActors.Some? ==> |r| == |ldActors.value| && forall k :: 0 <= k < |r| ==> r[k] == Actor(ldActors.value[k], "")
    ensures ldActors.None? ==> r == castLinks
  {
    if ldActors.Some? then seq(|ldActors.value|, k requires 0 <= k < |ldActors.value| => Actor(ldActors.value[k], ""))
    else castLinks
  }

  /** The details of a page titled `title`, each from the JSON-LD first and the page second. */
  function DetailsOf(ld: JsonLd.JsonLdData, title: string, page: DetailPage, fixUrl: string -> string): (d: Details)
    ensures ld.year.Some? ==> d.year == ld.year
    ensures ld.year.None? ==> d.year == TitleYear(title)
    ensures d.poster == Poster(ld.posterUrl, page.ogImage, fixUrl)
    ensures d.plot == ld.description.Or(page.synopsis)
    ensures d.tags == ld.genres.GetOr(page.genreLinks)
    ensures d.director == DirectorCredit(ld.director) && d.actors == Cast(ld.actors, page.castLinks)
    ensures d.trailer == page.youtubeSrc
  {
    Details(
      Poster(ld.posterUrl, page.ogImage, fixUrl),
      ld.year.Or(TitleYear(title)),
      ld.description.Or(page.synopsis),
      ld.genres.GetOr(page.genreLinks),
      DirectorCredit(ld.director),
      Cast(ld.actors, page.castLinks),
      page.youtubeSrc)
  }

  /** A series: by its address, or by its JSON-LD type. */
  predicate IsSerie(url: string, ld: JsonLd.JsonLdData) {
    Contains(url, "/serie/") || ld.ldType == Some(JsonLd.LdTvSeries)
  }

  /** `load` once the JSON-LD of the page has been read into `ld`. */
  function LoadWith(url: string, html: string, ld: JsonLd.JsonLdData, page: DetailPage, fixUrl: string -> string): (r: Option<LoadResponse>)
    ensures r.None? <==> ld.title.None? && page.h1.None?
    ensures r.Some? ==> r.value.title == ld.title.Or(page.h1).value && r.value.url == url
    ensures r.Some? ==> (r.value.SeriesLoad? <==> IsSerie(url, ld))
    ensures r.Some? ==> r.value.details == DetailsOf(ld, r.value.title, page, fixUrl)
    ensures r.Some? && r.value.MovieLoad? ==> r.value.dataUrl == FembedUrl(TmdbId(ld, url, html), page.fembedSrc).GetOr("")
    ensures r.Some? && r.value.SeriesLoad? ==> r.value.episodes == Episodes(page.seasons, |page.seasons|, Maker(TmdbId(ld, url, html), fixUrl))
  {
    match ld.title.Or(page.h1)
    case None => None
    case Some(title) =>
      var details := DetailsOf(ld, title, page, fixUrl);
      var tmdbId := TmdbId(ld, url, html);
      if IsSerie(url, ld) then
        Some(SeriesLoad(title, url, Episodes(page.seasons, |page.seasons|, Maker(tmdbId, fixUrl)), details))
      else
        Some(MovieLoad(title, url, FembedUrl(tmdbId, page.fembedSrc).GetOr(""), details))
  }

  /** `load(url)`, for the page whose HTML is `html` and whose selected parts are `page`. */
  function Load(url: string, html: string, page: DetailPage, fixUrl: string -> string): Option<LoadResponse> {
    LoadWith(url, html, JsonLd.ExtractedJsonLd(html), page, fixUrl)
  }

  /** Without a JSON-LD ID, a movie at "base-N" plays Fembed title N. */
  lemma MovieFromSlug(base: string, n: Int32, html: string, ld: JsonLd.JsonLdData, page: DetailPage, fixUrl: string -> string)
    requires n >= 0 && ld.tmdbId.None?
    requires LoadWith(base + "-" + IntToString(n), html, ld, page, fixUrl).Some?
    requires LoadWith(base + "-" + IntToString(n), html, ld, page, fixUrl).value.MovieLoad?
    ensures LoadWith(base + "-" + IntToString(n), html, ld, page, fixUrl).value.dataUrl == HttpsFembed + IntToString(n)
  {
    SlugRoundTrip(base, n);
  }

  // ---------------------------------------------------------------------
  // Episodes

  /** An `.episode`/`.episodio` element: its title text, link href and number text. */
  datatype EpisodeCard = EpisodeCard(
    title: Option<string>,   // .title, .name: its text
    href: Option<string>,    // a: its href
    number: Option<string>)  // .number, .ep: its text

  datatype Episode = Episode(data: string, name: string, season: int, episode: int)

  const EpisodeLabel: string := "Episódio "

  /** The name of the episode at `index` (from 0) of its season. */
  function EpisodeName(e: EpisodeCard, index: nat): string {
    e.title.GetOr(EpisodeLabel + IntToString(index + 1))
  }

  /** The number of the episode at `index`: its number text, else its position from 1. */
  function EpisodeNumber(e: EpisodeCard, index: nat): (n: int)
    ensures ToIntOrNull(e.number.GetOr("")).Some? ==> n == ToIntOrNull(e.number.GetOr("")).value
    ensures ToIntOrNull(e.number.GetOr("")).None? ==> n == index + 1
  {
    match e.number
    case Some(t) => (match ToIntOrNull(t) case Some(n) => n case None => index + 1)
    case None => index + 1
  }

  /** The Fembed address of episode `n` of title `id`. */
  function FembedEpisodeUrl(id: string, n: int): (u: string)
    ensures StartsWith(u, HttpsFembed)
  {
    var u := HttpsFembed + id + "?ep=" + IntToString(n);
    assert u[..|HttpsFembed|] == HttpsFembed;
    u
  }

  /** An address with the Fembed prefix holds the Fembed host and is not blank. */
  lemma FembedPrefixFacts(u: string)
    requires StartsWith(u, HttpsFembed)
    ensures Contains(u, "fembed.sx") && !IsBlank(u)
  {
    assert u[8..17] == HttpsFembed[8..17] == "fembed.sx";
    OccursContains(u, "fembed.sx", 8);
    assert u[0] == 'h' && !IsWhitespace('h');
  }

  /** `finalUrl`: the Fembed address when there is an ID and no link, else the link through `fixUrl`. */
  function FinalUrl(e: EpisodeCard, index: nat, tmdbId: Option<string>, fixUrl: string -> string): string {
    var href := e.href.GetOr("");
    if tmdbId.Some? && IsBlank(href) then FembedEpisodeUrl(tmdbId.value, EpisodeNumber(e, index)) else fixUrl(href)
  }

  /**
   * The address an episode is added with, or None when it is blank and the
   * episode is skipped. A built Fembed address is never blank, so only a
   * link can be.
   */
  function EpisodeUrl(e: EpisodeCard, index: nat, tmdbId: Option<string>, fixUrl: string -> string): (u: Option<string>)
    ensures u.Some? ==> !IsBlank(u.value)
  {
    var href := e.href.GetOr("");
    if tmdbId.Some? && IsBlank(href) then
      var url := FembedEpisodeUrl(tmdbId.value, EpisodeNumber(e, index));
      assert !IsBlank(url) by {
        FembedPrefixFacts(url);
      }
      Some(url)
    else if IsBlank(fixUrl(href)) then None
    else Some(fixUrl(href))
  }

  /** An episode is added exactly when its `finalUrl` is not blank, and with that address. */
  lemma EpisodeUrlIsFinalUrl(e: EpisodeCard, index: nat, tmdbId: Option<string>, fixUrl: string -> string)
    ensures var f := FinalUrl(e, index, tmdbId, fixUrl);
      EpisodeUrl(e, index, tmdbId, fixUrl) == if IsBlank(f) then None else Some(f)
  {
    var href := e.href.GetOr("");
    if tmdbId.Some? && IsBlank(href) {
      FembedPrefixFacts(FembedEpisodeUrl(tmdbId.value, EpisodeNumber(e, index)));
    }
  }

  /** The episode the element at `index` (from 0) of season `season` is added as, or None when its address is blank. */
  function CardEpisode(card: EpisodeCard, index: nat, season: int, tmdbId: Option<string>, fixUrl: string -> string): (r: Option<Episode>)
    ensures r.Some? ==> InSeasons(r.value, season, season)
    ensures r.Some? <==> EpisodeUrl(card, index, tmdbId, fixUrl).Some?
  {
    match EpisodeUrl(card, index, tmdbId, fixUrl)
    case None => None
    case Some(url) => Some(Episode(url, EpisodeName(card, index), season, EpisodeNumber(card, index)))
  }

  /** How an element becomes an episode: from the season number, the element and its index, the episode or nothing. */
  type EpisodeMaker = (int, EpisodeCard, nat) -> Option<Episode>

  /** The body of the inner loop of `extractEpisodes`, on a page whose ID is `tmdbId`. */
  function Maker(tmdbId: Option<string>, fixUrl: string -> string): EpisodeMaker {
    (season: int, card: EpisodeCard, index: nat) => CardEpisode(card, index, season, tmdbId, fixUrl)
  }

  /** The episodes of the first `n` elements of season `season`; the elements `make` gives nothing for are skipped. */
  function SeasonEpisodes(cards: seq<EpisodeCard>, season: int, n: nat, make: EpisodeMaker): (r: seq<Episode>)
    requires n <= |cards|
    ensures |r| <= n
  {
    if n == 0 then []
    else
      var init := SeasonEpisodes(cards, season, n - 1, make);
      match make(season, cards[n - 1], n - 1)
      case None => init
      case Some(e) => init + [e]
  }

  /** The episodes of the first `m` seasons, season by season; the seasons are numbered from 1. */
  function Episodes(seasons: seq<seq<EpisodeCard>>, m: nat, make: EpisodeMaker): seq<Episode>
    requires m <= |seasons|
  {
    if m == 0 then []
    else Episodes(seasons, m - 1, make) + SeasonEpisodes(seasons[m - 1], m, |seasons[m - 1]|, make)
  }

  /** The episode lies in a season from `lo` to `hi` and has an address that is not blank. */
  predicate InSeasons(e: Episode, lo: int, hi: int) {
    lo <= e.season <= hi && !IsBlank(e.data)
  }

  /** Every episode lies in a season from `lo` to `hi` and has an address that is not blank. */
  predicate SeasonsWithin(r: seq<Episode>, lo: int, hi: int) {
    forall k {:trigger InSeasons(r[k], lo, hi)} :: 0 <= k < |r| ==> InSeasons(r[k], lo, hi)
  }

  /** Episode `a` comes from no later season than episode `b`. */
  predicate NotLater(a: Episode, b: Episode) {
    a.season <= b.season
  }

  /** The seasons never go down. */
  predicate SeasonsInOrder(r: seq<Episode>) {
    forall i, j {:trigger NotLater(r[i], r[j])} :: 0 <= i < j < |r| ==> NotLater(r[i], r[j])
  }

  /** The body of the inner loop, applied to one element. */
  lemma MakerMakes(tmdbId: Option<string>, fixUrl: string -> string, season: int, card: EpisodeCard, index: nat)
    ensures Maker(tmdbId, fixUrl)(season, card, index) == CardEpisode(card, index, season, tmdbId, fixUrl)
  {
  }

  /** Every episode `make` makes lies in the season it is made for and has an address that is not blank. */
  ghost predicate MakesWithin(make: EpisodeMaker) {
    forall season, card, index :: make(season, card, index).Some? ==> InSeasons(make(season, card, index).value, season, season)
  }

  /** The body of the inner loop only makes episodes of its own season with an address that is not blank. */
  lemma MakerWithin(tmdbId: Option<string>, fixUrl: string -> string)
    ensures MakesWithin(Maker(tmdbId, fixUrl))
  {
    var make := Maker(tmdbId, fixUrl);
    forall season, card, index | make(season, card, index).Some?
      ensures InSeasons(make(season, card, index).value, season, season)
    {
      assert make(season, card, index) == CardEpisode(card, index, season, tmdbId, fixUrl);
    }
  }

  /** One more episode of the same season, with an address that is not blank. */
  lemma WithinAppendOne(r: seq<Episode>, e: Episode, season: int)
    requires SeasonsWithin(r, season, season) && InSeasons(e, season, season)
    ensures SeasonsWithin(r + [e], season, season)
  {
    forall k | 0 <= k < |r| + 1
      ensures InSeasons((r + [e])[k], season, season)
    {
      if k < |r| {
        assert (r + [e])[k] == r[k];
      }
    }
  }

  /** A season yields at most one episode per element, all in that season and none with a blank address. */
  lemma {:induction false} SeasonEpisodesFacts(cards: seq<EpisodeCard>, season: int, n: nat, make: EpisodeMaker)
    requires n <= |cards| && MakesWithin(make)
    ensures var r := SeasonEpisodes(cards, season, n, make);
      |r| <= n && SeasonsWithin(r, season, season)
    decreases n
  {
    if n > 0 {
      var init := SeasonEpisodes(cards, season, n - 1, make);
      SeasonEpisodesFacts(cards, season, n - 1, make);
      match make(season, cards[n - 1], n - 1)
      case None =>
      case Some(e) =>
        WithinAppendOne(init, e, season);
    }
  }

  /** Appending the episodes of season `m` to those of seasons 1..m-1 gives seasons 1..m, in order. */
  lemma AppendSeason(a: seq<Episode>, b: seq<Episode>, r: seq<Episode>, m: int)
    requires m >= 1 && SeasonsWithin(a, 1, m - 1) && SeasonsInOrder(a)
    requires SeasonsWithin(b, m, m) && a + b == r
    ensures SeasonsWithin(r, 1, m) && SeasonsInOrder(r)
  {
    forall k | 0 <= k < |r|
      ensures InSeasons(r[k], 1, m)
    {
      if k < |a| {
        assert r[k] == a[k] && InSeasons(a[k], 1, m - 1);
      } else {
        assert r[k] == b[k - |a|] && InSeasons(b[k - |a|], m, m);
      }
    }
    forall i, j | 0 <= i < j < |r|
      ensures NotLater(r[i], r[j])
    {
      if j < |a| {
        assert r[i] == a[i] && r[j] == a[j] && NotLater(a[i], a[j]);
      } else if i < |a| {
        assert r[i] == a[i] && r[j] == b[j - |a|] && InSeasons(a[i], 1, m - 1) && InSeasons(b[j - |a|], m, m);
      } else {
        assert r[i] == b[i - |a|] && r[j] == b[j - |a|] && InSeasons(b[i - |a|], m, m) && InSeasons(b[j - |a|], m, m);
      }
    }
  }

  /** The seasons are numbered 1..m in page order, and no episode has a blank address. */
  lemma {:induction false} EpisodesNumbered(seasons: seq<seq<EpisodeCard>>, m: nat, make: EpisodeMaker)
    requires m <= |seasons| && MakesWithin(make)
    ensures SeasonsWithin(Episodes(seasons, m, make), 1, m)
    ensures SeasonsInOrder(Episodes(seasons, m, make))
    decreases m
  {
    if m > 0 {
      var a := Episodes(seasons, m - 1, make);
      var b := SeasonEpisodes(seasons[m - 1], m, |seasons[m - 1]|, make);
      EpisodesNumbered(seasons, m - 1, make);
      SeasonEpisodesFacts(seasons[m - 1], m, |seasons[m - 1]|, make);
      EpisodesStep(seasons, m - 1, make, a, a + b);
      AppendSeason(a, b, Episodes(seasons, m, make), m);
    }
  }

  /** `extractEpisodes`: every episode of every season, in page order. */
  method ExtractEpisodes(seasons: seq<seq<EpisodeCard>>, tmdbId: Option<string>, fixUrl: string -> string) returns (episodes: seq<Episode>)
    ensures episodes == Episodes(seasons, |seasons|, Maker(tmdbId, fixUrl))
  {
    episodes := [];
    var s := 0;
    while s < |seasons|
      invariant 0 <= s <= |seasons|
      invariant episodes == Episodes(seasons, s, Maker(tmdbId, fixUrl))
    {
      var next := AddSeasonEpisodes(episodes, seasons[s], s + 1, tmdbId, fixUrl);
      EpisodesStep(seasons, s, Maker(tmdbId, fixUrl), episodes, next);
      episodes, s := next, s + 1;
    }
  }

  /** One more season: the episodes so far followed by those of season `s + 1` are the episodes of the first `s + 1` seasons. */
  lemma EpisodesStep(seasons: seq<seq<EpisodeCard>>, s: nat, make: EpisodeMaker, before: seq<Episode>, after: seq<Episode>)
    requires s < |seasons|
    requires before == Episodes(seasons, s, make)
    requires after == before + SeasonEpisodes(seasons[s], s + 1, |seasons[s]|, make)
    ensures after == Episodes(seasons, s + 1, make)
  {
  }

  /** The inner loop of `extractEpisodes`: appends the episodes of one season, skipping blank addresses. */
  method AddSeasonEpisodes(episodes: seq<Episode>, cards: seq<EpisodeCard>, season: int, tmdbId: Option<string>, fixUrl: string -> string)
    returns (out: seq<Episode>)
    ensures out == episodes + SeasonEpisodes(cards, season, |cards|, Maker(tmdbId, fixUrl))
  {
    out := episodes;
    var e := 0;
    while e < |cards|
      invariant 0 <= e <= |cards|
      invariant out == episodes + SeasonEpisodes(cards, season, e, Maker(tmdbId, fixUrl))
    {
      var made := CardEpisode(cards[e], e, season, tmdbId, fixUrl);
      var next := out;
      if made.Some? {
        next := out + [made.value];
      }
      MakerMakes(tmdbId, fixUrl, season, cards[e], e);
      SeasonStep(episodes, cards, season, e, Maker(tmdbId, fixUrl), made, out, next);
      out, e := next, e + 1;
    }
  }

  /** One more element of a season: it adds the episode made of it, if any. */
  lemma SeasonStep(episodes: seq<Episode>, cards: seq<EpisodeCard>, season: int, e: nat, make: EpisodeMaker,
                   made: Option<Episode>, before: seq<Episode>, after: seq<Episode>)
    requires e < |cards| && made == make(season, cards[e], e)
    requires before == episodes + SeasonEpisodes(cards, season, e, make)
    requires after == if made.Some? then before + [made.value] else before
    ensures after == episodes + SeasonEpisodes(cards, season, e + 1, make)
  {
  }

  /** The episode made up for the element at `index` of a season without titles, links or numbers. */
  function SynthesizedEpisode(id: string, season: int, index: nat): Episode {
    Episode(FembedEpisodeUrl(id, index + 1), EpisodeLabel + IntToString(index + 1), season, index + 1)
  }

  /** An element without title, link or number, on a page with an ID, is added as that made-up episode. */
  lemma EmptyCardEpisode(index: nat, season: int, id: string, fixUrl: string -> string)
    ensures Maker(Some(id), fixUrl)(season, EpisodeCard(None, None, None), index) == Some(SynthesizedEpisode(id, season, index))
  {
    assert IsBlank("");
    assert Maker(Some(id), fixUrl)(season, EpisodeCard(None, None, None), index) == CardEpisode(EpisodeCard(None, None, None), index, season, Some(id), fixUrl);
  }

  /** The episodes made up for the first `n` elements of such a season. */
  function SynthesizedEpisodes(id: string, season: int, n: nat): (r: seq<Episode>)
    ensures |r| == n
  {
    if n == 0 then [] else SynthesizedEpisodes(id, season, n - 1) + [SynthesizedEpisode(id, season, n - 1)]
  }

  /** The made-up episodes are numbered 1..n and point at Fembed. */
  lemma {:induction false} SynthesizedEpisodesAt(id: string, season: int, n: nat)
    ensures forall k :: 0 <= k < n ==> SynthesizedEpisodes(id, season, n)[k] == SynthesizedEpisode(id, season, k)
    decreases n
  {
    if n > 0 {
      SynthesizedEpisodesAt(id, season, n - 1);
    }
  }

  /**
   * A season whose elements carry neither a title, a link nor a number, on a
   * page with an ID, becomes episodes 1..n pointing at Fembed.
   */
  lemma {:induction false} SynthesizedSeason(cards: seq<EpisodeCard>, season: int, n: nat, id: string, fixUrl: string -> string)
    requires n <= |cards|
    requires forall k :: 0 <= k < |cards| ==> cards[k] == EpisodeCard(None, None, None)
    ensures SeasonEpisodes(cards, season, n, Maker(Some(id), fixUrl)) == SynthesizedEpisodes(id, season, n)
    decreases n
  {
    if n > 0 {
      SynthesizedSeason(cards, season, n - 1, id, fixUrl);
      EmptyCardEpisode(n - 1, season, id, fixUrl);
    }
  }

  // ---------------------------------------------------------------------
  // loadLinks

  /** A call of the host's `loadExtractor(url, referer, ...)`. */
  datatype ExtractorCall = ExtractorCall(url: string, referer: string)

  /** What `loadLinks` does: the pages it fetches, and the extractor call whose result it returns (false without one). */
  datatype LinksOutcome = LinksOutcome(fetched: seq<string>, call: Option<ExtractorCall>)

  /** A Fembed address, with "https://" put in front unless it starts with "http". */
  function CleanFembedUrl(data: string): (u: string)
    ensures StartsWith(u, "http")
    ensures StartsWith(data, "http") ==> u == data
    ensures !StartsWith(data, "http") ==> u == "https://" + data
  {
    if StartsWith(data, "http") then data
    else
      var u := "https://" + data;
      assert u[..4] == "http";
      u
  }

  /** Cleaning an address twice is cleaning it once. */
  lemma CleanFembedIdempotent(data: string)
    ensures CleanFembedUrl(CleanFembedUrl(data)) == CleanFembedUrl(data)
  {
  }

  /** The page to fetch: a site-relative address is put under the site. */
  function PageAddress(data: string): (u: string)
    ensures StartsWith(data, "/") ==> u == MainUrl + data
    ensures !StartsWith(data, "/") ==> u == data
  {
    if StartsWith(data, "/") then MainUrl + data else data
  }

  /** The extractor call for a fetched page: its first Fembed embed address, else its Fembed iframe. */
  function FromLinkPage(pageUrl: string, html: string, findIframe: string -> Option<string>): (c: Option<ExtractorCall>)
    ensures c.Some? ==> c.value.referer == pageUrl
    ensures Find(FembedEmbed, html).Some? ==> c == Some(ExtractorCall(Find(FembedEmbed, html).value, pageUrl))
    ensures Find(FembedEmbed, html).None? ==> (c.Some? <==> findIframe(html).Some?)
  {
    match Find(FembedEmbed, html)
    case Some(u) => Some(ExtractorCall(u, pageUrl))
    case None =>
      match findIframe(html)
      case Some(u) => Some(ExtractorCall(u, pageUrl))
      case None => None
  }

  /** `loadLinks(data)`; `fetch` gives a page's text, or None when the request throws. */
  function LoadLinks(data: string, fetch: string -> Option<string>, findIframe: string -> Option<string>): (o: LinksOutcome)
    ensures IsBlank(data) ==> o == LinksOutcome([], None)
    ensures !IsBlank(data) && Contains(data, "fembed.sx") ==> o == LinksOutcome([], Some(ExtractorCall(CleanFembedUrl(data), MainUrl)))
    ensures !IsBlank(data) && !Contains(data, "fembed.sx") ==> o.fetched == [PageAddress(data)]
    ensures !IsBlank(data) && !Contains(data, "fembed.sx") ==>
      o.call == (match fetch(PageAddress(data)) case Some(html) => FromLinkPage(PageAddress(data), html, findIframe) case None => None)
  {
    if IsBlank(data) then LinksOutcome([], None)
    else if Contains(data, "fembed.sx") then LinksOutcome([], Some(ExtractorCall(CleanFembedUrl(data), MainUrl)))
    else
      var pageUrl := PageAddress(data);
      match fetch(pageUrl)
      case Some(html) => LinksOutcome([pageUrl], FromLinkPage(pageUrl, html, findIframe))
      case None => LinksOutcome([pageUrl], None)
  }

  /** An address built for Fembed goes to the extractor as it is, with the site as referer and no fetch. */
  lemma FembedAddressSkipsFetch(u: string, fetch: string -> Option<string>, findIframe: string -> Option<string>)
    requires StartsWith(u, HttpsFembed)
    ensures LoadLinks(u, fetch, findIframe) == LinksOutcome([], Some(ExtractorCall(u, MainUrl)))
  {
    FembedPrefixFacts(u);
    assert u[..4] == "http";
  }

  /** A movie whose page has a TMDB ID plays through Fembed without a fetch. */
  lemma MovieWithIdPlaysDirectly(url: string, html: string, ld: JsonLd.JsonLdData, page: DetailPage, fixUrl: string -> string,
                                 fetch: string -> Option<string>, findIframe: string -> Option<string>)
    requires LoadWith(url, html, ld, page, fixUrl).Some? && LoadWith(url, html, ld, page, fixUrl).value.MovieLoad?
    requires TmdbId(ld, url, html).Some?
    ensures var data := LoadWith(url, html, ld, page, fixUrl).value.dataUrl;
      LoadLinks(data, fetch, findIframe) == LinksOutcome([], Some(ExtractorCall(data, MainUrl)))
  {
    FembedAddressSkipsFetch(LoadWith(url, html, ld, page, fixUrl).value.dataUrl, fetch, findIframe);
  }

  /** Every synthesized episode address plays through Fembed without a fetch. */
  lemma EpisodeWithIdPlaysDirectly(id: string, n: int, fetch: string -> Option<string>, findIframe: string -> Option<string>)
    ensures LoadLinks(FembedEpisodeUrl(id, n), fetch, findIframe) == LinksOutcome([], Some(ExtractorCall(FembedEpisodeUrl(id, n), MainUrl)))
  {
    FembedAddressSkipsFetch(FembedEpisodeUrl(id, n), fetch, findIframe);
  }
}
