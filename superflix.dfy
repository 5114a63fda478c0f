/**
 * The SuperFlix provider's page logic: listing URLs, search cards, the title,
 * poster, actor list and seasons of a detail page, and the choice of the Fembed
 * embed address of a movie.
 *
 * What Jsoup selects is an input: `selectFirst(...)` is an `Option`, `select(...)`
 * a `seq`, and an attribute that is absent is the empty string. The host's
 * `fixUrl` is the parameter `fixUrl`.
 */
module SuperFlix {
  import opened Wrappers
  import opened Text
  import opened Numbers
  import opened Lists

  const MainUrl: string := "https://superflix21.lol"

  datatype Kind = Movie | TvSeries

  /** A candidate embed address: present, non-empty and on a Fembed host. */
  predicate IsFembedCandidate(u: Option<string>) {
    u.Some? && u.value != [] && Contains(u.value, "fembed")
  }

  /** The `iframe#player` src when it is a Fembed address, else the `button[data-url]` one, else nothing. */
  function GetFembedUrl(iframeSrc: Option<string>, dataUrl: Option<string>): (r: Option<string>)
    ensures r.Some? <==> IsFembedCandidate(iframeSrc) || IsFembedCandidate(dataUrl)
    ensures r.Some? ==> r.value != [] && Contains(r.value, "fembed")
    ensures IsFembedCandidate(iframeSrc) ==> r == iframeSrc
    ensures r.Some? ==> r == iframeSrc || r == dataUrl
  {
    if IsFembedCandidate(iframeSrc) then iframeSrc
    else if IsFembedCandidate(dataUrl) then dataUrl
    else None
  }

  /** `MainUrl/<path>/page/<page>`. */
  function SectionPageUrl(path: string, page: Int32): (url: string)
    ensures StartsWith(url, MainUrl + "/")
  {
    var url := MainUrl + "/" + path + "/page/" + IntToString(page);
    assert url[..|MainUrl| + 1] == MainUrl + "/";
    url
  }

  /**
   * The listing URL of page `page` of the section at `data`, as the plugin
   * computes it: the genre form is chosen when the last path segment of
   * `data` contains "genero".
   */
  function MainPageUrl(page: Int32, data: string): (url: string)
    ensures page == 1 ==> url == data
    ensures page != 1 ==> StartsWith(url, MainUrl + "/")
  {
    if page == 1 then data
    else
      var kind := SubstringAfterLast(data, "/");
      if Contains(kind, "genero") then
        SectionPageUrl("genero/" + SubstringBefore(SubstringAfterLast(data, "genero/"), "/"), page)
      else SectionPageUrl(kind, page)
  }

  /** The text of an `Int` has no '/'. */
  lemma IntTextHasNoSlash(n: int)
    ensures '/' !in IntToString(n)
  {
    IntToStringDigits(n);
  }

  /** The page number is the last path segment of a section page address. */
  lemma SectionPageReadsBack(path: string, page: Int32)
    ensures ToIntOrNull(SubstringAfterLast(SectionPageUrl(path, page), "/")) == Some(page)
  {
    var n := IntToString(page);
    IntTextHasNoSlash(page);
    assert SectionPageUrl(path, page) == (MainUrl + "/" + path + "/page") + "/" + n;
    AfterLastOfEnd(MainUrl + "/" + path + "/page", "/", n);
    ParseIntToString(page);
  }

  /** Past the first page, the page number is the last path segment of the listing URL. */
  lemma PageNumberReadsBack(page: Int32, data: string)
    requires page != 1
    ensures ToIntOrNull(SubstringAfterLast(MainPageUrl(page, data), "/")) == Some(page)
  {
    var kind := SubstringAfterLast(data, "/");
    var path := if Contains(kind, "genero") then "genero/" + SubstringBefore(SubstringAfterLast(data, "genero/"), "/") else kind;
    assert MainPageUrl(page, data) == SectionPageUrl(path, page);
    SectionPageReadsBack(path, page);
  }

  /** Past the first page, a section "<p>/<t>" pages to `MainUrl/<t>/page/<page>`, `t` being the last path segment. */
  lemma SectionListing(p: string, t: string, page: Int32)
    requires page != 1 && '/' !in t && !Contains(t, "genero")
    ensures MainPageUrl(page, p + "/" + t) == SectionPageUrl(t, page)
  {
    AfterLastOfEnd(p, "/", t);
  }

  /**
   * Past the first page, "<q>genero/<g>" whose last segment `g` holds "genero"
   * pages to `MainUrl/genero/<g>/page/<page>`.
   */
  lemma GenreListing(q: string, g: string, page: Int32)
    requires page != 1 && '/' !in g && Contains(g, "genero")
    ensures MainPageUrl(page, q + "genero/" + g) == SectionPageUrl("genero/" + g, page)
  {
    var data := q + "genero/" + g;
    assert data == (q + "genero") + "/" + g;
    AfterLastOfEnd(q + "genero", "/", g);
    AfterLastOfEnd(q, "genero/", g);
    ContainsChar(g, '/');
    assert SubstringBefore(g, "/") == g;
  }

  /**
   * A genre listing such as "https://superflix21.lol/genero/acao" loses its
   * "/genero" part from page 2 on, because the check looks at the last path
   * segment, which is the genre itself.
   */
  lemma GenrePageAsWritten(genre: string, page: Int32)
    requires page != 1 && '/' !in genre && !Contains(genre, "genero")
    ensures MainPageUrl(page, MainUrl + "/genero/" + genre) == SectionPageUrl(genre, page)
  {
    var data := MainUrl + "/genero/" + genre;
    assert data == (MainUrl + "/genero") + "/" + genre;
    AfterLastOfEnd(MainUrl + "/genero", "/", genre);
  }

  /** The listing URL with the genre test made on the whole address. */
  function MainPageUrlFixed(page: Int32, data: string): (url: string)
    ensures page == 1 ==> url == data
    ensures page != 1 ==> StartsWith(url, MainUrl + "/")
  {
    if page == 1 then data
    else if Contains(data, "genero") then
      SectionPageUrl("genero/" + SubstringBefore(SubstringAfterLast(data, "genero/"), "/"), page)
    else SectionPageUrl(SubstringAfterLast(data, "/"), page)
  }

  /** The corrected listing URL still ends with the page number. */
  lemma PageNumberReadsBackFixed(page: Int32, data: string)
    requires page != 1
    ensures ToIntOrNull(SubstringAfterLast(MainPageUrlFixed(page, data), "/")) == Some(page)
  {
    var path := if Contains(data, "genero") then "genero/" + SubstringBefore(SubstringAfterLast(data, "genero/"), "/") else SubstringAfterLast(data, "/");
    assert MainPageUrlFixed(page, data) == SectionPageUrl(path, page);
    SectionPageReadsBack(path, page);
  }

  /** With the genre test on the whole address, a genre listing keeps its genre path. */
  lemma GenrePageFixed(genre: string, page: Int32)
    requires page != 1 && '/' !in genre
    ensures MainPageUrlFixed(page, MainUrl + "/genero/" + genre) == SectionPageUrl("genero/" + genre, page)
  {
    var root := MainUrl + "/";
    var data := MainUrl + "/genero/" + genre;
    assert data == root + "genero/" + genre;
    assert data[|root|..|root| + 6] == "genero";
    OccursContains(data, "genero", |root|);
    AfterLastOfEnd(root, "genero/", genre);
    ContainsChar(genre, '/');
    assert SubstringBefore(genre, "/") == genre;
  }

  /** The year: the text between the last '(' and the last ')' after it, if it parses as an `Int`. */
  function Year(title: string): Option<Int32> {
    ToIntOrNull(SubstringBeforeLast(SubstringAfterLast(title, "("), ")"))
  }

  /** The title without its year: the text before the last '(', trimmed. */
  function CleanTitle(title: string): (name: string)
    ensures name == [] || (name[0] !in Whitespace && name[|name| - 1] !in Whitespace)
  {
    Trim(SubstringBeforeLast(title, "("))
  }

  /** "Name(Year)" splits back into the trimmed name and the year, whatever the name holds. */
  lemma TitleYearRoundTrip(name: string, year: Int32)
    ensures Year(name + "(" + IntToString(year) + ")") == Some(year)
    ensures CleanTitle(name + "(" + IntToString(year) + ")") == Trim(name)
  {
    var y := IntToString(year);
    var t := name + "(" + y + ")";
    IntToStringDigits(year);
    assert '(' !in y + ")";
    assert t == name + "(" + (y + ")");
    AfterLastOfEnd(name, "(", y + ")");
    assert ')' !in y;
    assert y + ")" == y + ")" + [];
    BeforeLastChar(y, ')', []);
    ParseIntToString(year);
    BeforeLastChar(name, '(', y + ")");
  }

  /** The `img` of a card: its `data-src` and `src` attributes. */
  datatype Img = Img(dataSrc: string, src: string)

  /** An `a.card` element: its `title` and `href` attributes and its first `img`. */
  datatype Card = Card(title: string, href: string, img: Option<Img>)

  datatype SearchResult = SearchResult(name: string, url: string, kind: Kind, poster: Option<string>, year: Option<Int32>)

  /** A non-empty `data-src` as it stands, else the `src` passed through `fixUrl`. */
  function CardPoster(img: Option<Img>, fixUrl: string -> string): (p: Option<string>)
    ensures p.Some? <==> img.Some?
    ensures p.Some? && img.value.dataSrc != [] ==> p.value == img.value.dataSrc
  {
    match img
    case None => None
    case Some(i) => if i.dataSrc != [] then Some(i.dataSrc) else Some(fixUrl(i.src))
  }

  /** A card becomes a result unless its title or its fixed href is empty. */
  function ToSearchResult(card: Card, fixUrl: string -> string): (r: Option<SearchResult>)
    ensures r.None? <==> card.title == [] || fixUrl(card.href) == []
    ensures r.Some? ==> r.value.url == fixUrl(card.href) && r.value.url != []
    ensures r.Some? ==> (r.value.kind == Movie <==> Contains(r.value.url, "/filme/"))
    ensures r.Some? ==> r.value.name == CleanTitle(card.title) && r.value.year == Year(card.title)
  {
    var href := fixUrl(card.href);
    if card.title == [] || href == [] then None
    else
      Some(SearchResult(
        CleanTitle(card.title),
        href,
        if Contains(href, "/filme/") then Movie else TvSeries,
        CardPoster(card.img, fixUrl),
        Year(card.title)))
  }

  /** The results of a listing page and whether it offers a next page. */
  function MainPageList(cards: seq<Card>, fixUrl: string -> string): (r: (seq<SearchResult>, bool))
    ensures r.1 <==> r.0 != []
    ensures |r.0| <= |cards|
    ensures r.0 == [] <==> forall k :: 0 <= k < |cards| ==> ToSearchResult(cards[k], fixUrl).None?
  {
    var list := MapNotNull(cards, c => ToSearchResult(c, fixUrl));
    (list, list != [])
  }

  /** Search results; an empty search is the plugin's loading error, written None. */
  function SearchResults(cards: seq<Card>, fixUrl: string -> string): (r: Option<seq<SearchResult>>)
    ensures r.Some? ==> r.value != [] && |r.value| <= |cards|
    ensures r.None? <==> forall k :: 0 <= k < |cards| ==> ToSearchResult(cards[k], fixUrl).None?
  {
    var results := MapNotNull(cards, c => ToSearchResult(c, fixUrl));
    if results == [] then None else Some(results)
  }

  const Watch: string := "Assistir"
  const Free: string := "Grátis"

  /** The title read off the `<title>` text: between "Assistir" and "Grátis", else everything before "Grátis"; trimmed. */
  function TitleFromHead(head: string): (t: string)
    ensures !Contains(t, Free)
    ensures t == [] || (t[0] !in Whitespace && t[|t| - 1] !in Whitespace)
  {
    var between := SubstringBefore(SubstringAfter(head, Watch), Free);
    TrimKeepsAbsent(between, Free);
    var t := Trim(between);
    if t == [] then
      var before := SubstringBefore(head, Free);
      TrimKeepsAbsent(before, Free);
      Trim(before)
    else t
  }

  /** A name with no whitespace at either end and no "Grátis" in it. */
  predicate CleanName(name: string) {
    name != [] && !IsWhitespace(name[0]) && !IsWhitespace(name[|name| - 1]) && !Contains(name, Free)
  }

  /** A clean name followed by a space lacks "Grátis", and so does one with a space on both sides. */
  lemma SpacedNameLacksFree(name: string)
    requires CleanName(name)
    ensures !Contains(name + " ", Free) && !Contains(" " + name + " ", Free)
  {
    assert ' ' !in Free;
    LacksAcross(name, ' ', [], Free);
    assert name + [' '] + [] == name + " ";
    LacksAcross([], ' ', name, Free);
    assert [] + [' '] + name == " " + name;
    LacksAcross(" " + name, ' ', [], Free);
    assert " " + name + [' '] + [] == " " + name + " ";
  }

  /** "Assistir <name> Grátis...": the title is the name between the two words. */
  lemma TitleBetween(name: string, rest: string)
    requires CleanName(name)
    ensures TitleFromHead(Watch + " " + name + " " + Free + rest) == name
  {
    var p := " " + name + " ";
    var head := Watch + " " + name + " " + Free + rest;
    assert head == Watch + (p + Free + rest);
    IndexOfStart(Watch, p + Free + rest);
    assert SubstringAfter(head, Watch) == p + Free + rest;
    SpacedNameLacksFree(name);
    IndexOfAfterPadded(p, Free, rest);
    assert SubstringBefore(p + Free + rest, Free) == p;
    TrimPadded(" ", name, " ");
  }

  /** "<name> Grátis..." with no "Assistir" anywhere: the title is the text before "Grátis". */
  lemma TitleWithoutWatch(name: string, rest: string)
    requires CleanName(name)
    requires !Contains(name + " " + Free + rest, Watch)
    ensures TitleFromHead(name + " " + Free + rest) == name
  {
    var p := name + " ";
    var head := name + " " + Free + rest;
    assert head == p + Free + rest;
    SpacedNameLacksFree(name);
    IndexOfAfterPadded(p, Free, rest);
    assert SubstringBefore(head, Free) == p;
    TrimPadded([], name, " ");
    assert [] + name + " " == p;
  }

  /** "<name> Grátis " holds no "Assistir" when the name holds none. */
  lemma NameFreeLacksWatch(name: string)
    requires !Contains(name, Watch)
    ensures !Contains(name + " " + Free + " ", Watch)
  {
    assert ' ' !in Watch && 'A' !in Free;
    CharBlocksContains(Free, Watch, 'A');
    LacksAcross(name, ' ', Free, Watch);
    assert name + [' '] + Free == name + " " + Free;
    LacksAcross(name + " " + Free, ' ', [], Watch);
    assert name + " " + Free + [' '] + [] == name + " " + Free + " ";
  }

  /**
   * "<name> Grátis Assistir": nothing follows "Assistir", so the text between
   * the two words is empty and the title falls back to the text before "Grátis".
   */
  lemma TitleFallback(name: string)
    requires CleanName(name) && !Contains(name, Watch)
    ensures TitleFromHead(name + " " + Free + " " + Watch) == name
  {
    var head := name + " " + Free + " " + Watch;
    var p := name + " " + Free + " ";
    assert head == p + Watch + [];
    NameFreeLacksWatch(name);
    IndexOfAfterPadded(p, Watch, []);
    assert SubstringAfter(head, Watch) == [];
    assert Trim(SubstringBefore([], Free)) == [];
    SpacedNameLacksFree(name);
    assert head == (name + " ") + Free + (" " + Watch);
    IndexOfAfterPadded(name + " ", Free, " " + Watch);
    assert SubstringBefore(head, Free) == name + " ";
    TrimPadded([], name, " ");
    assert [] + name + " " == name + " ";
  }

  /** A page with only a `<title>` "Assistir <name> Grátis" loads with that name as its title. */
  lemma LoadTitleFromHead(name: string)
    requires CleanName(name)
    ensures LoadTitle(None, Some(Watch + " " + name + " " + Free)) == Some(name)
  {
    var head := Watch + " " + name + " " + Free;
    assert head[0] == 'A' && head[|head| - 1] == 's';
    assert Trim(head) == head;
    TitleBetween(name, []);
    assert head + [] == head;
  }

  /**
   * The page title: the trimmed `.title` text when it is not empty, else the
   * one read off the `<title>` text; with neither, loading fails (None).
   */
  function LoadTitle(titleText: Option<string>, headText: Option<string>): (r: Option<string>)
    ensures titleText.Some? && Trim(titleText.value) != [] ==> r == Some(Trim(titleText.value))
    ensures r.None? <==> (titleText.None? || Trim(titleText.value) == []) && headText.None?
    ensures r.Some? && (titleText.None? || Trim(titleText.value) == []) ==> !Contains(r.value, Free)
    ensures (titleText.None? || Trim(titleText.value) == []) && headText.Some? ==> r == Some(TitleFromHead(Trim(headText.value)))
  {
    if titleText.Some? && Trim(titleText.value) != [] then Some(Trim(titleText.value))
    else
      match headText
      case None => None
      case Some(head) => Some(TitleFromHead(Trim(head)))
  }

  function Trimmed(xs: seq<string>): (r: seq<string>)
    ensures |r| == |xs| && forall k :: 0 <= k < |xs| ==> r[k] == Trim(xs[k])
  {
    seq(|xs|, k requires 0 <= k < |xs| => Trim(xs[k]))
  }

  /** The genre chips: their trimmed texts, empty ones dropped. */
  function Tags(chips: seq<string>): (tags: seq<string>)
    ensures forall t :: t in tags <==> t != [] && t in Trimmed(chips)
  {
    Filter(Trimmed(chips), t => t != [])
  }

  const AdBanner: string := "Assista sem anúncios"
  const MaxActors: nat := 15

  /** A link text that may name an actor. */
  predicate IsActorName(t: string, tags: set<string>) {
    t !in tags && !Contains(t, AdBanner) && t != [] && |t| > 2
  }

  /** The three filters over the trimmed link texts, in the plugin's order. */
  function ActorCandidates(texts: seq<string>, tags: set<string>): (r: seq<string>)
    ensures forall t :: t in r <==> t in texts && IsActorName(t, tags)
  {
    var notTag := Filter(texts, t => t !in tags);
    var notAd := Filter(notTag, t => !Contains(t, AdBanner));
    Filter(notAd, t => t != [] && |t| > 2)
  }

  /** The chip texts as a set. */
  function TagSet(chips: seq<string>): (tags: set<string>)
    ensures forall t :: t in tags <==> t in Tags(chips)
  {
    set t | t in Tags(chips)
  }

  /** The actor list: eligible link texts, first occurrences only, at most 15. */
  function Actors(chips: seq<string>, links: seq<string>): (r: seq<string>)
    ensures |r| <= MaxActors
    ensures NoDuplicates(r)
  {
    var d := Distinct(ActorCandidates(Trimmed(links), TagSet(chips)));
    var r := Take(d, MaxActors);
    assert forall i :: 0 <= i < |r| ==> r[i] == d[i];
    r
  }

  /** Every actor is a link text that is no tag, no advert and longer than two characters. */
  lemma ActorsAreEligible(chips: seq<string>, links: seq<string>)
    ensures forall a :: a in Actors(chips, links) ==> a in Trimmed(links) && IsActorName(a, TagSet(chips))
  {
    var c := ActorCandidates(Trimmed(links), TagSet(chips));
    var d := Distinct(c);
    var r := Actors(chips, links);
    assert r <= d;
    forall a | a in r
      ensures a in c
    {
      var i :| 0 <= i < |r| && r[i] == a;
      assert d[i] == a;
    }
  }

  /** Every eligible link text is an actor, unless the list is already full. */
  lemma ActorsComplete(chips: seq<string>, links: seq<string>)
    ensures var r := Actors(chips, links);
      forall a :: a in Trimmed(links) && IsActorName(a, TagSet(chips)) ==> a in r || |r| == MaxActors
  {
    var c := ActorCandidates(Trimmed(links), TagSet(chips));
    var d := Distinct(c);
    var r := Actors(chips, links);
    if |d| <= MaxActors {
      assert r == d;
    }
  }

  /** Two texts kept by `Filter` keep their order of first occurrence. */
  lemma FilterOrder(s: seq<string>, p: string -> bool, x: string, y: string)
    requires x in Filter(s, p) && y in Filter(s, p)
    requires FirstIndex(Filter(s, p), x) < FirstIndex(Filter(s, p), y)
    ensures x in s && y in s && FirstIndex(s, x) < FirstIndex(s, y)
  {
    FilterKeepsOrder(s, p, x, y);
  }

  /** The actors come in the order in which they first appear among the links. */
  lemma ActorsInPageOrder(chips: seq<string>, links: seq<string>)
    ensures var r := Actors(chips, links);
      forall i, j :: 0 <= i < j < |r| ==> FirstIndex(Trimmed(links), r[i]) < FirstIndex(Trimmed(links), r[j])
  {
    var texts := Trimmed(links);
    var tags := TagSet(chips);
    var notTag := Filter(texts, t => t !in tags);
    var notAd := Filter(notTag, t => !Contains(t, AdBanner));
    var c := Filter(notAd, t => t != [] && |t| > 2);
    assert c == ActorCandidates(texts, tags);
    var d := Distinct(c);
    var r := Actors(chips, links);
    assert forall i :: 0 <= i < |r| ==> r[i] == d[i];
    forall i, j | 0 <= i < j < |r|
      ensures FirstIndex(texts, r[i]) < FirstIndex(texts, r[j])
    {
      assert FirstIndex(c, d[i]) < FirstIndex(c, d[j]);
      FilterOrder(notAd, t => t != [] && |t| > 2, d[i], d[j]);
      FilterOrder(notTag, t => !Contains(t, AdBanner), d[i], d[j]);
      FilterOrder(texts, t => t !in tags, d[i], d[j]);
    }
  }

  datatype Episode = Episode(name: string, season: int, episode: int, data: string)

  /** One entry per season tab: its trimmed text, season index + 1, episode 1, the page itself as data. */
  function Seasons(tabs: seq<string>, url: string): (r: seq<Episode>)
    ensures |r| == |tabs|
    ensures forall k :: 0 <= k < |r| ==> r[k] == Episode(Trim(tabs[k]), k + 1, 1, url)
  {
    seq(|tabs|, k requires 0 <= k < |tabs| => Episode(Trim(tabs[k]), k + 1, 1, url))
  }

  /** The seasons are numbered 1, 2, ..., n in tab order, each exactly once. */
  lemma SeasonsNumbered(tabs: seq<string>, url: string)
    ensures var r := Seasons(tabs, url);
      && (forall i, j :: 0 <= i < j < |r| ==> r[i].season < r[j].season)
      && (forall k :: 0 <= k < |r| ==> 1 <= r[k].season <= |tabs|)
  {
  }

  /** The elements a detail page is read from. */
  datatype DetailPage = DetailPage(
    titleText: Option<string>,     // .title
    headText: Option<string>,      // title
    posterImgSrc: Option<string>,  // .poster img, its src
    posterSrc: Option<string>,     // .poster, its src
    synopsis: Option<string>,      // .syn
    chips: seq<string>,            // a.chip
    links: seq<string>,            // div a
    playerSrc: Option<string>,     // iframe#player, its src
    buttonDataUrl: Option<string>, // button[data-url], its data-url
    seasonTabs: seq<string>)       // div#season-tabs button

  datatype Details = Details(poster: Option<string>, plot: string, tags: seq<string>, year: Option<Int32>, actors: seq<string>)

  datatype LoadResponse =
    | MovieLoad(title: string, url: string, embedUrl: Option<string>, details: Details)
    | SeriesLoad(title: string, url: string, episodes: seq<Episode>, details: Details)

  const NoSynopsis: string := "Sinopse não encontrada."

  /** The detail page of `url`; None when it has no title at all. */
  function Load(url: string, page: DetailPage, fixUrl: string -> string): (r: Option<LoadResponse>)
    ensures r.None? <==> LoadTitle(page.titleText, page.headText).None?
    ensures r.Some? ==> r.value.url == url && r.value.title == LoadTitle(page.titleText, page.headText).value
    ensures r.Some? ==> (r.value.MovieLoad? <==> Contains(url, "/filme/"))
    ensures r.Some? && r.value.MovieLoad? ==> r.value.embedUrl == GetFembedUrl(page.playerSrc, page.buttonDataUrl)
    ensures r.Some? && r.value.SeriesLoad? ==> r.value.episodes == Seasons(page.seasonTabs, url)
    ensures r.Some? ==> r.value.details.year == Year(r.value.title)
    ensures r.Some? ==> r.value.details.actors == Actors(page.chips, page.links)
  {
    match LoadTitle(page.titleText, page.headText)
    case None => None
    case Some(title) =>
      var poster :=
        if page.posterImgSrc.Some? then Some(fixUrl(page.posterImgSrc.value))
        else if page.posterSrc.Some? then Some(fixUrl(page.posterSrc.value))
        else None;
      var plot := if page.synopsis.Some? then Trim(page.synopsis.value) else NoSynopsis;
      var details := Details(poster, plot, Tags(page.chips), Year(title), Actors(page.chips, page.links));
      if Contains(url, "/filme/") then Some(MovieLoad(title, url, GetFembedUrl(page.playerSrc, page.buttonDataUrl), details))
      else Some(SeriesLoad(title, url, Seasons(page.seasonTabs, url), details))
  }
}
