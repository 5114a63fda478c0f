# SuperFlix / UltraCine streaming plugins: a Dafny model

This project models the page logic of two CloudStream provider plugins for
the site superflix21.lol and of the Filemoon/Fembed extractor they hand
their embed addresses to.

- **Filemoon extractor** (`filemoon.dfy`). It covers which embed URLs the
  extractor claims and how it pulls the video ID out of a URL: three
  patterns in priority order, then a last-segment fallback. It covers the
  rewrite of `fembed.sx` links to `https://filemoon.in/e/<id>` and the
  request headers. It covers the one or two requests that `getUrl` makes
  (the player page, then its iframe) and which HLS (`.m3u8`) stream it
  hands to the host's M3U8 helper, with which referer.
- **SuperFlix provider** (`superflix.dfy`). It covers the listing-page
  URLs and the search cards: title, year, poster and kind. On the detail
  page it covers the title fallback to `<title>`, the tags, the actor list
  and the seasons. It also covers the choice of a movie's Fembed embed
  address.
- **SuperFlix21 provider of the UltraCine plugin** (`ultracine.dfy`,
  `jsonld.dfy`). It covers the listing URLs and search cards. For the
  detail page it covers the JSON-LD reader, the TMDB ID, the Fembed
  address and the poster upgrade. It covers the episode list of a series,
  built by a nested loop. It also covers the address handling of
  `loadLinks`.

Shared modules:

- `text.dfy` holds the Kotlin string functions the plugins use:
  `indexOf`, `substringBefore/After(Last)`, `trim`, `split`, `replace`.
- `numbers.dfy` holds `toIntOrNull` and `Int` rendering, over a 32-bit
  `Int32`.
- `lists.dfy` holds `filter`, `distinct`, `take`, `mapNotNull` and
  first-hit search.
- `regex.dfy` holds every simple regular expression of the plugins,
  written out as a scanner with java.util.regex `find` semantics: the
  leftmost start wins, and a group is greedy with backtracking where the
  pattern needs it.

Pure logic is modelled as functions. The loops of the source are methods
proved equal to a specification function:

- `extractVideoId`, `extractM3u8Url`, `extractTmdbIdFromHtml` and
  `extractJsonLdData`;
- the nested episode loop, which appends to a mutable list;
- the request sequence of `getUrl`.

The outside world is made into parameters:

- HTTP is `fetch`. It returns None for a failed or unsuccessful response.
- The host's `fixUrl` is `fixUrl`.
- Each of the two `<iframe[^>]+src=...>` searches is a `findIframe`
  parameter that returns the first capture or None.
- Jsoup's selections are inputs: `selectFirst(...)` is an `Option` and
  `select(...)` a `seq`.

The code differs from the general description of the system in two places,
and the model follows the code:

- A failed iframe request in `getUrl` ends the attempt. The page's own
  `.m3u8` is not tried (FilemoonExtractor.kt:94-97).
- SuperFlix's `search` throws on an empty result instead of returning an
  empty list (SuperFlix.kt:115-118).

## Model

| member | source | states |
|---|---|---|
| Filemoon.IsUrlSupported | SuperFlix/src/main/kotlin/com/SuperFlix/FilemoonExtractor.kt:22-26 | the extractor claims a URL exactly when it contains "filemoon.", "fembed." or "ico3c." |
| Filemoon.VideoId | SuperFlix/src/main/kotlin/com/SuperFlix/FilemoonExtractor.kt:163-187 | the video ID is the first pattern capture, else the fallback, and in either case it is a piece of the URL |
| Filemoon.FirstCaptureIsFirst | SuperFlix/src/main/kotlin/com/SuperFlix/FilemoonExtractor.kt:173-181 | a pattern that matches decides the capture, whatever the patterns after it would give, provided no earlier pattern matches |
| Filemoon.FallbackId | SuperFlix/src/main/kotlin/com/SuperFlix/FilemoonExtractor.kt:184-186 | the fallback ID holds no '/', '?' or '-' and occurs in the URL |
| Filemoon.ExtractVideoId | SuperFlix/src/main/kotlin/com/SuperFlix/FilemoonExtractor.kt:163-187 | the loop returns the capture of the first of `/e/(\d+)`, `/v/([a-zA-Z0-9]+)`, `embed/([a-zA-Z0-9]+)` that matches, else the fallback ID |
| Filemoon.IdFromEmbedPath | SuperFlix/src/main/kotlin/com/SuperFlix/FilemoonExtractor.kt:168-179 | when `/e/(\d+)` matches, the ID is its capture: non-empty digits that follow "/e/" in the URL |
| Filemoon.EmbedPathCapture | SuperFlix/src/main/kotlin/com/SuperFlix/FilemoonExtractor.kt:168 | the `/e/(\d+)` capture is non-empty, all digits, and follows "/e/" in the URL |
| Filemoon.IdFromFallback | SuperFlix/src/main/kotlin/com/SuperFlix/FilemoonExtractor.kt:183-186 | when no pattern matches, the ID is the fallback and holds no '/', '?' or '-' |
| Filemoon.ProcessedUrl | SuperFlix/src/main/kotlin/com/SuperFlix/FilemoonExtractor.kt:49-53 | a URL containing "fembed.sx" becomes "https://filemoon.in/e/" followed by the ID; any other URL is kept |
| Filemoon.RewriteStaysSupported | SuperFlix/src/main/kotlin/com/SuperFlix/FilemoonExtractor.kt:22-53 | a URL the extractor claims is still claimed after the rewrite |
| Filemoon.RewriteKeepsId | SuperFlix/src/main/kotlin/com/SuperFlix/FilemoonExtractor.kt:163-181 | the ID extracted from a rewritten address is the digit ID it was built from |
| Filemoon.NoEarlierEmbedPath | SuperFlix/src/main/kotlin/com/SuperFlix/FilemoonExtractor.kt:50 | in a rewritten address, "/e/" occurs at no index before the one that precedes the ID |
| Filemoon.EmbedUrlMatch | SuperFlix/src/main/kotlin/com/SuperFlix/FilemoonExtractor.kt:168 | `/e/(\d+)` on a rewritten address captures exactly its digit ID |
| Filemoon.FixIframeUrl | SuperFlix/src/main/kotlin/com/SuperFlix/FilemoonExtractor.kt:84-87 | an iframe src that does not start with "http" gets "https:" in front; one that does is kept as it is |
| Filemoon.FixIframeIdempotent | SuperFlix/src/main/kotlin/com/SuperFlix/FilemoonExtractor.kt:84-87 | fixing an iframe address twice gives the same address as fixing it once |
| Filemoon.FixProtocolRelative | SuperFlix/src/main/kotlin/com/SuperFlix/FilemoonExtractor.kt:84-87 | a protocol-relative src "//host/path" becomes "https://host/path" |
| Filemoon.M3u8Among | SuperFlix/src/main/kotlin/com/SuperFlix/FilemoonExtractor.kt:201-218 | a URL the pattern scan returns contains ".m3u8" |
| Filemoon.ExtractedM3u8 | SuperFlix/src/main/kotlin/com/SuperFlix/FilemoonExtractor.kt:189-219 | a URL found with the five patterns contains ".m3u8" |
| Filemoon.ExtractM3u8Url | SuperFlix/src/main/kotlin/com/SuperFlix/FilemoonExtractor.kt:189-219 | the nested loop over the patterns and their matches returns the specification's URL |
| Filemoon.FirstMatchSuffices | SuperFlix/src/main/kotlin/com/SuperFlix/FilemoonExtractor.kt:203-212 | for an m3u8 pattern, the first match whose group contains ".m3u8" is the pattern's first match |
| Filemoon.M3u8AmongIsFirstCapture | SuperFlix/src/main/kotlin/com/SuperFlix/FilemoonExtractor.kt:201-218 | the scan returns the group of the first pattern that matches at all |
| Filemoon.M3u8PatternsAreM3u8 | SuperFlix/src/main/kotlin/com/SuperFlix/FilemoonExtractor.kt:193-199 | each of the five patterns only matches a group that contains ".m3u8" |
| Filemoon.M3u8AmongPriority | SuperFlix/src/main/kotlin/com/SuperFlix/FilemoonExtractor.kt:201-212 | a pattern that matches, with no earlier pattern matching, decides the URL |
| Filemoon.M3u8AmongNoneIff | SuperFlix/src/main/kotlin/com/SuperFlix/FilemoonExtractor.kt:201-218 | the scan returns null exactly when no pattern matches |
| Filemoon.GetHeaders | SuperFlix/src/main/kotlin/com/SuperFlix/FilemoonExtractor.kt:221-240 | the nine headers are present; Origin is https://fembed.sx; Referer is the referer given, else https://fembed.sx/ |
| Filemoon.HeadersDifferOnlyInReferer | SuperFlix/src/main/kotlin/com/SuperFlix/FilemoonExtractor.kt:222-232 | any two header maps agree on every header but Referer; the URL argument changes nothing |
| Filemoon.PageStream | SuperFlix/src/main/kotlin/com/SuperFlix/FilemoonExtractor.kt:136-149 | a page yields a stream exactly when it holds an m3u8 URL; the stream carries the given referer and headers built for it |
| Filemoon.FromPage | SuperFlix/src/main/kotlin/com/SuperFlix/FilemoonExtractor.kt:75-150 | after the page, at most one more request; a stream is an m3u8 request whose referer is the page or the iframe requested |
| Filemoon.GetUrlOutcome | SuperFlix/src/main/kotlin/com/SuperFlix/FilemoonExtractor.kt:28-161 | no request is made exactly when the ID is empty; at most two requests, the first being the rewritten page with the caller's referer; a stream is an m3u8 request whose referer is a requested page |
| Filemoon.IframeStreamFirst | SuperFlix/src/main/kotlin/com/SuperFlix/FilemoonExtractor.kt:79-126 | an iframe whose page holds an m3u8 URL gives that stream, with the iframe as referer, after exactly two requests |
| Filemoon.IframeFailureEndsAttempt | SuperFlix/src/main/kotlin/com/SuperFlix/FilemoonExtractor.kt:94-97 | when the iframe request fails no stream is produced, even if the page itself holds one |
| Filemoon.NoIframeUsesPage | SuperFlix/src/main/kotlin/com/SuperFlix/FilemoonExtractor.kt:130-150 | without an iframe, one request is made and the stream is the page's own, with the page as referer |
| Filemoon.GetUrl | SuperFlix/src/main/kotlin/com/SuperFlix/FilemoonExtractor.kt:28-161 | the step-by-step procedure makes the requests and returns the stream that the specification gives |
| Filemoon.FollowPage | SuperFlix/src/main/kotlin/com/SuperFlix/FilemoonExtractor.kt:75-154 | from a loaded page, the procedure matches the specification of the iframe-then-page search |
| Filemoon.StreamOf | SuperFlix/src/main/kotlin/com/SuperFlix/FilemoonExtractor.kt:136-149 | the direct m3u8 attempt returns the page's stream as specified |
| SuperFlix.GetFembedUrl | SuperFlix/src/main/kotlin/com/SuperFlix/SuperFlix.kt:30-40 | an address exactly when the player iframe or the data-url button has a non-empty Fembed one; the iframe wins; the result is one of the two |
| SuperFlix.SectionPageUrl | SuperFlix/src/main/kotlin/com/SuperFlix/SuperFlix.kt:60-62 | a section page address lies under the site's main URL |
| SuperFlix.MainPageUrl | SuperFlix/src/main/kotlin/com/SuperFlix/SuperFlix.kt:54-64 | page 1 is the section address itself; later pages lie under the main URL (the path is stated by SectionListing and GenreListing) |
| SuperFlix.SectionListing | SuperFlix/src/main/kotlin/com/SuperFlix/SuperFlix.kt:56-62 | past page 1, a section address ending in a segment `t` without "genero" pages to `MainUrl/<t>/page/<n>` |
| SuperFlix.GenreListing | SuperFlix/src/main/kotlin/com/SuperFlix/SuperFlix.kt:56-62 | past page 1, an address ending in "genero/<g>" whose last segment holds "genero" pages to `MainUrl/genero/<g>/page/<n>` |
| SuperFlix.IntTextHasNoSlash | SuperFlix/src/main/kotlin/com/SuperFlix/SuperFlix.kt:60-62 | a rendered page number holds no '/' |
| SuperFlix.SectionPageReadsBack | SuperFlix/src/main/kotlin/com/SuperFlix/SuperFlix.kt:60-62 | the last path segment of a section page address parses back to the page number |
| SuperFlix.PageNumberReadsBack | SuperFlix/src/main/kotlin/com/SuperFlix/SuperFlix.kt:54-64 | for every page after the first, the listing address ends with the page number |
| SuperFlix.GenrePageAsWritten | SuperFlix/src/main/kotlin/com/SuperFlix/SuperFlix.kt:56-63 | the address of a genre listing `.../genero/<g>` drops the "genero/" part, because the test looks at the last segment only |
| SuperFlix.MainPageUrlFixed | SuperFlix/src/main/kotlin/com/SuperFlix/SuperFlix.kt:54-64 | the corrected listing address: page 1 is the section itself, later pages lie under the main URL |
| SuperFlix.PageNumberReadsBackFixed | SuperFlix/src/main/kotlin/com/SuperFlix/SuperFlix.kt:54-64 | with the corrected test, every page after the first still ends with the page number |
| SuperFlix.GenrePageFixed | SuperFlix/src/main/kotlin/com/SuperFlix/SuperFlix.kt:58-60 | with the corrected test, a genre listing pages to `/genero/<g>/page/N` |
| SuperFlix.Year | SuperFlix/src/main/kotlin/com/SuperFlix/SuperFlix.kt:91 | the year is the text between the last "(" and the last ")" after it, parsed as an `Int` |
| SuperFlix.CleanTitle | SuperFlix/src/main/kotlin/com/SuperFlix/SuperFlix.kt:92 | the display name is the text before the last "(", with no whitespace at either end |
| SuperFlix.TitleYearRoundTrip | SuperFlix/src/main/kotlin/com/SuperFlix/SuperFlix.kt:91-92 | a card title "name(year)" gives back the year and the trimmed name, whatever the name holds |
| SuperFlix.CardPoster | SuperFlix/src/main/kotlin/com/SuperFlix/SuperFlix.kt:86-89 | a card with an image has a poster, the non-empty data-src taken as is when there is one |
| SuperFlix.ToSearchResult | SuperFlix/src/main/kotlin/com/SuperFlix/SuperFlix.kt:78-100 | no result exactly when the title or the fixed link is empty; otherwise the fixed link, a Movie exactly when it contains "/filme/", the clean title and the year |
| SuperFlix.MainPageList | SuperFlix/src/main/kotlin/com/SuperFlix/SuperFlix.kt:70-74 | "has next" is set exactly when the list is non-empty, and the list is empty exactly when no card converts |
| SuperFlix.SearchResults | SuperFlix/src/main/kotlin/com/SuperFlix/SuperFlix.kt:103-121 | the search fails exactly when no card converts; otherwise a non-empty list, no longer than the cards |
| SuperFlix.TitleFromHead | SuperFlix/src/main/kotlin/com/SuperFlix/SuperFlix.kt:135-139 | the title cut out of the `<title>` text holds no "Grátis" and has no whitespace at either end |
| SuperFlix.TitleBetween | SuperFlix/src/main/kotlin/com/SuperFlix/SuperFlix.kt:135-139 | "Assistir <name> Grátis..." gives the name between the two words |
| SuperFlix.TitleWithoutWatch | SuperFlix/src/main/kotlin/com/SuperFlix/SuperFlix.kt:135-139 | with no "Assistir" in the text, "<name> Grátis..." gives the text before "Grátis", trimmed |
| SuperFlix.TitleFallback | SuperFlix/src/main/kotlin/com/SuperFlix/SuperFlix.kt:135-139 | when nothing stands between "Assistir" and "Grátis", the title falls back to the trimmed text before "Grátis" |
| SuperFlix.LoadTitle | SuperFlix/src/main/kotlin/com/SuperFlix/SuperFlix.kt:131-142 | a non-empty `.title` text wins, trimmed; otherwise the title is the one read off the trimmed `<title>` text; load fails exactly when neither exists |
| SuperFlix.LoadTitleFromHead | SuperFlix/src/main/kotlin/com/SuperFlix/SuperFlix.kt:131-142 | a page with only the `<title>` "Assistir <name> Grátis" loads with the title `name` |
| SuperFlix.Trimmed | SuperFlix/src/main/kotlin/com/SuperFlix/SuperFlix.kt:152-155 | each text is trimmed, in place |
| SuperFlix.Tags | SuperFlix/src/main/kotlin/com/SuperFlix/SuperFlix.kt:152 | the tags are exactly the non-empty trimmed chip texts |
| SuperFlix.IsActorName | SuperFlix/src/main/kotlin/com/SuperFlix/SuperFlix.kt:159-161 | a link text may name an actor when it is no chip text, does not hold the advert banner, and is longer than two characters |
| SuperFlix.ActorCandidates | SuperFlix/src/main/kotlin/com/SuperFlix/SuperFlix.kt:158-161 | a text survives the three filters exactly when it is no tag, not the ad banner and longer than two characters |
| SuperFlix.TagSet | SuperFlix/src/main/kotlin/com/SuperFlix/SuperFlix.kt:156 | the set holds exactly the tags |
| SuperFlix.Actors | SuperFlix/src/main/kotlin/com/SuperFlix/SuperFlix.kt:155-164 | at most 15 actors and no duplicates |
| SuperFlix.ActorsAreEligible | SuperFlix/src/main/kotlin/com/SuperFlix/SuperFlix.kt:155-161 | every actor is a trimmed link text that passes the three filters |
| SuperFlix.ActorsComplete | SuperFlix/src/main/kotlin/com/SuperFlix/SuperFlix.kt:158-163 | every eligible link text is listed unless the list is full |
| SuperFlix.FilterOrder | SuperFlix/src/main/kotlin/com/SuperFlix/SuperFlix.kt:159-161 | filtering keeps the order of first occurrences |
| SuperFlix.ActorsInPageOrder | SuperFlix/src/main/kotlin/com/SuperFlix/SuperFlix.kt:158-164 | the actors appear in the order of their first link on the page |
| SuperFlix.Seasons | SuperFlix/src/main/kotlin/com/SuperFlix/SuperFlix.kt:181-189 | one entry per season tab, named by the trimmed tab text, season index+1, episode 1, data the page URL |
| SuperFlix.SeasonsNumbered | SuperFlix/src/main/kotlin/com/SuperFlix/SuperFlix.kt:181-189 | season numbers strictly increase and run from 1 to the number of tabs |
| SuperFlix.Load | SuperFlix/src/main/kotlin/com/SuperFlix/SuperFlix.kt:124-198 | load fails exactly when no title is found; a movie exactly when the URL contains "/filme/"; the movie's embed address, the series' seasons, the year from the title and the actor list as specified |
| UltraCine.MainPageUrl | UltraCine/src/main/kotlin/com/UltraCine/UltraCine.kt:31-32 | page 1 or less is the section address; later pages append "?page=N" |
| UltraCine.PageNumberReadsBack | UltraCine/src/main/kotlin/com/UltraCine/UltraCine.kt:32 | the text after the last '=' parses back to the page number |
| UltraCine.YearGroupShift | UltraCine/src/main/kotlin/com/UltraCine/UltraCine.kt:56 | a `(dddd)` group of a suffix is one of the whole title, shifted |
| UltraCine.RemoveYears | UltraCine/src/main/kotlin/com/UltraCine/UltraCine.kt:56 | removing the `(dddd)` groups never lengthens the title (what is removed is stated by RemoveYearsGroup and NoYearsUnchanged) |
| UltraCine.RemoveYearsGroup | UltraCine/src/main/kotlin/com/UltraCine/UltraCine.kt:56 | a `(dddd)` group after a year-free part is removed, and removal continues after it |
| UltraCine.RemoveYearsFrom | UltraCine/src/main/kotlin/com/UltraCine/UltraCine.kt:56 | a prefix without a group start is kept unchanged and the rest is processed on its own |
| UltraCine.NoYearsUnchanged | UltraCine/src/main/kotlin/com/UltraCine/UltraCine.kt:56 | a title without a `(dddd)` group is left as it is |
| UltraCine.NoYearBeforeGroup | UltraCine/src/main/kotlin/com/UltraCine/UltraCine.kt:56 | in "a(yyyy)b" with `a` year-free, no year group starts inside `a` |
| UltraCine.NoYearBeforeSuffix | UltraCine/src/main/kotlin/com/UltraCine/UltraCine.kt:50-56 | appending "(yyyy)" to a name without groups creates no group that starts inside the name |
| UltraCine.FourDigitText | UltraCine/src/main/kotlin/com/UltraCine/UltraCine.kt:50 | four digits parse to their value |
| UltraCine.YearGroupFound | UltraCine/src/main/kotlin/com/UltraCine/UltraCine.kt:50 | the group of `\((\d{4})\)` is four digits |
| UltraCine.TitleYear | UltraCine/src/main/kotlin/com/UltraCine/UltraCine.kt:50 | the title gives a year exactly when it holds a `(dddd)` group |
| UltraCine.TitleYearRoundTrip | UltraCine/src/main/kotlin/com/UltraCine/UltraCine.kt:50-56 | "name(yyyy)" gives back the year, and removing the group gives back the name |
| UltraCine.CardPoster | UltraCine/src/main/kotlin/com/UltraCine/UltraCine.kt:46-48 | a poster exactly when the image src is present and not blank, and then it is the fixed src |
| UltraCine.CardYear | UltraCine/src/main/kotlin/com/UltraCine/UltraCine.kt:50-51 | the title's year first, else the year element parsed, else none |
| UltraCine.ToSearchResult | UltraCine/src/main/kotlin/com/UltraCine/UltraCine.kt:42-70 | no result exactly when the title or link is missing; otherwise the fixed link, a series exactly when the link contains "/serie/", the title without year groups, trimmed, and the poster and year as specified |
| UltraCine.CardTitleRoundTrip | UltraCine/src/main/kotlin/com/UltraCine/UltraCine.kt:50-56 | a card titled "name(yyyy)" is listed as the trimmed name with that year |
| UltraCine.CardResults | UltraCine/src/main/kotlin/com/UltraCine/UltraCine.kt:72-77 | every card with a title and a link is listed, and every listed result comes from a card |
| UltraCine.AcceptedMatch | UltraCine/src/main/kotlin/com/UltraCine/UltraCine.kt:245-248 | a pattern's first group is taken exactly when it is not blank and 4 to 10 characters long |
| UltraCine.AcceptableId | UltraCine/src/main/kotlin/com/UltraCine/UltraCine.kt:247 | an ID is taken when it is not blank and has 4 to 10 characters |
| UltraCine.TmdbIdFromHtml | UltraCine/src/main/kotlin/com/UltraCine/UltraCine.kt:235-253 | the ID is the first acceptable first-match group over the four patterns, in order |
| UltraCine.ExtractTmdbIdFromHtml | UltraCine/src/main/kotlin/com/UltraCine/UltraCine.kt:235-253 | the loop returns the first acceptable ID over the four patterns in order, as specified |
| UltraCine.TmdbPatternsCaptureDigits | UltraCine/src/main/kotlin/com/UltraCine/UltraCine.kt:237-242 | each of the four patterns captures a run of digits |
| UltraCine.AcceptedDigits | UltraCine/src/main/kotlin/com/UltraCine/UltraCine.kt:244-250 | an ID accepted from digit patterns is 4 to 10 digits |
| UltraCine.TmdbIdIsDigits | UltraCine/src/main/kotlin/com/UltraCine/UltraCine.kt:235-253 | a TMDB ID found in the HTML is 4 to 10 digits |
| UltraCine.TmdbPatternPriority | UltraCine/src/main/kotlin/com/UltraCine/UltraCine.kt:244-250 | the first pattern with an acceptable group decides the ID |
| UltraCine.SlugId | UltraCine/src/main/kotlin/com/UltraCine/UltraCine.kt:110 | the ID from the URL is the number after the last '-', rendered back as text |
| UltraCine.SlugRoundTrip | UltraCine/src/main/kotlin/com/UltraCine/UltraCine.kt:110 | an address "base-N" gives the ID N |
| UltraCine.TmdbId | UltraCine/src/main/kotlin/com/UltraCine/UltraCine.kt:109-111 | the JSON-LD ID first, then the URL's number, then the ID found in the HTML |
| UltraCine.FembedUrl | UltraCine/src/main/kotlin/com/UltraCine/UltraCine.kt:114-119 | with an ID, "https://fembed.sx/e/" followed by it; without one, the page's Fembed iframe |
| UltraCine.Poster | UltraCine/src/main/kotlin/com/UltraCine/UltraCine.kt:90-91 | the JSON-LD image with "/w500/" upgraded to "/original/", else the fixed og:image, else none |
| UltraCine.PosterUpgrade | UltraCine/src/main/kotlin/com/UltraCine/UltraCine.kt:90 | a TMDB address ".../w500/file" becomes ".../original/file" |
| UltraCine.DirectorCredit | UltraCine/src/main/kotlin/com/UltraCine/UltraCine.kt:103 | a director credit exactly when the list is non-empty: its first name labelled "Diretor" |
| UltraCine.Cast | UltraCine/src/main/kotlin/com/UltraCine/UltraCine.kt:99-100 | the JSON-LD actors, each without image, else the page's cast links |
| UltraCine.DetailsOf | UltraCine/src/main/kotlin/com/UltraCine/UltraCine.kt:86-106 | each detail is taken from the JSON-LD first and from the page second, as the source orders them |
| UltraCine.IsSerie | UltraCine/src/main/kotlin/com/UltraCine/UltraCine.kt:122 | a page is a series when its URL has "/serie/" or its JSON-LD declares a TVSeries |
| UltraCine.Load | UltraCine/src/main/kotlin/com/UltraCine/UltraCine.kt:78-147 | load reads the JSON-LD of the page first and then proceeds as LoadWith states |
| UltraCine.LoadWith | UltraCine/src/main/kotlin/com/UltraCine/UltraCine.kt:79-147 | load fails exactly when there is no title; a series exactly when the URL has "/serie/" or the JSON-LD says TVSeries; the movie's data URL and the series' episodes as specified |
| UltraCine.MovieFromSlug | UltraCine/src/main/kotlin/com/UltraCine/UltraCine.kt:109-137 | without a JSON-LD ID, a movie at "base-N" plays Fembed title N |
| UltraCine.EpisodeName | UltraCine/src/main/kotlin/com/UltraCine/UltraCine.kt:264 | the episode name is its title text, else "Episódio " and its position from 1 |
| UltraCine.EpisodeNumber | UltraCine/src/main/kotlin/com/UltraCine/UltraCine.kt:265 | the parsed number text, else the position from 1 |
| UltraCine.FembedEpisodeUrl | UltraCine/src/main/kotlin/com/UltraCine/UltraCine.kt:270 | a built episode address starts with "https://fembed.sx/e/" |
| UltraCine.FembedPrefixFacts | UltraCine/src/main/kotlin/com/UltraCine/UltraCine.kt:270-275 | a built Fembed address contains "fembed.sx" and is not blank |
| UltraCine.FinalUrl | UltraCine/src/main/kotlin/com/UltraCine/UltraCine.kt:269-274 | the Fembed episode address when there is an ID and no link, else the link through `fixUrl` |
| UltraCine.EpisodeUrl | UltraCine/src/main/kotlin/com/UltraCine/UltraCine.kt:268-275 | an episode is kept only with an address that is not blank |
| UltraCine.EpisodeUrlIsFinalUrl | UltraCine/src/main/kotlin/com/UltraCine/UltraCine.kt:268-275 | the address is the built Fembed one when there is an ID and the link is blank, else the fixed link, and a blank one drops the episode |
| UltraCine.CardEpisode | UltraCine/src/main/kotlin/com/UltraCine/UltraCine.kt:262-283 | an episode element is added exactly when its address is kept, and then in its own season |
| UltraCine.MakerMakes | UltraCine/src/main/kotlin/com/UltraCine/UltraCine.kt:262-283 | the loop body applied to one element is the per-element episode |
| UltraCine.MakerWithin | UltraCine/src/main/kotlin/com/UltraCine/UltraCine.kt:260-283 | the loop body only makes episodes of its own season with an address that is not blank |
| UltraCine.WithinAppendOne | UltraCine/src/main/kotlin/com/UltraCine/UltraCine.kt:275-283 | adding an episode of the season keeps the season's list within it |
| UltraCine.SeasonEpisodes | UltraCine/src/main/kotlin/com/UltraCine/UltraCine.kt:262-284 | the episodes of one season are at most as many as its elements |
| UltraCine.Episodes | UltraCine/src/main/kotlin/com/UltraCine/UltraCine.kt:255-288 | the episode list is the seasons' episodes, season by season, seasons numbered from 1 |
| UltraCine.SeasonEpisodesFacts | UltraCine/src/main/kotlin/com/UltraCine/UltraCine.kt:262-284 | a season yields at most one episode per element, all of that season, none with a blank address |
| UltraCine.AppendSeason | UltraCine/src/main/kotlin/com/UltraCine/UltraCine.kt:259-285 | appending season m to ordered seasons 1..m-1 gives ordered seasons 1..m |
| UltraCine.EpisodesNumbered | UltraCine/src/main/kotlin/com/UltraCine/UltraCine.kt:255-288 | every episode's season lies between 1 and the number of seasons, its address is not blank, and seasons never go down |
| UltraCine.ExtractEpisodes | UltraCine/src/main/kotlin/com/UltraCine/UltraCine.kt:255-288 | the nested loop builds the specified episode list |
| UltraCine.EpisodesStep | UltraCine/src/main/kotlin/com/UltraCine/UltraCine.kt:259-285 | one pass of the outer loop appends the season's episodes |
| UltraCine.AddSeasonEpisodes | UltraCine/src/main/kotlin/com/UltraCine/UltraCine.kt:262-284 | the inner loop appends exactly the season's episodes to the list |
| UltraCine.SeasonStep | UltraCine/src/main/kotlin/com/UltraCine/UltraCine.kt:262-284 | one pass of the inner loop adds the element's episode when it has one |
| UltraCine.EmptyCardEpisode | UltraCine/src/main/kotlin/com/UltraCine/UltraCine.kt:263-270 | an element with no title, link or number, on a page with an ID, becomes "Episódio i" at the built Fembed address "?ep=i" |
| UltraCine.SynthesizedEpisodes | UltraCine/src/main/kotlin/com/UltraCine/UltraCine.kt:262-284 | the made-up episodes of a season of n elements are n |
| UltraCine.SynthesizedEpisodesAt | UltraCine/src/main/kotlin/com/UltraCine/UltraCine.kt:263-270 | the k-th made-up episode is number k+1 |
| UltraCine.SynthesizedSeason | UltraCine/src/main/kotlin/com/UltraCine/UltraCine.kt:262-284 | a season of empty elements, with an ID, lists episodes 1..n at their built addresses |
| UltraCine.CleanFembedUrl | UltraCine/src/main/kotlin/com/UltraCine/UltraCine.kt:301 | the address starts with "http": unchanged if it did, else with "https://" in front |
| UltraCine.CleanFembedIdempotent | UltraCine/src/main/kotlin/com/UltraCine/UltraCine.kt:301 | cleaning twice is cleaning once |
| UltraCine.PageAddress | UltraCine/src/main/kotlin/com/UltraCine/UltraCine.kt:307 | a path starting with '/' is put under the main URL; anything else is kept |
| UltraCine.FromLinkPage | UltraCine/src/main/kotlin/com/UltraCine/UltraCine.kt:311-327 | a Fembed embed URL in the page wins, else the Fembed iframe; the page is the referer |
| UltraCine.LoadLinks | UltraCine/src/main/kotlin/com/UltraCine/UltraCine.kt:290-334 | blank data does nothing; a fembed.sx address goes to the extractor directly with the main URL as referer; any other is fetched once and searched |
| UltraCine.FembedAddressSkipsFetch | UltraCine/src/main/kotlin/com/UltraCine/UltraCine.kt:299-303 | a built Fembed address is handed over as is, with no request |
| UltraCine.MovieWithIdPlaysDirectly | UltraCine/src/main/kotlin/com/UltraCine/UltraCine.kt:290-303 | a movie loaded with a TMDB ID plays its data URL directly, with no request |
| UltraCine.EpisodeWithIdPlaysDirectly | UltraCine/src/main/kotlin/com/UltraCine/UltraCine.kt:290-303 | a built episode address plays directly, with no request |
| JsonLd.FieldValue | UltraCine/src/main/kotlin/com/UltraCine/UltraCine.kt:171 | a `"key":"([^"]+)"` value is non-empty and holds no quote |
| JsonLd.FieldValueIf | UltraCine/src/main/kotlin/com/UltraCine/UltraCine.kt:171 | the same, for a value that may be absent |
| JsonLd.FieldRoundTrip | UltraCine/src/main/kotlin/com/UltraCine/UltraCine.kt:171-176 | `"key":"v"` reads back as v, whatever follows |
| JsonLd.StripAll | UltraCine/src/main/kotlin/com/UltraCine/UltraCine.kt:183 | each piece trimmed of spaces and quotes, in place |
| JsonLd.StripAllLacks | UltraCine/src/main/kotlin/com/UltraCine/UltraCine.kt:182-183 | trimming brings in no character the pieces lacked |
| JsonLd.GenreList | UltraCine/src/main/kotlin/com/UltraCine/UltraCine.kt:180-184 | every genre is comma-free, not blank, with no space or quote at either end |
| JsonLd.StripAllClean | UltraCine/src/main/kotlin/com/UltraCine/UltraCine.kt:183 | clean names are left unchanged |
| JsonLd.NoGenres | UltraCine/src/main/kotlin/com/UltraCine/UltraCine.kt:182-184 | an empty list text yields no genre |
| JsonLd.GenresRoundTrip | UltraCine/src/main/kotlin/com/UltraCine/UltraCine.kt:180-184 | clean names joined with ',' read back as the same names |
| JsonLd.NamesClean | UltraCine/src/main/kotlin/com/UltraCine/UltraCine.kt:188-192 | every name read from the pieces is non-empty and holds no quote |
| JsonLd.NameList | UltraCine/src/main/kotlin/com/UltraCine/UltraCine.kt:187-200 | at most one name per piece, each non-empty and quote-free; every piece that has a `"name"` contributes it |
| JsonLd.NamesRoundTrip | UltraCine/src/main/kotlin/com/UltraCine/UltraCine.kt:187-200 | objects `"name":"n"` joined with "}," read back as exactly the names, in order |
| JsonLd.NameEntryRoundTrip | UltraCine/src/main/kotlin/com/UltraCine/UltraCine.kt:190-192 | one object `"name":"n"` holds no "}" and reads back as `n` |
| JsonLd.EntryId | UltraCine/src/main/kotlin/com/UltraCine/UltraCine.kt:207-208 | the ID has no space or quote at either end |
| JsonLd.TmdbFromEntries | UltraCine/src/main/kotlin/com/UltraCine/UltraCine.kt:205-208 | an ID exactly when some entry mentions themoviedb.org, and then it is such an entry's ID |
| JsonLd.StripClosingQuote | UltraCine/src/main/kotlin/com/UltraCine/UltraCine.kt:208 | the trim removes the closing quote of the last segment |
| JsonLd.FirstTmdbEntry | UltraCine/src/main/kotlin/com/UltraCine/UltraCine.kt:206 | the first entry that mentions themoviedb.org wins |
| JsonLd.SameAsEntryFacts | UltraCine/src/main/kotlin/com/UltraCine/UltraCine.kt:203-208 | the quoted entry `"url/id"` is comma-free, mentions TMDB, and its last segment is `id"` |
| JsonLd.EntryIdOf | UltraCine/src/main/kotlin/com/UltraCine/UltraCine.kt:207-208 | the ID of the entry `"url/id"` is id |
| JsonLd.TmdbFromSameAs | UltraCine/src/main/kotlin/com/UltraCine/UltraCine.kt:202-208 | the ID is the trimmed last path segment of the first sameAs entry that mentions themoviedb.org |
| JsonLd.SameAsRoundTrip | UltraCine/src/main/kotlin/com/UltraCine/UltraCine.kt:203-208 | a sameAs list whose first TMDB entry is `"url/id"` yields id |
| JsonLd.DateYear | UltraCine/src/main/kotlin/com/UltraCine/UltraCine.kt:176-177 | the year is `toIntOrNull` of the first four characters of datePublished; no date, no year |
| JsonLd.DateYearRoundTrip | UltraCine/src/main/kotlin/com/UltraCine/UltraCine.kt:176-177 | a datePublished starting with a four-digit year reads as that year |
| JsonLd.BlockType | UltraCine/src/main/kotlin/com/UltraCine/UltraCine.kt:211-213 | Movie exactly when the Movie marker occurs; TVSeries exactly when only the series marker does |
| JsonLd.GenresField | UltraCine/src/main/kotlin/com/UltraCine/UltraCine.kt:180-184 | a block has genres exactly when it has a `genre` list, and they are that list read as genres |
| JsonLd.NamesField | UltraCine/src/main/kotlin/com/UltraCine/UltraCine.kt:187-200 | a block has actors (directors) exactly when it has an `actor` (`director`) list, and they are that list read as names |
| JsonLd.ReadFields | UltraCine/src/main/kotlin/com/UltraCine/UltraCine.kt:170-225 | name feeds the title, the date the year, image the poster, description the description, the genre, director and actor lists and the sameAs ID their fields, and the type test the type; genres are clean and names quote-free |
| JsonLd.ReadBlock | UltraCine/src/main/kotlin/com/UltraCine/UltraCine.kt:166-229 | a block yields data exactly when, trimmed, it declares a type and its date is readable; the type recorded is Movie exactly when the Movie marker occurs |
| JsonLd.Blocks | UltraCine/src/main/kotlin/com/UltraCine/UltraCine.kt:163-165 | the bodies of the page's ld+json scripts, in page order |
| JsonLd.ExtractedJsonLd | UltraCine/src/main/kotlin/com/UltraCine/UltraCine.kt:162-233 | the data of the first block that yields any, else the all-null record |
| JsonLd.ExtractJsonLdData | UltraCine/src/main/kotlin/com/UltraCine/UltraCine.kt:162-233 | the loop over the blocks returns the first block's data, else the all-null record |
| JsonLd.NoDataIffNoBlock | UltraCine/src/main/kotlin/com/UltraCine/UltraCine.kt:162-233 | no type is read exactly when no block qualifies, and then every field is null |
| JsonLd.MoviePreferred | UltraCine/src/main/kotlin/com/UltraCine/UltraCine.kt:211-213 | a block declaring both types is read as a Movie |
| JsonLd.ShortDateSkipsBlock | UltraCine/src/main/kotlin/com/UltraCine/UltraCine.kt:166-230 | a block whose date is shorter than four characters is skipped and the next qualifying block is read |
| Regex.CaptureAt | SuperFlix/src/main/kotlin/com/SuperFlix/FilemoonExtractor.kt:168-170 | a match at i has the prefix at i and a non-empty capture of the class right after it |
| Regex.KeyedListAt | UltraCine/src/main/kotlin/com/UltraCine/UltraCine.kt:180 | a `key\s*\[([^\]]+)\]` match at i starts with the key and captures a non-empty text without ']' |
| Regex.QuotedM3u8UrlAt | SuperFlix/src/main/kotlin/com/SuperFlix/FilemoonExtractor.kt:194 | the quoted URL captured starts with "http" and contains ".m3u8" |
| Regex.KeyedM3u8At | SuperFlix/src/main/kotlin/com/SuperFlix/FilemoonExtractor.kt:195-197 | a `key\s*:\s*"..."` match starts with the key and captures a text containing ".m3u8" |
| Regex.BareM3u8UrlAt | SuperFlix/src/main/kotlin/com/SuperFlix/FilemoonExtractor.kt:198 | the bare URL captured starts with "https://" and contains ".m3u8" |
| Regex.YearGroupAt | UltraCine/src/main/kotlin/com/UltraCine/UltraCine.kt:50 | `\((\d{4})\)` matches at i exactly when "(dddd)" starts there, capturing the four digits |
| Regex.FembedEmbedAt | UltraCine/src/main/kotlin/com/UltraCine/UltraCine.kt:312 | a match is an http or https fembed.sx/e/ address that occurs at i |
| Regex.LdJsonScriptAt | UltraCine/src/main/kotlin/com/UltraCine/UltraCine.kt:163 | a match opens with the ld+json script tag, ends at the first "</script>", and the body holds no "</script>" |
| Regex.Find | SuperFlix/src/main/kotlin/com/SuperFlix/FilemoonExtractor.kt:175 | `find` succeeds exactly when the pattern matches at some index |
| Regex.FindIsLeftmost | SuperFlix/src/main/kotlin/com/SuperFlix/FilemoonExtractor.kt:175 | `find` returns the group of the leftmost match |
| Regex.FindAll | SuperFlix/src/main/kotlin/com/SuperFlix/FilemoonExtractor.kt:203 | `findAll` starts with the first match, and an m3u8 pattern's matches all contain ".m3u8" |
| Numbers.ToIntOrNull | SuperFlix/src/main/kotlin/com/SuperFlix/SuperFlix.kt:91 | digits with an optional sign parse to their value exactly when it fits in an `Int` (down to -2^31 with a "-"); anything else is null |
| Numbers.ParseIntToString | SuperFlix/src/main/kotlin/com/SuperFlix/SuperFlix.kt:91 | every 32-bit Int parses back from its text |
| Lists.Filter | SuperFlix/src/main/kotlin/com/SuperFlix/SuperFlix.kt:159-161 | `filter` keeps exactly the elements that pass |
| Lists.Distinct | SuperFlix/src/main/kotlin/com/SuperFlix/SuperFlix.kt:162 | `distinct` keeps each element once, in the order of first occurrence |
| Lists.Take | SuperFlix/src/main/kotlin/com/SuperFlix/SuperFlix.kt:163 | `take(n)` is the prefix of length n, or the whole list |
| Lists.MapNotNull | SuperFlix/src/main/kotlin/com/SuperFlix/SuperFlix.kt:70-72 | `mapNotNull` keeps every non-null result and nothing else |
| Text.SubstringAfterLast | SuperFlix/src/main/kotlin/com/SuperFlix/SuperFlix.kt:91 | the text after the last occurrence of the delimiter, or the whole text without one |
| Text.SubstringBeforeLast | SuperFlix/src/main/kotlin/com/SuperFlix/SuperFlix.kt:91 | the text before the last occurrence of the delimiter, or the whole text without one |
| Text.SubstringBefore | SuperFlix/src/main/kotlin/com/SuperFlix/SuperFlix.kt:138 | the text before the first occurrence of the delimiter, or the whole text without one |
| Text.SubstringAfter | SuperFlix/src/main/kotlin/com/SuperFlix/SuperFlix.kt:138 | the text after the first occurrence of the delimiter, or the whole text without one |
| Text.Strip | UltraCine/src/main/kotlin/com/UltraCine/UltraCine.kt:183 | `trim(chars)` leaves no dropped character at either end, and is empty exactly when every character is dropped |
| Text.Split | UltraCine/src/main/kotlin/com/UltraCine/UltraCine.kt:182 | `split` gives at least one piece, none holding the delimiter |
| Text.JoinSplit | UltraCine/src/main/kotlin/com/UltraCine/UltraCine.kt:182 | joining the pieces with the delimiter gives the text back |
| Text.Replace | UltraCine/src/main/kotlin/com/UltraCine/UltraCine.kt:90 | `replace` leaves a text without the pattern unchanged, and otherwise starts with the part before it and the replacement |
| Text.ReplaceIsSplitJoin | UltraCine/src/main/kotlin/com/UltraCine/UltraCine.kt:90 | `replace` equals split at the pattern and joined with the replacement |

## Left out

- HTTP (`app.get`, status codes, timeouts) is the parameter `fetch`. A failed request and a thrown exception both appear as None.
- `loadExtractor` and `M3u8Helper.generateM3u8` are outside code. The model returns the call it would make (`ExtractorCall`, `Stream`), not the links these produce or the Boolean they return.
- The two `<iframe[^>]+src=...>` patterns need backtracking over `[^>]+` and are left abstract as `findIframe` (FilemoonExtractor.kt:76-77, UltraCine.kt:321-322).
- Jsoup parsing and CSS selection are not modelled: selected texts and attributes are inputs, and `.text()` whitespace normalisation is assumed done.
- The host's `fixUrl` is a parameter, and nothing is assumed about it.
- Logging (`println`, `printStackTrace`) is left out: it has no effect on results.
- The catch-all exception handlers in `getUrl` and `loadLinks` are modelled only as a failed fetch. The JSON-LD reader's catch is modelled: a block whose date is too short is skipped.
- The request URLs of `search` and the headers of SuperFlix's requests (`defaultHeaders`) are left out, because they only feed `app.get`.
- The response builders (`newHomePageResponse`, `newMovieLoadResponse`, `addActors`, `addTrailer`) are modelled as plain records.
- The quality tag of UltraCine cards (`getQualityFromString`) is left out: it is a host lookup table.
- SuperFlix's `loadLinks` is left out. It hands the movie URL to the host, or loops over page buttons calling outside code, and has no logic of its own to state.
- The browser-automation extractor (SuperFlixExtractor.kt) and the plugin registration files (SuperFlixProvider.kt, UltraCineProvider.kt) are not part of this model.
- The `mainPage` section lists are constants and are not modelled.
- Numbers.ToIntOrNull: accepts only ASCII digits. The JVM parser also accepts other Unicode decimal digits, so on such text the model returns None where the source returns a number.
- Filemoon.ExtractVideoId: the check `groupValues.size > 1` always holds for these one-group patterns and is not modelled.
- UltraCine.EpisodeNumber: the positions `index + 1` are unbounded integers. The 32-bit overflow of the source would need more than 2^31 elements on one page.
- Text.Trim: Kotlin's `isWhitespace` is modelled as a fixed character set.
- SuperFlix.IsActorName: lengths are counted in code points, while Kotlin counts UTF-16 units. The link text "😀a" has Kotlin length 3 and is kept by the source; in the model its length is 2 and it is dropped.
- JsonLd.DateReadable: lengths are counted in code points, not UTF-16 units. A datePublished of "😀😀" has Kotlin length 4, so `substring(0, 4)` does not throw and the block is read with no year; in the model its length is 2 and the block is skipped.
- JsonLd.ReadBlock: inherits the code-point length of DateReadable, so on a date such as "😀😀" the model moves on to the next block where the source reads this one.
- UltraCine.SlugId: the source at UltraCine.kt:109-111 combines a `String?` with an `Int?` through `?:`, so `tmdbId` is not a `String?` and the call at UltraCine.kt:125 would not type-check as written. The model reads the `Int` as its decimal text, as the template at UltraCine.kt:115 renders it.

## Findings

| source | as written | input that shows it | evidently intended | confidence | as-written member | corrected member |
|---|---|---|---|---|---|---|
| SuperFlix/src/main/kotlin/com/SuperFlix/SuperFlix.kt:56-63 | the genre test looks only at the last path segment, which for a genre listing is the genre name, so page 2 of `https://superflix21.lol/genero/acao` is requested as `https://superflix21.lol/acao/page/2` | page 2 of section `https://superflix21.lol/genero/acao` | `https://superflix21.lol/genero/acao/page/2` | medium, not executed; latent, because the plugin's own section list (SuperFlix.kt:42-47) has no genre section | SuperFlix.GenrePageAsWritten | SuperFlix.GenrePageFixed |
