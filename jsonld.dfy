/**
 * How the SuperFlix21 provider reads the JSON-LD of a detail page. Each
 * `<script type="application/ld+json">` block is trimmed and tried in page
 * order. The first block that declares a Movie or a TVSeries is read field by
 * field with regular expressions rather than a JSON parser. A block whose
 * `datePublished` is shorter than four characters makes `substring(0, 4)`
 * throw; the exception is caught and the block is skipped.
 */
module JsonLd {
  import opened Wrappers
  import opened Text
  import opened Numbers
  import opened Lists
  import opened Regex

  const MovieMarker: string := "\"@type\":\"Movie\""
  const SeriesMarker: string := "\"@type\":\"TVSeries\""

  datatype LdType = LdMovie | LdTvSeries

  /** The fields read from one block; every field is None when no block qualifies. */
  datatype JsonLdData = JsonLdData(
    title: Option<string>,
    year: Option<Int32>,
    posterUrl: Option<string>,
    description: Option<string>,
    genres: Option<seq<string>>,
    director: Option<seq<string>>,
    actors: Option<seq<string>>,
    tmdbId: Option<string>,
    ldType: Option<LdType>)

  const NoData: JsonLdData := JsonLdData(None, None, None, None, None, None, None, None, None)

  /** The pattern `"key":"([^"]+)"`. */
  function Field(key: string): Pattern {
    Capture(Literal("\"" + key + "\":\""), NotDoubleQuote, Some(Lit('"')))
  }

  /** The pattern `"key":\s*\[([^\]]+)\]`. */
  function ListField(key: string): Pattern {
    KeyedList("\"" + key + "\":")
  }

  /** A field value is non-empty and holds no double quote. */
  lemma FieldValue(key: string, json: string)
    requires Find(Field(key), json).Some?
    ensures var v := Find(Field(key), json).value; v != [] && '"' !in v
  {
    var j := CaptureFound(Literal("\"" + key + "\":\""), NotDoubleQuote, Some(Lit('"')), json);
  }

  lemma FieldValueIf(key: string, json: string)
    ensures var f := Find(Field(key), json); f.Some? ==> f.value != [] && '"' !in f.value
  {
    if Find(Field(key), json).Some? {
      FieldValue(key, json);
    }
  }

  /** The text `"key":"v"`. */
  function FieldText(key: string, v: string): string {
    "\"" + key + "\":\"" + v + "\""
  }

  /** Reading `"key":"v"` back gives `v`, whatever follows it. */
  lemma FieldRoundTrip(key: string, v: string, rest: string)
    requires v != [] && '"' !in v
    ensures Find(Field(key), FieldText(key, v) + rest) == Some(v)
  {
    var open := "\"" + key + "\":\"";
    var s := FieldText(key, v) + rest;
    assert s == open + v + "\"" + rest;
    assert s[0..|open|] == open;
    LiteralAt(s, 0, open);
    var e := RunEnd(s, |open|, NotDoubleQuote);
    assert s[|open| + |v|] == '"';
    assert forall q :: |open| <= q < |open| + |v| ==> s[q] == v[q - |open|];
    assert e == |open| + |v|;
    assert s[|open|..e] == v;
    assert MatchAt(Field(key), s, 0) == Some(Hit(v, e + 1));
    FindIsLeftmost(Field(key), s, 0);
  }

  /** The characters that `trim(' ', '"', '\'')` drops. */
  const StripChars: set<char> := {' ', '"', '\''}

  predicate NotBlank(s: string) {
    !IsBlank(s)
  }

  /** Each piece trimmed of spaces and quotes. */
  function StripAll(pieces: seq<string>): (r: seq<string>)
    ensures |r| == |pieces| && forall k :: 0 <= k < |pieces| ==> r[k] == Strip(pieces[k], StripChars)
  {
    seq(|pieces|, k requires 0 <= k < |pieces| => Strip(pieces[k], StripChars))
  }

  /** Stripping a piece cannot bring in a character that the piece lacks. */
  lemma StripAllLacks(pieces: seq<string>, c: char)
    requires forall k :: 0 <= k < |pieces| ==> !Contains(pieces[k], [c])
    ensures forall g :: g in StripAll(pieces) ==> c !in g
  {
    forall k | 0 <= k < |pieces|
      ensures c !in Strip(pieces[k], StripChars)
    {
      ContainsChar(pieces[k], c);
      StripContained(pieces[k], StripChars);
      CharNotInContained(pieces[k], Strip(pieces[k], StripChars), c);
    }
  }

  /** A genre is one comma-free piece, not blank, with no space or quote at either end. */
  predicate CleanGenre(g: string) {
    ',' !in g && !IsBlank(g) && g[0] !in StripChars && g[|g| - 1] !in StripChars
  }

  /** The `genre` list: split at ',', each piece trimmed of spaces and quotes, blank pieces dropped. */
  function GenreList(list: string): (genres: seq<string>)
    ensures forall g :: g in genres ==> CleanGenre(g)
  {
    var pieces := Split(list, ",");
    StripAllLacks(pieces, ',');
    Filter(StripAll(pieces), NotBlank)
  }

  lemma StripAllClean(names: seq<string>)
    requires forall k :: 0 <= k < |names| ==> CleanGenre(names[k])
    ensures StripAll(names) == names
  {
  }

  /** An empty genre list, or one of blanks only, yields no genre. */
  lemma NoGenres()
    ensures GenreList([]) == []
  {
    assert Split([], ",") == [[]];
    assert StripAll([[]]) == [[]];
    var r := GenreList([]);
    assert forall x :: x in r ==> x == [] && NotBlank(x);
  }

  /** A comma-joined list of clean genre names reads back as the same names. */
  lemma GenresRoundTrip(names: seq<string>)
    requires forall k :: 0 <= k < |names| ==> CleanGenre(names[k])
    ensures GenreList(Join(names, ",")) == names
  {
    if names == [] {
      NoGenres();
    } else {
      SplitJoin(names, ",");
      StripAllClean(names);
      FilterAll(names, NotBlank);
    }
  }

  /** The `"name"` value of one piece of an `actor` or `director` list. */
  function NameOf(piece: string): Option<string> {
    Find(Field("name"), piece)
  }

  lemma NamesClean(pieces: seq<string>)
    ensures forall n :: n in MapNotNull(pieces, NameOf) ==> n != [] && '"' !in n
  {
    var names := MapNotNull(pieces, NameOf);
    forall n | n in names
      ensures n != [] && '"' !in n
    {
      var k :| 0 <= k < |pieces| && NameOf(pieces[k]) == Some(n);
      FieldValue("name", pieces[k]);
    }
  }

  /** An `actor` or `director` list: split at "},", the `"name"` of each piece, pieces without one dropped. */
  function NameList(list: string): (names: seq<string>)
    ensures |names| <= |Split(list, "},")|
    ensures forall n :: n in names ==> n != [] && '"' !in n
    ensures forall k :: 0 <= k < |Split(list, "},")| && NameOf(Split(list, "},")[k]).Some? ==> NameOf(Split(list, "},")[k]).value in names
  {
    var pieces := Split(list, "},");
    NamesClean(pieces);
    MapNotNull(pieces, NameOf)
  }

  /** The objects of a name list, one `"name":"n"` each. */
  function NameEntries(names: seq<string>): (entries: seq<string>)
    ensures |entries| == |names| && forall k :: 0 <= k < |names| ==> entries[k] == FieldText("name", names[k])
  {
    seq(|names|, k requires 0 <= k < |names| => FieldText("name", names[k]))
  }

  /** A name that can stand in a field value and in a list split at "},". */
  predicate CleanName(n: string) {
    n != [] && '"' !in n && '}' !in n
  }

  /** One object of a name list reads back as its name, and holds no '}'. */
  lemma NameEntryRoundTrip(n: string)
    requires CleanName(n)
    ensures '}' !in FieldText("name", n) && NameOf(FieldText("name", n)) == Some(n)
  {
    var t := FieldText("name", n);
    FieldRoundTrip("name", n, []);
    assert t + [] == t;
    NoBraceInField("name", n);
  }

  lemma NoBraceInField(key: string, v: string)
    requires '}' !in key && '}' !in v
    ensures '}' !in FieldText(key, v)
  {
    var t := FieldText(key, v);
    var open := "\"" + key + "\":\"";
    assert t == open + v + "\"";
    assert '}' !in open;
  }

  /** The objects of a list of clean names, joined with "},", read back as the same names. */
  lemma NamesRoundTrip(names: seq<string>)
    requires forall k :: 0 <= k < |names| ==> CleanName(names[k])
    ensures NameList(Join(NameEntries(names), "},")) == names
  {
    var entries := NameEntries(names);
    if names == [] {
      assert Split([], "},") == [[]];
      if NameOf([]).Some? {
        var j := CaptureFound(Literal("\"name\":\""), NotDoubleQuote, Some(Lit('"')), []);
      }
    } else {
      forall k | 0 <= k < |names|
        ensures '}' !in entries[k] && NameOf(entries[k]) == Some(names[k])
      {
        NameEntryRoundTrip(names[k]);
      }
      SplitJoin(entries, "},");
      MapNotNullAllSome(entries, NameOf, names);
    }
  }

  const TmdbHost: string := "themoviedb.org"

  /** The last path segment of a `sameAs` entry, trimmed of spaces and quotes. */
  function EntryId(entry: string): (id: string)
    ensures id == [] || (id[0] !in StripChars && id[|id| - 1] !in StripChars)
  {
    Strip(SubstringAfterLast(entry, "/"), StripChars)
  }

  /** The ID of the first entry that mentions themoviedb.org. */
  function TmdbFromEntries(entries: seq<string>): (id: Option<string>)
    ensures id.Some? <==> exists k :: 0 <= k < |entries| && Contains(entries[k], TmdbHost)
    ensures id.Some? ==> exists k :: 0 <= k < |entries| && Contains(entries[k], TmdbHost) && id.value == EntryId(entries[k])
  {
    match FirstContaining(entries, TmdbHost)
    case Some(entry) =>
      var k :| 0 <= k < |entries| && entries[k] == entry;
      Some(EntryId(entry))
    case None => None
  }

  /** The `sameAs` list: split at ',', then the ID of the first entry that mentions themoviedb.org. */
  function TmdbFromSameAs(list: string): Option<string> {
    TmdbFromEntries(Split(list, ","))
  }

  lemma StripClosingQuote(id: string)
    requires id != [] && id[0] !in StripChars && id[|id| - 1] !in StripChars
    ensures Strip(id + "\"", StripChars) == id
  {
    var s := id + "\"";
    assert KeptFrom(s, StripChars, 0) == 0;
    assert KeptBelow(s, StripChars, |s|) == KeptBelow(s, StripChars, |s| - 1) == |id|;
    assert s[0..|id|] == id;
  }

  /** The first entry that mentions themoviedb.org wins, whatever entries without it come first. */
  lemma FirstTmdbEntry(others: seq<string>, entry: string)
    requires forall k :: 0 <= k < |others| ==> !Contains(others[k], TmdbHost)
    requires Contains(entry, TmdbHost)
    ensures TmdbFromEntries(others + [entry]) == Some(EntryId(entry))
  {
    var xs := others + [entry];
    assert xs[|others|] == entry;
    assert forall x :: x in xs && Contains(x, TmdbHost) ==> x == entry by {
      assert forall x :: x in xs && x != entry ==> x in others;
    }
  }

  /** The quoted address `url/id`, as a `sameAs` entry. */
  function SameAsEntry(url: string, id: string): string {
    "\"" + url + "/" + id + "\""
  }

  lemma SameAsEntryFacts(url: string, id: string)
    requires ',' !in url && Contains(url, TmdbHost)
    requires ',' !in id && '/' !in id
    ensures ',' !in SameAsEntry(url, id)
    ensures Contains(SameAsEntry(url, id), TmdbHost)
    ensures SubstringAfterLast(SameAsEntry(url, id), "/") == id + "\""
  {
    var entry := SameAsEntry(url, id);
    assert entry == ("\"" + url) + "/" + (id + "\"");
    assert entry[1..1 + |url|] == url;
    OccursContains(entry, url, 1);
    ContainsTransitive(entry, url, TmdbHost);
    AfterLastOfEnd("\"" + url, "/", id + "\"");
  }

  /** The ID of the entry for `url/id` is `id`. */
  lemma EntryIdOf(url: string, id: string)
    requires ',' !in url && Contains(url, TmdbHost)
    requires id != [] && ',' !in id && '/' !in id && id[0] !in StripChars && id[|id| - 1] !in StripChars
    ensures EntryId(SameAsEntry(url, id)) == id
  {
    SameAsEntryFacts(url, id);
    StripClosingQuote(id);
  }

  lemma AppendLacks(xs: seq<string>, x: string, c: char)
    requires forall k :: 0 <= k < |xs| ==> c !in xs[k]
    requires c !in x
    ensures forall k :: 0 <= k < |xs + [x]| ==> c !in (xs + [x])[k]
  {
  }

  /**
   * A `sameAs` list whose first TMDB entry is the quoted address `url/id`
   * yields `id`, whatever entries come before it.
   */
  lemma SameAsRoundTrip(others: seq<string>, url: string, id: string)
    requires forall k :: 0 <= k < |others| ==> ',' !in others[k] && !Contains(others[k], TmdbHost)
    requires ',' !in url && Contains(url, TmdbHost)
    requires id != [] && ',' !in id && '/' !in id && id[0] !in StripChars && id[|id| - 1] !in StripChars
    ensures TmdbFromSameAs(Join(others + [SameAsEntry(url, id)], ",")) == Some(id)
  {
    var entry := SameAsEntry(url, id);
    var entries := others + [entry];
    SameAsEntryFacts(url, id);
    AppendLacks(others, entry, ',');
    SplitJoin(entries, ",");
    FirstTmdbEntry(others, entry);
    EntryIdOf(url, id);
  }

  /** `datePublished`, read through `"datePublished":"([^"]+)"`. */
  function DatePublished(json: string): Option<string> {
    Find(Field("datePublished"), json)
  }

  /** `substring(0, 4)` throws on a date shorter than four characters. */
  predicate DateReadable(json: string) {
    DatePublished(json).None? || |DatePublished(json).value| >= 4
  }

  /** The year: the first four characters of `datePublished`, when they parse as an `Int`. */
  function DateYear(json: string): (y: Option<Int32>)
    requires DateReadable(json)
    ensures y.Some? ==> DatePublished(json).Some? && ToIntOrNull(DatePublished(json).value[..4]) == y
    ensures DatePublished(json).Some? ==> y == ToIntOrNull(DatePublished(json).value[..4])
    ensures DatePublished(json).None? ==> y.None?
  {
    match DatePublished(json)
    case Some(d) => ToIntOrNull(d[..4])
    case None => None
  }

  /** A four-digit year has a four-character text. */
  lemma FourDigits(y: int)
    requires 1000 <= y <= 9999
    ensures |NatToString(y)| == 4
  {
    assert (y / 10) / 10 == y / 100;
    assert (y / 100) / 10 == y / 1000;
    assert |NatToString(y / 1000)| == 1;
    assert |NatToString(y / 100)| == 2;
    assert |NatToString(y / 10)| == 3;
  }

  /** A `datePublished` that starts with a four-digit year gives that year. */
  lemma DateYearRoundTrip(y: int, rest: string)
    requires 1000 <= y <= 9999 && '"' !in rest
    ensures var json := FieldText("datePublished", NatToString(y) + rest);
      DateReadable(json) && DateYear(json) == Some(y)
  {
    var digits := NatToString(y);
    var d := digits + rest;
    FourDigits(y);
    assert '"' !in digits by {
      NatToStringValue(y);
    }
    var json := FieldText("datePublished", d);
    FieldRoundTrip("datePublished", d, []);
    assert json + [] == json;
    assert d[..4] == digits;
    ParseIntToString(y);
  }

  /** The list value of `key`, read through `"key":\s*\[([^\]]+)\]`. */
  function ListValue(key: string, json: string): Option<string> {
    Find(ListField(key), json)
  }

  /** The type that a block declares, Movie first. */
  function BlockType(json: string): (t: Option<LdType>)
    ensures t == Some(LdMovie) <==> Contains(json, MovieMarker)
    ensures t == Some(LdTvSeries) <==> !Contains(json, MovieMarker) && Contains(json, SeriesMarker)
  {
    if Contains(json, MovieMarker) then Some(LdMovie)
    else if Contains(json, SeriesMarker) then Some(LdTvSeries)
    else None
  }

  /** The `genre` list of a block, when it has one. */
  function GenresField(json: string): (g: Option<seq<string>>)
    ensures g.Some? <==> ListValue("genre", json).Some?
    ensures g.Some? ==> g.value == GenreList(ListValue("genre", json).value)
  {
    match ListValue("genre", json)
    case Some(l) => Some(GenreList(l))
    case None => None
  }

  /** The `actor` or `director` list of a block, when it has one. */
  function NamesField(key: string, json: string): (n: Option<seq<string>>)
    ensures n.Some? <==> ListValue(key, json).Some?
    ensures n.Some? ==> n.value == NameList(ListValue(key, json).value)
  {
    match ListValue(key, json)
    case Some(l) => Some(NameList(l))
    case None => None
  }

  /** Every field of a block whose date can be read. */
  function ReadFields(json: string): (d: JsonLdData)
    requires DateReadable(json)
    ensures d.genres.Some? ==> forall g :: g in d.genres.value ==> CleanGenre(g)
    ensures d.actors.Some? ==> forall n :: n in d.actors.value ==> n != [] && '"' !in n
    ensures d.director.Some? ==> forall n :: n in d.director.value ==> n != [] && '"' !in n
    ensures d.title.Some? ==> d.title.value != [] && '"' !in d.title.value
    ensures d.title == Find(Field("name"), json) && d.year == DateYear(json)
    ensures d.posterUrl == Find(Field("image"), json) && d.description == Find(Field("description"), json)
    ensures d.genres.Some? <==> ListValue("genre", json).Some?
    ensures d.genres.Some? ==> d.genres.value == GenreList(ListValue("genre", json).value)
    ensures d.director.Some? <==> ListValue("director", json).Some?
    ensures d.director.Some? ==> d.director.value == NameList(ListValue("director", json).value)
    ensures d.actors.Some? <==> ListValue("actor", json).Some?
    ensures d.actors.Some? ==> d.actors.value == NameList(ListValue("actor", json).value)
    ensures d.tmdbId == (if ListValue("sameAs", json).Some? then TmdbFromSameAs(ListValue("sameAs", json).value) else None)
    ensures d.ldType == BlockType(json)
  {
    FieldValueIf("name", json);
    JsonLdData(
      Find(Field("name"), json),
      DateYear(json),
      Find(Field("image"), json),
      Find(Field("description"), json),
      GenresField(json),
      NamesField("director", json),
      NamesField("actor", json),
      match ListValue("sameAs", json) case Some(l) => TmdbFromSameAs(l) case None => None,
      BlockType(json))
  }

  /**
   * What one block yields: nothing when, once trimmed, it declares neither a
   * Movie nor a TVSeries, or when its date is too short to read.
   */
  function ReadBlock(block: string): (r: Option<JsonLdData>)
    ensures r.Some? <==> (Contains(Trim(block), MovieMarker) || Contains(Trim(block), SeriesMarker)) && DateReadable(Trim(block))
    ensures r.Some? ==> r.value.ldType.Some?
    ensures r.Some? ==> (r.value.ldType == Some(LdMovie) <==> Contains(Trim(block), MovieMarker))
  {
    var json := Trim(block);
    if !(Contains(json, MovieMarker) || Contains(json, SeriesMarker)) then None
    else if !DateReadable(json) then None
    else Some(ReadFields(json))
  }

  /** The bodies of the page's ld+json scripts, in page order. */
  function Blocks(html: string): seq<string> {
    FindAll(LdJsonScript, html, 0)
  }

  /** What the provider reads off the page's JSON-LD: the first block that yields data, else the all-None record. */
  function ExtractedJsonLd(html: string): JsonLdData {
    FirstSome(Blocks(html), ReadBlock).GetOr(NoData)
  }

  /** The loop over the blocks, returning at the first one that qualifies. */
  method ExtractJsonLdData(html: string) returns (d: JsonLdData)
    ensures d == ExtractedJsonLd(html)
  {
    var blocks := Blocks(html);
    var index := 0;
    while index < |blocks|
      invariant 0 <= index <= |blocks|
      invariant FirstSome(blocks, ReadBlock) == FirstSome(blocks[index..], ReadBlock)
    {
      var read := ReadBlock(blocks[index]);
      if read.Some? {
        return read.value;
      }
      assert blocks[index..][1..] == blocks[index + 1..];
      index := index + 1;
    }
    return NoData;
  }

  /** The page has JSON-LD data exactly when some block qualifies; otherwise every field is None. */
  lemma NoDataIffNoBlock(html: string)
    ensures ExtractedJsonLd(html).ldType.None? <==> forall k :: 0 <= k < |Blocks(html)| ==> ReadBlock(Blocks(html)[k]).None?
    ensures ExtractedJsonLd(html).ldType.None? ==> ExtractedJsonLd(html) == NoData
  {
    var r := FirstSome(Blocks(html), ReadBlock);
    if r.Some? {
      var k :| 0 <= k < |Blocks(html)| && ReadBlock(Blocks(html)[k]) == r;
    }
  }

  /** A block that declares both types is read as a Movie. */
  lemma MoviePreferred(block: string)
    requires Contains(Trim(block), MovieMarker) && Contains(Trim(block), SeriesMarker)
    requires DateReadable(Trim(block))
    ensures ReadBlock(block).Some? && ReadBlock(block).value.ldType == Some(LdMovie)
  {
  }

  /**
   * A block that declares a type but has a short date is skipped: the next
   * block that yields data is read instead.
   */
  lemma ShortDateSkipsBlock(html: string, k: nat, j: nat)
    requires k < j < |Blocks(html)|
    requires Contains(Trim(Blocks(html)[k]), MovieMarker) || Contains(Trim(Blocks(html)[k]), SeriesMarker)
    requires DatePublished(Trim(Blocks(html)[k])).Some? && |DatePublished(Trim(Blocks(html)[k])).value| < 4
    requires ReadBlock(Blocks(html)[j]).Some?
    requires forall i :: 0 <= i < j && i != k ==> ReadBlock(Blocks(html)[i]).None?
    ensures ExtractedJsonLd(html) == ReadBlock(Blocks(html)[j]).value
  {
    FirstSomeIsFirst(Blocks(html), ReadBlock, j);
  }
}
