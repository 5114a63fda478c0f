/**
 * The regular expressions of the plugins, each written out as a concrete
 * scanner, with java.util.regex's search semantics: `find` tries the start
 * positions 0, 1, ..., |s| in turn and reports the first one at which the
 * pattern matches; `findAll` restarts after the end of each match.
 *
 * Only the pattern shapes that occur in the plugins are covered; the two
 * `<iframe[^>]+src=...` expressions, whose backtracking depends on the whole
 * tag, are not among them and stay inputs of the callers.
 */
module Regex {
  import opened Wrappers
  import opened Text
  import opened Numbers

  /** java.util.regex's `\s`, that is [ \t\n\x0B\f\r]. */
  predicate IsRegexSpace(c: char) {
    c == ' ' || c == '\t' || c == '\n' || c == '\U{B}' || c == '\U{C}' || c == '\r'
  }

  predicate IsQuote(c: char) {
    c == '"' || c == '\''
  }

  predicate IsAsciiAlnum(c: char) {
    'a' <= c <= 'z' || 'A' <= c <= 'Z' || IsDigit(c)
  }

  /** The characters that an unescaped '.' does not match when DOTALL is off. */
  predicate IsLineTerminator(c: char) {
    c == '\n' || c == '\r' || c == '\U{85}' || c == '\U{2028}' || c == '\U{2029}'
  }

  /** The character classes used inside the plugins' patterns. */
  datatype CharClass =
    | Digit            // \d
    | AsciiAlnum       // [a-zA-Z0-9]
    | NotQuote         // [^"']
    | NotDoubleQuote   // [^"]
    | NotSpaceOrQuote  // [^\s"']
    | Space            // \s
    | NotCloseBracket  // [^\]]

  predicate InClass(c: char, k: CharClass) {
    match k
    case Digit => IsDigit(c)
    case AsciiAlnum => IsAsciiAlnum(c)
    case NotQuote => !IsQuote(c)
    case NotDoubleQuote => c != '"'
    case NotSpaceOrQuote => !IsRegexSpace(c) && !IsQuote(c)
    case Space => IsRegexSpace(c)
    case NotCloseBracket => c != ']'
  }

  /** The end of the longest run of class `k` that starts at `i`. */
  function RunEnd(s: string, i: nat, k: CharClass): (e: nat)
    requires i <= |s|
    ensures i <= e <= |s|
    ensures forall j :: i <= j < e ==> InClass(s[j], k)
    ensures e < |s| ==> !InClass(s[e], k)
    decreases |s| - i
  {
    if i < |s| && InClass(s[i], k) then RunEnd(s, i + 1, k) else i
  }

  /** One position of a fixed part of a pattern. */
  datatype Atom = Lit(c: char) | AnyChar | QuoteChar

  predicate AtomMatches(a: Atom, c: char) {
    match a
    case Lit(x) => c == x
    case AnyChar => !IsLineTerminator(c)
    case QuoteChar => IsQuote(c)
  }

  /** Pattern source text read as atoms: an unescaped '.' is a wildcard, every other character stands for itself. */
  function Atoms(p: string): (a: seq<Atom>)
    ensures |a| == |p|
    ensures forall k :: 0 <= k < |p| ==> a[k] == if p[k] == '.' then AnyChar else Lit(p[k])
  {
    if p == [] then [] else Atoms(p[..|p| - 1]) + [if p[|p| - 1] == '.' then AnyChar else Lit(p[|p| - 1])]
  }

  /** Pattern source text whose characters all stand for themselves. */
  function Literal(p: string): (a: seq<Atom>)
    ensures |a| == |p|
    ensures forall k :: 0 <= k < |p| ==> a[k] == Lit(p[k])
  {
    if p == [] then [] else Literal(p[..|p| - 1]) + [Lit(p[|p| - 1])]
  }

  predicate AtomsAt(s: string, i: nat, atoms: seq<Atom>) {
    i + |atoms| <= |s| && forall k :: 0 <= k < |atoms| ==> AtomMatches(atoms[k], s[i + k])
  }

  lemma LiteralAt(s: string, i: nat, p: string)
    ensures AtomsAt(s, i, Literal(p)) <==> OccursAt(s, p, i)
  {
    if AtomsAt(s, i, Literal(p)) {
      assert s[i..i + |p|] == p;
    }
  }

  /** The shapes of pattern that the plugins use. */
  datatype Pattern =
      /** prefix(run+)closer: a fixed prefix, a captured greedy run of one class, an optional closing atom outside that class */
    | Capture(prefix: seq<Atom>, run: CharClass, closer: Option<Atom>)
      /** key\s*\[([^\]]+)\] */
    | KeyedList(key: string)
      /** ["'](https?://[^"']+\.m3u8[^"']*)["'] */
    | QuotedM3u8Url
      /** key\s*:\s*["']([^"']+\.m3u8[^"']*)["'] */
    | KeyedM3u8(key: string)
      /** (https://[^\s"']+\.m3u8[^\s"']*) */
    | BareM3u8Url
      /** \((\d{4})\) */
    | YearGroup
      /** https?://fembed\.sx/e/\d+ (the whole match is the value) */
    | FembedEmbed
      /** <script type="application/ld\+json">(.*?)</script> with DOTALL */
    | LdJsonScript

  predicate IsM3u8Pattern(p: Pattern) {
    p.QuotedM3u8Url? || p.KeyedM3u8? || p.BareM3u8Url?
  }

  /** One match: the text of its group (or of the whole match, for FembedEmbed) and the index after it. */
  datatype Hit = Hit(capture: string, end: nat)

  /** ".m3u8" occurs in `t` at index `k` or later. */
  predicate M3u8From(t: string, k: nat) {
    k <= |t| && Contains(t[k..], ".m3u8")
  }

  lemma M3u8FromContains(t: string, k: nat)
    requires M3u8From(t, k)
    ensures Contains(t, ".m3u8")
  {
    OccursInSuffix(t, k, ".m3u8", IndexOf(t[k..], ".m3u8").value);
  }

  function CaptureAt(prefix: seq<Atom>, run: CharClass, closer: Option<Atom>, s: string, i: nat): (h: Option<Hit>)
    requires i <= |s|
    ensures h.Some? ==> i < h.value.end <= |s|
    ensures h.Some? ==> AtomsAt(s, i, prefix) && OccursAt(s, h.value.capture, i + |prefix|)
    ensures h.Some? ==> h.value.capture != [] && forall k :: 0 <= k < |h.value.capture| ==> InClass(h.value.capture[k], run)
  {
    if !AtomsAt(s, i, prefix) then None
    else
      var start := i + |prefix|;
      var e := RunEnd(s, start, run);
      if e == start then None
      else if closer.None? then Some(Hit(s[start..e], e))
      else if e < |s| && AtomMatches(closer.value, s[e]) then Some(Hit(s[start..e], e + 1))
      else None
  }

  function KeyedListAt(key: string, s: string, i: nat): (h: Option<Hit>)
    requires i <= |s|
    ensures h.Some? ==> i < h.value.end <= |s| && OccursAt(s, key, i)
    ensures h.Some? ==> h.value.capture != [] && forall k :: 0 <= k < |h.value.capture| ==> h.value.capture[k] != ']'
  {
    if !OccursAt(s, key, i) then None
    else
      var k := RunEnd(s, i + |key|, Space);
      if k < |s| && s[k] == '[' then
        var e := RunEnd(s, k + 1, NotCloseBracket);
        if k + 1 < e < |s| then
          Some(Hit(s[k + 1..e], e + 1))
        else None
      else None
  }

  /** The length of the `https?://` that `t` starts with, or 0. */
  function SchemeLength(t: string): (n: nat)
    ensures n == 0 || n == 7 || n == 8
    ensures n > 0 ==> StartsWith(t, "http") && n <= |t|
  {
    if StartsWith(t, "https://") then
      StartsWithPrefix(t, "https://", "http");
      8
    else if StartsWith(t, "http://") then
      StartsWithPrefix(t, "http://", "http");
      7
    else 0
  }

  function QuotedM3u8UrlAt(s: string, i: nat): (h: Option<Hit>)
    requires i <= |s|
    ensures h.Some? ==> i < h.value.end <= |s| && Contains(h.value.capture, ".m3u8")
    ensures h.Some? ==> StartsWith(h.value.capture, "http")
  {
    if i < |s| && IsQuote(s[i]) then
      var e := RunEnd(s, i + 1, NotQuote);
      var t := s[i + 1..e];
      var n := SchemeLength(t);
      if e < |s| && n > 0 && M3u8From(t, n + 1) then
        M3u8FromContains(t, n + 1);
        Some(Hit(t, e + 1))
      else None
    else None
  }

  function KeyedM3u8At(key: string, s: string, i: nat): (h: Option<Hit>)
    requires i <= |s|
    ensures h.Some? ==> i < h.value.end <= |s| && Contains(h.value.capture, ".m3u8")
    ensures h.Some? ==> OccursAt(s, key, i)
  {
    if !OccursAt(s, key, i) then None
    else
      var k1 := RunEnd(s, i + |key|, Space);
      if k1 < |s| && s[k1] == ':' then
        var k2 := RunEnd(s, k1 + 1, Space);
        if k2 < |s| && IsQuote(s[k2]) then
          var e := RunEnd(s, k2 + 1, NotQuote);
          var t := s[k2 + 1..e];
          if e < |s| && M3u8From(t, 1) then
            M3u8FromContains(t, 1);
            Some(Hit(t, e + 1))
          else None
        else None
      else None
  }

  function BareM3u8UrlAt(s: string, i: nat): (h: Option<Hit>)
    requires i <= |s|
    ensures h.Some? ==> i < h.value.end <= |s| && Contains(h.value.capture, ".m3u8")
    ensures h.Some? ==> StartsWith(h.value.capture, "https://")
  {
    if !OccursAt(s, "https://", i) then None
    else
      var e := RunEnd(s, i + 8, NotSpaceOrQuote);
      var t := s[i..e];
      if M3u8From(t, 9) then
        M3u8FromContains(t, 9);
        assert t[..8] == s[i..i + 8];
        Some(Hit(t, e))
      else None
  }

  predicate YearGroupAtIndex(s: string, i: nat) {
    i + 6 <= |s| && s[i] == '(' && AllDigits(s[i + 1..i + 5]) && s[i + 5] == ')'
  }

  function YearGroupAt(s: string, i: nat): (h: Option<Hit>)
    requires i <= |s|
    ensures h.Some? <==> YearGroupAtIndex(s, i)
    ensures h.Some? ==> h.value == Hit(s[i + 1..i + 5], i + 6)
  {
    if YearGroupAtIndex(s, i) then Some(Hit(s[i + 1..i + 5], i + 6)) else None
  }

  const HttpsFembed: string := "https://fembed.sx/e/"
  const HttpFembed: string := "http://fembed.sx/e/"

  function FembedEmbedAt(s: string, i: nat): (h: Option<Hit>)
    requires i <= |s|
    ensures h.Some? ==> i < h.value.end <= |s| && OccursAt(s, h.value.capture, i)
    ensures h.Some? ==> StartsWith(h.value.capture, HttpsFembed) || StartsWith(h.value.capture, HttpFembed)
  {
    if OccursAt(s, HttpsFembed, i) && RunEnd(s, i + |HttpsFembed|, Digit) > i + |HttpsFembed| then
      var e := RunEnd(s, i + |HttpsFembed|, Digit);
      assert s[i..e][..|HttpsFembed|] == s[i..i + |HttpsFembed|];
      Some(Hit(s[i..e], e))
    else if OccursAt(s, HttpFembed, i) && RunEnd(s, i + |HttpFembed|, Digit) > i + |HttpFembed| then
      var e := RunEnd(s, i + |HttpFembed|, Digit);
      assert s[i..e][..|HttpFembed|] == s[i..i + |HttpFembed|];
      Some(Hit(s[i..e], e))
    else None
  }

  const LdJsonOpen: string := "<script type=\"application/ld+json\">"
  const ScriptClose: string := "</script>"

  function LdJsonScriptAt(s: string, i: nat): (h: Option<Hit>)
    requires i <= |s|
    ensures h.Some? ==> i < h.value.end <= |s| && OccursAt(s, LdJsonOpen, i)
    ensures h.Some? ==> OccursAt(s, ScriptClose, h.value.end - |ScriptClose|)
    ensures h.Some? ==> !Contains(h.value.capture, ScriptClose)
  {
    if !OccursAt(s, LdJsonOpen, i) then None
    else
      match IndexFrom(s, ScriptClose, i + |LdJsonOpen|)
      case Some(j) =>
        var o := i + |LdJsonOpen|;
        var body := s[o..j];
        assert body == s[o..][..j - o];
        forall jj | 0 <= jj < j - o ensures !OccursAt(s[o..], ScriptClose, jj) {
          if OccursAt(s[o..], ScriptClose, jj) {
            OccursInSuffix(s, o, ScriptClose, jj);
          }
        }
        NotInPrefix(s[o..], j - o, ScriptClose);
        Some(Hit(body, j + |ScriptClose|))
      case None => None
  }

  /** Does `p` match at index `i` of `s`, and with what group? */
  function MatchAt(p: Pattern, s: string, i: nat): (h: Option<Hit>)
    requires i <= |s|
    ensures h.Some? ==> i < h.value.end <= |s|
    ensures h.Some? && IsM3u8Pattern(p) ==> Contains(h.value.capture, ".m3u8")
  {
    match p
    case Capture(prefix, run, closer) => CaptureAt(prefix, run, closer, s, i)
    case KeyedList(key) => KeyedListAt(key, s, i)
    case QuotedM3u8Url => QuotedM3u8UrlAt(s, i)
    case KeyedM3u8(key) => KeyedM3u8At(key, s, i)
    case BareM3u8Url => BareM3u8UrlAt(s, i)
    case YearGroup => YearGroupAt(s, i)
    case FembedEmbed => FembedEmbedAt(s, i)
    case LdJsonScript => LdJsonScriptAt(s, i)
  }

  datatype Found = Found(start: nat, hit: Hit)

  /** The leftmost index from `i` to `n` at which `m` reports a match, with that match. */
  function FirstHit(m: nat -> Option<Hit>, n: nat, i: nat): (f: Option<Found>)
    requires i <= n
    ensures f.Some? ==> i <= f.value.start <= n && m(f.value.start) == Some(f.value.hit)
    ensures f.Some? ==> forall j :: i <= j < f.value.start ==> m(j).None?
    ensures f.None? ==> forall j :: i <= j <= n ==> m(j).None?
    decreases n - i
  {
    match m(i)
    case Some(h) => Some(Found(i, h))
    case None => if i == n then None else FirstHit(m, n, i + 1)
  }

  /** `MatchAt` as a function of the index, with no match past the end. */
  function MatchesIn(p: Pattern, s: string): nat -> Option<Hit> {
    (j: nat) => if j <= |s| then MatchAt(p, s, j) else None
  }

  /** The leftmost match of `p` that starts at `i` or later. */
  function FindFrom(p: Pattern, s: string, i: nat): (f: Option<Found>)
    requires i <= |s|
    ensures f.Some? ==> i <= f.value.start <= |s| && MatchAt(p, s, f.value.start) == Some(f.value.hit)
    ensures f.Some? ==> forall j :: i <= j < f.value.start ==> MatchAt(p, s, j).None?
    ensures f.None? ==> forall j :: i <= j <= |s| ==> MatchAt(p, s, j).None?
  {
    var m := MatchesIn(p, s);
    assert forall j :: 0 <= j <= |s| ==> m(j) == MatchAt(p, s, j);
    FirstHit(m, |s|, i)
  }

  /** Kotlin's `Regex(p).find(s)?.groupValues?.get(1)`. */
  function Find(p: Pattern, s: string): (r: Option<string>)
    ensures r.Some? <==> exists j :: 0 <= j <= |s| && MatchAt(p, s, j).Some?
    ensures r.Some? && IsM3u8Pattern(p) ==> Contains(r.value, ".m3u8")
  {
    match FindFrom(p, s, 0)
    case Some(f) => Some(f.hit.capture)
    case None => None
  }

  /** Where the match that `Find` reports starts. */
  lemma FindAt(p: Pattern, s: string) returns (j: nat)
    requires Find(p, s).Some?
    ensures j <= |s| && MatchAt(p, s, j).Some? && MatchAt(p, s, j).value.capture == Find(p, s).value
    ensures forall i :: 0 <= i < j ==> MatchAt(p, s, i).None?
  {
    j := FindFrom(p, s, 0).value.start;
  }

  /** What a `Capture` pattern's first match says about its group. */
  lemma CaptureFound(prefix: seq<Atom>, run: CharClass, closer: Option<Atom>, s: string) returns (j: nat)
    requires Find(Capture(prefix, run, closer), s).Some?
    ensures var c := Find(Capture(prefix, run, closer), s).value;
      && AtomsAt(s, j, prefix) && OccursAt(s, c, j + |prefix|)
      && c != [] && forall k :: 0 <= k < |c| ==> InClass(c[k], run)
  {
    j := FindAt(Capture(prefix, run, closer), s);
  }

  /** A match with no match to its left is the one that `Find` reports. */
  lemma FindIsLeftmost(p: Pattern, s: string, j: nat)
    requires j <= |s| && MatchAt(p, s, j).Some?
    requires forall i :: 0 <= i < j ==> MatchAt(p, s, i).None?
    ensures Find(p, s) == Some(MatchAt(p, s, j).value.capture)
  {
    var f := FindFrom(p, s, 0);
    assert f.Some?;
    assert f.value.start == j;
  }

  /** The groups of `Regex(p).findAll(s)` from index `i` on, in text order. */
  function FindAll(p: Pattern, s: string, i: nat): (r: seq<string>)
    requires i <= |s|
    ensures |r| > 0 <==> FindFrom(p, s, i).Some?
    ensures |r| > 0 ==> r[0] == FindFrom(p, s, i).value.hit.capture
    ensures IsM3u8Pattern(p) ==> forall k :: 0 <= k < |r| ==> Contains(r[k], ".m3u8")
    decreases |s| - i
  {
    match FindFrom(p, s, i)
    case Some(f) => [f.hit.capture] + FindAll(p, s, f.hit.end)
    case None => []
  }
}
