/**
 * The part of Kotlin's String library that the plugins lean on, over `seq<char>`:
 * `indexOf`/`lastIndexOf`, `contains`, `startsWith`, the four `substringXxx`
 * helpers (each returns the whole string when the delimiter is missing),
 * `trim`, `isBlank`, `split` and `replace`.
 */
module Text {
  import opened Wrappers

  /** `t` occurs in `s` starting at index `i`. */
  predicate OccursAt(s: string, t: string, i: int) {
    0 <= i && i + |t| <= |s| && s[i..i + |t|] == t
  }

  /** Kotlin's `s.startsWith(p)`. */
  predicate StartsWith(s: string, p: string) {
    |p| <= |s| && s[..|p|] == p
  }

  /** A text that starts with `p` starts with every prefix of `p`. */
  lemma StartsWithPrefix(s: string, p: string, q: string)
    requires StartsWith(s, p) && StartsWith(p, q)
    ensures StartsWith(s, q)
  {
    assert s[..|q|] == s[..|p|][..|q|];
  }

  /** The first occurrence of `t` in `s` at or after index `k`. */
  function IndexFrom(s: string, t: string, k: nat): (r: Option<nat>)
    ensures r.Some? ==> k <= r.value && OccursAt(s, t, r.value)
    ensures r.Some? ==> forall j :: k <= j < r.value ==> !OccursAt(s, t, j)
    ensures r.None? ==> forall j :: k <= j ==> !OccursAt(s, t, j)
    decreases |s| - k
  {
    if k + |t| > |s| then None
    else if s[k..k + |t|] == t then Some(k)
    else IndexFrom(s, t, k + 1)
  }

  /** Kotlin's `s.indexOf(t)`, with -1 written as None. */
  function IndexOf(s: string, t: string): (r: Option<nat>)
    ensures r.Some? ==> OccursAt(s, t, r.value)
    ensures r.Some? ==> forall j :: 0 <= j < r.value ==> !OccursAt(s, t, j)
    ensures r.None? ==> forall j :: !OccursAt(s, t, j)
  {
    IndexFrom(s, t, 0)
  }

  /** Kotlin's `s.contains(t)`. */
  predicate Contains(s: string, t: string) {
    IndexOf(s, t).Some?
  }

  lemma OccursContains(s: string, t: string, i: int)
    requires OccursAt(s, t, i)
    ensures Contains(s, t)
  {
  }

  /** The last occurrence of `t` in `s` at an index below `k`. */
  function LastIndexBelow(s: string, t: string, k: nat): (r: Option<nat>)
    ensures r.Some? ==> r.value < k && OccursAt(s, t, r.value)
    ensures r.Some? ==> forall j :: r.value < j < k ==> !OccursAt(s, t, j)
    ensures r.None? ==> forall j :: 0 <= j < k ==> !OccursAt(s, t, j)
    decreases k
  {
    if k == 0 then None
    else if OccursAt(s, t, k - 1) then Some(k - 1)
    else LastIndexBelow(s, t, k - 1)
  }

  /** Kotlin's `s.lastIndexOf(t)`, with -1 written as None. */
  function LastIndexOf(s: string, t: string): (r: Option<nat>)
    ensures r.Some? ==> OccursAt(s, t, r.value)
    ensures r.Some? ==> forall j :: r.value < j ==> !OccursAt(s, t, j)
    ensures r.None? ==> forall j :: !OccursAt(s, t, j)
  {
    LastIndexBelow(s, t, |s| + 1)
  }

  lemma OccursInPrefix(s: string, n: nat, t: string, j: int)
    requires n <= |s| && OccursAt(s[..n], t, j)
    ensures OccursAt(s, t, j) && j + |t| <= n
  {
    assert s[..n][j..j + |t|] == s[j..j + |t|];
  }

  lemma OccursInSuffix(s: string, n: nat, t: string, j: int)
    requires n <= |s| && OccursAt(s[n..], t, j)
    ensures OccursAt(s, t, n + j)
  {
    assert s[n..][j..j + |t|] == s[n + j..n + j + |t|];
  }

  /** A non-empty `t` that does not occur in `s` below `n` does not occur in `s[..n]`. */
  lemma NotInPrefix(s: string, n: nat, t: string)
    requires n <= |s|
    requires forall j :: 0 <= j < n ==> !OccursAt(s, t, j)
    ensures t != [] ==> !Contains(s[..n], t)
  {
    if t != [] && Contains(s[..n], t) {
      OccursInPrefix(s, n, t, IndexOf(s[..n], t).value);
    }
  }

  /** A non-empty `t` whose last occurrence in `s` is at `i` does not occur after it. */
  lemma NotAfterLast(s: string, i: nat, t: string)
    requires OccursAt(s, t, i)
    requires forall j :: i < j ==> !OccursAt(s, t, j)
    ensures t != [] ==> !Contains(s[i + |t|..], t)
  {
    if t != [] && Contains(s[i + |t|..], t) {
      OccursInSuffix(s, i + |t|, t, IndexOf(s[i + |t|..], t).value);
    }
  }

  /** A text that holds a character missing from `s` does not occur in `s`. */
  lemma CharBlocksContains(s: string, t: string, c: char)
    requires c !in s && c in t
    ensures !Contains(s, t)
  {
    var m :| 0 <= m < |t| && t[m] == c;
    assert forall i :: OccursAt(s, t, i) ==> s[i + m] == t[m];
  }

  /** For a one-character delimiter, containment is membership. */
  lemma ContainsChar(s: string, c: char)
    ensures Contains(s, [c]) <==> c in s
  {
    if c in s {
      var i :| 0 <= i < |s| && s[i] == c;
      OccursContains(s, [c], i);
    }
    if Contains(s, [c]) {
      var i := IndexOf(s, [c]).value;
      assert s[i..i + 1] == [s[i]];
    }
  }

  /** Kotlin's `s.substringBefore(d)`: the text before the first `d`, all of `s` when `d` is missing. */
  function SubstringBefore(s: string, d: string): (r: string)
    ensures r <= s
    ensures Contains(s, d) ==> OccursAt(s, d, |r|) && (d != [] ==> !Contains(r, d))
    ensures !Contains(s, d) ==> r == s
  {
    match IndexOf(s, d)
    case Some(i) =>
      NotInPrefix(s, i, d); s[..i]
    case None => s
  }

  /** Kotlin's `s.substringAfter(d)`: the text after the first `d`, all of `s` when `d` is missing. */
  function SubstringAfter(s: string, d: string): (r: string)
    ensures Contains(s, d) ==> s == SubstringBefore(s, d) + d + r
    ensures !Contains(s, d) ==> r == s
  {
    match IndexOf(s, d)
    case Some(i) =>
      assert s == s[..i] + s[i..i + |d|] + s[i + |d|..];
      s[i + |d|..]
    case None => s
  }

  /** Kotlin's `s.substringAfterLast(d)`: the text after the last `d`, all of `s` when `d` is missing. */
  function SubstringAfterLast(s: string, d: string): (r: string)
    ensures |r| <= |s| && r == s[|s| - |r|..]
    ensures Contains(s, d) ==> OccursAt(s, d, |s| - |r| - |d|) && (d != [] ==> !Contains(r, d))
    ensures Contains(s, d) ==> forall j :: |s| - |r| - |d| < j ==> !OccursAt(s, d, j)
    ensures !Contains(s, d) ==> r == s
  {
    match LastIndexOf(s, d)
    case Some(i) =>
      NotAfterLast(s, i, d); s[i + |d|..]
    case None => s
  }

  /** Kotlin's `s.substringBeforeLast(d)`: the text before the last `d`, all of `s` when `d` is missing. */
  function SubstringBeforeLast(s: string, d: string): (r: string)
    ensures r <= s
    ensures Contains(s, d) ==> OccursAt(s, d, |r|) && forall j :: |r| < j ==> !OccursAt(s, d, j)
    ensures !Contains(s, d) ==> r == s
  {
    match LastIndexOf(s, d)
    case Some(i) => s[..i]
    case None => s
  }

  /** Kotlin's `xs.find { it.contains(t) }`: the first element of `xs` that contains `t`. */
  function FirstContaining(xs: seq<string>, t: string): (r: Option<string>)
    ensures r.Some? ==> r.value in xs && Contains(r.value, t)
    ensures r.None? ==> forall k :: 0 <= k < |xs| ==> !Contains(xs[k], t)
  {
    if xs == [] then None
    else if Contains(xs[0], t) then Some(xs[0])
    else
      var r := FirstContaining(xs[1..], t);
      assert forall k :: 1 <= k < |xs| ==> xs[1..][k - 1] == xs[k];
      r
  }

  /** Containment is transitive. */
  lemma ContainsTransitive(a: string, b: string, c: string)
    requires Contains(a, b) && Contains(b, c)
    ensures Contains(a, c)
  {
    var i := IndexOf(a, b).value;
    var j := IndexOf(b, c).value;
    assert a[i + j..i + j + |c|] == b[j..j + |c|];
    OccursContains(a, c, i + j);
  }

  /**
   * After the last `d` of `a + d + b` comes exactly `b`, provided `b` lacks the
   * last character of `d` (so no later `d` can end inside `b`).
   */
  lemma AfterLastOfEnd(a: string, d: string, b: string)
    requires d != [] && d[|d| - 1] !in b
    ensures SubstringAfterLast(a + d + b, d) == b
  {
    var s := a + d + b;
    assert s[|a|..|a| + |d|] == d;
    OccursContains(s, d, |a|);
    var r := SubstringAfterLast(s, d);
    var p := |s| - |r| - |d|;
    assert OccursAt(s, d, |a|) && OccursAt(s, d, p);
    assert s[p + |d| - 1] == s[p..p + |d|][|d| - 1] == d[|d| - 1];
    assert forall q :: |a| + |d| <= q < |s| ==> s[q] == b[q - |a| - |d|];
    assert s[|a| + |d|..] == b;
  }

  /** Before the last `c` of `a + [c] + b`, where `b` has no `c`, comes exactly `a`. */
  lemma BeforeLastChar(a: string, c: char, b: string)
    requires c !in b
    ensures SubstringBeforeLast(a + [c] + b, [c]) == a
  {
    var s := a + [c] + b;
    assert s[|a|..|a| + 1] == [c];
    OccursContains(s, [c], |a|);
    assert OccursAt(s, [c], |a|);
    var r := SubstringBeforeLast(s, [c]);
    assert s[|r|..|r| + 1] == [c] && s[|r|] == c;
    assert forall q :: |a| < q < |s| ==> s[q] == b[q - |a| - 1];
    assert s[..|a|] == a;
  }

  /** The first index at or after `i` whose character is kept, that is, not in `drop` (|s| when there is none). */
  function KeptFrom(s: string, drop: set<char>, i: nat): (j: nat)
    requires i <= |s|
    ensures i <= j <= |s|
    ensures forall k :: i <= k < j ==> s[k] in drop
    ensures j < |s| ==> s[j] !in drop
    decreases |s| - i
  {
    if i < |s| && s[i] in drop then KeptFrom(s, drop, i + 1) else i
  }

  /** The index just after the last kept character below `j` (0 when there is none). */
  function KeptBelow(s: string, drop: set<char>, j: nat): (e: nat)
    requires j <= |s|
    ensures e <= j
    ensures forall k :: e <= k < j ==> s[k] in drop
    ensures e > 0 ==> s[e - 1] !in drop
    decreases j
  {
    if j > 0 && s[j - 1] in drop then KeptBelow(s, drop, j - 1) else j
  }

  /** Kotlin's `s.trim(*chars)`: drops the characters of `drop` from both ends. */
  function Strip(s: string, drop: set<char>): (r: string)
    ensures r == [] || (r[0] !in drop && r[|r| - 1] !in drop)
    ensures r == [] <==> forall k :: 0 <= k < |s| ==> s[k] in drop
    ensures s == [] || (s[0] !in drop && s[|s| - 1] !in drop) ==> r == s
  {
    var i := KeptFrom(s, drop, 0);
    var e := KeptBelow(s, drop, |s|);
    if e <= i then []
    else
      assert s[i] !in drop;
      s[i..e]
  }

  /** What stripping leaves is a part of the original. */
  lemma StripContained(s: string, drop: set<char>)
    ensures Contains(s, Strip(s, drop))
  {
    var i := KeptFrom(s, drop, 0);
    var e := KeptBelow(s, drop, |s|);
    if e <= i {
      OccursContains(s, [], 0);
    } else {
      OccursContains(s, s[i..e], i);
    }
  }

  /**
   * The characters for which Kotlin's `Char.isWhitespace()` holds on the JVM
   * (`Character.isWhitespace` or `Character.isSpaceChar`).
   */
  predicate IsWhitespace(c: char) {
    '\t' <= c <= '\r' || '\U{1C}' <= c <= ' ' || c == '\U{A0}' || c == '\U{1680}'
    || '\U{2000}' <= c <= '\U{200A}' || c == '\U{2028}' || c == '\U{2029}' || c == '\U{202F}'
    || c == '\U{205F}' || c == '\U{3000}'
  }

  const Whitespace: set<char> := set c: char | IsWhitespace(c)

  /** Kotlin's `s.trim()`. */
  function Trim(s: string): string {
    Strip(s, Whitespace)
  }

  /** Trimming cannot bring in a text that was not there. */
  lemma TrimKeepsAbsent(s: string, d: string)
    requires !Contains(s, d)
    ensures !Contains(Trim(s), d)
  {
    StripContained(s, Whitespace);
    if Contains(Trim(s), d) {
      ContainsTransitive(s, Trim(s), d);
    }
  }

  /**
   * Trimming a text that already has no whitespace at either end, with
   * whitespace around it, gives that text.
   */
  lemma TrimPadded(a: string, x: string, b: string)
    requires IsBlank(a) && IsBlank(b)
    requires x != [] && !IsWhitespace(x[0]) && !IsWhitespace(x[|x| - 1])
    ensures Trim(a + x + b) == x
  {
    var s := a + x + b;
    assert forall k :: 0 <= k < |a| ==> s[k] == a[k];
    assert forall k :: |a| + |x| <= k < |s| ==> s[k] == b[k - |a| - |x|];
    assert s[|a|] == x[0] && s[|a| + |x| - 1] == x[|x| - 1];
    assert KeptFrom(s, Whitespace, 0) == |a|;
    assert KeptBelow(s, Whitespace, |s|) == |a| + |x|;
    assert s[|a|..|a| + |x|] == x;
  }

  /** A text missing from `x` and from `y` is missing from `x`, `c`, `y` when it does not hold `c`. */
  lemma LacksAcross(x: string, c: char, y: string, t: string)
    requires t != [] && c !in t && !Contains(x, t) && !Contains(y, t)
    ensures !Contains(x + [c] + y, t)
  {
    var s := x + [c] + y;
    forall j | 0 <= j && j + |t| <= |s|
      ensures !OccursAt(s, t, j)
    {
      if j + |t| <= |x| {
        assert s[j..j + |t|] == x[j..j + |t|];
        if OccursAt(s, t, j) {
          OccursContains(x, t, j);
        }
      } else if j > |x| {
        assert s[j..j + |t|] == y[j - |x| - 1..j - |x| - 1 + |t|];
        if OccursAt(s, t, j) {
          OccursContains(y, t, j - |x| - 1);
        }
      } else {
        assert s[j..j + |t|][|x| - j] == c;
      }
    }
  }

  /** The first `d` in "p, d, tail" is the one after `p` when `p` lacks `d` and ends with a character `d` does not hold. */
  lemma IndexOfAfterPadded(p: string, d: string, tail: string)
    requires d != [] && !Contains(p, d) && p != [] && p[|p| - 1] !in d
    ensures IndexOf(p + d + tail, d) == Some(|p|)
  {
    var s := p + d + tail;
    assert s[|p|..|p| + |d|] == d;
    assert OccursAt(s, d, |p|);
    forall j | 0 <= j < |p|
      ensures !OccursAt(s, d, j)
    {
      if j + |d| <= |p| {
        assert s[j..j + |d|] == p[j..j + |d|];
        if OccursAt(s, d, j) {
          OccursContains(p, d, j);
        }
      } else {
        assert s[|p| - 1] == p[|p| - 1];
      }
    }
  }

  /** A text that starts with `t` finds `t` at index 0. */
  lemma IndexOfStart(t: string, rest: string)
    ensures IndexOf(t + rest, t) == Some(0)
  {
    assert (t + rest)[0..|t|] == t;
    assert OccursAt(t + rest, t, 0);
  }

  /** Kotlin's `s.isBlank()`: empty or whitespace only. */
  predicate IsBlank(s: string) {
    forall k :: 0 <= k < |s| ==> IsWhitespace(s[k])
  }

  /** Kotlin's `s.split(d)` for a non-empty delimiter: the pieces between the occurrences of `d`, left to right. */
  function Split(s: string, d: string): (r: seq<string>)
    requires d != []
    ensures |r| >= 1
    ensures forall k :: 0 <= k < |r| ==> !Contains(r[k], d)
    decreases |s|
  {
    match IndexOf(s, d)
    case Some(i) =>
      NotInPrefix(s, i, d);
      [s[..i]] + Split(s[i + |d|..], d)
    case None => [s]
  }

  /** A character missing from `s` is missing from every text that `s` contains. */
  lemma CharNotInContained(s: string, r: string, c: char)
    requires Contains(s, r) && c !in s
    ensures c !in r
  {
    var i := IndexOf(s, r).value;
    assert forall q :: 0 <= q < |r| ==> r[q] == s[i + q];
  }

  /** Kotlin's `pieces.joinToString(d)`. */
  function Join(pieces: seq<string>, d: string): string {
    if |pieces| == 0 then []
    else if |pieces| == 1 then pieces[0]
    else pieces[0] + d + Join(pieces[1..], d)
  }

  /** Splitting on `d` and joining with `d` gives the string back. */
  lemma {:induction false} JoinSplit(s: string, d: string)
    requires d != []
    ensures Join(Split(s, d), d) == s
    decreases |s|
  {
    match IndexOf(s, d)
    case Some(i) =>
      var rest := s[i + |d|..];
      var pieces := Split(rest, d);
      JoinSplit(rest, d);
      assert Split(s, d) == [s[..i]] + pieces;
      assert ([s[..i]] + pieces)[1..] == pieces;
      assert Join([s[..i]] + pieces, d) == s[..i] + d + Join(pieces, d);
      assert s == s[..i] + s[i..i + |d|] + rest;
    case None =>
  }

  /** The first `d` in "p, d, tail" is the one after `p` when `p` lacks the first character of `d`. */
  lemma IndexOfAfter(p: string, d: string, tail: string)
    requires d != [] && d[0] !in p
    ensures IndexOf(p + d + tail, d) == Some(|p|)
  {
    var s := p + d + tail;
    assert s[|p|..|p| + |d|] == d;
    assert OccursAt(s, d, |p|);
    forall j | 0 <= j < |p|
      ensures !OccursAt(s, d, j)
    {
      assert s[j] == p[j];
    }
  }

  /** Joining pieces that lack the first character of `d` with `d` and splitting on `d` gives the pieces back. */
  lemma {:induction false} SplitJoin(pieces: seq<string>, d: string)
    requires |pieces| >= 1 && d != []
    requires forall k :: 0 <= k < |pieces| ==> d[0] !in pieces[k]
    ensures Split(Join(pieces, d), d) == pieces
    decreases |pieces|
  {
    var p := pieces[0];
    CharBlocksContains(p, d, d[0]);
    if |pieces| > 1 {
      var rest := pieces[1..];
      var tail := Join(rest, d);
      var s := Join(pieces, d);
      assert s == p + d + tail;
      IndexOfAfter(p, d, tail);
      assert s[..|p|] == p && s[|p| + |d|..] == tail;
      SplitJoin(rest, d);
      calc {
        Split(s, d);
        [p] + Split(tail, d);
        [p] + rest;
        pieces;
      }
    }
  }

  /** Kotlin's `s.replace(from, to)`: every occurrence of `from`, left to right and without overlap, becomes `to`. */
  function Replace(s: string, from: string, to: string): (r: string)
    requires from != []
    ensures !Contains(s, from) ==> r == s
    ensures Contains(s, from) ==> StartsWith(r, SubstringBefore(s, from) + to)
    decreases |s|
  {
    match IndexOf(s, from)
    case Some(i) => s[..i] + to + Replace(s[i + |from|..], from, to)
    case None => s
  }

  /** Replacing is splitting on `from` and joining with `to`. */
  lemma {:induction false} ReplaceIsSplitJoin(s: string, from: string, to: string)
    requires from != []
    ensures Replace(s, from, to) == Join(Split(s, from), to)
    decreases |s|
  {
    match IndexOf(s, from)
    case Some(i) =>
      var rest := s[i + |from|..];
      var pieces := Split(rest, from);
      ReplaceIsSplitJoin(rest, from, to);
      assert Split(s, from) == [s[..i]] + pieces;
      assert ([s[..i]] + pieces)[1..] == pieces;
      assert Join([s[..i]] + pieces, to) == s[..i] + to + Join(pieces, to);
    case None =>
  }
}
