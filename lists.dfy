/** Kotlin's `filter`, `mapNotNull`, `distinct` and `take` on lists, with the order facts they keep. */
module Lists {
  import opened Wrappers

  /** No element appears twice. */
  predicate NoDuplicates<T(==)>(s: seq<T>) {
    forall i, j :: 0 <= i < j < |s| ==> s[i] != s[j]
  }

  /** The index of the first occurrence of `x` in `s`. */
  function FirstIndex<T(==)>(s: seq<T>, x: T): (i: nat)
    requires x in s
    ensures i < |s| && s[i] == x && x !in s[..i]
  {
    if s[0] == x then 0
    else
      var i := 1 + FirstIndex(s[1..], x);
      assert s[..i] == [s[0]] + s[1..][..i - 1];
      i
  }

  /** The first occurrence of `x` in a prefix of `s` is its first occurrence in `s`. */
  lemma FirstIndexInPrefix<T>(s: seq<T>, n: nat, x: T)
    requires n <= |s| && x in s[..n]
    ensures x in s && FirstIndex(s[..n], x) == FirstIndex(s, x)
  {
    var k := FirstIndex(s[..n], x);
    assert s[k] == x && s[..n][..k] == s[..k];
  }

  /** Every element of `r` occurs in `s`, and `r` lists them in the order in which they first occur in `s`. */
  ghost predicate InFirstOccurrenceOrder<T>(r: seq<T>, s: seq<T>) {
    && (forall x :: x in r ==> x in s)
    && forall i, j :: 0 <= i < j < |r| ==> FirstIndex(s, r[i]) < FirstIndex(s, r[j])
  }

  /** Kotlin's `filter(p)`. */
  function Filter<T>(s: seq<T>, p: T -> bool): (r: seq<T>)
    ensures |r| <= |s|
    ensures forall x :: x in r ==> x in s && p(x)
    ensures forall x :: x in s && p(x) ==> x in r
    decreases |s|
  {
    if |s| == 0 then []
    else
      var init := Filter(s[..|s| - 1], p);
      assert s == s[..|s| - 1] + [s[|s| - 1]];
      if p(s[|s| - 1]) then init + [s[|s| - 1]] else init
  }

  /** Filtering keeps the relative order of first occurrences. */
  lemma {:induction false} FilterKeepsOrder<T>(s: seq<T>, p: T -> bool, x: T, y: T)
    requires x in Filter(s, p) && y in Filter(s, p)
    requires FirstIndex(Filter(s, p), x) < FirstIndex(Filter(s, p), y)
    ensures FirstIndex(s, x) < FirstIndex(s, y)
    decreases |s|
  {
    var n := |s| - 1;
    var init := s[..n];
    var last := s[n];
    var fi := Filter(init, p);
    var f := Filter(s, p);
    assert s == init + [last];
    assert f == if p(last) then fi + [last] else fi;
    assert f[..|fi|] == fi;
    assert x in fi;
    FirstIndexInPrefix(s, n, x);
    if y in fi {
      FirstIndexInPrefix(f, |fi|, x);
      FirstIndexInPrefix(f, |fi|, y);
      FilterKeepsOrder(init, p, x, y);
      FirstIndexInPrefix(s, n, y);
    } else {
      assert y == last && y !in init;
    }
  }

  /** Filtering with a test that every element passes changes nothing. */
  lemma {:induction false} FilterAll<T>(s: seq<T>, p: T -> bool)
    requires forall k :: 0 <= k < |s| ==> p(s[k])
    ensures Filter(s, p) == s
    decreases |s|
  {
    if |s| > 0 {
      FilterAll(s[..|s| - 1], p);
    }
  }

  /** Kotlin's `distinct()`: the first occurrence of each element, in order. */
  function Distinct<T(==)>(s: seq<T>): (r: seq<T>)
    ensures NoDuplicates(r)
    ensures forall x :: x in s ==> x in r
    ensures InFirstOccurrenceOrder(r, s)
    decreases |s|
  {
    if |s| == 0 then []
    else
      var n := |s| - 1;
      var init := Distinct(s[..n]);
      assert s == s[..n] + [s[n]];
      forall x | x in init ensures FirstIndex(s[..n], x) == FirstIndex(s, x) {
        FirstIndexInPrefix(s, n, x);
      }
      if s[n] in init then init
      else
        assert FirstIndex(s, s[n]) == n;
        init + [s[n]]
  }

  /** Kotlin's `mapNotNull(f)`: the non-null results of `f`, in order. */
  function MapNotNull<T, U>(s: seq<T>, f: T -> Option<U>): (r: seq<U>)
    ensures |r| <= |s|
    ensures |r| == 0 <==> forall k :: 0 <= k < |s| ==> f(s[k]).None?
    ensures forall k :: 0 <= k < |s| && f(s[k]).Some? ==> f(s[k]).value in r
    ensures forall y :: y in r ==> exists k :: 0 <= k < |s| && f(s[k]) == Some(y)
    decreases |s|
  {
    if |s| == 0 then []
    else
      var init := MapNotNull(s[..|s| - 1], f);
      assert forall k :: 0 <= k < |s| - 1 ==> s[..|s| - 1][k] == s[k];
      match f(s[|s| - 1])
      case Some(y) => init + [y]
      case None => init
  }

  /** When `f` gives a value for every element, `mapNotNull` is a plain map. */
  lemma {:induction false} MapNotNullAllSome<T, U>(s: seq<T>, f: T -> Option<U>, r: seq<U>)
    requires |r| == |s|
    requires forall k :: 0 <= k < |s| ==> f(s[k]) == Some(r[k])
    ensures MapNotNull(s, f) == r
    decreases |s|
  {
    if s == [] {
      assert r == [];
    } else {
      var n := |s| - 1;
      var s', r' := s[..n], r[..n];
      forall k | 0 <= k < n
        ensures f(s'[k]) == Some(r'[k])
      {
        assert r'[k] == r[k] && s'[k] == s[k];
      }
      MapNotNullAllSome(s', f, r');
      var y := r[n];
      MapNotNullStep(s, f, y);
      assert r == r' + [y];
    }
  }

  lemma MapNotNullStep<T, U>(p: seq<T>, f: T -> Option<U>, y: U)
    requires p != [] && f(p[|p| - 1]) == Some(y)
    ensures MapNotNull(p, f) == MapNotNull(p[..|p| - 1], f) + [y]
  {
  }

  /** The first non-null `f(x)` over `xs`, in order: a loop that returns at its first hit. */
  function FirstSome<T, U>(xs: seq<T>, f: T -> Option<U>): (r: Option<U>)
    ensures r.None? <==> forall k :: 0 <= k < |xs| ==> f(xs[k]).None?
    ensures r.Some? ==> exists k :: 0 <= k < |xs| && f(xs[k]) == r && forall j :: 0 <= j < k ==> f(xs[j]).None?
  {
    if xs == [] then None
    else if f(xs[0]).Some? then f(xs[0])
    else
      var r := FirstSome(xs[1..], f);
      assert forall k :: 1 <= k < |xs| ==> xs[1..][k - 1] == xs[k];
      assert r.Some? ==> exists k :: 0 <= k < |xs| && f(xs[k]) == r && forall j :: 0 <= j < k ==> f(xs[j]).None? by {
        if r.Some? {
          var k :| 0 <= k < |xs[1..]| && f(xs[1..][k]) == r && forall j :: 0 <= j < k ==> f(xs[1..][j]).None?;
          assert f(xs[k + 1]) == r && forall j :: 0 <= j < k + 1 ==> f(xs[j]).None?;
        }
      }
      r
  }

  /** The hit at the earliest index is the one that `FirstSome` returns. */
  lemma {:induction false} FirstSomeIsFirst<T, U>(xs: seq<T>, f: T -> Option<U>, k: nat)
    requires k < |xs| && f(xs[k]).Some?
    requires forall j :: 0 <= j < k ==> f(xs[j]).None?
    ensures FirstSome(xs, f) == f(xs[k])
    decreases k
  {
    if k > 0 {
      FirstSomeIsFirst(xs[1..], f, k - 1);
    }
  }

  /** Kotlin's `take(n)`: the first `n` elements, or all of them when there are fewer. */
  function Take<T>(s: seq<T>, n: nat): (r: seq<T>)
    ensures r <= s
    ensures |r| == if |s| < n then |s| else n
  {
    if |s| <= n then s else s[..n]
  }
}
