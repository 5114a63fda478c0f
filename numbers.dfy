/**
 * Kotlin's `Int`, `String.toIntOrNull()` and the decimal text that a string
 * template such as "$page" produces for an `Int`.
 */
module Numbers {
  import opened Wrappers

  const IntMin: int := -0x8000_0000
  const IntMax: int := 0x7fff_ffff

  /** Kotlin's 32-bit `Int`. */
  type Int32 = x: int | IntMin <= x <= IntMax

  predicate IsDigit(c: char) {
    '0' <= c <= '9'
  }

  predicate AllDigits(s: string) {
    forall k :: 0 <= k < |s| ==> IsDigit(s[k])
  }

  function DigitValue(c: char): nat
    requires IsDigit(c)
  {
    (c as int) - ('0' as int)
  }

  function DigitChar(d: nat): (c: char)
    requires d < 10
    ensures IsDigit(c) && DigitValue(c) == d
  {
    (('0' as int) + d) as char
  }

  /** The value of a run of decimal digits, most significant first. */
  function DigitsValue(s: string): nat
    requires AllDigits(s)
    decreases |s|
  {
    if |s| == 0 then 0 else DigitsValue(s[..|s| - 1]) * 10 + DigitValue(s[|s| - 1])
  }

  /**
   * Kotlin's `s.toIntOrNull()`: an optional '-' or '+' followed by at least
   * one digit, whose value fits in an `Int`; anything else is null.
   */
  function ToIntOrNull(s: string): (r: Option<Int32>)
    ensures r.Some? ==> s != [] && AllDigits(s[1..])
    ensures r.Some? && !IsDigit(s[0]) ==> |s| >= 2 && (s[0] == '-' || s[0] == '+')
    ensures r.Some? && r.value < 0 ==> s[0] == '-'
    ensures s != [] && AllDigits(s) ==> (r.Some? <==> DigitsValue(s) <= IntMax) && (r.Some? ==> r.value == DigitsValue(s))
    ensures |s| >= 2 && s[0] == '+' && AllDigits(s[1..]) ==>
      (r.Some? <==> DigitsValue(s[1..]) <= IntMax) && (r.Some? ==> r.value == DigitsValue(s[1..]))
    ensures |s| >= 2 && s[0] == '-' && AllDigits(s[1..]) ==>
      (r.Some? <==> DigitsValue(s[1..]) <= -IntMin) && (r.Some? ==> r.value == -(DigitsValue(s[1..]) as int))
  {
    if |s| == 0 then None
    else if s[0] == '-' || s[0] == '+' then
      var digits := s[1..];
      if |digits| == 0 || !AllDigits(digits) then None
      else
        var v: int := if s[0] == '-' then -(DigitsValue(digits) as int) else DigitsValue(digits);
        if IntMin <= v <= IntMax then Some(v) else None
    else if AllDigits(s) && DigitsValue(s) <= IntMax then Some(DigitsValue(s))
    else None
  }

  /** The decimal digits of `n`, without leading zeros. */
  function NatToString(n: nat): (s: string)
    ensures s != []
    decreases n
  {
    if n < 10 then [DigitChar(n)] else NatToString(n / 10) + [DigitChar(n % 10)]
  }

  /**
   * The text of `n` is all digits, their value is `n`, and it starts with
   * '0' only for 0 itself.
   */
  lemma {:induction false} NatToStringValue(n: nat)
    ensures AllDigits(NatToString(n))
    ensures DigitsValue(NatToString(n)) == n
    ensures NatToString(n)[0] == '0' ==> n == 0
    decreases n
  {
    if n >= 10 {
      var init := NatToString(n / 10);
      var s := NatToString(n);
      NatToStringValue(n / 10);
      assert s == init + [DigitChar(n % 10)];
      assert s[..|s| - 1] == init;
      assert s[0] == init[0];
    }
  }

  /** Kotlin's `n.toString()`, as in the template "$n". */
  function IntToString(n: int): (s: string)
    ensures s != []
    ensures s[0] == '-' <==> n < 0
  {
    if n < 0 then "-" + NatToString(-n)
    else
      var t := NatToString(n);
      assert IsDigit(t[0]) by { NatToStringValue(n); }
      t
  }

  /** The text of an `Int` is its digits, after a '-' when it is negative. */
  lemma IntToStringDigits(n: int)
    ensures n >= 0 ==> AllDigits(IntToString(n))
    ensures n < 0 ==> AllDigits(IntToString(n)[1..])
    ensures forall c :: c in IntToString(n) ==> IsDigit(c) || c == '-'
  {
    var s := IntToString(n);
    if n < 0 {
      NatToStringValue(-n);
      assert s[1..] == NatToString(-n);
      forall c | c in s
        ensures IsDigit(c) || c == '-'
      {
        var k :| 0 <= k < |s| && s[k] == c;
        if k > 0 {
          assert c == s[1..][k - 1];
        }
      }
    } else {
      NatToStringValue(n);
    }
  }

  /** Parsing the text of an `Int` gives the `Int` back. */
  lemma ParseIntToString(n: Int32)
    ensures ToIntOrNull(IntToString(n)) == Some(n)
  {
    var s := IntToString(n);
    if n < 0 {
      var m: nat := -(n as int);
      var t := NatToString(m);
      NatToStringValue(m);
      assert s == "-" + t && s[1..] == t;
      assert DigitsValue(t) == m;
    } else {
      var t := NatToString(n);
      NatToStringValue(n);
      assert s == t && AllDigits(t) && DigitsValue(t) == n;
      assert IsDigit(s[0]);
    }
  }

  /** A digit string without a leading zero is the text of its own value. */
  lemma {:induction false} NatToStringOfDigits(s: string)
    requires s != [] && AllDigits(s) && (s[0] == '0' ==> |s| == 1)
    ensures NatToString(DigitsValue(s)) == s
    decreases |s|
  {
    var n := DigitsValue(s);
    if |s| == 1 {
      assert n == DigitValue(s[0]) < 10;
      assert DigitChar(n) == s[0];
    } else {
      var init := s[..|s| - 1];
      assert s[0] != '0';
      NatToStringOfDigits(init);
      assert DigitsValue(init) >= 1 by {
        LeadingDigitPositive(init);
      }
      assert n / 10 == DigitsValue(init) && n % 10 == DigitValue(s[|s| - 1]);
      assert DigitChar(n % 10) == s[|s| - 1];
      assert s == init + [s[|s| - 1]];
    }
  }

  lemma {:induction false} LeadingDigitPositive(s: string)
    requires s != [] && AllDigits(s) && s[0] != '0'
    ensures DigitsValue(s) >= 1
    decreases |s|
  {
    if |s| > 1 {
      LeadingDigitPositive(s[..|s| - 1]);
    }
  }
}
