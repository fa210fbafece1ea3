/**
  The pieces of the Java platform that the loader and the analyzer lean on:
  32-bit `int` arithmetic, `String.trim`, the `\s` class of `java.util.regex`,
  `Integer.parseInt` and `String.equalsIgnoreCase`.
 */
module JavaText {
  import opened Wrappers

  // ---------------------------------------------------------------------------
  // 32-bit integers
  // ---------------------------------------------------------------------------

  const MinInt32: int := -0x8000_0000
  const MaxInt32: int := 0x7FFF_FFFF

  /** The values of a Java `int` (and of a non-null `Integer`). */
  type Int32 = x: int | MinInt32 <= x <= MaxInt32

  /** Two's-complement wrap-around of a mathematical integer into an `int`. */
  function Wrap32(x: int): (r: Int32)
    ensures MinInt32 <= x <= MaxInt32 ==> r == x
    ensures (r - x) % 0x1_0000_0000 == 0
  {
    (x - MinInt32) % 0x1_0000_0000 + MinInt32
  }

  /** Java's `a - b` on two `int` values. */
  function Sub32(a: Int32, b: Int32): (r: Int32)
    ensures MinInt32 <= a - b <= MaxInt32 ==> r == a - b
    ensures a - b > MaxInt32 ==> r == a - b - 0x1_0000_0000
    ensures a - b < MinInt32 ==> r == a - b + 0x1_0000_0000
  {
    Wrap32(a - b)
  }

  // ---------------------------------------------------------------------------
  // Substrings
  // ---------------------------------------------------------------------------

  /** `part` occurs in `s` starting at index `i`. */
  predicate IsInfixAt(part: string, s: string, i: int)
  {
    0 <= i && i + |part| <= |s| && s[i..i + |part|] == part
  }

  lemma InfixOfInfix(a: string, b: string, c: string, i: int, j: int)
    requires IsInfixAt(a, b, i) && IsInfixAt(b, c, j)
    ensures IsInfixAt(a, c, i + j)
  {
    forall k | 0 <= k < |a|
      ensures c[i + j + k] == a[k]
    {
      assert b[i + k] == a[k];
      assert c[j + (i + k)] == b[i + k];
    }
  }

  // ---------------------------------------------------------------------------
  // String.trim
  // ---------------------------------------------------------------------------

  /** `String.trim` removes every character whose code is at most U+0020. */
  predicate IsTrimSpace(c: char)
  {
    c <= ' '
  }

  predicate IsTrimmed(s: string)
  {
    |s| == 0 || (!IsTrimSpace(s[0]) && !IsTrimSpace(s[|s| - 1]))
  }

  /**
    `String.trim`: drops the trim-space characters at both ends. The result
    has none at either end, and a string that has none is returned unchanged.
   */
  function Trim(s: string): (r: string)
    ensures IsTrimmed(r)
    ensures IsTrimmed(s) ==> r == s
    decreases |s|
  {
    if |s| > 0 && IsTrimSpace(s[0]) then Trim(s[1..])
    else if |s| > 0 && IsTrimSpace(s[|s| - 1]) then Trim(s[..|s| - 1])
    else s
  }

  /** The number of trim-space characters `String.trim` drops at the front. */
  ghost function TrimOffset(s: string): nat
    decreases |s|
  {
    if |s| > 0 && IsTrimSpace(s[0]) then 1 + TrimOffset(s[1..]) else 0
  }

  lemma {:induction false} TrimPiece(s: string)
    ensures IsInfixAt(Trim(s), s, TrimOffset(s))
    ensures forall k :: 0 <= k < TrimOffset(s) ==> IsTrimSpace(s[k])
    ensures forall k :: TrimOffset(s) + |Trim(s)| <= k < |s| ==> IsTrimSpace(s[k])
    decreases |s|
  {
    var r := Trim(s);
    if |s| > 0 && IsTrimSpace(s[0]) {
      var t := s[1..];
      TrimPiece(t);
      assert IsInfixAt(t, s, 1);
      InfixOfInfix(r, t, s, TrimOffset(t), 1);
      forall k | 1 <= k < |s|
        ensures s[k] == t[k - 1]
      {
      }
    } else if |s| > 0 && IsTrimSpace(s[|s| - 1]) {
      var t := s[..|s| - 1];
      TrimPiece(t);
      assert IsInfixAt(t, s, 0);
      InfixOfInfix(r, t, s, TrimOffset(t), 0);
      forall k | 0 <= k < |t|
        ensures s[k] == t[k]
      {
      }
    } else {
      assert IsInfixAt(r, s, 0);
    }
  }

  /** A string that starts with a visible character keeps it when trimmed. */
  lemma {:induction false} TrimKeepsVisibleStart(s: string)
    requires |s| > 0 && !IsTrimSpace(s[0])
    ensures |Trim(s)| > 0 && Trim(s)[0] == s[0]
    decreases |s|
  {
    if IsTrimSpace(s[|s| - 1]) {
      TrimKeepsVisibleStart(s[..|s| - 1]);
    }
  }

  /** Every character of a trimmed string is a character of the original. */
  lemma TrimKeepsCharacters(s: string, c: char)
    requires c in Trim(s)
    ensures c in s
  {
    var r := Trim(s);
    TrimPiece(s);
    var i := TrimOffset(s);
    var k :| 0 <= k < |r| && r[k] == c;
    assert s[i + k] == c;
  }

  // ---------------------------------------------------------------------------
  // The \s character class of java.util.regex
  // ---------------------------------------------------------------------------

  /** `\s` is `[ \t\n\x0B\f\r]`. */
  predicate IsRegexSpace(c: char)
  {
    c == ' ' || c == '\t' || c == '\n' || c == '\U{B}' || c == '\U{C}' || c == '\r'
  }

  lemma RegexSpaceIsTrimSpace(c: char)
    ensures IsRegexSpace(c) ==> IsTrimSpace(c)
  {
  }

  // ---------------------------------------------------------------------------
  // Integer.parseInt
  // ---------------------------------------------------------------------------

  predicate IsDigit(c: char)
  {
    '0' <= c <= '9'
  }

  predicate AllDigits(s: string)
  {
    forall k :: 0 <= k < |s| ==> IsDigit(s[k])
  }

  /** The value of a string of decimal digits, most significant first. */
  function DigitsValue(s: string): nat
    requires AllDigits(s)
  {
    if |s| == 0 then 0
    else DigitsValue(s[..|s| - 1]) * 10 + ((s[|s| - 1] as int) - ('0' as int))
  }

  /**
    `Integer.parseInt(s)`: an optional `-` or `+` followed by at least one
    decimal digit, whose value fits in an `int`; anything else is a
    `NumberFormatException`, modelled as `None`.
   */
  function ParseInt(s: string): (r: Option<Int32>)
    ensures r.Some? ==> |s| > 0 && AllDigits(s[1..])
    ensures r.Some? && !IsDigit(s[0]) ==> |s| > 1 && (s[0] == '-' || s[0] == '+')
  {
    if |s| == 0 then None
    else
      var signed := s[0] == '-' || s[0] == '+';
      var digits := if signed then s[1..] else s;
      if |digits| == 0 || !AllDigits(digits) then None
      else
        var v: int := if s[0] == '-' then -(DigitsValue(digits) as int) else DigitsValue(digits);
        if MinInt32 <= v <= MaxInt32 then Some(v) else None
  }

  /** `Integer.toString` for non-negative values: the shortest decimal spelling. */
  function ShowNat(n: nat): (r: string)
    ensures |r| > 0 && AllDigits(r)
  {
    if n < 10 then [('0' as int + n) as char]
    else ShowNat(n / 10) + [('0' as int + n % 10) as char]
  }

  /** `Integer.toString`. */
  function ShowInt(n: Int32): string
  {
    if n < 0 then "-" + ShowNat(-(n as int)) else ShowNat(n)
  }

  lemma {:induction false} DigitsOfShowNat(n: nat)
    ensures DigitsValue(ShowNat(n)) == n
  {
    if n >= 10 {
      DigitsOfShowNat(n / 10);
      assert ShowNat(n)[..|ShowNat(n)| - 1] == ShowNat(n / 10);
    }
  }

  /** Parsing what `Integer.toString` printed gives the number back. */
  lemma ParseShowRoundTrip(n: Int32)
    ensures ParseInt(ShowInt(n)) == Some(n)
  {
    if n < 0 {
      ParseShowNegative(n);
    } else {
      ParseShowNonNegative(n);
    }
  }

  lemma ParseShowNonNegative(n: Int32)
    requires n >= 0
    ensures ParseInt(ShowInt(n)) == Some(n)
  {
    var s := ShowNat(n);
    assert ShowInt(n) == s;
    assert IsDigit(s[0]);
    DigitsOfShowNat(n);
  }

  lemma ParseShowNegative(n: Int32)
    requires n < 0
    ensures ParseInt(ShowInt(n)) == Some(n)
  {
    var m: nat := -(n as int);
    var s := "-" + ShowNat(m);
    assert ShowInt(n) == s;
    assert s[0] == '-';
    assert s[1..] == ShowNat(m);
    DigitsOfShowNat(m);
  }

  // ---------------------------------------------------------------------------
  // String.equalsIgnoreCase
  // ---------------------------------------------------------------------------

  function ToUpper(c: char): char
  {
    if 'a' <= c <= 'z' then (c as int - 32) as char else c
  }

  function ToLower(c: char): char
  {
    if 'A' <= c <= 'Z' then (c as int + 32) as char else c
  }

  /** The character test of `String.regionMatches(true, ...)`. */
  predicate CharEqualsIgnoreCase(a: char, b: char)
  {
    a == b || ToUpper(a) == ToUpper(b) || ToLower(ToUpper(a)) == ToLower(ToUpper(b))
  }

  /** `a.equalsIgnoreCase(b)` for a non-null `b`. */
  predicate EqualsIgnoreCase(a: string, b: string)
  {
    |a| == |b| && forall k :: 0 <= k < |a| ==> CharEqualsIgnoreCase(a[k], b[k])
  }

  /** The eight spellings of "yes" that differ only in the case of ASCII letters. */
  const YesSpellings: set<string> :=
    {"yes", "yeS", "yEs", "yES", "Yes", "YeS", "YEs", "YES"}

  /** `"yes".equalsIgnoreCase(t)` holds for exactly the eight case variants of "yes". */
  lemma YesIgnoringCase(t: string)
    ensures EqualsIgnoreCase("yes", t) <==> t in YesSpellings
  {
    if EqualsIgnoreCase("yes", t) {
      assert CharEqualsIgnoreCase('y', t[0]) && CharEqualsIgnoreCase('e', t[1]) && CharEqualsIgnoreCase('s', t[2]);
      assert t[0] == 'y' || t[0] == 'Y';
      assert t[1] == 'e' || t[1] == 'E';
      assert t[2] == 's' || t[2] == 'S';
      assert t == [t[0], t[1], t[2]];
    }
  }
}
