/**
 * The parts of `java.lang.String` and `java.lang.Integer` that the inventory
 * relies on: a nullable string reference, `trim`, `isBlank`, lower-casing,
 * `contains`, and the decimal text of an `int` used by string concatenation.
 * Characters are Dafny's Unicode scalar values rather than UTF-16 code units.
 */
module JavaString {

  /** A Java `String` reference: `null` or a character sequence. */
  datatype JString = Null | Str(chars: string)

  /** The text string concatenation produces for a reference: `null` reads "null". */
  function Show(s: JString): string
  {
    match s
    case Null => "null"
    case Str(c) => c
  }

  /** The text of a reference, with `null` read as the empty string. */
  function OrEmpty(s: JString): string
  {
    match s
    case Null => ""
    case Str(c) => c
  }

  // ---------- trim ----------

  /** The characters `String.trim` strips: every code point up to U+0020. */
  predicate IsTrimSpace(c: char)
  {
    c <= ' '
  }

  /** A string with nothing left for `trim` to strip. */
  predicate IsTrimmed(s: string)
  {
    s == [] || (!IsTrimSpace(s[0]) && !IsTrimSpace(s[|s| - 1]))
  }

  /** Every character is a trim space. */
  predicate AllTrimSpace(s: string)
  {
    forall i :: 0 <= i < |s| ==> IsTrimSpace(s[i])
  }

  /** Drops the leading trim spaces. */
  function TrimStart(s: string): (r: string)
    ensures |r| <= |s|
    ensures r == s[|s| - |r|..]
    ensures r == [] || !IsTrimSpace(r[0])
    ensures forall i :: 0 <= i < |s| - |r| ==> IsTrimSpace(s[i])
  {
    if s != [] && IsTrimSpace(s[0]) then TrimStart(s[1..]) else s
  }

  /** Drops the trailing trim spaces. */
  function TrimEnd(s: string): (r: string)
    ensures |r| <= |s|
    ensures r == s[..|r|]
    ensures r == [] || !IsTrimSpace(r[|r| - 1])
    ensures forall i :: |r| <= i < |s| ==> IsTrimSpace(s[i])
  {
    if s != [] && IsTrimSpace(s[|s| - 1]) then TrimEnd(s[..|s| - 1]) else s
  }

  /**
   * `String.trim`: the string without its leading and trailing trim spaces.
   * Nothing is left to strip, and a string with nothing to strip is its own
   * trim, so trimming is idempotent.
   */
  function Trim(s: string): (r: string)
    ensures IsTrimmed(r)
    ensures IsTrimmed(s) ==> r == s
  {
    TrimEnd(TrimStart(s))
  }

  /**
   * The trim is the string with a run of trim spaces cut from each end and
   * nothing else removed.
   */
  lemma TrimCuts(s: string)
    ensures exists i, j :: 0 <= i <= j <= |s| && Trim(s) == s[i..j] && AllTrimSpace(s[..i]) && AllTrimSpace(s[j..])
  {
    var t := TrimStart(s);
    var r := TrimEnd(t);
    var i, j := |s| - |t|, |s| - |t| + |r|;
    assert t == s[i..];
    assert r == s[i..j];
    assert AllTrimSpace(s[..i]);
    forall k | 0 <= k < |s| - j
      ensures IsTrimSpace(s[j..][k])
    {
      assert s[j..][k] == t[|r| + k];
    }
    assert Trim(s) == s[i..j] && AllTrimSpace(s[j..]);
  }

  /** The trim is an infix of the string, empty exactly when every character is a trim space. */
  lemma TrimInfix(s: string)
    ensures Contains(s, Trim(s))
    ensures Trim(s) == [] <==> AllTrimSpace(s)
  {
    var t := TrimStart(s);
    var r := TrimEnd(t);
    assert r <= s[|s| - |t|..];
  }

  // ---------- isBlank ----------

  /**
   * `Character.isWhitespace`: the space, line and paragraph separators other
   * than the no-break spaces, and the controls U+0009..U+000D, U+001C..U+001F.
   */
  predicate IsWhitespace(c: char)
  {
    || ('\t' <= c <= '\r')
    || ('\U{1C}' <= c <= ' ')
    || c == '\U{1680}'
    || ('\U{2000}' <= c <= '\U{200A}' && c != '\U{2007}')
    || c == '\U{2028}' || c == '\U{2029}'
    || c == '\U{205F}' || c == '\U{3000}'
  }

  /**
   * `String.isBlank`: empty, or white space only. Every ASCII white space is
   * also a trim space, so a blank ASCII string trims to nothing.
   */
  predicate IsBlank(s: string): (b: bool)
    ensures s == [] ==> b
    ensures b && (forall i :: 0 <= i < |s| ==> s[i] < '\U{80}') ==> AllTrimSpace(s)
  {
    forall i :: 0 <= i < |s| ==> IsWhitespace(s[i])
  }

  // ---------- lower-casing and contains ----------

  /** Lower-cases one character (ASCII letters only). */
  function LowerChar(c: char): char
  {
    if 'A' <= c <= 'Z' then (c as int + 32) as char else c
  }

  /** Lower-cases every character of a string (ASCII letters only). */
  function Lower(s: string): string
  {
    seq(|s|, i requires 0 <= i < |s| => LowerChar(s[i]))
  }

  /** Lower-casing works character by character, so it distributes over concatenation. */
  lemma LowerConcat(a: string, b: string)
    ensures Lower(a + b) == Lower(a) + Lower(b)
  {
  }

  /** A string without capital ASCII letters is its own lower-case form. */
  lemma LowerNoCapitals(s: string)
    requires forall i :: 0 <= i < |s| ==> !('A' <= s[i] <= 'Z')
    ensures Lower(s) == s
  {
  }

  /** `String.contains`: `needle` occurs somewhere in `haystack`. */
  predicate Contains(haystack: string, needle: string)
  {
    exists i | 0 <= i <= |haystack| :: needle <= haystack[i..]
  }

  /** Lower-casing twice is lower-casing once. */
  lemma LowerIdempotent(s: string)
    ensures Lower(Lower(s)) == Lower(s)
  {
    forall i | 0 <= i < |s|
      ensures Lower(Lower(s))[i] == Lower(s)[i]
    {
      var c := s[i];
      if 'A' <= c <= 'Z' {
        assert 'a' <= LowerChar(c) <= 'z';
      }
    }
  }

  /** Whatever occurs in a string also occurs in that string extended on the right. */
  lemma ContainsLeft(a: string, b: string, needle: string)
    requires Contains(a, needle)
    ensures Contains(a + b, needle)
  {
    var i :| 0 <= i <= |a| && needle <= a[i..];
    assert needle <= (a + b)[i..];
  }

  /** A needle whose first character never appears in the haystack does not occur in it. */
  lemma NotContainsFirst(haystack: string, needle: string)
    requires needle != []
    requires forall i :: 0 <= i < |haystack| ==> haystack[i] != needle[0]
    ensures !Contains(haystack, needle)
  {
    forall i | 0 <= i <= |haystack|
      ensures !(needle <= haystack[i..])
    {
      if i < |haystack| {
        assert haystack[i..][0] != needle[0];
      }
    }
  }

  /** Extending a string on the right keeps every one of several needles in it. */
  lemma ContainsAllLeft(a: string, b: string, needles: seq<string>)
    requires forall n <- needles :: Contains(a, n)
    ensures forall n <- needles :: Contains(a + b, n)
  {
    forall n <- needles
      ensures Contains(a + b, n)
    {
      ContainsLeft(a, b, n);
    }
  }

  /** Whatever occurs in a string also occurs in that string extended on the left. */
  lemma ContainsRight(a: string, b: string, needle: string)
    requires Contains(b, needle)
    ensures Contains(a + b, needle)
  {
    var i :| 0 <= i <= |b| && needle <= b[i..];
    assert (a + b)[|a| + i..] == b[i..];
  }

  /** Whatever occurs in a string also occurs in any string around it. */
  lemma ContainsInfix(haystack: string, before: string, needle: string, after: string)
    requires haystack == before + needle + after
    ensures Contains(haystack, needle)
  {
    assert needle <= haystack[|before|..];
  }

  // ---------- decimal text of an int ----------

  /** The character of a decimal digit. */
  function DigitChar(d: int): char
    requires 0 <= d < 10
  {
    ('0' as int + d) as char
  }

  predicate IsDigit(c: char)
  {
    '0' <= c <= '9'
  }

  predicate IsDigits(s: string)
  {
    s != [] && forall i :: 0 <= i < |s| ==> IsDigit(s[i])
  }

  /** The decimal digits of a natural number, most significant first. */
  function NatText(n: nat): (r: string)
    ensures IsDigits(r)
    ensures r[0] == '0' ==> n == 0 && |r| == 1
    decreases n
  {
    if n < 10 then [DigitChar(n)] else NatText(n / 10) + [DigitChar(n % 10)]
  }

  /** `Integer.toString`: a minus sign before the digits of a negative number. */
  function IntText(n: int): string
  {
    if n < 0 then "-" + NatText(-n) else NatText(n)
  }

  /** Reads a string of decimal digits back as a number. */
  function ParseNat(s: string): nat
    requires IsDigits(s)
    decreases |s|
  {
    var last := s[|s| - 1] as int - '0' as int;
    if |s| == 1 then last else ParseNat(s[..|s| - 1]) * 10 + last
  }

  /** Digits, optionally after a minus sign. */
  predicate IsIntText(s: string)
  {
    IsDigits(s) || (|s| > 1 && s[0] == '-' && IsDigits(s[1..]))
  }

  /** Reads the text of an optionally negative decimal number back. */
  function ParseInt(s: string): int
    requires IsIntText(s)
  {
    if s[0] == '-' then 0 - ParseNat(s[1..]) else ParseNat(s)
  }

  lemma {:induction false} NatTextRoundTrip(n: nat)
    ensures ParseNat(NatText(n)) == n
    decreases n
  {
    if n >= 10 {
      var s := NatText(n);
      NatTextRoundTrip(n / 10);
      assert s[..|s| - 1] == NatText(n / 10);
    }
  }

  /** The decimal text of an `int` reads back as the same number. */
  lemma IntTextRoundTrip(n: int)
    ensures IsIntText(IntText(n)) && ParseInt(IntText(n)) == n
  {
    if n < 0 {
      var t := NatText(-n);
      var s := "-" + t;
      assert s == IntText(n);
      assert s[1..] == t && s[0] == '-';
      assert IsIntText(s);
      NatTextRoundTrip(-n);
      assert ParseInt(s) == 0 - ParseNat(t);
    } else {
      NatTextRoundTrip(n);
    }
  }

}
