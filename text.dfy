/**
 * The small part of the .NET string and number library that the monitor relies on:
 * String.Trim, String.ToLower, String.StartsWith, String.Split on one character,
 * Int32.TryParse, Int32.ToString and the "D2" format, each as a function over
 * `string` (a sequence of characters) together with the facts the rest of the
 * model needs about it.
 */
module Text {
  import opened Wrappers

  /** The C# `int` (32-bit signed) and `uint` (32-bit unsigned) ranges. */
  type int32 = x: int | -0x8000_0000 <= x < 0x8000_0000
  type uint32 = x: int | 0 <= x < 0x1_0000_0000

  // ---------------------------------------------------------------------------
  // Trimming

  /** The characters for which char.IsWhiteSpace holds: what String.Trim removes. */
  predicate IsWhiteSpace(c: char) {
    || ('\t' <= c <= '\r')
    || c == ' ' || c == '\U{85}' || c == '\U{A0}' || c == '\U{1680}'
    || ('\U{2000}' <= c <= '\U{200A}')
    || c == '\U{2028}' || c == '\U{2029}' || c == '\U{202F}' || c == '\U{205F}' || c == '\U{3000}'
  }

  /** Number of white-space characters at the start of `s`. */
  function LeadingWhiteSpace(s: string): (n: nat)
    ensures n <= |s|
    ensures forall k :: 0 <= k < n ==> IsWhiteSpace(s[k])
    ensures n == |s| || !IsWhiteSpace(s[n])
  {
    if s == [] || !IsWhiteSpace(s[0]) then 0 else 1 + LeadingWhiteSpace(s[1..])
  }

  /** Number of white-space characters at the end of `s`. */
  function TrailingWhiteSpace(s: string): (n: nat)
    ensures n <= |s|
    ensures forall k :: |s| - n <= k < |s| ==> IsWhiteSpace(s[k])
    ensures n == |s| || !IsWhiteSpace(s[|s| - 1 - n])
  {
    if s == [] || !IsWhiteSpace(s[|s| - 1]) then 0 else 1 + TrailingWhiteSpace(s[..|s| - 1])
  }

  /** String.Trim(): drops white space at both ends and keeps everything between. */
  function Trim(s: string): (r: string)
    ensures LeadingWhiteSpace(s) + |r| <= |s|
    ensures r == [] || (!IsWhiteSpace(r[0]) && !IsWhiteSpace(r[|r| - 1]))
    ensures r == s[LeadingWhiteSpace(s)..LeadingWhiteSpace(s) + |r|]
    ensures forall k :: LeadingWhiteSpace(s) + |r| <= k < |s| ==> IsWhiteSpace(s[k])
  {
    var t := s[LeadingWhiteSpace(s)..];
    t[..|t| - TrailingWhiteSpace(t)]
  }

  /** A string with no white space at either end is left as it is. */
  lemma TrimKeepsTrimmed(s: string)
    requires s == [] || (!IsWhiteSpace(s[0]) && !IsWhiteSpace(s[|s| - 1]))
    ensures Trim(s) == s
  {
  }

  /** Trimming twice is trimming once. */
  lemma TrimIdempotent(s: string)
    ensures Trim(Trim(s)) == Trim(s)
  {
    TrimKeepsTrimmed(Trim(s));
  }

  // ---------------------------------------------------------------------------
  // Case and prefixes

  /** ToLower on one character, for the ASCII letters. */
  function LowerChar(c: char): char {
    if 'A' <= c <= 'Z' then (c as int + 32) as char else c
  }

  /** String.ToLower(), for the ASCII letters. */
  function ToLower(s: string): (r: string)
    ensures |r| == |s|
  {
    seq(|s|, k requires 0 <= k < |s| => LowerChar(s[k]))
  }

  /** Ordinal String.StartsWith. */
  predicate StartsWith(s: string, prefix: string) {
    |prefix| <= |s| && s[..|prefix|] == prefix
  }

  // ---------------------------------------------------------------------------
  // Splitting on one character

  /** Occurrences of `c` in `s`. */
  function Count(s: string, c: char): (n: nat)
    ensures n == 0 <==> c !in s
  {
    if s == [] then 0 else (if s[0] == c then 1 else 0) + Count(s[1..], c)
  }

  /** String.Join(sep, parts): the inverse of SplitOn. */
  function Join(parts: seq<string>, sep: char): string {
    if parts == [] then []
    else if |parts| == 1 then parts[0]
    else parts[0] + [sep] + Join(parts[1..], sep)
  }

  /**
   * String.Split(sep): the pieces between occurrences of `sep`, empty pieces
   * included. There is one piece more than there are separators, no piece holds
   * the separator, and joining the pieces gives back the string.
   */
  function SplitOn(s: string, sep: char): (parts: seq<string>)
    ensures |parts| == Count(s, sep) + 1
    ensures forall k :: 0 <= k < |parts| ==> sep !in parts[k]
    ensures Join(parts, sep) == s
  {
    if s == [] then [[]]
    else
      var rest := SplitOn(s[1..], sep);
      if s[0] == sep then
        SplitAtSeparator(s, sep, rest);
        [[]] + rest
      else
        SplitAtOther(s, sep, rest);
        [[s[0]] + rest[0]] + rest[1..]
  }

  /** The step of SplitOn when the string starts with the separator: a new, empty piece. */
  lemma SplitAtSeparator(s: string, sep: char, rest: seq<string>)
    requires s != [] && s[0] == sep
    requires |rest| == Count(s[1..], sep) + 1
    requires forall k :: 0 <= k < |rest| ==> sep !in rest[k]
    requires Join(rest, sep) == s[1..]
    ensures |[[]] + rest| == Count(s, sep) + 1
    ensures forall k :: 0 <= k < |[[]] + rest| ==> sep !in ([[]] + rest)[k]
    ensures Join([[]] + rest, sep) == s
  {
    var parts: seq<string> := [[]] + rest;
    assert parts[1..] == rest;
    assert Join(parts, sep) == [] + [sep] + Join(rest, sep);
    assert s == [sep] + s[1..];
    forall k | 0 <= k < |parts|
      ensures sep !in parts[k]
    {
      if k > 0 {
        assert parts[k] == rest[k - 1];
      }
    }
  }

  /** The step of SplitOn when the string starts with another character: it joins the first piece. */
  lemma SplitAtOther(s: string, sep: char, rest: seq<string>)
    requires s != [] && s[0] != sep
    requires |rest| == Count(s[1..], sep) + 1
    requires forall k :: 0 <= k < |rest| ==> sep !in rest[k]
    requires Join(rest, sep) == s[1..]
    ensures |[[s[0]] + rest[0]] + rest[1..]| == Count(s, sep) + 1
    ensures forall k :: 0 <= k < |[[s[0]] + rest[0]] + rest[1..]| ==> sep !in ([[s[0]] + rest[0]] + rest[1..])[k]
    ensures Join([[s[0]] + rest[0]] + rest[1..], sep) == s
  {
    PrependKeepsPiecesFree(s[0], rest, sep);
    JoinPrepend(s[0], rest, sep);
    assert s == [s[0]] + s[1..];
  }

  /** Prefixing the first piece with a character other than the separator keeps every piece free of it. */
  lemma PrependKeepsPiecesFree(c: char, rest: seq<string>, sep: char)
    requires c != sep && rest != []
    requires forall k :: 0 <= k < |rest| ==> sep !in rest[k]
    ensures forall k :: 0 <= k < |[[c] + rest[0]] + rest[1..]| ==> sep !in ([[c] + rest[0]] + rest[1..])[k]
  {
    var parts := [[c] + rest[0]] + rest[1..];
    forall k | 0 <= k < |parts|
      ensures sep !in parts[k]
    {
      if k > 0 {
        assert parts[k] == rest[k];
      } else {
        assert sep !in rest[0];
      }
    }
  }

  /** Prefixing the first piece with a character prefixes the joined string with it. */
  lemma JoinPrepend(c: char, rest: seq<string>, sep: char)
    requires rest != []
    ensures Join([[c] + rest[0]] + rest[1..], sep) == [c] + Join(rest, sep)
  {
    var parts := [[c] + rest[0]] + rest[1..];
    assert parts[0] == [c] + rest[0];
    assert parts[1..] == rest[1..];
    if |rest| > 1 {
      assert Join(parts, sep) == ([c] + rest[0]) + [sep] + Join(rest[1..], sep);
      assert Join(rest, sep) == rest[0] + [sep] + Join(rest[1..], sep);
    }
  }

  /** A string that holds the separator exactly once splits into the parts around it. */
  lemma {:induction false} SplitAroundOne(a: string, b: string, sep: char)
    requires sep !in a && sep !in b
    ensures SplitOn(a + [sep] + b, sep) == [a, b]
  {
    var s := a + [sep] + b;
    if a == [] {
      assert s[1..] == b;
      SplitWithout(b, sep);
    } else {
      assert s[1..] == a[1..] + [sep] + b;
      SplitAroundOne(a[1..], b, sep);
      assert [s[0]] + a[1..] == a;
    }
  }

  /** A string without the separator is one piece. */
  lemma {:induction false} SplitWithout(s: string, sep: char)
    requires sep !in s
    ensures SplitOn(s, sep) == [s]
  {
    if s != [] {
      SplitWithout(s[1..], sep);
      assert [s[0]] + s[1..] == s;
    }
  }

  // ---------------------------------------------------------------------------
  // Decimal numerals

  predicate IsDigit(c: char) {
    '0' <= c <= '9'
  }

  predicate AllDigits(s: string) {
    forall k :: 0 <= k < |s| ==> IsDigit(s[k])
  }

  function DigitChar(d: nat): (c: char)
    requires d < 10
    ensures IsDigit(c)
  {
    ('0' as int + d) as char
  }

  /** The value of a string of decimal digits, most significant first. */
  function DigitsValue(s: string): nat
    requires AllDigits(s)
  {
    if s == [] then 0 else 10 * DigitsValue(s[..|s| - 1]) + (s[|s| - 1] as int - '0' as int)
  }

  /**
   * The decimal rendering of a non-negative number (UInt32.ToString and
   * Int32.ToString on non-negative values): a non-empty string of digits, with
   * no leading zero, whose value is the number.
   */
  function NatToString(n: nat): (r: string)
    ensures |r| >= 1 && AllDigits(r) && DigitsValue(r) == n
    ensures r[0] == '0' ==> n == 0
    ensures n < 10 <==> |r| == 1
  {
    if n < 10 then [DigitChar(n)]
    else
      var r := NatToString(n / 10) + [DigitChar(n % 10)];
      assert r[..|r| - 1] == NatToString(n / 10);
      r
  }

  function Pow10(k: nat): (p: nat)
    ensures p >= 1
  {
    if k == 0 then 1 else 10 * Pow10(k - 1)
  }

  /** A number below 10^k has at most k digits. */
  lemma {:induction false} NumeralLength(n: nat, k: nat)
    requires 1 <= k && n < Pow10(k)
    ensures |NatToString(n)| <= k
  {
    if n >= 10 {
      assert k >= 2 by { assert Pow10(1) == 10; }
      assert n / 10 < Pow10(k - 1);
      NumeralLength(n / 10, k - 1);
    }
  }

  /** Int32.ToString() with the "-" negative sign. */
  function IntToString(i: int): (r: string)
    ensures |r| >= 1
  {
    if i < 0 then "-" + NatToString(-i) else NatToString(i)
  }

  /**
   * Int32.TryParse with the default number style, on trimmed input: an optional
   * leading sign, one or more ASCII digits, and a value within the 32-bit range;
   * anything else fails. (The style also skips leading and trailing white space,
   * which trimmed input no longer has.)
   */
  function ParseInt32(s: string): (r: Option<int32>)
    ensures r.Some? ==> |s| >= 1
  {
    if s == [] then None
    else
      var negative := s[0] == '-';
      var digits := if s[0] == '-' || s[0] == '+' then s[1..] else s;
      if digits == [] || !AllDigits(digits) then None
      else
        var v: int := if negative then -(DigitsValue(digits) as int) else DigitsValue(digits);
        if -0x8000_0000 <= v < 0x8000_0000 then Some(v) else None
  }

  /** What `int.TryParse(s, out field)` leaves in the field: the value, or 0 on failure. */
  function TryParseInt32(s: string): (v: int32)
    ensures ParseInt32(s).None? ==> v == 0
    ensures ParseInt32(s).Some? ==> v == ParseInt32(s).value
  {
    match ParseInt32(s)
    case Some(v) => v
    case None => 0
  }

  /** Parsing what Int32.ToString prints gives the number back. */
  lemma ParseIntToString(i: int32)
    ensures ParseInt32(IntToString(i)) == Some(i)
  {
    var s := IntToString(i);
    if i < 0 {
      var d := NatToString(-(i as int));
      assert s == "-" + d && s[0] == '-';
      assert s[1..] == d;
      assert AllDigits(d) && DigitsValue(d) == -(i as int);
    } else {
      var d := NatToString(i);
      assert s == d;
      assert IsDigit(d[0]) && d[0] != '-' && d[0] != '+';
      assert AllDigits(d) && DigitsValue(d) == i;
    }
  }

  /** A string without any digit is not a number. */
  /** A character other than a digit anywhere after the first position makes parsing fail. */
  lemma ParseRejectsStray(s: string, k: nat)
    requires 1 <= k < |s| && !IsDigit(s[k])
    ensures ParseInt32(s) == None
  {
    var digits := if s[0] == '-' || s[0] == '+' then s[1..] else s;
    if s[0] == '-' || s[0] == '+' {
      assert digits[k - 1] == s[k];
    } else {
      assert digits[k] == s[k];
    }
  }

  /** A decimal numeral beyond the 32-bit range makes parsing fail. */
  lemma ParseRejectsOutOfRange(s: string)
    requires AllDigits(s) && DigitsValue(s) >= 0x8000_0000
    ensures ParseInt32(s) == None
  {
    assert s != [];
    assert IsDigit(s[0]);
  }

  lemma ParseRejectsNoDigits(s: string)
    requires forall k :: 0 <= k < |s| ==> !IsDigit(s[k])
    ensures ParseInt32(s) == None
  {
    if |s| >= 2 && (s[0] == '-' || s[0] == '+') {
      assert !IsDigit(s[1..][0]);
    }
  }

  /**
   * The "D2" format of a non-negative number: its digits, padded with zeros on
   * the left to at least two characters.
   */
  function PadD2(n: nat): (r: string)
    ensures |r| >= 2 && AllDigits(r) && DigitsValue(r) == n
    ensures n < 100 ==> |r| == 2
    ensures n >= 10 ==> r == NatToString(n)
  {
    var d := NatToString(n);
    if |d| < 2 then
      var r := "0" + d;
      assert r[..1] == "0";
      r
    else d
  }

  /** The text between a given prefix and suffix, if the string has both. */
  function Between(s: string, prefix: string, suffix: string): (r: Option<string>)
    ensures r.Some? ==> prefix + r.value + suffix == s
  {
    if |prefix| + |suffix| <= |s| && s[..|prefix|] == prefix && s[|s| - |suffix|..] == suffix then
      var r := s[|prefix|..|s| - |suffix|];
      assert s == s[..|prefix|] + r + s[|s| - |suffix|..];
      Some(r)
    else None
  }

  /** Between recovers the middle of a concatenation. */
  lemma BetweenConcat(prefix: string, middle: string, suffix: string)
    ensures Between(prefix + middle + suffix, prefix, suffix) == Some(middle)
  {
    var s := prefix + middle + suffix;
    assert s[..|prefix|] == prefix;
    assert s[|s| - |suffix|..] == suffix;
    assert s[|prefix|..|s| - |suffix|] == middle;
  }
}
