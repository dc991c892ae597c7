/** Building blocks shared by the rest of the model: the C# `int` range with
    unchecked wrap-around, ASCII case mapping, ordinal substring search and
    decimal integer text (`Int32.ToString()` and integer parsing). */
module Text {

  datatype Option<+T> = None | Some(value: T)

  const MinInt32: int := -0x8000_0000
  const MaxInt32: int := 0x7FFF_FFFF
  const MinInt64: int := -0x8000_0000_0000_0000
  const MaxInt64: int := 0x7FFF_FFFF_FFFF_FFFF

  /** A C# `int`. */
  type Int32 = x: int | MinInt32 <= x <= MaxInt32

  /** Unchecked 32-bit arithmetic: the mathematical result reduced into the
      `int` range, as C# does outside a `checked` context. */
  function Wrap32(x: int): (r: Int32)
    ensures (r - x) % 0x1_0000_0000 == 0
    ensures MinInt32 <= x <= MaxInt32 ==> r == x
  {
    (x - MinInt32) % 0x1_0000_0000 + MinInt32
  }

  // ---------------------------------------------------------------------
  // Case mapping (ASCII letters only)
  // ---------------------------------------------------------------------

  function LowerChar(c: char): char {
    if 'A' <= c <= 'Z' then (c as int + 32) as char else c
  }

  /** `string.ToLower()`, restricted to ASCII letters. */
  function Lower(s: string): (r: string)
    ensures |r| == |s|
    ensures forall i :: 0 <= i < |s| ==> r[i] == LowerChar(s[i])
  {
    seq(|s|, i requires 0 <= i < |s| => LowerChar(s[i]))
  }

  /** `string.Equals(a, b, StringComparison.OrdinalIgnoreCase)`, ASCII letters only. */
  predicate EqualsIgnoreCase(a: string, b: string) {
    Lower(a) == Lower(b)
  }

  // ---------------------------------------------------------------------
  // Substring search (`string.Contains(string)`, ordinal)
  // ---------------------------------------------------------------------

  predicate ContainsText(hay: string, needle: string)
    decreases |hay|
  {
    needle <= hay || (|hay| > 0 && ContainsText(hay[1..], needle))
  }

  /** The needle occurs in the hay at offset `i`. */
  predicate OccursAt(hay: string, needle: string, i: int) {
    0 <= i <= |hay| - |needle| && hay[i..i + |needle|] == needle
  }

  /** `ContainsText` holds exactly when the needle occurs at some offset. */
  lemma {:induction false} ContainsTextAt(hay: string, needle: string)
    ensures ContainsText(hay, needle) <==> exists i :: OccursAt(hay, needle, i)
    decreases |hay|
  {
    OccursAtStart(hay, needle);
    if needle <= hay {
      assert OccursAt(hay, needle, 0);
    } else if |hay| > 0 {
      var tail := hay[1..];
      assert (exists i :: OccursAt(hay, needle, i)) <==> (exists i :: OccursAt(tail, needle, i)) by {
        forall i | OccursAt(tail, needle, i) ensures OccursAt(hay, needle, i + 1) {
          assert tail[i..i + |needle|] == hay[i + 1..i + 1 + |needle|];
        }
        forall i | OccursAt(hay, needle, i) ensures OccursAt(tail, needle, i - 1) {
          assert tail[i - 1..i - 1 + |needle|] == hay[i..i + |needle|];
        }
      }
      ContainsTextAt(tail, needle);
    } else {
      assert forall i :: OccursAt(hay, needle, i) ==> i == 0;
    }
  }

  /** An occurrence at offset 0 is a prefix. */
  lemma OccursAtStart(hay: string, needle: string)
    ensures OccursAt(hay, needle, 0) <==> needle <= hay
  {
    if OccursAt(hay, needle, 0) {
      assert hay[..|needle|] == needle;
    }
  }

  // ---------------------------------------------------------------------
  // Decimal integer text
  // ---------------------------------------------------------------------

  predicate IsDigit(c: char) {
    '0' <= c <= '9'
  }

  predicate AllDigits(s: string) {
    forall i :: 0 <= i < |s| ==> IsDigit(s[i])
  }

  function DigitChar(d: nat): (c: char)
    requires d < 10
    ensures IsDigit(c)
  {
    ('0' as int + d) as char
  }

  /** Decimal digits of `n` without leading zeros ("0" for zero). */
  function NatText(n: nat): (s: string)
    ensures |s| > 0 && AllDigits(s)
  {
    if n < 10 then [DigitChar(n)] else NatText(n / 10) + [DigitChar(n % 10)]
  }

  /** `Int32.ToString()` under the invariant culture. */
  function IntText(i: int): (s: string)
    ensures |s| > 0
  {
    if i < 0 then "-" + NatText(-i) else NatText(i)
  }

  function DigitsValue(s: string): nat
    requires AllDigits(s)
  {
    if |s| == 0 then 0 else DigitsValue(s[..|s| - 1]) * 10 + (s[|s| - 1] as int - '0' as int)
  }

  /** An optional sign followed by at least one decimal digit. */
  function ParseInteger(s: string): (r: Option<int>)
    ensures r.Some? ==> |s| > 0 && (IsDigit(s[0]) || s[0] == '-' || s[0] == '+')
  {
    if |s| > 0 && (s[0] == '-' || s[0] == '+') then
      var digits := s[1..];
      if |digits| > 0 && AllDigits(digits) then
        var magnitude: int := DigitsValue(digits);
        Some(if s[0] == '-' then -magnitude else magnitude)
      else None
    else if |s| > 0 && AllDigits(s) then Some(DigitsValue(s))
    else None
  }

  /** Integer text that fits a C# `int` (what `JsonElement.GetInt32` and the
      numeric branch of `Enum.TryParse` accept). */
  function ParseInt32(s: string): (r: Option<Int32>)
    ensures r.Some? <==> ParseInteger(s).Some? && MinInt32 <= ParseInteger(s).value <= MaxInt32
    ensures r.Some? ==> r.value == ParseInteger(s).value
  {
    match ParseInteger(s)
    case Some(v) => if MinInt32 <= v <= MaxInt32 then Some(v) else None
    case None => None
  }

  /** Integer text that fits a C# `long` (`JsonElement.GetInt64`). */
  function ParseInt64(s: string): (r: Option<int>)
    ensures r.Some? <==> ParseInteger(s).Some? && MinInt64 <= ParseInteger(s).value <= MaxInt64
    ensures r.Some? ==> r.value == ParseInteger(s).value
  {
    match ParseInteger(s)
    case Some(v) => if MinInt64 <= v <= MaxInt64 then Some(v) else None
    case None => None
  }

  lemma {:induction false} NatTextValue(n: nat)
    ensures DigitsValue(NatText(n)) == n
  {
    if n >= 10 {
      var s := NatText(n);
      NatTextValue(n / 10);
      assert s[..|s| - 1] == NatText(n / 10);
      assert s[|s| - 1] == DigitChar(n % 10);
    }
  }

  /** Parsing the text that `ToString()` produces gives the number back. */
  lemma IntTextRoundTrip(i: int)
    ensures ParseInteger(IntText(i)) == Some(i)
  {
    if i < 0 {
      NatTextValue(-i);
      assert IntText(i)[1..] == NatText(-i);
    } else {
      NatTextValue(i);
    }
  }

  // ---------------------------------------------------------------------
  // White space
  // ---------------------------------------------------------------------

  /** `char.IsWhiteSpace`: the Unicode white-space characters. */
  predicate IsWhiteSpace(c: char) {
    || ('\t' <= c <= '\r') || c == ' ' || c == '\U{85}' || c == '\U{A0}' || c == '\U{1680}'
    || ('\U{2000}' <= c <= '\U{200A}') || c == '\U{2028}' || c == '\U{2029}' || c == '\U{202F}'
    || c == '\U{205F}' || c == '\U{3000}'
  }

  /** The white space the integer parser allows after the digits: the ASCII
      space and the controls from tab to carriage return. */
  predicate IsNumberWhite(c: char) {
    ('\t' <= c <= '\r') || c == ' '
  }

  /** `string.TrimStart()`: the text without its leading white space. */
  function TrimStart(s: string): (t: string)
    ensures |t| <= |s| && t == s[|s| - |t|..]
    ensures forall i :: 0 <= i < |s| - |t| ==> IsWhiteSpace(s[i])
    ensures |t| > 0 ==> !IsWhiteSpace(t[0])
  {
    if |s| > 0 && IsWhiteSpace(s[0]) then TrimStart(s[1..]) else s
  }

  /** `string.TrimEnd()`: the text without its trailing white space. */
  function TrimEnd(s: string): (t: string)
    ensures |t| <= |s| && t == s[..|t|]
    ensures forall i :: |t| <= i < |s| ==> IsWhiteSpace(s[i])
    ensures |t| > 0 ==> !IsWhiteSpace(t[|t| - 1])
  {
    if |s| > 0 && IsWhiteSpace(s[|s| - 1]) then TrimEnd(s[..|s| - 1]) else s
  }

  /** The text without the trailing white space a number may carry. */
  function TrimNumberEnd(s: string): (t: string)
    ensures |t| <= |s| && t == s[..|t|]
    ensures forall i :: |t| <= i < |s| ==> IsNumberWhite(s[i])
    ensures |t| > 0 ==> !IsNumberWhite(t[|t| - 1])
  {
    if |s| > 0 && IsNumberWhite(s[|s| - 1]) then TrimNumberEnd(s[..|s| - 1]) else s
  }

  /** Integer text starts with a digit or a sign and ends with a digit. */
  lemma ParseIntegerEnds(s: string)
    requires ParseInteger(s).Some?
    ensures !IsWhiteSpace(s[0]) && IsDigit(s[|s| - 1])
  {
    if s[0] == '-' || s[0] == '+' {
      assert s[1..][|s| - 2] == s[|s| - 1];
    }
  }

  lemma TrimStartNone(s: string)
    requires |s| > 0 && !IsWhiteSpace(s[0])
    ensures TrimStart(s) == s
  {
  }

  lemma TrimEndNone(s: string)
    requires |s| > 0 && !IsWhiteSpace(s[|s| - 1])
    ensures TrimEnd(s) == s
  {
  }

  lemma TrimNumberEndNone(s: string)
    requires |s| > 0 && !IsNumberWhite(s[|s| - 1])
    ensures TrimNumberEnd(s) == s
  {
  }

  lemma {:induction false} TrimStartAfter(lead: string, s: string)
    requires forall i :: 0 <= i < |lead| ==> IsWhiteSpace(lead[i])
    requires |s| > 0 && !IsWhiteSpace(s[0])
    ensures TrimStart(lead + s) == s
  {
    if |lead| > 0 {
      assert (lead + s)[1..] == lead[1..] + s;
      TrimStartAfter(lead[1..], s);
    }
  }

  lemma {:induction false} TrimEndBefore(s: string, trail: string)
    requires forall i :: 0 <= i < |trail| ==> IsWhiteSpace(trail[i])
    requires |s| > 0 && !IsWhiteSpace(s[|s| - 1])
    ensures TrimEnd(s + trail) == s
  {
    if |trail| > 0 {
      assert (s + trail)[..|s + trail| - 1] == s + trail[..|trail| - 1];
      TrimEndBefore(s, trail[..|trail| - 1]);
    }
  }

  lemma {:induction false} TrimNumberEndBefore(s: string, trail: string)
    requires forall i :: 0 <= i < |trail| ==> IsNumberWhite(trail[i])
    requires |s| > 0 && !IsNumberWhite(s[|s| - 1])
    ensures TrimNumberEnd(s + trail) == s
  {
    if |trail| > 0 {
      assert (s + trail)[..|s + trail| - 1] == s + trail[..|trail| - 1];
      TrimNumberEndBefore(s, trail[..|trail| - 1]);
    }
  }
}
