/** The pieces of Kotlin's string library that the route layer relies on:
    `isBlank`, `toIntOrNull`, `Int.toString` and `contains(…, ignoreCase = true)`. */
module KotlinText {
  import opened Common

  /** `Char.isWhitespace()` on the JVM: `Character.isWhitespace(c) || Character.isSpaceChar(c)`,
      i.e. the ASCII controls TAB..CR and FS..US plus every space, line and paragraph separator. */
  predicate IsWhitespace(c: char) {
    ('\t' <= c <= '\r') || ('\U{1C}' <= c <= '\U{1F}') || c == ' '
    || c == '\U{A0}' || c == '\U{1680}' || ('\U{2000}' <= c <= '\U{200A}')
    || c == '\U{2028}' || c == '\U{2029}' || c == '\U{202F}' || c == '\U{205F}' || c == '\U{3000}'
  }

  /** `String.isBlank()`: empty, or whitespace only. */
  predicate IsBlank(s: string) {
    forall i | 0 <= i < |s| :: IsWhitespace(s[i])
  }

  /** `String?.isNullOrBlank()`. */
  predicate IsNullOrBlank(s: Option<string>) {
    s.None? || IsBlank(s.value)
  }

  predicate IsDigit(c: char) {
    '0' <= c <= '9'
  }

  predicate AllDigits(s: string) {
    forall i | 0 <= i < |s| :: IsDigit(s[i])
  }

  /** The value of a string of decimal digits, read left to right. */
  function DigitsValue(s: string): (n: nat)
    requires AllDigits(s)
  {
    if s == [] then 0
    else DigitsValue(s[..|s| - 1]) * 10 + (s[|s| - 1] as int - '0' as int)
  }

  /** Well-formed input of `toIntOrNull`: an optional `+`/`-` sign followed by at least one digit. */
  predicate IsDecimal(s: string) {
    if |s| > 0 && (s[0] == '-' || s[0] == '+') then |s| > 1 && AllDigits(s[1..])
    else |s| > 0 && AllDigits(s)
  }

  /** The mathematical value of a well-formed decimal string. */
  function DecimalValue(s: string): int
    requires IsDecimal(s)
  {
    if s[0] == '-' then -(DigitsValue(s[1..]) as int)
    else if s[0] == '+' then DigitsValue(s[1..])
    else DigitsValue(s)
  }

  /** `String.toIntOrNull()` (radix 10): the value if the string is a decimal numeral that
      fits in a 32-bit `Int`, and null otherwise (empty string, lone sign, any other
      character, or overflow). */
  function ToIntOrNull(s: string): (r: Option<int>)
    ensures r.Some? <==> IsDecimal(s) && InIntRange(DecimalValue(s))
    ensures r.Some? ==> r.value == DecimalValue(s) && InIntRange(r.value)
  {
    if IsDecimal(s) && InIntRange(DecimalValue(s)) then Some(DecimalValue(s)) else None
  }

  /** The decimal digits of a natural number, most significant first, without leading zeros. */
  function NatToString(n: nat): (s: string)
    ensures |s| > 0 && AllDigits(s)
    ensures s[0] != '0' || n == 0
  {
    var d := ['0' + (n % 10) as char];
    if n < 10 then d else NatToString(n / 10) + d
  }

  /** `Int.toString()`: a minus sign for negative values, then the digits. */
  function IntToString(n: int): string {
    if n < 0 then "-" + NatToString(-n) else NatToString(n)
  }

  lemma {:induction false} DigitsOfNatToString(n: nat)
    ensures DigitsValue(NatToString(n)) == n
  {
    var s := NatToString(n);
    if n >= 10 {
      DigitsOfNatToString(n / 10);
      assert s[..|s| - 1] == NatToString(n / 10);
    }
  }

  /** Parsing what `Int.toString()` printed gives the number back: the id a route announces in a
      message such as "Review ID: 7" can be read back by a client. */
  lemma ParseIntToString(n: int)
    requires InIntRange(n)
    ensures ToIntOrNull(IntToString(n)) == Some(n)
  {
    DigitsOfNatToString(if n < 0 then -n else n);
    var s := IntToString(n);
    if n < 0 {
      assert s[1..] == NatToString(-n);
    }
  }

  /** The ASCII upper-case form of a character (other characters are left as they are). */
  function UpperAscii(c: char): char {
    if 'a' <= c <= 'z' then (c as int - 32) as char else c
  }

  predicate CharEqualsIgnoreCase(a: char, b: char) {
    a == b || UpperAscii(a) == UpperAscii(b)
  }

  /** Whether `needle` occurs in `hay` starting at index `i`, comparing without regard to case. */
  predicate MatchesAt(hay: string, needle: string, i: nat)
    requires i + |needle| <= |hay|
  {
    forall k | 0 <= k < |needle| :: CharEqualsIgnoreCase(hay[i + k], needle[k])
  }

  /** `hay.contains(needle, ignoreCase = true)`. */
  predicate ContainsIgnoreCase(hay: string, needle: string) {
    exists i: nat | i + |needle| <= |hay| :: MatchesAt(hay, needle, i)
  }

  /** A string that contains `a + b` contains `b`. */
  lemma ContainsTail(hay: string, a: string, b: string)
    requires ContainsIgnoreCase(hay, a + b)
    ensures ContainsIgnoreCase(hay, b)
  {
    var i: nat :| i + |a + b| <= |hay| && MatchesAt(hay, a + b, i);
    assert forall k | 0 <= k < |b| :: (a + b)[|a| + k] == b[k];
    assert MatchesAt(hay, b, i + |a|);
  }

  /** `Int.toString()` never prints a blank string. */
  lemma IntToStringNotBlank(n: int)
    ensures !IsBlank(IntToString(n))
  {
    var s := IntToString(n);
    if n >= 0 {
      assert IsDigit(s[0]);
    } else {
      assert s[0] == '-';
    }
    assert !IsWhitespace(s[0]);
  }
}
