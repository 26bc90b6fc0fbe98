/**
 * String helpers of Rust's `str` that the program relies on:
 * `strip_prefix`, `trim` and decimal formatting of integers.
 */
module Text {

  predicate StartsWith(s: string, prefix: string) {
    |prefix| <= |s| && s[..|prefix|] == prefix
  }

  /** `s.strip_prefix(prefix).unwrap_or(s)`: removes one occurrence of
      `prefix` at the start of `s`, if there is one. */
  function StripPrefix(s: string, prefix: string): (r: string)
    ensures StartsWith(s, prefix) ==> prefix + r == s
    ensures !StartsWith(s, prefix) ==> r == s
  {
    if StartsWith(s, prefix) then s[|prefix|..] else s
  }

  /** Unicode White_Space, the property `char::is_whitespace` tests. */
  predicate IsWhitespace(c: char) {
    var u := c as int;
    || (0x09 <= u <= 0x0D)
    || u == 0x20
    || u == 0x85
    || u == 0xA0
    || u == 0x1680
    || (0x2000 <= u <= 0x200A)
    || u == 0x2028
    || u == 0x2029
    || u == 0x202F
    || u == 0x205F
    || u == 0x3000
  }

  /** Index of the first non-whitespace character, or |s| if there is none. */
  function LeadingWhitespace(s: string): (i: nat)
    ensures i <= |s|
    ensures forall k :: 0 <= k < i ==> IsWhitespace(s[k])
    ensures i < |s| ==> !IsWhitespace(s[i])
  {
    SkipFrom(s, 0)
  }

  /** Index of the first non-whitespace character at or after `i`. */
  function SkipFrom(s: string, i: nat): (r: nat)
    requires i <= |s|
    ensures i <= r <= |s|
    ensures forall k :: i <= k < r ==> IsWhitespace(s[k])
    ensures r < |s| ==> !IsWhitespace(s[r])
    decreases |s| - i
  {
    if i == |s| || !IsWhitespace(s[i]) then i else SkipFrom(s, i + 1)
  }

  /** Length of `s` without its trailing whitespace. */
  function TrailingEnd(s: string): (j: nat)
    ensures j <= |s|
    ensures forall k :: j <= k < |s| ==> IsWhitespace(s[k])
    ensures j > 0 ==> !IsWhitespace(s[j - 1])
  {
    BackFrom(s, |s|)
  }

  /** The end of `s[..j]` without its trailing whitespace. */
  function BackFrom(s: string, j: nat): (r: nat)
    requires j <= |s|
    ensures r <= j
    ensures forall k :: r <= k < j ==> IsWhitespace(s[k])
    ensures r > 0 ==> !IsWhitespace(s[r - 1])
    decreases j
  {
    if j == 0 || !IsWhitespace(s[j - 1]) then j else BackFrom(s, j - 1)
  }

  /** `str::trim`: `s` without leading and trailing whitespace. */
  function Trim(s: string): string
  {
    var i := LeadingWhitespace(s);
    if i == |s| then "" else s[i..TrailingEnd(s)]
  }

  /** A trimmed string is empty exactly when the input is all whitespace;
      otherwise it keeps the input's characters between the first and the last
      non-whitespace character, which it starts and ends with. */
  lemma TrimSpec(s: string)
    ensures Trim(s) == [] <==> forall k :: 0 <= k < |s| ==> IsWhitespace(s[k])
    ensures Trim(s) != [] ==> !IsWhitespace(Trim(s)[0]) && !IsWhitespace(Trim(s)[|Trim(s)| - 1])
    ensures LeadingWhitespace(s) + |Trim(s)| <= |s|
    ensures forall k :: 0 <= k < |Trim(s)| ==> Trim(s)[k] == s[LeadingWhitespace(s) + k]
  {
    var i := LeadingWhitespace(s);
    if i < |s| {
      var j := TrailingEnd(s);
      assert !IsWhitespace(s[i]);
      assert i < j;
    }
  }

  /** A string that neither starts nor ends with whitespace is its own trim. */
  lemma TrimUntouched(s: string)
    requires s != [] ==> !IsWhitespace(s[0]) && !IsWhitespace(s[|s| - 1])
    ensures Trim(s) == s
  {
    if s != [] {
      assert LeadingWhitespace(s) == 0;
      assert TrailingEnd(s) == |s|;
      assert s[0..|s|] == s;
    }
  }

  /** Trimming twice is trimming once. */
  lemma TrimIdempotent(s: string)
    ensures Trim(Trim(s)) == Trim(s)
  {
    var t := Trim(s);
    TrimSpec(s);
    if t != [] {
      assert LeadingWhitespace(t) == 0;
      assert TrailingEnd(t) == |t|;
      assert t[0..|t|] == t;
    }
  }

  predicate IsDigit(c: char) {
    48 <= c as int <= 57
  }

  /** Decimal digits of `n`, as `format!("{}", n)` prints a non-negative integer. */
  function NatToString(n: nat): (r: string)
    ensures |r| >= 1
    ensures forall k :: 0 <= k < |r| ==> IsDigit(r[k])
    ensures |r| > 1 ==> r[0] != '0'
    decreases n
  {
    var digit := [(48 + n % 10) as char];
    if n < 10 then digit else NatToString(n / 10) + digit
  }

  /** The value of a string of decimal digits. */
  function DigitsValue(s: string): nat
    requires forall k :: 0 <= k < |s| ==> IsDigit(s[k])
  {
    if s == [] then 0
    else
      assert IsDigit(s[|s| - 1]);
      DigitsValue(s[..|s| - 1]) * 10 + (s[|s| - 1] as int - 48)
  }

  /** Reading back the decimal digits yields the number, so distinct counts
      print as distinct strings. */
  lemma {:induction false} NatToStringRoundTrip(n: nat)
    ensures DigitsValue(NatToString(n)) == n
    decreases n
  {
    if n >= 10 {
      var r := NatToString(n);
      assert r[..|r| - 1] == NatToString(n / 10);
      NatToStringRoundTrip(n / 10);
    }
  }
}
