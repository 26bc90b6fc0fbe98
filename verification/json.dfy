/**
 * JSON values as `serde_json::Value`, the compact text `serde_json::to_vec`
 * writes for them, and a reader for that text. The reader is the partner
 * of the writer: reading back what was written gives the value, which is
 * how the Cadence arguments are checked after encoding.
 *
 * Numbers are integers; an object's fields are written in the order they
 * are listed.
 */
module Json {
  import opened Wrappers
  import opened Bytes
  import Text
  import Hex
  import Utf8

  datatype Json =
    | Null
    | Bool(b: bool)
    | Number(n: int)
    | String(s: string)
    | Array(items: seq<Json>)
    | Object(fields: seq<Field>)

  datatype Field = Field(key: string, value: Json)

  /** `value[key]` on an object: the value of the first field named `key`. */
  function Get(v: Json, key: string): (r: Option<Json>)
    ensures r.Some? ==> v.Object? && exists i :: 0 <= i < |v.fields| && v.fields[i] == Field(key, r.value)
    ensures r.None? && v.Object? ==> forall i :: 0 <= i < |v.fields| ==> v.fields[i].key != key
  {
    if v.Object? then Lookup(v.fields, key) else None
  }

  function Lookup(fields: seq<Field>, key: string): (r: Option<Json>)
    ensures r.Some? ==> exists i :: 0 <= i < |fields| && fields[i] == Field(key, r.value)
    ensures r.None? ==> forall i :: 0 <= i < |fields| ==> fields[i].key != key
  {
    if fields == [] then None
    else if fields[0].key == key then Some(fields[0].value)
    else
      var r := Lookup(fields[1..], key);
      assert forall i :: 1 <= i < |fields| ==> fields[i] == fields[1..][i - 1];
      r
  }

  // ---------------------------------------------------------------------
  // Writing
  // ---------------------------------------------------------------------

  /** How serde_json writes one character inside a string: quote and
      backslash behind a backslash; the control characters with a short
      escape where JSON has one and as `\u00xx` with lowercase digits
      otherwise; every other character as itself. */
  function Escape(c: char): (r: string)
    ensures 1 <= |r| <= 6
    ensures r[0] != '"'
  {
    var u := c as int;
    if c == '"' then "\\\""
    else if c == '\\' then "\\\\"
    else if u == 0x08 then "\\b"
    else if u == 0x0C then "\\f"
    else if c == '\n' then "\\n"
    else if c == '\r' then "\\r"
    else if c == '\t' then "\\t"
    else if u < 0x20 then "\\u00" + [Hex.Digit(u / 16), Hex.Digit(u % 16)]
    else [c]
  }

  function EscapeAll(s: string): string
  {
    if s == [] then "" else Escape(s[0]) + EscapeAll(s[1..])
  }

  /** A string literal. */
  function Quote(s: string): string
  {
    "\"" + (EscapeAll(s) + "\"")
  }

  /** The compact text of a value. */
  function Serialize(v: Json): (r: string)
    ensures |r| >= 1
    decreases v
  {
    match v
    case Null => "null"
    case Bool(b) => if b then "true" else "false"
    case Number(n) => if n < 0 then "-" + Text.NatToString(-n) else Text.NatToString(n)
    case String(s) => Quote(s)
    case Array(xs) => "[" + (if xs == [] then "]" else ItemsTail(xs))
    case Object(fs) => "{" + (if fs == [] then "}" else FieldsTail(fs))
  }

  /** The elements of a non-empty array, comma-separated, and the closing
      bracket. */
  function ItemsTail(xs: seq<Json>): string
    requires xs != []
    decreases xs
  {
    Serialize(xs[0]) + (if |xs| == 1 then "]" else "," + ItemsTail(xs[1..]))
  }

  /** The fields of a non-empty object and the closing brace. */
  function FieldsTail(fs: seq<Field>): string
    requires fs != []
    decreases fs
  {
    FieldText(fs[0]) + (if |fs| == 1 then "}" else "," + FieldsTail(fs[1..]))
  }

  /** One field: its quoted key, a colon and its value. */
  function FieldText(f: Field): string
    decreases f
  {
    Quote(f.key) + ":" + Serialize(f.value)
  }

  /** `serde_json::to_vec`: the UTF-8 bytes of the compact text. */
  function ToBytes(v: Json): seq<byte>
  {
    Utf8.Encode(Serialize(v))
  }

  // ---------------------------------------------------------------------
  // Reading
  // ---------------------------------------------------------------------

  /** `t` occurs in `s` at position `i`. */
  predicate At(s: string, i: nat, t: string) {
    i + |t| <= |s| && AtFrom(s, i, t, 0)
  }

  /** `t` from its `k`-th character on occurs in `s` at position `i + k`. */
  predicate AtFrom(s: string, i: nat, t: string, k: nat)
    requires i + |t| <= |s|
    decreases |t| - k
  {
    k >= |t| || (s[i + k] == t[k] && AtFrom(s, i, t, k + 1))
  }

  predicate IsHexChar(c: char) {
    (c as int) < 0x80 && Hex.IsHexByte(c as int)
  }

  function HexValue(c: char): (v: nat)
    requires IsHexChar(c)
    ensures v < 16
  {
    Hex.Nibble(c as int)
  }

  /** The character a two-character escape `\e` stands for. */
  function Unescape(e: char): (r: Option<char>)
    ensures r.Some? <==> e in "\"\\/bfnrt"
  {
    if e == '"' then Some('"')
    else if e == '\\' then Some('\\')
    else if e == '/' then Some('/')
    else if e == 'b' then Some(0x08 as char)
    else if e == 'f' then Some(0x0C as char)
    else if e == 'n' then Some('\n')
    else if e == 'r' then Some('\r')
    else if e == 't' then Some('\t')
    else None
  }

  /** The value of the `n` hexadecimal digits of `s` from position `i`,
      or None if one of them is not a digit. */
  function HexNumber(s: string, i: nat, n: nat): (r: Option<nat>)
    requires i + n <= |s|
    ensures r.Some? ==> r.value < Pow16(n)
    decreases n
  {
    if n == 0 then Some(0)
    else match HexNumber(s, i, n - 1)
      case None => None
      case Some(v) => if IsHexChar(s[i + n - 1]) then Some(16 * v + HexValue(s[i + n - 1])) else None
  }

  function Pow16(n: nat): (r: nat)
    ensures r >= 1
  {
    if n == 0 then 1 else 16 * Pow16(n - 1)
  }

  /** Reads a `\uXXXX` escape at position `i`; a surrogate code point is
      refused. */
  function ParseUnicode(s: string, i: nat): (r: Option<(char, nat)>)
    requires i + 1 < |s|
    ensures r.Some? ==> r.value.1 == i + 6 <= |s|
  {
    if i + 6 <= |s| then
      match HexNumber(s, i + 2, 4)
      case None => None
      case Some(u) =>
        assert Pow16(4) == 0x10000;
        if 0xD800 <= u < 0xE000 then None else Some((u as char, i + 6))
    else None
  }

  /** Reads one character of a string literal's body at position `i`,
      escaped or not, with the position after it; a raw control character
      is refused. */
  function ParseChar(s: string, i: nat): (r: Option<(char, nat)>)
    requires i < |s| && s[i] != '"'
    ensures r.Some? ==> i < r.value.1 <= |s|
  {
    if s[i] == '\\' then
      if i + 1 == |s| then None
      else if s[i + 1] == 'u' then ParseUnicode(s, i)
      else match Unescape(s[i + 1])
        case None => None
        case Some(c) => Some((c, i + 2))
    else if (s[i] as int) < 0x20 then None
    else Some((s[i], i + 1))
  }

  /** Reads a string literal's body from position `i` up to and including
      the closing quote. */
  function ParseStringBody(s: string, i: nat): (r: Option<(string, nat)>)
    requires i <= |s|
    ensures r.Some? ==> i < r.value.1 <= |s|
    decreases |s| - i, 1
  {
    if i == |s| then None
    else if s[i] == '"' then Some(([], i + 1))
    else BodyAfter(s, i, ParseChar(s, i))
  }

  /** Goes on reading a string literal's body after the character `c` read
      at position `i`. */
  function BodyAfter(s: string, i: nat, c: Option<(char, nat)>): (r: Option<(string, nat)>)
    requires i < |s| && (c.Some? ==> i < c.value.1 <= |s|)
    ensures r.Some? ==> i < r.value.1 <= |s|
    decreases |s| - i, 0
  {
    match c
    case None => None
    case Some((ch, j)) =>
      match ParseStringBody(s, j)
      case None => None
      case Some((t, n)) => Some(([ch] + t, n))
  }

  /** The end of the run of decimal digits that starts at `i`. */
  function DigitRun(s: string, i: nat): (j: nat)
    requires i <= |s|
    ensures i <= j <= |s|
    ensures forall k :: i <= k < j ==> Text.IsDigit(s[k])
    ensures j < |s| ==> !Text.IsDigit(s[j])
    decreases |s| - i
  {
    if i == |s| || !Text.IsDigit(s[i]) then i else DigitRun(s, i + 1)
  }

  /** The decimal number the digits from `i` to `j` spell. */
  function NumberAt(s: string, i: nat, j: nat): nat
    requires i <= j <= |s|
    decreases j - i
  {
    if j == i then 0 else NumberAt(s, i, j - 1) * 10 + DigitValue(s[j - 1])
  }

  function DigitValue(c: char): nat
  {
    if Text.IsDigit(c) then c as int - 48 else 0
  }

  /** Reads the value at position `i`, with the position after it. */
  function ParseValue(s: string, i: nat): (r: Option<(Json, nat)>)
    requires i <= |s|
    ensures r.Some? ==> i < r.value.1 <= |s|
    decreases |s| - i, 0
  {
    if i == |s| then None
    else if s[i] == 'n' then (if At(s, i, "null") then Some((Null, i + 4)) else None)
    else if s[i] == 't' then (if At(s, i, "true") then Some((Bool(true), i + 4)) else None)
    else if s[i] == 'f' then (if At(s, i, "false") then Some((Bool(false), i + 5)) else None)
    else if s[i] == '"' then
      match ParseStringBody(s, i + 1)
      case None => None
      case Some((t, j)) => Some((String(t), j))
    else if s[i] == '-' then
      var j := DigitRun(s, i + 1);
      if j == i + 1 then None else Some((Number(0 - NumberAt(s, i + 1, j)), j))
    else if Text.IsDigit(s[i]) then
      var j := DigitRun(s, i);
      Some((Number(NumberAt(s, i, j)), j))
    else if s[i] == '[' then
      if i + 1 < |s| && s[i + 1] == ']' then Some((Array([]), i + 2))
      else match ParseItems(s, i + 1)
        case None => None
        case Some((xs, j)) => Some((Array(xs), j))
    else if s[i] == '{' then
      if i + 1 < |s| && s[i + 1] == '}' then Some((Object([]), i + 2))
      else match ParseFields(s, i + 1)
        case None => None
        case Some((fs, j)) => Some((Object(fs), j))
    else None
  }

  /** Reads `value (, value)* ]` from position `i`. */
  function ParseItems(s: string, i: nat): (r: Option<(seq<Json>, nat)>)
    requires i <= |s|
    ensures r.Some? ==> i < r.value.1 <= |s|
    decreases |s| - i, 1
  {
    match ParseValue(s, i)
    case None => None
    case Some((v, k)) =>
      if k < |s| && s[k] == ']' then Some(([v], k + 1))
      else if k < |s| && s[k] == ',' then
        match ParseItems(s, k + 1)
        case None => None
        case Some((vs, j)) => Some(([v] + vs, j))
      else None
  }

  /** Reads `"key":value` from position `i`. */
  function ParseField(s: string, i: nat): (r: Option<(Field, nat)>)
    requires i <= |s|
    ensures r.Some? ==> i < r.value.1 <= |s|
    decreases |s| - i, 1
  {
    if i == |s| || s[i] != '"' then None
    else match ParseStringBody(s, i + 1)
      case None => None
      case Some((key, j)) =>
        if j < |s| && s[j] == ':' then
          match ParseValue(s, j + 1)
          case None => None
          case Some((v, e)) => Some((Field(key, v), e))
        else None
  }

  /** Reads `field (, field)* }` from position `i`. */
  function ParseFields(s: string, i: nat): (r: Option<(seq<Field>, nat)>)
    requires i <= |s|
    ensures r.Some? ==> i < r.value.1 <= |s|
    decreases |s| - i, 2
  {
    match ParseField(s, i)
    case None => None
    case Some((f, k)) =>
      if k < |s| && s[k] == '}' then Some(([f], k + 1))
      else if k < |s| && s[k] == ',' then
        match ParseFields(s, k + 1)
        case None => None
        case Some((fs, j)) => Some(([f] + fs, j))
      else None
  }

  /** Reads a text that holds exactly one value. */
  function Parse(s: string): Option<Json>
  {
    match ParseValue(s, 0)
    case None => None
    case Some((v, n)) => if n == |s| then Some(v) else None
  }

  /** `serde_json::from_slice`: UTF-8 text holding one value. */
  function FromBytes(b: seq<byte>): Option<Json>
  {
    match Utf8.Decode(b)
    case None => None
    case Some(s) => Parse(s)
  }

  // ---------------------------------------------------------------------
  // Reading back what was written
  // ---------------------------------------------------------------------

  /** Where `a + b` occurs, `a` occurs and `b` follows it. */
  lemma AtSplit(s: string, i: nat, a: string, b: string)
    requires At(s, i, a + b)
    ensures At(s, i, a) && At(s, i + |a|, b)
  {
    forall k | 0 <= k < |a| ensures s[i + k] == a[k] {
      AtChar(s, i, a + b, k);
    }
    forall k | 0 <= k < |b| ensures s[i + |a| + k] == b[k] {
      AtChar(s, i, a + b, |a| + k);
    }
    AtAll(s, i, a);
    AtAll(s, i + |a|, b);
  }

  /** The occurrence, character by character. */
  lemma AtChar(s: string, i: nat, t: string, k: nat)
    requires At(s, i, t) && k < |t|
    ensures i + k < |s| && s[i + k] == t[k]
  {
    AtFromChar(s, i, t, 0, k);
  }

  lemma {:induction false} AtFromChar(s: string, i: nat, t: string, j: nat, k: nat)
    requires i + |t| <= |s| && AtFrom(s, i, t, j) && j <= k < |t|
    ensures s[i + k] == t[k]
    decreases k - j
  {
    if j < k {
      AtFromChar(s, i, t, j + 1, k);
    }
  }

  /** An occurrence from its characters. */
  lemma AtAll(s: string, i: nat, t: string)
    requires i + |t| <= |s| && forall k :: 0 <= k < |t| ==> s[i + k] == t[k]
    ensures At(s, i, t)
  {
    AtFromAll(s, i, t, 0);
  }

  lemma {:induction false} AtFromAll(s: string, i: nat, t: string, j: nat)
    requires i + |t| <= |s| && forall k :: j <= k < |t| ==> s[i + k] == t[k]
    ensures AtFrom(s, i, t, j)
    decreases |t| - j
  {
    if j < |t| {
      AtFromAll(s, i, t, j + 1);
    }
  }

  /** Every text occurs in itself from where it starts. */
  lemma AtRest(s: string, i: nat)
    requires i <= |s|
    ensures At(s, i, s[i..])
  {
    AtAll(s, i, s[i..]);
  }

  lemma HexDigitValue(v: nat)
    requires v < 16
    ensures IsHexChar(Hex.Digit(v)) && HexValue(Hex.Digit(v)) == v
  {
  }

  /** An escaped character reads back as itself. */
  lemma ParseEscape(c: char, s: string, i: nat)
    requires At(s, i, Escape(c))
    ensures i < |s| && s[i] != '"'
    ensures ParseChar(s, i) == Some((c, i + |Escape(c)|))
  {
    var u := c as int;
    if u < 0x20 && u != 0x08 && u != 0x0C && c != '\n' && c != '\r' && c != '\t' {
      ParseControl(c, s, i);
    } else {
      var e := Escape(c);
      AtChar(s, i, e, 0);
      if |e| == 2 {
        AtChar(s, i, e, 1);
      }
    }
  }

  /** A control character without a short escape reads back from its
      `\u00xx` form. */
  lemma ParseControl(c: char, s: string, i: nat)
    requires (c as int) < 0x20 && (c as int) != 0x08 && (c as int) != 0x0C && c != '\n' && c != '\r' && c != '\t'
    requires At(s, i, Escape(c))
    ensures i + 6 <= |s| && s[i] == '\\'
    ensures ParseChar(s, i) == Some((c, i + 6))
  {
    var u := c as int;
    var e := Escape(c);
    assert e == "\\u00" + [Hex.Digit(u / 16), Hex.Digit(u % 16)];
    AtChar(s, i, e, 0);
    AtChar(s, i, e, 1);
    AtChar(s, i, e, 2);
    AtChar(s, i, e, 3);
    AtChar(s, i, e, 4);
    AtChar(s, i, e, 5);
    assert s[i] == '\\' && s[i + 1] == 'u' && s[i + 2] == '0' && s[i + 3] == '0';
    assert s[i + 4] == Hex.Digit(u / 16) && s[i + 5] == Hex.Digit(u % 16);
    HexDigitValue(0);
    HexDigitValue(u / 16);
    HexDigitValue(u % 16);
    assert HexNumber(s, i + 2, 1) == Some(0);
    assert HexNumber(s, i + 2, 2) == Some(0);
    assert HexNumber(s, i + 2, 3) == Some(u / 16);
    assert HexNumber(s, i + 2, 4) == Some(u);
  }

  /** The escapes of the characters of `t`, one after the other, then a
      closing quote, occur in `s` from position `i`. */
  predicate EscapedAt(s: string, i: nat, t: string)
    decreases |t|
  {
    if t == [] then i < |s| && s[i] == '"'
    else At(s, i, Escape(t[0])) && EscapedAt(s, i + |Escape(t[0])|, t[1..])
  }

  /** An escaped text followed by a quote lays its escapes out one by one. */
  lemma {:induction false} EscapedAtOf(t: string, s: string, i: nat)
    requires At(s, i, EscapeAll(t) + "\"")
    ensures EscapedAt(s, i, t)
    decreases |t|
  {
    if t == [] {
      AtChar(s, i, EscapeAll(t) + "\"", 0);
    } else {
      EscapeAllCons(t);
      AtSplit(s, i, Escape(t[0]), EscapeAll(t[1..]) + "\"");
      EscapedAtOf(t[1..], s, i + |Escape(t[0])|);
    }
  }

  /** Escaped characters up to a closing quote read back as the string. */
  lemma {:induction false} ParseEscaped(t: string, s: string, i: nat)
    requires EscapedAt(s, i, t)
    ensures ParseStringBody(s, i) == Some((t, i + |EscapeAll(t)| + 1))
    decreases |t|, 1
  {
    if t != [] {
      ParseEscapedCons(t, s, i);
    }
  }

  lemma {:induction false} ParseEscapedCons(t: string, s: string, i: nat)
    requires t != [] && EscapedAt(s, i, t)
    ensures ParseStringBody(s, i) == Some((t, i + |EscapeAll(t)| + 1))
    decreases |t|, 0
  {
    var j := EscapedHead(t, s, i);
    ParseEscaped(t[1..], s, j);
    EscapeAllCons(t);
    StringBodyCons(s, i, t, j, j + |EscapeAll(t[1..])| + 1);
  }

  /** The first escape reads back as the first character; the others
      follow it. */
  lemma EscapedHead(t: string, s: string, i: nat) returns (j: nat)
    requires t != [] && EscapedAt(s, i, t)
    ensures j == i + |Escape(t[0])|
    ensures i < |s| && s[i] != '"' && ParseChar(s, i) == Some((t[0], j))
    ensures EscapedAt(s, j, t[1..])
  {
    ParseEscape(t[0], s, i);
    j := i + |Escape(t[0])|;
  }

  /** The escaped text of a non-empty string, first character apart. */
  lemma EscapeAllCons(t: string)
    requires t != []
    ensures EscapeAll(t) + "\"" == Escape(t[0]) + (EscapeAll(t[1..]) + "\"")
    ensures |EscapeAll(t)| == |Escape(t[0])| + |EscapeAll(t[1..])|
  {
  }

  lemma ConsTail<T>(t: seq<T>)
    requires t != []
    ensures [t[0]] + t[1..] == t
  {
  }

  /** How the reader goes on at the first character of a string's body. */
  lemma StringBodyCons(s: string, i: nat, t: string, j: nat, n: nat)
    requires t != [] && i < |s| && s[i] != '"' && ParseChar(s, i) == Some((t[0], j))
    requires ParseStringBody(s, j) == Some((t[1..], n))
    ensures ParseStringBody(s, i) == Some((t, n))
  {
    StringBodyStep(s, i, t[0], j, t[1..], n);
    ConsTail(t);
  }

  /** A string literal reads back as its contents. */
  lemma ParseQuote(t: string, s: string, i: nat)
    requires At(s, i, Quote(t))
    ensures ParseValue(s, i) == Some((String(t), i + |Quote(t)|))
  {
    ParseKey(t, s, i);
    ValueString(s, i);
  }

  /** How the reader goes on at an opening quote. */
  lemma ValueString(s: string, i: nat)
    requires i < |s| && s[i] == '"' && ParseStringBody(s, i + 1).Some?
    ensures ParseValue(s, i) == Some((String(ParseStringBody(s, i + 1).value.0), ParseStringBody(s, i + 1).value.1))
  {
  }

  /** How the reader goes on at a character of a string's body. */
  lemma StringBodyStep(s: string, i: nat, c: char, j: nat, rest: string, n: nat)
    requires i < |s| && s[i] != '"' && ParseChar(s, i) == Some((c, j))
    requires ParseStringBody(s, j) == Some((rest, n))
    ensures ParseStringBody(s, i) == Some(([c] + rest, n))
  {
  }

  /** Position `j` does not continue a number. */
  predicate Ends(s: string, j: nat) {
    j >= |s| || !Text.IsDigit(s[j])
  }

  /** A run of digits that is followed by a non-digit ends there. */
  lemma DigitRunOf(s: string, i: nat, digits: string)
    requires At(s, i, digits) && Ends(s, i + |digits|)
    requires forall k :: 0 <= k < |digits| ==> Text.IsDigit(digits[k])
    ensures DigitRun(s, i) == i + |digits|
  {
    forall k | i <= k < i + |digits| ensures k < |s| && Text.IsDigit(s[k]) {
      AtChar(s, i, digits, k - i);
    }
  }

  /** Digits in the text spell the number they spell on their own. */
  lemma {:induction false} NumberAtDigits(s: string, i: nat, digits: string)
    requires At(s, i, digits)
    requires forall k :: 0 <= k < |digits| ==> Text.IsDigit(digits[k])
    ensures i + |digits| <= |s| && NumberAt(s, i, i + |digits|) == Text.DigitsValue(digits)
    decreases |digits|
  {
    if digits != [] {
      var n := |digits| - 1;
      assert digits[..n] + [digits[n]] == digits;
      AtSplit(s, i, digits[..n], [digits[n]]);
      AtChar(s, i, digits, n);
      NumberAtDigits(s, i, digits[..n]);
    }
  }

  lemma ParseNumber(n: int, s: string, i: nat)
    requires At(s, i, Serialize(Number(n))) && Ends(s, i + |Serialize(Number(n))|)
    ensures ParseValue(s, i) == Some((Number(n), i + |Serialize(Number(n))|))
  {
    if n < 0 {
      ParseNegative(-n, s, i);
      assert 0 - (-n) == n;
    } else {
      ParseNatural(n, s, i);
    }
  }

  lemma ParseNatural(m: nat, s: string, i: nat)
    requires At(s, i, Text.NatToString(m)) && Ends(s, i + |Text.NatToString(m)|)
    ensures ParseValue(s, i) == Some((Number(m), i + |Text.NatToString(m)|))
  {
    var digits := Text.NatToString(m);
    Text.NatToStringRoundTrip(m);
    AtChar(s, i, digits, 0);
    DigitRunOf(s, i, digits);
    NumberAtDigits(s, i, digits);
  }

  lemma ParseNegative(m: nat, s: string, i: nat)
    requires m > 0
    requires At(s, i, "-" + Text.NatToString(m)) && Ends(s, i + 1 + |Text.NatToString(m)|)
    ensures ParseValue(s, i) == Some((Number(0 - m), i + 1 + |Text.NatToString(m)|))
  {
    var digits := Text.NatToString(m);
    Text.NatToStringRoundTrip(m);
    AtSplit(s, i, "-", digits);
    AtChar(s, i, "-", 0);
    DigitRunOf(s, i + 1, digits);
    NumberAtDigits(s, i + 1, digits);
  }

  lemma ParseLiteral(v: Json, s: string, i: nat)
    requires v.Null? || v.Bool?
    requires At(s, i, Serialize(v))
    ensures ParseValue(s, i) == Some((v, i + |Serialize(v)|))
  {
    AtChar(s, i, Serialize(v), 0);
  }
  /** A written value reads back, provided what follows it does not
      continue a number. */
  lemma {:induction false} ParseSerialize(v: Json, s: string, i: nat)
    requires At(s, i, Serialize(v)) && Ends(s, i + |Serialize(v)|)
    ensures ParseValue(s, i) == Some((v, i + |Serialize(v)|))
    decreases v, 2
  {
    match v
    case Null => ParseLiteral(v, s, i);
    case Bool(_) => ParseLiteral(v, s, i);
    case Number(n) => ParseNumber(n, s, i);
    case String(t) => ParseQuote(t, s, i);
    case Array(xs) => ParseArray(xs, s, i);
    case Object(fs) => ParseObject(fs, s, i);
  }

  lemma {:induction false} ParseArray(xs: seq<Json>, s: string, i: nat)
    requires At(s, i, Serialize(Array(xs)))
    ensures ParseValue(s, i) == Some((Array(xs), i + |Serialize(Array(xs))|))
    decreases Array(xs), 1
  {
    var t := Serialize(Array(xs));
    AtChar(s, i, t, 0);
    if xs == [] {
      AtChar(s, i, t, 1);
    } else {
      assert t == "[" + ItemsTail(xs);
      AtSplit(s, i, "[", ItemsTail(xs));
      FirstOfSerialized(xs[0], s, i + 1, ItemsTail(xs));
      ParseSerializeItems(xs, s, i + 1);
      ValueArray(s, i);
    }
  }

  lemma {:induction false} ParseObject(fs: seq<Field>, s: string, i: nat)
    requires At(s, i, Serialize(Object(fs)))
    ensures ParseValue(s, i) == Some((Object(fs), i + |Serialize(Object(fs))|))
    decreases Object(fs), 1
  {
    var t := Serialize(Object(fs));
    AtChar(s, i, t, 0);
    if fs == [] {
      AtChar(s, i, t, 1);
    } else {
      assert t == "{" + FieldsTail(fs);
      AtSplit(s, i, "{", FieldsTail(fs));
      ParseSerializeFields(fs, s, i + 1);
      AtChar(s, i + 1, FieldsTail(fs), 0);
      ValueObject(s, i);
    }
  }

  /** How the reader goes on at an opening bracket followed by items. */
  lemma ValueArray(s: string, i: nat)
    requires i + 1 < |s| && s[i] == '[' && s[i + 1] != ']' && ParseItems(s, i + 1).Some?
    ensures ParseValue(s, i) == Some((Array(ParseItems(s, i + 1).value.0), ParseItems(s, i + 1).value.1))
  {
  }

  /** How the reader goes on at an opening brace followed by fields. */
  lemma ValueObject(s: string, i: nat)
    requires i + 1 < |s| && s[i] == '{' && s[i + 1] != '}' && ParseFields(s, i + 1).Some?
    ensures ParseValue(s, i) == Some((Object(ParseFields(s, i + 1).value.0), ParseFields(s, i + 1).value.1))
  {
  }

  /** A non-empty array does not start with its closing bracket. */
  lemma FirstOfSerialized(x: Json, s: string, i: nat, t: string)
    requires |Serialize(x)| <= |t| && t[..|Serialize(x)|] == Serialize(x)
    requires At(s, i, t)
    ensures s[i] != ']'
  {
    AtChar(s, i, t, 0);
    assert t[0] == Serialize(x)[0];
  }

  /** After an item, a closing bracket ends the array. */
  lemma ItemsLast(s: string, i: nat, v: Json, k: nat)
    requires i <= |s| && ParseValue(s, i) == Some((v, k))
    requires k < |s| && s[k] == ']'
    ensures ParseItems(s, i) == Some(([v], k + 1))
  {
  }

  /** After an item, a comma leads to the remaining items. */
  lemma ItemsMore(s: string, i: nat, v: Json, k: nat, vs: seq<Json>, n: nat)
    requires i <= |s| && ParseValue(s, i) == Some((v, k))
    requires k < |s| && s[k] == ',' && ParseItems(s, k + 1) == Some((vs, n))
    ensures ParseItems(s, i) == Some(([v] + vs, n))
  {
  }

  lemma {:induction false} ParseSerializeItems(xs: seq<Json>, s: string, i: nat)
    requires xs != [] && At(s, i, ItemsTail(xs))
    ensures ParseItems(s, i) == Some((xs, i + |ItemsTail(xs)|))
    decreases xs, 1
  {
    if |xs| == 1 {
      ParseLastItem(xs, s, i);
    } else {
      ParseMoreItems(xs, s, i);
    }
  }

  lemma {:induction false} ParseLastItem(xs: seq<Json>, s: string, i: nat)
    requires |xs| == 1 && At(s, i, ItemsTail(xs))
    ensures ParseItems(s, i) == Some((xs, i + |ItemsTail(xs)|))
    decreases xs, 0
  {
    var first := Serialize(xs[0]);
    var k := i + |first|;
    assert ItemsTail(xs) == first + "]";
    AtSplit(s, i, first, "]");
    AtChar(s, k, "]", 0);
    ParseSerialize(xs[0], s, i);
    ItemsLast(s, i, xs[0], k);
    assert [xs[0]] == xs;
  }

  lemma {:induction false} ParseMoreItems(xs: seq<Json>, s: string, i: nat)
    requires |xs| > 1 && At(s, i, ItemsTail(xs))
    ensures ParseItems(s, i) == Some((xs, i + |ItemsTail(xs)|))
    decreases xs, 0
  {
    var first := Serialize(xs[0]);
    var k := i + |first|;
    var rest := ItemsTail(xs[1..]);
    assert ItemsTail(xs) == first + ("," + rest);
    AtSplit(s, i, first, "," + rest);
    AtSplit(s, k, ",", rest);
    AtChar(s, k, ",", 0);
    ParseSerialize(xs[0], s, i);
    ParseSerializeItems(xs[1..], s, k + 1);
    ItemsMore(s, i, xs[0], k, xs[1..], k + 1 + |rest|);
    assert [xs[0]] + xs[1..] == xs;
  }

  lemma QuoteParts(key: string)
    ensures Quote(key) == "\"" + (EscapeAll(key) + "\"")
    ensures |Quote(key)| == |EscapeAll(key)| + 2
  {
  }

  /** A key in quotes reads back as the key. */
  lemma ParseKey(key: string, s: string, i: nat)
    requires At(s, i, Quote(key))
    ensures i < |s| && s[i] == '"'
    ensures ParseStringBody(s, i + 1) == Some((key, i + |Quote(key)|))
  {
    QuoteParts(key);
    AtSplit(s, i, "\"", EscapeAll(key) + "\"");
    AtChar(s, i, "\"", 0);
    EscapedAtOf(key, s, i + 1);
    ParseEscaped(key, s, i + 1);
  }

  /** A written field reads back, provided what follows it does not
      continue a number. */
  lemma {:induction false} ParseSerializeField(f: Field, s: string, i: nat)
    requires At(s, i, FieldText(f)) && Ends(s, i + |FieldText(f)|)
    ensures ParseField(s, i) == Some((f, i + |FieldText(f)|))
    decreases f, 0
  {
    var j := FieldLayout(f, s, i);
    ParseSerialize(f.value, s, j + 1);
    FieldStep(s, i, f.key, j, f.value, i + |FieldText(f)|);
  }

  /** Where the parts of a written field sit: the key reads back up to
      position `j`, which holds the colon, and the value follows. */
  lemma FieldLayout(f: Field, s: string, i: nat) returns (j: nat)
    requires At(s, i, FieldText(f)) && Ends(s, i + |FieldText(f)|)
    ensures i < |s| && s[i] == '"' && ParseStringBody(s, i + 1) == Some((f.key, j))
    ensures j < |s| && s[j] == ':'
    ensures At(s, j + 1, Serialize(f.value)) && j + 1 + |Serialize(f.value)| == i + |FieldText(f)|
    ensures Ends(s, j + 1 + |Serialize(f.value)|)
  {
    var value := Serialize(f.value);
    assert FieldText(f) == Quote(f.key) + (":" + value);
    AtSplit(s, i, Quote(f.key), ":" + value);
    ParseKey(f.key, s, i);
    j := i + |Quote(f.key)|;
    AtSplit(s, j, ":", value);
    AtChar(s, j, ":", 0);
  }

  /** How the reader goes on at a key followed by a colon and a value. */
  lemma FieldStep(s: string, i: nat, key: string, j: nat, v: Json, e: nat)
    requires i < |s| && s[i] == '"' && ParseStringBody(s, i + 1) == Some((key, j))
    requires j < |s| && s[j] == ':' && ParseValue(s, j + 1) == Some((v, e))
    ensures ParseField(s, i) == Some((Field(key, v), e))
  {
  }

  /** After a field, a closing brace ends the object. */
  lemma FieldsLast(s: string, i: nat, f: Field, k: nat)
    requires i <= |s| && ParseField(s, i) == Some((f, k))
    requires k < |s| && s[k] == '}'
    ensures ParseFields(s, i) == Some(([f], k + 1))
  {
  }

  /** After a field, a comma leads to the remaining fields. */
  lemma FieldsMore(s: string, i: nat, f: Field, k: nat, fs: seq<Field>, n: nat)
    requires i <= |s| && ParseField(s, i) == Some((f, k))
    requires k < |s| && s[k] == ',' && ParseFields(s, k + 1) == Some((fs, n))
    ensures ParseFields(s, i) == Some(([f] + fs, n))
  {
  }

  lemma {:induction false} ParseSerializeFields(fs: seq<Field>, s: string, i: nat)
    requires fs != [] && At(s, i, FieldsTail(fs))
    ensures ParseFields(s, i) == Some((fs, i + |FieldsTail(fs)|))
    decreases fs, 2
  {
    if |fs| == 1 {
      ParseLastField(fs, s, i);
    } else {
      ParseMoreFields(fs, s, i);
    }
  }

  lemma {:induction false} ParseLastField(fs: seq<Field>, s: string, i: nat)
    requires |fs| == 1 && At(s, i, FieldsTail(fs))
    ensures ParseFields(s, i) == Some((fs, i + |FieldsTail(fs)|))
    decreases fs, 1
  {
    var first := FieldText(fs[0]);
    var k := i + |first|;
    assert FieldsTail(fs) == first + "}";
    AtSplit(s, i, first, "}");
    AtChar(s, k, "}", 0);
    ParseSerializeField(fs[0], s, i);
    FieldsLast(s, i, fs[0], k);
    assert [fs[0]] == fs;
  }

  lemma {:induction false} ParseMoreFields(fs: seq<Field>, s: string, i: nat)
    requires |fs| > 1 && At(s, i, FieldsTail(fs))
    ensures ParseFields(s, i) == Some((fs, i + |FieldsTail(fs)|))
    decreases fs, 1
  {
    var first := FieldText(fs[0]);
    var k := i + |first|;
    var rest := FieldsTail(fs[1..]);
    assert FieldsTail(fs) == first + ("," + rest);
    AtSplit(s, i, first, "," + rest);
    AtSplit(s, k, ",", rest);
    AtChar(s, k, ",", 0);
    ParseSerializeField(fs[0], s, i);
    ParseSerializeFields(fs[1..], s, k + 1);
    FieldsMore(s, i, fs[0], k, fs[1..], k + 1 + |rest|);
    assert [fs[0]] + fs[1..] == fs;
  }

  /** Reading the compact text of a value gives the value back. */
  lemma RoundTrip(v: Json)
    ensures Parse(Serialize(v)) == Some(v)
  {
    var s := Serialize(v);
    AtRest(s, 0);
    assert s[0..] == s;
    ParseSerialize(v, s, 0);
  }

  /** Reading the bytes `serde_json::to_vec` writes gives the value back. */
  lemma BytesRoundTrip(v: Json)
    ensures FromBytes(ToBytes(v)) == Some(v)
  {
    Utf8.RoundTrip(Serialize(v));
    RoundTrip(v);
  }

  /** Distinct values are written as distinct bytes. */
  lemma Injective(v: Json, w: Json)
    requires ToBytes(v) == ToBytes(w)
    ensures v == w
  {
    BytesRoundTrip(v);
    BytesRoundTrip(w);
  }
}
