/** The values `json.loads` produces, what `json.dumps(x, ensure_ascii=False)` writes
    for them, and the Python conversions `str()`, `int()`, `float()` and `bool()` the
    output coercion applies to them. */
module Json {
  import opened Wrappers
  import Text

  /** A Python float, known by its `repr` ("1.5", "1e+16", "-0.0", "nan", "inf"). Its
      arithmetic is not modelled: the conversions that need it are host operations. */
  datatype Float = Float(repr: string)

  const Zero: Float := Float("0.0")

  /** A value as `json.loads` returns it: None, bool, int, float, str, list or dict
      (the dict as its items, in insertion order). */
  datatype JsonValue =
    | JNull
    | JBool(b: bool)
    | JInt(i: int)
    | JFloat(f: Float)
    | JStr(s: string)
    | JArray(items: seq<JsonValue>)
    | JObject(fields: seq<Field>)

  datatype Field = Field(key: string, value: JsonValue)

  /** The float operations of the Python runtime that the model leaves abstract:
      `float(i)` of an int (None on OverflowError), `float(s)` of a str (None on
      ValueError), `round(f, d)`, and `int(f)` (None for inf and nan). */
  datatype FloatOps = FloatOps(
    fromInt: int -> Option<Float>,
    fromString: string -> Option<Float>,
    round: (Float, nat) -> Float,
    truncate: Float -> Option<int>)

  /** The library calls the output engine makes: `json.loads` (None when it raises)
      and the float operations. */
  datatype Host = Host(loads: string -> Option<JsonValue>, floats: FloatOps)

  // ---------------------------------------------------------------------------
  // Decimal integers

  function DigitChar(d: int): (c: char)
    requires 0 <= d < 10
    ensures Text.IsAsciiDigit(c)
  {
    ('0' as int + d) as char
  }

  function DigitValue(c: char): (d: int)
    requires Text.IsAsciiDigit(c)
    ensures 0 <= d < 10 && DigitChar(d) == c
  {
    c as int - '0' as int
  }

  /** Decimal digits of a natural number, most significant first, no leading zeros. */
  function NatToDecimal(n: nat): (s: string)
    ensures |s| > 0 && Text.IsAsciiDigit(s[0])
    ensures forall i :: 0 <= i < |s| ==> Text.IsAsciiDigit(s[i])
  {
    if n < 10 then [DigitChar(n)] else NatToDecimal(n / 10) + [DigitChar(n % 10)]
  }

  /** `str(i)` / `repr(i)` of a Python int. */
  function IntToDecimal(i: int): string {
    if i < 0 then "-" + NatToDecimal(-i) else NatToDecimal(i)
  }

  /** Digits with single underscores between them, as `int()` accepts in base 10. */
  predicate IsDigitGroups(d: string) {
    && |d| > 0
    && Text.IsAsciiDigit(d[0]) && Text.IsAsciiDigit(d[|d| - 1])
    && (forall i :: 0 <= i < |d| ==> Text.IsAsciiDigit(d[i]) || d[i] == '_')
    && (forall i :: 0 <= i < |d| - 1 ==> d[i] == '_' ==> d[i + 1] != '_')
  }

  /** The number the digits of `d` spell, underscores skipped. */
  function DigitsValue(d: string): nat
    requires forall i :: 0 <= i < |d| ==> Text.IsAsciiDigit(d[i]) || d[i] == '_'
  {
    if |d| == 0 then 0
    else if d[|d| - 1] == '_' then DigitsValue(d[..|d| - 1])
    else DigitsValue(d[..|d| - 1]) * 10 + DigitValue(d[|d| - 1])
  }

  /** `int(s)` for a str: surrounding whitespace, an optional sign, then base-10 digit
      groups; None stands for the ValueError. */
  function ParseInt(s: string): (r: Option<int>)
    ensures r.Some? ==> exists t :: IsDigitGroups(t) && (Text.Strip(s) == t || Text.Strip(s) == "+" + t || Text.Strip(s) == "-" + t)
  {
    ParseSigned(Text.Strip(s))
  }

  /** The rest of `int(s)` once the whitespace is gone: an optional sign, then digit
      groups. */
  function ParseSigned(t: string): (r: Option<int>)
    ensures r.Some? ==> exists d :: IsDigitGroups(d) && (t == d || t == "+" + d || t == "-" + d)
  {
    if |t| > 0 && (t[0] == '+' || t[0] == '-') then
      var d := t[1..];
      if IsDigitGroups(d) then
        assert t == [t[0]] + d;
        Some(if t[0] == '-' then -(DigitsValue(d) as int) else DigitsValue(d) as int)
      else None
    else if IsDigitGroups(t) then Some(DigitsValue(t) as int)
    else None
  }

  lemma {:induction false} DecimalValue(n: nat)
    ensures DigitsValue(NatToDecimal(n)) == n
  {
    if n >= 10 {
      var s := NatToDecimal(n);
      DecimalValue(n / 10);
      assert s[..|s| - 1] == NatToDecimal(n / 10);
    }
  }

  /** A decimal rendering is a single group of digits. */
  lemma DecimalGroups(n: nat)
    ensures IsDigitGroups(NatToDecimal(n))
  {
  }

  /** A text with no whitespace at either end is parsed as it stands. */
  lemma ParseStripped(s: string)
    requires Text.IsStripped(s)
    ensures ParseInt(s) == ParseSigned(s)
  {
    Text.StripStripped(s);
  }

  /** Unsigned digit groups parse to the number they spell. */
  lemma ParseUnsigned(d: string, m: nat)
    requires IsDigitGroups(d) && DigitsValue(d) == m
    ensures ParseSigned(d) == Some(m)
  {
    assert d[0] != '+' && d[0] != '-';
  }

  /** Digit groups after a minus sign parse to the negated number. */
  lemma ParseNegative(t: string, d: string, m: nat)
    requires t == "-" + d && IsDigitGroups(d) && DigitsValue(d) == m
    ensures ParseSigned(t) == Some(-(m as int))
  {
    assert t[1..] == d;
  }

  /** `int(str(i)) == i`: the decimal rendering of an int parses back to it. */
  lemma ParseIntDecimal(i: int)
    ensures ParseInt(IntToDecimal(i)) == Some(i)
  {
    var t := IntToDecimal(i);
    if i < 0 {
      var m: nat := -i;
      var d := NatToDecimal(m);
      assert t == "-" + d;
      DecimalValue(m);
      DecimalGroups(m);
      ParseNegative(t, d, m);
      assert t[|t| - 1] == d[|d| - 1];
    } else {
      var m: nat := i;
      assert t == NatToDecimal(m);
      DecimalValue(m);
      DecimalGroups(m);
      ParseUnsigned(t, m);
    }
    ParseStripped(t);
  }

  // ---------------------------------------------------------------------------
  // json.dumps

  function HexDigit(k: int): char
    requires 0 <= k < 16
  {
    if k < 10 then ('0' as int + k) as char else ('a' as int + k - 10) as char
  }

  /** How `json.dumps(..., ensure_ascii=False)` writes one character of a string. */
  function JsonEscape(c: char): string {
    if c == '"' then "\\\""
    else if c == '\\' then "\\\\"
    else if c == '\n' then "\\n"
    else if c == '\r' then "\\r"
    else if c == '\t' then "\\t"
    else if c == '\U{8}' then "\\b"
    else if c == '\U{C}' then "\\f"
    else if c < ' ' then "\\u00" + [HexDigit(c as int / 16), HexDigit(c as int % 16)]
    else [c]
  }

  function JsonEscapeAll(s: string): string {
    if |s| == 0 then "" else JsonEscape(s[0]) + JsonEscapeAll(s[1..])
  }

  function JsonQuote(s: string): string {
    "\"" + JsonEscapeAll(s) + "\""
  }

  /** Printable ASCII other than the quote and the backslash: written as is. */
  predicate IsPlain(s: string) {
    forall k :: 0 <= k < |s| ==> ' ' <= s[k] <= '~' && s[k] != '"' && s[k] != '\\'
  }

  lemma {:induction false} PlainEscape(s: string)
    requires IsPlain(s)
    ensures JsonEscapeAll(s) == s
  {
    if |s| > 0 {
      PlainEscape(s[1..]);
      assert s == [s[0]] + s[1..];
    }
  }

  /** A plain string is dumped between two quotes, unchanged. */
  lemma DumpsPlain(a: string)
    requires IsPlain(a)
    ensures Dumps(JStr(a)) == "\"" + a + "\""
  {
    PlainEscape(a);
  }

  /** A float as `json.dumps` writes it: its repr, except NaN and the infinities. */
  function FloatText(f: Float): string {
    if f.repr == "nan" then "NaN"
    else if f.repr == "inf" then "Infinity"
    else if f.repr == "-inf" then "-Infinity"
    else f.repr
  }

  /** `json.dumps(v, ensure_ascii=False)` with the default separators `", "` between
      items and `": "` after keys. */
  function Dumps(v: JsonValue): (r: string)
    ensures v.JArray? ==> |r| >= 2 && r[0] == '[' && r[|r| - 1] == ']'
    ensures v.JObject? ==> |r| >= 2 && r[0] == '{' && r[|r| - 1] == '}'
    ensures v.JStr? ==> |r| >= 2 && r[0] == '"' && r[|r| - 1] == '"'
    decreases v, 1
  {
    match v
    case JNull => "null"
    case JBool(b) => if b then "true" else "false"
    case JInt(i) => IntToDecimal(i)
    case JFloat(f) => FloatText(f)
    case JStr(s) => JsonQuote(s)
    case JArray(items) => "[" + DumpsItems(items) + "]"
    case JObject(fields) => "{" + DumpsFields(fields) + "}"
  }

  function DumpsItems(items: seq<JsonValue>): string
    decreases items, 0
  {
    if |items| == 0 then ""
    else if |items| == 1 then Dumps(items[0])
    else Dumps(items[0]) + ", " + DumpsItems(items[1..])
  }

  function DumpsFields(fields: seq<Field>): string
    decreases fields, 0
  {
    if |fields| == 0 then ""
    else
      var f := fields[0];
      var one := JsonQuote(f.key) + ": " + Dumps(f.value);
      if |fields| == 1 then one else one + ", " + DumpsFields(fields[1..])
  }

  // ---------------------------------------------------------------------------
  // str(), repr(), bool(), int(), float()

  /** Characters below U+0100 that `repr` escapes: the C0 controls, DEL, the C1
      controls, NO-BREAK SPACE and SOFT HYPHEN. */
  predicate IsUnprintableLatin1(c: char) {
    c < ' ' || ('\U{7F}' <= c <= '\U{A0}') || c == '\U{AD}'
  }

  function ReprEscape(c: char, quote: char): string {
    if c == '\\' then "\\\\"
    else if c == quote then ['\\', quote]
    else if c == '\t' then "\\t"
    else if c == '\n' then "\\n"
    else if c == '\r' then "\\r"
    else if IsUnprintableLatin1(c) then "\\x" + [HexDigit(c as int / 16), HexDigit(c as int % 16)]
    else [c]
  }

  function ReprEscapeAll(s: string, quote: char): string {
    if |s| == 0 then "" else ReprEscape(s[0], quote) + ReprEscapeAll(s[1..], quote)
  }

  /** `repr(s)` of a str: single quotes unless the text holds a single quote and no
      double quote. */
  function StrRepr(s: string): string {
    var quote := if '\'' in s && '"' !in s then '"' else '\'';
    [quote] + ReprEscapeAll(s, quote) + [quote]
  }

  /** `str(v)` of a loaded value; inside a list or dict the members appear as `repr`. */
  function PyStr(v: JsonValue): (r: string)
    ensures v.JStr? ==> r == v.s
    ensures v.JInt? ==> ParseInt(r) == Some(v.i)
    ensures v.JArray? ==> |r| >= 2 && r[0] == '[' && r[|r| - 1] == ']'
    decreases v, 2
  {
    match v
    case JNull => "None"
    case JBool(b) => if b then "True" else "False"
    case JInt(i) =>
      ParseIntDecimal(i);
      IntToDecimal(i)
    case JFloat(f) => f.repr
    case JStr(s) => s
    case JArray(items) => "[" + ReprItems(items) + "]"
    case JObject(fields) => "{" + ReprFields(fields) + "}"
  }

  function PyRepr(v: JsonValue): string
    decreases v, 3
  {
    if v.JStr? then StrRepr(v.s) else PyStr(v)
  }

  function ReprItems(items: seq<JsonValue>): string
    decreases items, 0
  {
    if |items| == 0 then ""
    else if |items| == 1 then PyRepr(items[0])
    else PyRepr(items[0]) + ", " + ReprItems(items[1..])
  }

  function ReprFields(fields: seq<Field>): string
    decreases fields, 0
  {
    if |fields| == 0 then ""
    else
      var f := fields[0];
      var one := StrRepr(f.key) + ": " + PyRepr(f.value);
      if |fields| == 1 then one else one + ", " + ReprFields(fields[1..])
  }

  /** `bool(v)`: None, False, zero, empty strings and empty containers are false. */
  function Truthy(v: JsonValue): bool {
    match v
    case JNull => false
    case JBool(b) => b
    case JInt(i) => i != 0
    case JFloat(f) => f.repr != "0.0" && f.repr != "-0.0"
    case JStr(s) => |s| > 0
    case JArray(items) => |items| > 0
    case JObject(fields) => |fields| > 0
  }

  /** `int(v)`; None stands for the TypeError, ValueError or OverflowError it raises. */
  function PyInt(v: JsonValue, ops: FloatOps): (r: Option<int>)
    ensures v.JInt? ==> r == Some(v.i)
    ensures v.JStr? ==> r == ParseInt(v.s)
    ensures v.JNull? || v.JArray? || v.JObject? ==> r.None?
  {
    match v
    case JBool(b) => Some(if b then 1 else 0)
    case JInt(i) => Some(i)
    case JFloat(f) => ops.truncate(f)
    case JStr(s) => ParseInt(s)
    case _ => None
  }

  /** `float(v)`; None stands for the exception it raises. */
  function PyFloat(v: JsonValue, ops: FloatOps): Option<Float> {
    match v
    case JBool(b) => Some(if b then Float("1.0") else Zero)
    case JInt(i) => ops.fromInt(i)
    case JFloat(f) => Some(f)
    case JStr(s) => ops.fromString(s)
    case _ => None
  }
}
