/**
 The JSON text format of cJSON: what its printer writes and what its parser reads.  A text is
 a C string up to its terminator; its characters stand for bytes.
 */
module JsonSpec {

  /** Numbers are m * 10^e; the printer is modelled for whole numbers of int range. */
  datatype Json =
    | Null
    | False
    | True
    | Number(m: int, e: int)
    | Text(s: string)
    | Array(items: seq<Json>)
    | Object(fields: seq<(string, Json)>)

  // Printing

  function Digit(d: int): char
    requires 0 <= d < 10
  {
    ('0' as int + d) as char
  }

  function Decimal(n: nat): string {
    if n < 10 then [Digit(n)] else Decimal(n / 10) + [Digit(n % 10)]
  }

  function PrintNumber(m: int): string {
    if m < 0 then "-" + Decimal(-m) else Decimal(m)
  }

  function HexDigit(d: int): char
    requires 0 <= d < 16
  {
    if d < 10 then ('0' as int + d) as char else ('a' as int + d - 10) as char
  }

  function Escape(c: char): string {
    if c > 31 as char && c != '\"' && c != '\\' then [c]
    else if c == '\\' then "\\\\"
    else if c == '\"' then "\\\""
    else if c == 8 as char then "\\b"
    else if c == 12 as char then "\\f"
    else if c == '\n' then "\\n"
    else if c == '\r' then "\\r"
    else if c == '\t' then "\\t"
    else "\\u00" + [HexDigit(c as int / 16), HexDigit(c as int % 16)]
  }

  ghost function EscapeFrom(s: string, k: nat): string
    requires k <= |s|
    decreases |s| - k
  {
    if k == |s| then "" else Escape(s[k]) + EscapeFrom(s, k + 1)
  }

  ghost function PrintString(s: string): string {
    "\"" + EscapeFrom(s, 0) + "\""
  }

  function Tabs(n: int): string {
    if n <= 0 then "" else seq(n, _ => '\t')
  }

  ghost function Print(v: Json, depth: nat, fmt: bool): string
    decreases v, 1, 0
  {
    match v
    case Null => "null"
    case False => "false"
    case True => "true"
    case Number(m, _) => PrintNumber(m)
    case Text(s) => PrintString(s)
    case Array(items) => if items == [] then "[]" else "[" + PrintItems(v, 0, depth + 1, fmt) + "]"
    case Object(fields) =>
      if fields == [] then (if fmt then "{\n" + Tabs(depth - 1) + "}" else "{}")
      else "{" + (if fmt then "\n" else "") + PrintFields(v, 0, depth + 1, fmt)
           + (if fmt then Tabs(depth) else "") + "}"
  }

  ghost function PrintItems(v: Json, k: nat, depth: nat, fmt: bool): string
    requires v.Array? && k < |v.items|
    decreases v, 0, |v.items| - k
  {
    Print(v.items[k], depth, fmt) +
    if k == |v.items| - 1 then "" else (if fmt then ", " else ",") + PrintItems(v, k + 1, depth, fmt)
  }

  ghost function PrintFields(v: Json, k: nat, depth: nat, fmt: bool): string
    requires v.Object? && k < |v.fields|
    decreases v, 0, |v.fields| - k
  {
    (if fmt then Tabs(depth) else "") + PrintString(v.fields[k].0) + (if fmt then ":\t" else ":")
    + Print(v.fields[k].1, depth, fmt) + (if k == |v.fields| - 1 then "" else ",") + (if fmt then "\n" else "")
    + if k == |v.fields| - 1 then "" else PrintFields(v, k + 1, depth, fmt)
  }

  // Parsing

  /** A value and where the text goes on; Stray when the program would run past the end of the text. */
  datatype Parsed<T> = Parsed(value: T, next: nat) | Failed | Stray

  function At(t: string, i: nat): char {
    if i < |t| then t[i] else 0 as char
  }

  function Skip(t: string, i: nat): (j: nat)
    ensures i <= j && (i <= |t| ==> j <= |t|)
    decreases |t| - i
  {
    if i < |t| && t[i] <= ' ' && t[i] != 0 as char then Skip(t, i + 1) else i
  }

  predicate IsDigit(c: char) {
    '0' <= c <= '9'
  }

  /** The value of a hexadecimal digit, or -1. */
  function HexValue(c: char): int {
    if '0' <= c <= '9' then c as int - '0' as int
    else if 'A' <= c <= 'F' then 10 + c as int - 'A' as int
    else if 'a' <= c <= 'f' then 10 + c as int - 'a' as int
    else -1
  }

  function Hex4(t: string, i: nat): (h: int)
    ensures 0 <= h < 0x1_0000
  {
    var a, b, c, d := HexValue(At(t, i)), HexValue(At(t, i + 1)), HexValue(At(t, i + 2)), HexValue(At(t, i + 3));
    if a < 0 || b < 0 || c < 0 || d < 0 then 0 else ((a * 16 + b) * 16 + c) * 16 + d
  }

  function Utf8(uc: int): string
    requires 0 <= uc < 0x11_0000
  {
    if uc < 0x80 then [uc as char]
    else if uc < 0x800 then [(0xC0 + uc / 0x40) as char, (0x80 + uc % 0x40) as char]
    else if uc < 0x1_0000 then
      [(0xE0 + uc / 0x1000) as char, (0x80 + uc / 0x40 % 0x40) as char, (0x80 + uc % 0x40) as char]
    else [(0xF0 + uc / 0x4_0000) as char, (0x80 + uc / 0x1000 % 0x40) as char,
          (0x80 + uc / 0x40 % 0x40) as char, (0x80 + uc % 0x40) as char]
  }

  /** The escape whose u stands at j: the bytes it gives and where the text goes on. */
  function Unicode(t: string, j: nat): (r: Parsed<string>)
    ensures r.Parsed? ==> j < r.next <= |t|
  {
    var uc := Hex4(t, j + 1);
    if j + 4 >= |t| then Stray
    else if 0xDC00 <= uc <= 0xDFFF || uc == 0 then Parsed("", j + 5)
    else if 0xD800 <= uc <= 0xDBFF then
      if At(t, j + 5) != '\\' || At(t, j + 6) != 'u' then Parsed("", j + 5)
      else if j + 10 >= |t| then Stray
      else
        var uc2 := Hex4(t, j + 7);
        if uc2 < 0xDC00 || uc2 > 0xDFFF then Parsed("", j + 11)
        else Parsed(Utf8(0x1_0000 + uc % 0x400 * 0x400 + uc2 % 0x400), j + 11)
    else Parsed(Utf8(uc), j + 5)
  }

  /** What the escape with its letter at j stands for. */
  function Unescape(t: string, j: nat): (r: Parsed<string>)
    ensures r.Parsed? ==> j < r.next <= |t|
  {
    if j >= |t| then Stray
    else if t[j] == 'u' then Unicode(t, j)
    else
      var c := t[j];
      var d := if c == 'b' then 8 as char else if c == 'f' then 12 as char else if c == 'n' then '\n'
               else if c == 'r' then '\r' else if c == 't' then '\t' else c;
      Parsed([d], j + 1)
  }

  function Prepend(s: string, r: Parsed<string>): Parsed<string> {
    if r.Parsed? then Parsed(s + r.value, r.next) else r
  }

  /** The rest of a string from i on; a missing closing quote is accepted. */
  function StringBody(t: string, i: nat): (r: Parsed<string>)
    requires i <= |t|
    ensures r.Parsed? ==> i <= r.next <= |t|
    decreases |t| - i
  {
    if i == |t| then Parsed("", i)
    else if t[i] == '\"' then Parsed("", i + 1)
    else if t[i] != '\\' then Prepend([t[i]], StringBody(t, i + 1))
    else
      var e := Unescape(t, i + 1);
      if e.Parsed? then Prepend(e.value, StringBody(t, e.next)) else e
  }

  function ParseString(t: string, i: nat): (r: Parsed<string>)
    requires i <= |t|
    ensures r.Parsed? ==> i < r.next <= |t|
  {
    if At(t, i) != '\"' || i == |t| then Failed else StringBody(t, i + 1)
  }

  /** The end of the run of digits that starts at i. */
  function DigitsEnd(t: string, i: nat): (j: nat)
    ensures i <= j && (i <= |t| ==> j <= |t|)
    decreases |t| - i
  {
    if i < |t| && IsDigit(t[i]) then DigitsEnd(t, i + 1) else i
  }

  /** The number that n becomes when the characters of t from i to j are written behind it. */
  function Read(t: string, i: nat, j: nat, n: int): int
    requires i <= j <= |t|
    decreases j - i
  {
    if i == j then n else Read(t, i + 1, j, n * 10 + t[i] as int - '0' as int)
  }

  /** The digits before the point: where they end, and their value. */
  function Whole(t: string, i: nat): (r: (nat, int))
    requires i <= |t|
    ensures i <= r.0 <= |t| && (IsDigit(At(t, i)) ==> i < r.0)
  {
    var i2 := if At(t, i) == '0' then i + 1 else i;
    var i3 := if '1' <= At(t, i2) <= '9' then DigitsEnd(t, i2) else i2;
    (i3, Read(t, i2, i3, 0))
  }

  /** The digits behind the point: where they end, the number they make with n, and its scale. */
  function Fraction(t: string, i: nat, n: int): (r: (nat, int, int))
    requires i <= |t|
    ensures i <= r.0 <= |t|
  {
    if At(t, i) == '.' && IsDigit(At(t, i + 1)) then
      var j := DigitsEnd(t, i + 1);
      (j, Read(t, i + 1, j, n), i + 1 - j)
    else (i, n, 0)
  }

  /** The exponent: where it ends, and its value. */
  function Exponent(t: string, i: nat): (r: (nat, int))
    requires i <= |t|
    ensures i <= r.0 <= |t|
  {
    if At(t, i) == 'e' || At(t, i) == 'E' then
      var j := if At(t, i + 1) == '+' || At(t, i + 1) == '-' then i + 2 else i + 1;
      var k := DigitsEnd(t, j);
      (k, if At(t, i + 1) == '-' then -Read(t, j, k, 0) else Read(t, j, k, 0))
    else (i, 0)
  }

  function ParseNumber(t: string, i: nat): (r: Parsed<Json>)
    requires i <= |t|
    ensures r.Parsed? && r.value.Number? && i <= r.next <= |t|
    ensures i < |t| && (t[i] == '-' || IsDigit(t[i])) ==> i < r.next
  {
    var w := Whole(t, if At(t, i) == '-' then i + 1 else i);
    var f := Fraction(t, w.0, w.1);
    var e := Exponent(t, f.0);
    Parsed(Number(if At(t, i) == '-' then -f.1 else f.1, f.2 + e.1), e.0)
  }

  predicate StartsWith(t: string, i: nat, w: string) {
    i + |w| <= |t| && t[i..i + |w|] == w
  }

  function ParseValue(t: string, i: nat): (r: Parsed<Json>)
    requires i <= |t|
    ensures r.Parsed? ==> i < r.next <= |t|
    decreases |t| - i, 1
  {
    if StartsWith(t, i, "null") then Parsed(Null, i + 4)
    else if StartsWith(t, i, "false") then Parsed(False, i + 5)
    else if StartsWith(t, i, "true") then Parsed(True, i + 4)
    else if At(t, i) == '\"' then
      var s := ParseString(t, i);
      if s.Parsed? then Parsed(Text(s.value), s.next) else if s.Stray? then Stray else Failed
    else if At(t, i) == '-' || IsDigit(At(t, i)) then ParseNumber(t, i)
    else if At(t, i) == '[' then
      var j := Skip(t, i + 1);
      if At(t, j) == ']' then Parsed(Array([]), j + 1)
      else
        var r := ParseItems(t, j);
        if r.Parsed? then Parsed(Array(r.value), r.next) else if r.Stray? then Stray else Failed
    else if At(t, i) == '{' then
      var j := Skip(t, i + 1);
      if At(t, j) == '}' then Parsed(Object([]), j + 1)
      else
        var r := ParseFields(t, j);
        if r.Parsed? then Parsed(Object(r.value), r.next) else if r.Stray? then Stray else Failed
    else Failed
  }

  /** The values from i on, up to the closing bracket. */
  function ParseItems(t: string, i: nat): (r: Parsed<seq<Json>>)
    requires i <= |t|
    ensures r.Parsed? ==> i < r.next <= |t|
    decreases |t| - i, 2
  {
    var v := ParseValue(t, Skip(t, i));
    if !v.Parsed? then (if v.Stray? then Stray else Failed)
    else
      var k := Skip(t, v.next);
      if At(t, k) == ',' then
        var r := ParseItems(t, k + 1);
        if r.Parsed? then Parsed([v.value] + r.value, r.next) else r
      else if At(t, k) == ']' then Parsed([v.value], k + 1)
      else Failed
  }

  /** The named values from i on, up to the closing brace. */
  function ParseFields(t: string, i: nat): (r: Parsed<seq<(string, Json)>>)
    requires i <= |t|
    ensures r.Parsed? ==> i < r.next <= |t|
    decreases |t| - i, 2
  {
    var f := ParseField(t, i);
    if !f.Parsed? then (if f.Stray? then Stray else Failed)
    else
      var k := Skip(t, f.next);
      if At(t, k) == ',' then
        var r := ParseFields(t, k + 1);
        if r.Parsed? then Parsed([f.value] + r.value, r.next) else r
      else if At(t, k) == '}' then Parsed([f.value], k + 1)
      else Failed
  }

  function ParseField(t: string, i: nat): (r: Parsed<(string, Json)>)
    requires i <= |t|
    ensures r.Parsed? ==> i < r.next <= |t|
    decreases |t| - i, 1
  {
    var s := ParseString(t, Skip(t, i));
    if !s.Parsed? then (if s.Stray? then Stray else Failed)
    else
      var c := Skip(t, s.next);
      if At(t, c) != ':' then Failed
      else
        var v := ParseValue(t, Skip(t, c + 1));
        if v.Parsed? then Parsed((s.value, v.value), v.next) else if v.Stray? then Stray else Failed
  }
}
