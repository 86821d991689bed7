/** The loops of cJSON's parser and printer; a text is a C string without its terminator. */
module JsonText {
  import opened JsonSizes
  import opened JsonSpec
  import JsonEscapes

  // Parsing

  method SkipSpace(t: string, i0: nat) returns (i: nat)
    ensures i == Skip(t, i0)
  {
    i := i0;
    while i < |t| && t[i] <= ' ' && t[i] != 0 as char
      invariant i0 <= i && Skip(t, i0) == Skip(t, i)
    {
      i := i + 1;
    }
  }

  /** The first pass of parse_string. */
  method CountString(t: string, i: nat) returns (len: nat)
    ensures len == RawLength(t, i)
  {
    var ptr := i;
    len := 0;
    while ptr < |t| && t[ptr] != '\"'
      invariant len + RawLength(t, ptr) == RawLength(t, i)
      decreases |t| - ptr
    {
      len := len + 1;
      ptr := if t[ptr] == '\\' then ptr + 2 else ptr + 1;
    }
  }

  /** parse_hex4 */
  method ParseHex4(t: string, i: nat) returns (h: int)
    ensures h == Hex4(t, i)
  {
    var d := HexValue(At(t, i));
    if d < 0 {
      return 0;
    }
    h := d * 16;
    d := HexValue(At(t, i + 1));
    if d < 0 {
      return 0;
    }
    h := (h + d) * 16;
    d := HexValue(At(t, i + 2));
    if d < 0 {
      return 0;
    }
    h := (h + d) * 16;
    d := HexValue(At(t, i + 3));
    if d < 0 {
      return 0;
    }
    h := h + d;
  }

  const FIRST_BYTE_MARK := [0x00, 0x00, 0xC0, 0xE0, 0xF0, 0xF8, 0xFC]

  /** The bytes of a code point, written from the last one back. */
  method EncodeUtf8(code: int) returns (bytes: string)
    requires 0 <= code < 0x11_0000
    ensures bytes == Utf8(code)
  {
    JsonEscapes.Split(code);
    var uc, len := code, 4;
    if uc < 0x80 {
      len := 1;
    } else if uc < 0x800 {
      len := 2;
    } else if uc < 0x1_0000 {
      len := 3;
    }
    bytes := "";
    if len >= 4 {
      bytes, uc := [(0x80 + uc % 0x40) as char] + bytes, uc / 0x40;
    }
    if len >= 3 {
      bytes, uc := [(0x80 + uc % 0x40) as char] + bytes, uc / 0x40;
    }
    if len >= 2 {
      bytes, uc := [(0x80 + uc % 0x40) as char] + bytes, uc / 0x40;
    }
    bytes := [(FIRST_BYTE_MARK[len] + uc) as char] + bytes;
  }

  /** The escape whose u stands at j; the text must go on behind its digits. */
  method ReadUnicode(t: string, j: nat) returns (r: Parsed<string>)
    requires j < |t|
    ensures r == Unicode(t, j)
  {
    var uc := ParseHex4(t, j + 1);
    var ptr := j + 4;
    if ptr >= |t| {
      return Stray;
    }
    if 0xDC00 <= uc <= 0xDFFF || uc == 0 {
      return Parsed("", ptr + 1);
    }
    if 0xD800 <= uc <= 0xDBFF {
      if At(t, ptr + 1) != '\\' || At(t, ptr + 2) != 'u' {
        return Parsed("", ptr + 1);
      }
      var uc2 := ParseHex4(t, ptr + 3);
      ptr := ptr + 6;
      if ptr >= |t| {
        return Stray;
      }
      if uc2 < 0xDC00 || uc2 > 0xDFFF {
        return Parsed("", ptr + 1);
      }
      uc := 0x1_0000 + uc % 0x400 * 0x400 + uc2 % 0x400;
    }
    var bytes := EncodeUtf8(uc);
    return Parsed(bytes, ptr + 1);
  }

  /** The switch over the letter of an escape, which stands at j. */
  method ReadEscape(t: string, j: nat) returns (r: Parsed<string>)
    ensures r == Unescape(t, j)
  {
    if j >= |t| {
      return Stray;
    }
    match t[j] {
      case 'b' => r := Parsed([8 as char], j + 1);
      case 'f' => r := Parsed([12 as char], j + 1);
      case 'n' => r := Parsed("\n", j + 1);
      case 'r' => r := Parsed("\r", j + 1);
      case 't' => r := Parsed("\t", j + 1);
      case 'u' => r := ReadUnicode(t, j);
      case _ => r := Parsed([t[j]], j + 1);
    }
  }

  /** parse_string; size is what it allocates. */
  method ReadString(t: string, i: nat) returns (r: Parsed<string>, size: nat)
    requires i <= |t|
    ensures r == ParseString(t, i)
    ensures r.Parsed? ==> size == RawLength(t, i + 1) + 1 && (Tidy(t, i + 1) ==> |r.value| + 1 <= size)
  {
    if i == |t| || t[i] != '\"' {
      return Failed, 0;
    }
    var len := CountString(t, i + 1);
    size := len + 1;
    r := ReadBody(t, i);
    if Tidy(t, i + 1) {
      BodyFits(t, i + 1);
    }
  }

  /** Its second pass. */
  method ReadBody(t: string, i: nat) returns (r: Parsed<string>)
    requires i < |t|
    ensures r == StringBody(t, i + 1)
  {
    var ptr, out := i + 1, "";
    NothingRead(StringBody(t, ptr));
    while ptr < |t| && t[ptr] != '\"'
      invariant i < ptr <= |t| && StringBody(t, i + 1) == Prepend(out, StringBody(t, ptr))
    {
      ghost var rest := StringBody(t, ptr);
      if t[ptr] != '\\' {
        ReadOn(out, [t[ptr]], StringBody(t, ptr + 1));
        out, ptr := out + [t[ptr]], ptr + 1;
      } else {
        var e := ReadEscape(t, ptr + 1);
        if !e.Parsed? {
          return e;
        }
        ReadOn(out, e.value, StringBody(t, e.next));
        out, ptr := out + e.value, e.next;
      }
    }
    assert out + "" == out;
    return Parsed(out, if ptr < |t| then ptr + 1 else ptr);
  }

  lemma NothingRead(r: Parsed<string>)
    ensures Prepend("", r) == r
  {
    if r.Parsed? {
      assert "" + r.value == r.value;
    }
  }

  lemma ReadOn(x: string, y: string, r: Parsed<string>)
    ensures Prepend(x, Prepend(y, r)) == Prepend(x + y, r)
  {
    if r.Parsed? {
      assert x + (y + r.value) == (x + y) + r.value;
    }
  }

  /** A run of digits, read behind the number n0. */
  method ReadDigits(t: string, i0: nat, n0: int) returns (i: nat, n: int)
    requires i0 <= |t|
    ensures i == DigitsEnd(t, i0) && n == Read(t, i0, i, n0)
  {
    i, n := i0, n0;
    while i < |t| && IsDigit(t[i])
      invariant i0 <= i <= |t| && DigitsEnd(t, i0) == DigitsEnd(t, i)
      invariant Read(t, i0, DigitsEnd(t, i), n0) == Read(t, i, DigitsEnd(t, i), n)
    {
      n := n * 10 + t[i] as int - '0' as int;
      i := i + 1;
    }
  }

  method ReadWhole(t: string, i: nat) returns (num: nat, n: int)
    requires i <= |t|
    ensures (num, n) == Whole(t, i)
  {
    num, n := i, 0;
    if At(t, num) == '0' {
      num := num + 1;
    }
    if '1' <= At(t, num) <= '9' {
      num, n := ReadDigits(t, num, n);
    }
  }

  method ReadExponent(t: string, i: nat) returns (num: nat, e: int)
    requires i <= |t| && (At(t, i) == 'e' || At(t, i) == 'E')
    ensures (num, e) == Exponent(t, i)
  {
    var subscale, signsubscale: int := 0, 1;
    num := i + 1;
    if At(t, num) == '+' {
      num := num + 1;
    } else if At(t, num) == '-' {
      signsubscale, num := -1, num + 1;
    }
    num, subscale := ReadDigits(t, num, 0);
    e := subscale * signsubscale;
  }

  /** parse_number, without the rounding to a double. */
  method ReadNumber(t: string, i: nat) returns (r: Parsed<Json>)
    requires i <= |t|
    ensures r == ParseNumber(t, i)
  {
    var num: nat, n: int, sign: int, scale: int, exp: int := i, 0, 1, 0, 0;
    if At(t, num) == '-' {
      sign, num := -1, num + 1;
    }
    num, n := ReadWhole(t, num);
    if At(t, num) == '.' && IsDigit(At(t, num + 1)) {
      var start: int := num + 1;
      num, n := ReadDigits(t, start, n);
      scale := start - num;
    }
    if At(t, num) == 'e' || At(t, num) == 'E' {
      num, exp := ReadExponent(t, num);
    }
    return Parsed(Number(sign * n, scale + exp), num);
  }

  /** parse_value */
  method ReadValue(t: string, i: nat) returns (r: Parsed<Json>)
    requires i <= |t|
    ensures r == ParseValue(t, i)
    decreases |t| - i, 1
  {
    if StartsWith(t, i, "null") {
      return Parsed(Null, i + 4);
    }
    if StartsWith(t, i, "false") {
      return Parsed(False, i + 5);
    }
    if StartsWith(t, i, "true") {
      return Parsed(True, i + 4);
    }
    if At(t, i) == '\"' {
      var s, _ := ReadString(t, i);
      return if s.Parsed? then Parsed(Text(s.value), s.next) else if s.Stray? then Stray else Failed;
    }
    if At(t, i) == '-' || IsDigit(At(t, i)) {
      r := ReadNumber(t, i);
    } else if At(t, i) == '[' {
      r := ReadArray(t, i);
    } else if At(t, i) == '{' {
      r := ReadObject(t, i);
    } else {
      r := Failed;
    }
  }

  ghost predicate NoWord(t: string, i: nat) {
    !StartsWith(t, i, "null") && !StartsWith(t, i, "false") && !StartsWith(t, i, "true")
  }

  lemma NoItems(r: Parsed<seq<Json>>)
    ensures PrependItems([], r) == r
  {
    if r.Parsed? {
      assert [] + r.value == r.value;
    }
  }

  ghost function PrependItems(s: seq<Json>, r: Parsed<seq<Json>>): Parsed<seq<Json>> {
    if r.Parsed? then Parsed(s + r.value, r.next) else r
  }

  /** parse_array */
  method ReadArray(t: string, i: nat) returns (r: Parsed<Json>)
    requires i < |t| && t[i] == '[' && NoWord(t, i)
    ensures r == ParseValue(t, i)
    decreases |t| - i, 0
  {
    var value := SkipSpace(t, i + 1);
    if At(t, value) == ']' {
      return Parsed(Array([]), value + 1);
    }
    var all := ReadItems(t, value);
    return if all.Parsed? then Parsed(Array(all.value), all.next) else if all.Stray? then Stray else Failed;
  }

  /** Its loop, from the first of the items on. */
  method ReadItems(t: string, i: nat) returns (r: Parsed<seq<Json>>)
    requires i <= |t|
    ensures r == ParseItems(t, i)
    decreases |t| - i, 4
  {
    r := CollectItems(t, i);
    assert Looped(0);
  }

  /** What the items from i on are, out of sight until Looped of some number is asserted. */
  ghost predicate ItemsFrom(t: string, i: nat, r: Parsed<seq<Json>>) {
    i <= |t| && forall k {:trigger Looped(k)} | Looped(k) :: r == ParseItems(t, i)
  }

  ghost predicate Looped(k: int) {
    true
  }

  method CollectItems(t: string, i: nat) returns (r: Parsed<seq<Json>>)
    requires i <= |t|
    ensures ItemsFrom(t, i, r)
    decreases |t| - i, 3
  {
    var value := i;
    var items: seq<Json> := [];
    ghost var whole, rest := AllItems(t, i);
    while true
      invariant i <= value <= |t| && ItemsFrom(t, i, whole) && ItemsFrom(t, value, rest)
      invariant whole == PrependItems(items, rest)
      decreases |t| - value
    {
      var start := SkipSpace(t, value);
      var v := ReadValue(t, start);
      if !v.Parsed? {
        NoItemRead(t, value, rest);
        return if v.Stray? then Stray else Failed;
      }
      var k := SkipSpace(t, v.next);
      rest := ItemRead(t, value, items, rest, v.value, v.next);
      items := items + [v.value];
      if At(t, k) == ',' {
        value := k + 1;
      } else if At(t, k) == ']' {
        return Parsed(items, k + 1);
      } else {
        return Failed;
      }
    }
  }

  lemma AllItems(t: string, i: nat) returns (whole: Parsed<seq<Json>>, rest: Parsed<seq<Json>>)
    requires i <= |t|
    ensures ItemsFrom(t, i, whole) && ItemsFrom(t, i, rest) && whole == PrependItems([], rest)
  {
    whole := ParseItems(t, i);
    rest := whole;
    NoItems(whole);
  }

  lemma NoItemRead(t: string, i: nat, r: Parsed<seq<Json>>)
    requires ItemsFrom(t, i, r) && !ParseValue(t, Skip(t, i)).Parsed?
    ensures r == if ParseValue(t, Skip(t, i)).Stray? then Stray else Failed
  {
    assert Looped(0);
  }

  lemma ItemsAre(t: string, i: nat, v: Json, n: nat)
    requires i <= |t| && n <= |t| && ParseValue(t, Skip(t, i)) == Parsed(v, n)
    ensures
      var k, r := Skip(t, n), ParseItems(t, i);
      if At(t, k) == ',' then r == PrependItems([v], ParseItems(t, k + 1))
      else if At(t, k) == ']' then r == Parsed([v], k + 1)
      else r == Failed
  {
  }

  lemma ItemsOn(x: seq<Json>, y: seq<Json>, r: Parsed<seq<Json>>)
    ensures PrependItems(x, PrependItems(y, r)) == PrependItems(x + y, r)
  {
    if r.Parsed? {
      assert x + (y + r.value) == (x + y) + r.value;
    }
  }

  lemma ItemRead(t: string, i: nat, items: seq<Json>, r: Parsed<seq<Json>>, v: Json, n: nat)
    returns (rest: Parsed<seq<Json>>)
    requires ItemsFrom(t, i, r) && n <= |t| && ParseValue(t, Skip(t, i)) == Parsed(v, n)
    ensures
      var k, all := Skip(t, n), PrependItems(items, r);
      if At(t, k) == ',' then ItemsFrom(t, k + 1, rest) && all == PrependItems(items + [v], rest)
      else if At(t, k) == ']' then all == Parsed(items + [v], k + 1)
      else all == Failed
  {
    assert Looped(0);
    ItemsAre(t, i, v, n);
    var k := Skip(t, n);
    rest := r;
    if At(t, k) == ',' {
      rest := ParseItems(t, k + 1);
      ItemsOn(items, [v], rest);
    }
  }

  lemma NoFields(r: Parsed<seq<(string, Json)>>)
    ensures PrependFields([], r) == r
  {
    if r.Parsed? {
      assert [] + r.value == r.value;
    }
  }

  ghost function PrependFields(s: seq<(string, Json)>, r: Parsed<seq<(string, Json)>>): Parsed<seq<(string, Json)>> {
    if r.Parsed? then Parsed(s + r.value, r.next) else r
  }

  /** A name, a colon and a value. */
  method ReadField(t: string, i: nat) returns (r: Parsed<(string, Json)>)
    requires i <= |t|
    ensures r == ParseField(t, i)
    decreases |t| - i, 2
  {
    var start := SkipSpace(t, i);
    var s, _ := ReadString(t, start);
    if !s.Parsed? {
      return if s.Stray? then Stray else Failed;
    }
    var c := SkipSpace(t, s.next);
    if At(t, c) != ':' {
      return Failed;
    }
    var from := SkipSpace(t, c + 1);
    var v := ReadValue(t, from);
    return if v.Parsed? then Parsed((s.value, v.value), v.next) else if v.Stray? then Stray else Failed;
  }

  /** parse_object */
  method ReadObject(t: string, i: nat) returns (r: Parsed<Json>)
    requires i < |t| && t[i] == '{' && NoWord(t, i)
    ensures r == ParseValue(t, i)
    decreases |t| - i, 0
  {
    var value := SkipSpace(t, i + 1);
    if At(t, value) == '}' {
      return Parsed(Object([]), value + 1);
    }
    var all := ReadFields(t, value);
    return if all.Parsed? then Parsed(Object(all.value), all.next) else if all.Stray? then Stray else Failed;
  }

  /** Its loop, from the first of the fields on. */
  method ReadFields(t: string, i: nat) returns (r: Parsed<seq<(string, Json)>>)
    requires i <= |t|
    ensures r == ParseFields(t, i)
    decreases |t| - i, 3
  {
    var value := i;
    var fields: seq<(string, Json)> := [];
    ghost var whole := ParseFields(t, i);
    NoFields(whole);
    while true
      invariant i <= value <= |t| && whole == PrependFields(fields, ParseFields(t, value))
      decreases |t| - value
    {
      var v := ReadField(t, value);
      if !v.Parsed? {
        return if v.Stray? then Stray else Failed;
      }
      var k := SkipSpace(t, v.next);
      FieldRead(t, value, fields, v.value, v.next);
      fields := fields + [v.value];
      if At(t, k) == ',' {
        value := k + 1;
      } else if At(t, k) == '}' {
        return Parsed(fields, k + 1);
      } else {
        return Failed;
      }
    }
  }

  lemma FieldRead(t: string, i: nat, fields: seq<(string, Json)>, f: (string, Json), n: nat)
    requires i <= |t| && n <= |t| && ParseField(t, i) == Parsed(f, n)
    ensures
      var k, r := Skip(t, n), PrependFields(fields, ParseFields(t, i));
      if At(t, k) == ',' then r == PrependFields(fields + [f], ParseFields(t, k + 1))
      else if At(t, k) == '}' then r == Parsed(fields + [f], k + 1)
      else r == Failed
  {
    var k := Skip(t, n);
    if At(t, k) == ',' {
      var r := ParseFields(t, k + 1);
      if r.Parsed? {
        assert fields + ([f] + r.value) == (fields + [f]) + r.value;
      }
    }
  }

  // Printing

  /** The first pass of print_string_ptr. */
  method CountEscaped(s: string) returns (len: nat)
    ensures len == EscapedLength(s, 0)
  {
    len := 0;
    for k := 0 to |s|
      invariant len + EscapedLength(s, k) == EscapedLength(s, 0)
    {
      len := len + CharLength(s[k]);
    }
  }

  /** The switch over a character that is escaped, or the character itself. */
  method WriteChar(token: char) returns (out: string)
    ensures out == Escape(token)
  {
    if token > 31 as char && token != '\"' && token != '\\' {
      return [token];
    }
    out := "\\";
    match token {
      case '\\' => out := out + "\\";
      case '\"' => out := out + "\"";
      case '\n' => out := out + "n";
      case '\r' => out := out + "r";
      case '\t' => out := out + "t";
      case _ =>
        if token == 8 as char {
          out := out + "b";
        } else if token == 12 as char {
          out := out + "f";
        } else {
          out := out + "u00" + [HexDigit(token as int / 16), HexDigit(token as int % 16)];
        }
    }
  }

  /** print_string_ptr; size is what it allocates. */
  method WriteString(s: string) returns (out: string, size: nat)
    ensures out == PrintString(s) && size == StringSize(s) == |out| + 1
  {
    var len := CountEscaped(s);
    size := len + 3;
    StringFits(s);
    out := "\"";
    for k := 0 to |s|
      invariant out + EscapeFrom(s, k) == "\"" + EscapeFrom(s, 0)
    {
      assert (out + Escape(s[k])) + EscapeFrom(s, k + 1) == out + EscapeFrom(s, k);
      var written := WriteChar(s[k]);
      out := out + written;
    }
    assert out + "" == out;
    out := out + "\"";
  }

  /** print_value */
  method WriteValue(v: Json, depth: nat, fmt: bool) returns (out: string)
    ensures out == Print(v, depth, fmt)
    decreases v, 1
  {
    match v {
      case Null => out := "null";
      case False => out := "false";
      case True => out := "true";
      case Number(m, _) => out := PrintNumber(m);
      case Text(s) => var size; out, size := WriteString(s);
      case Array(_) => var size; out, size := WriteArray(v, depth, fmt);
      case Object(_) => var size; out, size := WriteObject(v, depth, fmt);
    }
  }

  /** print_array; size is what it allocates. */
  method WriteArray(v: Json, depth: nat, fmt: bool) returns (out: string, size: nat)
    requires v.Array?
    ensures out == Print(v, depth, fmt) && size == ArraySize(v, depth, fmt) && |out| + 1 <= size
    decreases v, 0, 1
  {
    ArrayFits(v, depth, fmt);
    if |v.items| == 0 {
      return "[]", 3;
    }
    var entries;
    entries, size := WriteElements(v, depth + 1, fmt);
    out := ComposeItems(v, depth, fmt, entries);
  }

  /** The elements of an array, printed, and what they need. */
  method WriteElements(v: Json, depth: nat, fmt: bool) returns (entries: seq<string>, len: nat)
    requires v.Array?
    ensures |entries| == |v.items| && forall j | 0 <= j < |v.items| :: entries[j] == Print(v.items[j], depth, fmt)
    ensures len == 5 + ItemsLength(v, 0, depth, fmt)
    decreases v, 0, 0
  {
    entries, len := [], 5;
    for i := 0 to |v.items|
      invariant |entries| == i && forall j | 0 <= j < i :: entries[j] == Print(v.items[j], depth, fmt)
      invariant len + ItemsLength(v, i, depth, fmt) == 5 + ItemsLength(v, 0, depth, fmt)
    {
      var ret := WriteValue(v.items[i], depth, fmt);
      entries := entries + [ret];
      len := len + |ret| + 2 + if fmt then 1 else 0;
    }
  }

  /** The items still to be written. */
  ghost function ItemsLeft(v: Json, i: nat, depth: nat, fmt: bool): string
    requires v.Array? && i <= |v.items|
  {
    if i < |v.items| then PrintItems(v, i, depth, fmt) else ""
  }

  method ComposeItems(v: Json, depth: nat, fmt: bool, entries: seq<string>) returns (out: string)
    requires v.Array? && v.items != [] && |entries| == |v.items|
    requires forall j | 0 <= j < |v.items| :: entries[j] == Print(v.items[j], depth + 1, fmt)
    ensures out == Print(v, depth, fmt)
  {
    out := "[";
    for i := 0 to |entries|
      invariant out + ItemsLeft(v, i, depth + 1, fmt) == "[" + ItemsLeft(v, 0, depth + 1, fmt)
    {
      ghost var was := out;
      out := out + entries[i];
      if i != |entries| - 1 {
        out := out + ",";
        if fmt {
          out := out + " ";
        }
      }
      ItemWritten(v, i, depth + 1, fmt, was, out);
    }
    assert out + "" == out;
    out := out + "]";
  }

  lemma ItemWritten(v: Json, i: nat, depth: nat, fmt: bool, was: string, out: string)
    requires v.Array? && i < |v.items|
    requires out == was + Print(v.items[i], depth, fmt) + if i == |v.items| - 1 then "" else if fmt then ", " else ","
    ensures out + ItemsLeft(v, i + 1, depth, fmt) == was + ItemsLeft(v, i, depth, fmt)
  {
  }

  /** print_object; size is what it allocates. */
  method WriteObject(v: Json, depth0: nat, fmt: bool) returns (out: string, size: nat)
    requires v.Object?
    ensures out == Print(v, depth0, fmt) && size == ObjectSize(v, depth0, fmt) && |out| + 1 <= size
    decreases v, 0, 1
  {
    ObjectFits(v, depth0, fmt);
    if |v.fields| == 0 {
      return if fmt then "{\n" + Tabs(depth0 - 1) + "}" else "{}", if fmt then depth0 + 4 else 3;
    }
    var depth := depth0 + 1;
    var names, entries;
    names, entries, size := WriteEntries(v, depth, fmt);
    var start := "{" + (if fmt then "\n" else "");
    out := ComposeFields(start, v, depth, fmt, names, entries);
    out := out + (if fmt then Tabs(depth - 1) else "") + "}";
  }

  /** The names and the values of an object, printed, and what they need. */
  method WriteEntries(v: Json, depth: nat, fmt: bool)
    returns (names: seq<string>, entries: seq<string>, len: nat)
    requires v.Object?
    ensures |names| == |entries| == |v.fields|
    ensures forall j | 0 <= j < |v.fields| :: names[j] == PrintString(v.fields[j].0)
    ensures forall j | 0 <= j < |v.fields| :: entries[j] == Print(v.fields[j].1, depth, fmt)
    ensures len == 7 + (if fmt then depth else 0) + FieldsLength(v, 0, depth, fmt)
    decreases v, 0, 0
  {
    names, entries, len := [], [], 7 + if fmt then depth else 0;
    for i := 0 to |v.fields|
      invariant |names| == |entries| == i
      invariant forall j | 0 <= j < i :: names[j] == PrintString(v.fields[j].0)
      invariant forall j | 0 <= j < i :: entries[j] == Print(v.fields[j].1, depth, fmt)
      invariant len + FieldsLength(v, i, depth, fmt) == 7 + (if fmt then depth else 0) + FieldsLength(v, 0, depth, fmt)
    {
      var str, _ := WriteString(v.fields[i].0);
      var ret := WriteValue(v.fields[i].1, depth, fmt);
      names, entries := names + [str], entries + [ret];
      len := len + |ret| + |str| + 2 + if fmt then 2 + depth else 0;
    }
  }

  method ComposeFields(start: string, v: Json, depth: nat, fmt: bool, names: seq<string>, entries: seq<string>)
    returns (out: string)
    requires v.Object? && v.fields != [] && |names| == |entries| == |v.fields|
    requires forall j | 0 <= j < |v.fields| :: names[j] == PrintString(v.fields[j].0)
    requires forall j | 0 <= j < |v.fields| :: entries[j] == Print(v.fields[j].1, depth, fmt)
    ensures out == start + PrintFields(v, 0, depth, fmt)
  {
    out := start;
    for i := 0 to |entries|
      invariant out + FieldsLeft(v, i, depth, fmt) == start + FieldsLeft(v, 0, depth, fmt)
    {
      out := WriteField(out, v, i, depth, fmt, names[i], entries[i]);
    }
    assert out + "" == out;
  }

  /** The fields still to be written. */
  ghost function FieldsLeft(v: Json, i: nat, depth: nat, fmt: bool): string
    requires v.Object? && i <= |v.fields|
  {
    if i < |v.fields| then PrintFields(v, i, depth, fmt) else ""
  }

  method WriteField(was: string, v: Json, i: nat, depth: nat, fmt: bool, name: string, entry: string)
    returns (out: string)
    requires v.Object? && i < |v.fields|
    requires name == PrintString(v.fields[i].0) && entry == Print(v.fields[i].1, depth, fmt)
    ensures out + FieldsLeft(v, i + 1, depth, fmt) == was + FieldsLeft(v, i, depth, fmt)
  {
    var tabs, colon, nl := if fmt then Tabs(depth) else "", if fmt then ":\t" else ":", if fmt then "\n" else "";
    var sep := if i == |v.fields| - 1 then "" else ",";
    out := was + tabs;
    out := out + name + colon;
    out := out + entry;
    out := out + sep;
    out := out + nl;
    Together(was, tabs, name, colon, entry, sep, nl, FieldsLeft(v, i + 1, depth, fmt));
  }

  lemma Together(w: string, a: string, b: string, c: string, d: string, e: string, f: string, g: string)
    ensures (w + a + b + c + d + e + f) + g == w + (a + b + c + d + e + f + g)
  {
  }
}
