/** Parsing what was printed gives the value back. */
module JsonRoundTrip {
  import opened JsonSpec

  /** What the printer is modelled for: whole numbers of int range, and strings without a terminator inside. */
  ghost predicate Printable(v: Json)
    decreases v
  {
    match v
    case Number(m, e) => e == 0 && -0x8000_0000 <= m < 0x8000_0000
    case Text(s) => 0 as char !in s
    case Array(items) => forall k | 0 <= k < |items| :: Printable(items[k])
    case Object(fields) => forall k | 0 <= k < |fields| :: 0 as char !in fields[k].0 && Printable(fields[k].1)
    case _ => true
  }

  /** w stands at i. */
  ghost predicate Stands(t: string, i: nat, w: string) {
    i + |w| <= |t| && forall k {:trigger Stood(k)} | Stood(k) :: StartsWith(t, i, w)
  }

  // Asserting one of these of some number opens the definitions stated under it.

  ghost predicate Stood(k: int) {
    true
  }

  ghost predicate Blanked(k: int) {
    true
  }

  ghost predicate Printed(k: int) {
    true
  }

  ghost predicate Checked(k: int) {
    true
  }

  ghost predicate Known(k: int) {
    true
  }

  lemma StartsSplit(t: string, i: nat, x: string, y: string)
    requires Stands(t, i, x + y)
    ensures Stands(t, i, x) && Stands(t, i + |x|, y)
  {
    assert Stood(0);
    assert t[i..i + |x|] == t[i..i + |x + y|][..|x|];
    assert t[i + |x|..i + |x| + |y|] == t[i..i + |x + y|][|x|..];
  }

  lemma StartsAt(t: string, i: nat, x: string, k: nat)
    requires Stands(t, i, x) && k < |x|
    ensures i + k < |t| && t[i + k] == x[k]
  {
    assert Stood(0);
    assert t[i..i + |x|][k] == x[k];
  }

  // Strings

  /** x is what c is printed as in a string. */
  ghost predicate IsEscape(c: char, x: string) {
    forall j {:trigger Printed(j)} | Printed(j) :: x == Escape(c)
  }

  /** p is what s is printed as from k on. */
  ghost predicate IsBody(s: string, k: nat, p: string) {
    k <= |s| && forall j {:trigger Printed(j)} | Printed(j) :: p == EscapeFrom(s, k)
  }

  lemma BodyParts(s: string, k: nat, p: string) returns (x: string, rest: string)
    requires IsBody(s, k, p) && k < |s|
    ensures p == x + rest && IsEscape(s[k], x) && IsBody(s, k + 1, rest)
  {
    assert Printed(0);
    x, rest := Escape(s[k]), EscapeFrom(s, k + 1);
  }

  /** Reading a string at i yields c first and goes on at n. */
  ghost predicate ReadsChar(t: string, i: nat, c: char, n: nat) {
    i <= |t| && n <= |t| && forall j {:trigger Known(j)} | Known(j) :: StringBody(t, i) == Prepend([c], StringBody(t, n))
  }

  /** Reading a string at i yields s from k on and ends at n. */
  ghost predicate ReadsBody(t: string, i: nat, s: string, k: nat, n: nat) {
    i <= |t| && k <= |s| && forall j {:trigger Known(j)} | Known(j) :: StringBody(t, i) == Parsed(s[k..], n)
  }

  lemma EscapeBack(t: string, i: nat, c: char, x: string)
    requires IsEscape(c, x) && Stands(t, i, x) && c != 0 as char
    ensures ReadsChar(t, i, c, i + |x|)
  {
    assert Printed(0);
    assert Stood(0);
    StartsAt(t, i, x, 0);
    if |x| > 1 {
      StartsAt(t, i, x, 1);
    }
    if |x| == 6 {
      StartsAt(t, i, x, 2);
      StartsAt(t, i, x, 3);
      StartsAt(t, i, x, 4);
      StartsAt(t, i, x, 5);
      HexBack(t, i, c);
    }
  }

  lemma HexBack(t: string, i: nat, c: char)
    requires 0 < c as int < 32 && i + 6 <= |t|
    requires t[i + 1] == 'u' && t[i + 2] == '0' && t[i + 3] == '0'
    requires t[i + 4] == HexDigit(c as int / 16) && t[i + 5] == HexDigit(c as int % 16)
    ensures Unescape(t, i + 1) == Parsed([c], i + 6)
  {
    assert HexValue(t[i + 4]) == c as int / 16 && HexValue(t[i + 5]) == c as int % 16;
    assert HexValue(t[i + 2]) == 0 && HexValue(t[i + 3]) == 0;
    assert Hex4(t, i + 2) == c as int;
  }

  lemma Regroup(a: string, b: string, c: string)
    ensures (a + b) + c == a + (b + c)
  {
  }

  /** One more character, whose escape is x. */
  lemma BodyStep(t: string, i: nat, s: string, k: nat, m: nat, n: nat)
    requires k < |s| && ReadsChar(t, i, s[k], m) && ReadsBody(t, m, s, k + 1, n)
    ensures ReadsBody(t, i, s, k, n)
  {
    assert Known(0);
    assert s[k..] == [s[k]] + s[k + 1..];
  }

  lemma BodyEnds(t: string, i: nat, s: string)
    requires Stands(t, i, "\"")
    ensures ReadsBody(t, i, s, |s|, i + 1)
  {
    StartsAt(t, i, "\"", 0);
    assert s[|s|..] == "";
  }

  lemma {:induction false} BodyRoundTrip(t: string, i: nat, s: string, k: nat, p: string)
    requires IsBody(s, k, p) && 0 as char !in s && Stands(t, i, p + "\"")
    ensures ReadsBody(t, i, s, k, i + |p| + 1)
    decreases |s| - k
  {
    if k == |s| {
      assert p == "" by {
        assert Printed(0);
      }
      assert p + "\"" == "\"";
      BodyEnds(t, i, s);
    } else {
      var x, rest := BodyParts(s, k, p);
      Regroup(x, rest, "\"");
      StartsSplit(t, i, x, rest + "\"");
      assert s[k] in s;
      EscapeBack(t, i, s[k], x);
      BodyRoundTrip(t, i + |x|, s, k + 1, rest);
      BodyStep(t, i, s, k, i + |x|, i + |p| + 1);
    }
  }

  /** Section 7 of RFC 8259: every string survives being escaped. */
  lemma StringRoundTrip(t: string, i: nat, s: string)
    requires 0 as char !in s && Stands(t, i, PrintString(s))
    ensures ParseString(t, i) == Parsed(s, i + |PrintString(s)|) && t[i] == '\"'
  {
    var body := EscapeFrom(s, 0);
    assert PrintString(s) == "\"" + (body + "\"");
    StartsAt(t, i, PrintString(s), 0);
    StartsSplit(t, i, "\"", body + "\"");
    BodyRoundTrip(t, i + 1, s, 0, body);
    assert Known(0);
    assert s[0..] == s;
  }

  // Numbers

  lemma {:induction false} ReadOn(t: string, i: nat, j: nat, n: int)
    requires i <= j < |t|
    ensures Read(t, i, j + 1, n) == Read(t, i, j, n) * 10 + t[j] as int - '0' as int
    decreases j - i
  {
    if i < j {
      ReadOn(t, i + 1, j, n * 10 + t[i] as int - '0' as int);
    }
  }

  lemma {:induction false} DecimalRead(t: string, i: nat, n: nat)
    requires Stands(t, i, Decimal(n))
    ensures Read(t, i, i + |Decimal(n)|, 0) == n
    ensures forall k | i <= k < i + |Decimal(n)| :: IsDigit(t[k])
    ensures |Decimal(n)| > 0 && (n > 0 ==> t[i] != '0') && (n == 0 ==> t[i] == '0' && |Decimal(n)| == 1)
  {
    if n < 10 {
      StartsAt(t, i, Decimal(n), 0);
      assert Read(t, i, i + 1, 0) == Read(t, i + 1, i + 1, t[i] as int - '0' as int);
    } else {
      StartsSplit(t, i, Decimal(n / 10), [Digit(n % 10)]);
      DecimalRead(t, i, n / 10);
      var j := i + |Decimal(n / 10)|;
      StartsAt(t, j, [Digit(n % 10)], 0);
      ReadOn(t, i, j, 0);
    }
  }

  lemma {:induction false} DigitsRun(t: string, i: nat, j: nat)
    requires i <= j <= |t| && (forall k | i <= k < j :: IsDigit(t[k])) && !IsDigit(At(t, j))
    ensures DigitsEnd(t, i) == j
    decreases j - i
  {
    if i < j {
      DigitsRun(t, i + 1, j);
    }
  }

  /** A number ends here. */
  ghost predicate Stops(t: string, i: nat) {
    !IsDigit(At(t, i)) && At(t, i) != '.' && At(t, i) != 'e' && At(t, i) != 'E'
  }

  lemma NumberRoundTrip(t: string, i: nat, m: int)
    requires Stands(t, i, PrintNumber(m)) && Stops(t, i + |PrintNumber(m)|)
    ensures ParseNumber(t, i) == Parsed(Number(m, 0), i + |PrintNumber(m)|)
    ensures t[i] == '-' || IsDigit(t[i])
  {
    var i1 := if m < 0 then i + 1 else i;
    var n := if m < 0 then -m else m;
    if m < 0 {
      StartsSplit(t, i, "-", Decimal(n));
      StartsAt(t, i, "-", 0);
    }
    DecimalRead(t, i1, n);
    var j := i1 + |Decimal(n)|;
    assert IsDigit(t[i1]);
    if n == 0 {
      assert Read(t, j, j, 0) == 0;
    } else {
      DigitsRun(t, i1, j);
    }
  }

  // Values

  lemma {:induction false} SkipTo(t: string, i: nat, j: nat)
    requires i <= j < |t| && (forall k | i <= k < j :: t[k] == ' ' || t[k] == '\t' || t[k] == '\n') && t[j] > ' '
    ensures Skip(t, i) == j
    decreases j - i
  {
    if i < j {
      SkipTo(t, i + 1, j);
    }
  }

  /** Only white space from i to j. */
  ghost predicate Blank(t: string, i: nat, j: nat) {
    && i <= j <= |t|
    && forall k {:trigger Blanked(k)} | Blanked(k) ::
         forall n | i <= n < j :: t[n] == ' ' || t[n] == '\t' || t[n] == '\n'
  }

  lemma BlankRun(t: string, i: nat, w: string)
    requires Stands(t, i, w) && forall c | c in w :: c == ' ' || c == '\t' || c == '\n'
    ensures Blank(t, i, i + |w|)
  {
    forall k | i <= k < i + |w| ensures t[k] == ' ' || t[k] == '\t' || t[k] == '\n' {
      StartsAt(t, i, w, k - i);
      assert w[k - i] in w;
    }
  }

  lemma SkipBlank(t: string, i: nat, j: nat)
    requires Blank(t, i, j) && j < |t| && t[j] > ' '
    ensures Skip(t, i) == j
  {
    assert Blanked(0);
    SkipTo(t, i, j);
  }

  // The parts of a print

  ghost predicate IsPrint(v: Json, depth: nat, fmt: bool, p: string) {
    forall k {:trigger Printed(k)} | Printed(k) :: p == Print(v, depth, fmt)
  }

  ghost predicate IsItems(v: Json, k: nat, depth: nat, fmt: bool, p: string) {
    v.Array? && k < |v.items| && forall j {:trigger Printed(j)} | Printed(j) :: p == PrintItems(v, k, depth, fmt)
  }

  ghost predicate IsFields(v: Json, k: nat, depth: nat, fmt: bool, p: string) {
    v.Object? && k < |v.fields| && forall j {:trigger Printed(j)} | Printed(j) :: p == PrintFields(v, k, depth, fmt)
  }

  ghost predicate IsString(s: string, p: string) {
    forall k {:trigger Printed(k)} | Printed(k) :: p == PrintString(s)
  }

  ghost function Newline(fmt: bool): string {
    if fmt then "\n" else ""
  }

  ghost function Indent(depth: int, fmt: bool): (w: string)
    ensures forall c | c in w :: c == '\t'
  {
    if fmt then Tabs(depth) else ""
  }

  ghost function Comma(fmt: bool): string {
    if fmt then ", " else ","
  }

  ghost function Colon(fmt: bool): string {
    if fmt then ":\t" else ":"
  }

  /** No value begins with white space or with a bracket that closes. */
  lemma ValueBegins(v: Json, depth: nat, fmt: bool, p: string)
    requires IsPrint(v, depth, fmt, p)
    ensures |p| > 0 && p[0] > ' ' && p[0] != ']' && p[0] != '}'
  {
    assert Printed(0);
    if v.Number? {
      DecimalBegins(if v.m < 0 then -v.m else v.m);
    }
  }

  lemma {:induction false} DecimalBegins(n: nat)
    ensures |Decimal(n)| > 0 && IsDigit(Decimal(n)[0])
  {
    if n >= 10 {
      DecimalBegins(n / 10);
    }
  }

  lemma ArrayParts(v: Json, depth: nat, fmt: bool, p: string) returns (q: string)
    requires v.Array? && v.items != [] && IsPrint(v, depth, fmt, p)
    ensures p == ("[" + q) + "]" && IsItems(v, 0, depth + 1, fmt, q)
  {
    assert Printed(0);
    q := PrintItems(v, 0, depth + 1, fmt);
  }

  lemma ItemsParts(v: Json, k: nat, depth: nat, fmt: bool, p: string) returns (x: string, rest: string)
    requires IsItems(v, k, depth, fmt, p)
    ensures IsPrint(v.items[k], depth, fmt, x)
    ensures k == |v.items| - 1 ==> p == x
    ensures k < |v.items| - 1 ==> p == x + (Comma(fmt) + rest) && IsItems(v, k + 1, depth, fmt, rest)
  {
    assert Printed(0);
    x, rest := Print(v.items[k], depth, fmt), if k == |v.items| - 1 then "" else PrintItems(v, k + 1, depth, fmt);
    assert x + "" == x;
  }

  lemma ObjectParts(v: Json, depth: nat, fmt: bool, p: string) returns (q: string)
    requires v.Object? && v.fields != [] && IsPrint(v, depth, fmt, p)
    ensures p == ((("{" + Newline(fmt)) + q) + Indent(depth, fmt)) + "}" && IsFields(v, 0, depth + 1, fmt, q)
  {
    assert Printed(0);
    q := PrintFields(v, 0, depth + 1, fmt);
  }

  lemma FieldsParts(v: Json, k: nat, depth: nat, fmt: bool, p: string) returns (name: string, x: string, rest: string)
    requires IsFields(v, k, depth, fmt, p)
    ensures IsString(v.fields[k].0, name) && IsPrint(v.fields[k].1, depth, fmt, x)
    ensures
      var sep := if k == |v.fields| - 1 then "" else ",";
      p == (((((Indent(depth, fmt) + name) + Colon(fmt)) + x) + sep) + Newline(fmt)) + rest
    ensures if k == |v.fields| - 1 then rest == "" else IsFields(v, k + 1, depth, fmt, rest)
  {
    assert Printed(0);
    name, x := PrintString(v.fields[k].0), Print(v.fields[k].1, depth, fmt);
    rest := if k == |v.fields| - 1 then "" else PrintFields(v, k + 1, depth, fmt);
  }

  ghost predicate Fine(v: Json) {
    forall k {:trigger Checked(k)} | Checked(k) :: Printable(v)
  }

  lemma FineItem(v: Json, k: nat)
    requires Fine(v) && v.Array? && k < |v.items|
    ensures Fine(v.items[k])
  {
    assert Checked(0);
  }

  lemma FineField(v: Json, k: nat)
    requires Fine(v) && v.Object? && k < |v.fields|
    ensures Fine(v.fields[k].1) && 0 as char !in v.fields[k].0
  {
    assert Checked(0);
  }

  // The steps of the parser: what is read from i on, and where the text goes on

  ghost predicate ReadsValue(t: string, i: nat, v: Json, n: nat) {
    i <= |t| && n <= |t| && forall k {:trigger Known(k)} | Known(k) :: ParseValue(t, i) == Parsed(v, n)
  }

  ghost predicate ReadsItems(t: string, i: nat, v: Json, k: nat, n: nat) {
    i <= |t| && v.Array? && k <= |v.items|
    && forall j {:trigger Known(j)} | Known(j) :: ParseItems(t, i) == Parsed(v.items[k..], n)
  }

  ghost predicate ReadsFields(t: string, i: nat, v: Json, k: nat, n: nat) {
    i <= |t| && v.Object? && k <= |v.fields|
    && forall j {:trigger Known(j)} | Known(j) :: ParseFields(t, i) == Parsed(v.fields[k..], n)
  }

  lemma OtherWord(t: string, i: nat, w: string)
    requires i < |t| && w != ""
    ensures t[i] != w[0] ==> !StartsWith(t, i, w)
  {
    if StartsWith(t, i, w) {
      assert t[i] == t[i..i + |w|][0];
    }
  }

  /** A text that begins with none of the words is read by its first character. */
  lemma NoWord(t: string, i: nat)
    requires i < |t| && t[i] != 'n' && t[i] != 'f' && t[i] != 't'
    ensures !StartsWith(t, i, "null") && !StartsWith(t, i, "false") && !StartsWith(t, i, "true")
  {
    OtherWord(t, i, "null");
    OtherWord(t, i, "false");
    OtherWord(t, i, "true");
  }

  lemma ArrayStep(t: string, i: nat, v: Json, n: nat)
    requires i < |t| && t[i] == '[' && At(t, Skip(t, i + 1)) != ']' && n <= |t|
    requires Skip(t, i + 1) == i + 1 && ReadsItems(t, i + 1, v, 0, n)
    ensures ReadsValue(t, i, v, n)
  {
    assert Known(0);
    assert v.items[0..] == v.items;
    NoWord(t, i);
  }

  lemma {:induction false} SkipTwice(t: string, i: nat)
    requires i <= |t|
    ensures Skip(t, Skip(t, i)) == Skip(t, i)
    decreases |t| - i
  {
    if Skip(t, i) != i {
      SkipTwice(t, i + 1);
    }
  }

  lemma SameField(t: string, i: nat, j: nat)
    requires i <= |t| && j <= |t| && Skip(t, i) == Skip(t, j)
    ensures ParseField(t, i) == ParseField(t, j)
  {
  }

  /** What becomes of the fields once the first one has been read. */
  ghost function FieldsAfter(t: string, f: Parsed<(string, Json)>): Parsed<seq<(string, Json)>>
    requires f.Parsed? ==> f.next <= |t|
  {
    if !f.Parsed? then (if f.Stray? then Stray else Failed)
    else
      var k := Skip(t, f.next);
      if At(t, k) == ',' then
        var r := ParseFields(t, k + 1);
        if r.Parsed? then Parsed([f.value] + r.value, r.next) else r
      else if At(t, k) == '}' then Parsed([f.value], k + 1)
      else Failed
  }

  lemma FieldsExpand(t: string, i: nat)
    requires i <= |t|
    ensures ParseFields(t, i) == FieldsAfter(t, ParseField(t, i))
  {
  }

  lemma ObjectStep(t: string, i: nat, v: Json, n: nat)
    requires i < |t| && t[i] == '{' && At(t, Skip(t, i + 1)) != '}' && n <= |t|
    requires ReadsFields(t, i + 1, v, 0, n)
    ensures ReadsValue(t, i, v, n)
  {
    var j := Skip(t, i + 1);
    SkipTwice(t, i + 1);
    SameField(t, i + 1, j);
    FieldsExpand(t, i + 1);
    FieldsExpand(t, j);
    assert Known(0);
    assert v.fields[0..] == v.fields;
    NoWord(t, i);
  }

  lemma LastItem(t: string, i: nat, j: nat, v: Json, k: nat, n: nat)
    requires v.Array? && k + 1 == |v.items|
    requires i <= |t| && Skip(t, i) == j && ReadsValue(t, j, v.items[k], n) && At(t, n) == ']'
    ensures ReadsItems(t, i, v, k, n + 1)
  {
    assert Known(0);
    SkipTo(t, n, n);
    assert v.items[k..] == [v.items[k]];
  }

  lemma NextItem(t: string, i: nat, j: nat, v: Json, k: nat, n: nat, m: nat)
    requires v.Array? && k < |v.items|
    requires i <= |t| && Skip(t, i) == j && ReadsValue(t, j, v.items[k], n) && At(t, n) == ','
    requires ReadsItems(t, n + 1, v, k + 1, m)
    ensures ReadsItems(t, i, v, k, m)
  {
    assert Known(0);
    SkipTo(t, n, n);
    assert v.items[k..] == [v.items[k]] + v.items[k + 1..];
  }

  /** The name, the colon and the value of a field. */
  ghost predicate ReadsField(t: string, i: nat, s: string, v: Json, n: nat) {
    i <= |t| && n <= |t| && forall k {:trigger Known(k)} | Known(k) :: ParseField(t, i) == Parsed((s, v), n)
  }

  lemma FieldStep(t: string, i0: nat, a: nat, b: nat, d: nat, s: string, v: Json, q: nat)
    requires i0 <= |t| && Skip(t, i0) == a <= |t| && ParseString(t, a) == Parsed(s, b) && b < |t| && t[b] == ':'
    requires Skip(t, b + 1) == d && ReadsValue(t, d, v, q)
    ensures ReadsField(t, i0, s, v, q)
  {
    assert Known(0);
    SkipTo(t, b, b);
  }

  lemma LastField(t: string, i: nat, v: Json, k: nat, n: nat, e: nat)
    requires v.Object? && k + 1 == |v.fields|
    requires ReadsField(t, i, v.fields[k].0, v.fields[k].1, n) && Skip(t, n) == e && At(t, e) == '}'
    ensures ReadsFields(t, i, v, k, e + 1)
  {
    assert Known(0);
    assert v.fields[k..] == [v.fields[k]];
  }

  lemma NextField(t: string, i: nat, v: Json, k: nat, n: nat, m: nat)
    requires v.Object? && k < |v.fields|
    requires ReadsField(t, i, v.fields[k].0, v.fields[k].1, n) && At(t, n) == ',' && ReadsFields(t, n + 1, v, k + 1, m)
    ensures ReadsFields(t, i, v, k, m)
  {
    assert Known(0);
    SkipTo(t, n, n);
    assert v.fields[k..] == [v.fields[k]] + v.fields[k + 1..];
  }

  // Values

  lemma ScalarRoundTrip(t: string, i: nat, v: Json, depth: nat, fmt: bool, p: string)
    requires Fine(v) && IsPrint(v, depth, fmt, p) && Stands(t, i, p) && Stops(t, i + |p|)
    requires !v.Array? && !v.Object?
    ensures ReadsValue(t, i, v, i + |p|)
  {
    ValueBegins(v, depth, fmt, p);
    StartsAt(t, i, p, 0);
    assert Printed(0) && Checked(0) && Stood(0);
    match v {
      case Text(s) =>
        StringRoundTrip(t, i, s);
        NoWord(t, i);
      case Number(m, _) =>
        NumberRoundTrip(t, i, m);
        NoWord(t, i);
      case _ =>
        OtherWord(t, i, "null");
        OtherWord(t, i, "false");
    }
  }

  lemma EmptyRoundTrip(t: string, i: nat, v: Json, depth: nat, fmt: bool, p: string)
    requires (v.Array? && v.items == []) || (v.Object? && v.fields == [])
    requires IsPrint(v, depth, fmt, p) && Stands(t, i, p)
    ensures ReadsValue(t, i, v, i + |p|)
  {
    ValueBegins(v, depth, fmt, p);
    StartsAt(t, i, p, 0);
    StartsAt(t, i, p, |p| - 1);
    assert Printed(0);
    forall k | i + 1 <= k < i + |p| - 1 ensures t[k] == ' ' || t[k] == '\t' || t[k] == '\n' {
      StartsAt(t, i, p, k - i);
    }
    NoWord(t, i);
    SkipTo(t, i + 1, i + |p| - 1);
  }

  lemma {:induction false} ValueRoundTrip(t: string, i: nat, v: Json, depth: nat, fmt: bool, p: string)
    requires Fine(v) && IsPrint(v, depth, fmt, p) && Stands(t, i, p) && Stops(t, i + |p|)
    ensures ReadsValue(t, i, v, i + |p|)
    decreases v, 3, 0
  {
    if (v.Array? && v.items == []) || (v.Object? && v.fields == []) {
      EmptyRoundTrip(t, i, v, depth, fmt, p);
    } else if v.Array? {
      ArrayRoundTrip(t, i, v, depth, fmt, p);
    } else if v.Object? {
      ObjectRoundTrip(t, i, v, depth, fmt, p);
    } else {
      ScalarRoundTrip(t, i, v, depth, fmt, p);
    }
  }

  lemma {:induction false} ArrayRoundTrip(t: string, i: nat, v: Json, depth: nat, fmt: bool, p: string)
    requires Fine(v) && v.Array? && v.items != [] && IsPrint(v, depth, fmt, p) && Stands(t, i, p)
    ensures ReadsValue(t, i, v, i + |p|)
    decreases v, 2, 0
  {
    var q := ArrayParts(v, depth, fmt, p);
    ArrayPlaces(t, i, p, q);
    ItemsRoundTrip(t, i + 1, i + 1, v, 0, depth + 1, fmt, q);
    ArrayStep(t, i, v, i + |p|);
  }

  lemma {:induction false} ObjectRoundTrip(t: string, i: nat, v: Json, depth: nat, fmt: bool, p: string)
    requires Fine(v) && v.Object? && v.fields != [] && IsPrint(v, depth, fmt, p) && Stands(t, i, p)
    ensures ReadsValue(t, i, v, i + |p|)
    decreases v, 2, 0
  {
    var q := ObjectParts(v, depth, fmt, p);
    var e, a := ObjectPlaces(t, i, depth, fmt, p, q);
    FieldsRoundTrip(t, i + 1, a, v, 0, depth + 1, fmt, q, e);
    ObjectStep(t, i, v, i + |p|);
  }

  lemma ArrayPlaces(t: string, i: nat, p: string, q: string)
    requires p == ("[" + q) + "]" && Stands(t, i, p)
    ensures i < |t| && t[i] == '[' && Stands(t, i + 1, q) && At(t, i + 1 + |q|) == ']'
    ensures |p| == |q| + 2 && i + |p| <= |t| && Blank(t, i + 1, i + 1)
  {
    StartsSplit(t, i, "[" + q, "]");
    StartsSplit(t, i, "[", q);
    StartsAt(t, i, "[", 0);
    StartsAt(t, i + 1 + |q|, "]", 0);
  }

  lemma ObjectPlaces(t: string, i: nat, depth: nat, fmt: bool, p: string, q: string) returns (e: nat, a: nat)
    requires p == ((("{" + Newline(fmt)) + q) + Indent(depth, fmt)) + "}" && Stands(t, i, p)
    ensures i < |t| && t[i] == '{' && e + 1 == i + |p| <= |t| && At(t, e) == '}'
    ensures Blank(t, i + 1, a) && Stands(t, a, q) && Blank(t, a + |q|, e)
  {
    var nl, tabs := Newline(fmt), Indent(depth, fmt);
    StartsSplit(t, i, (("{" + nl) + q) + tabs, "}");
    StartsSplit(t, i, ("{" + nl) + q, tabs);
    StartsSplit(t, i, "{" + nl, q);
    StartsSplit(t, i, "{", nl);
    StartsAt(t, i, "{", 0);
    e, a := i + |p| - 1, i + 1 + |nl|;
    StartsAt(t, e, "}", 0);
    BlankRun(t, i + 1, nl);
    BlankRun(t, a + |q|, tabs);
  }

  /** The items from k on, printed at i behind some white space that starts at i0. */
  lemma {:induction false} ItemsRoundTrip(t: string, i0: nat, i: nat, v: Json, k: nat, depth: nat, fmt: bool, p: string)
    requires Fine(v) && Blank(t, i0, i) && IsItems(v, k, depth, fmt, p) && Stands(t, i, p) && At(t, i + |p|) == ']'
    ensures ReadsItems(t, i0, v, k, i + |p| + 1)
    ensures Skip(t, i0) == i && At(t, i) != ']'
    decreases v, 0, |v.items| - k, 1
  {
    var x, rest := ItemsParts(v, k, depth, fmt, p);
    FineItem(v, k);
    if k == |v.items| - 1 {
      ItemBegins(t, i0, i, v.items[k], depth, fmt, p);
      ValueRoundTrip(t, i, v.items[k], depth, fmt, p);
      LastItem(t, i0, i, v, k, i + |p|);
    } else {
      var m := CommaPlaces(t, i, x, rest, fmt);
      ItemBegins(t, i0, i, v.items[k], depth, fmt, x);
      MoreItems(t, i0, i, v, k, depth, fmt, x, i + |x|, m, rest);
    }
  }

  /** An item that ends at n, and behind a comma the rest at m. */
  lemma {:induction false} MoreItems(
    t: string, i0: nat, i: nat, v: Json, k: nat, depth: nat, fmt: bool, x: string, n: nat, m: nat, rest: string)
    requires v.Array? && k + 1 < |v.items| && Fine(v) && Fine(v.items[k])
    requires Blank(t, i0, i) && IsPrint(v.items[k], depth, fmt, x) && IsItems(v, k + 1, depth, fmt, rest)
    requires Stands(t, i, x) && n == i + |x| && At(t, n) == ',' && Stops(t, n)
    requires Blank(t, n + 1, m) && Stands(t, m, rest) && At(t, m + |rest|) == ']'
    requires Skip(t, i0) == i
    ensures ReadsItems(t, i0, v, k, m + |rest| + 1)
    decreases v, 0, |v.items| - k, 0
  {
    ValueRoundTrip(t, i, v.items[k], depth, fmt, x);
    ItemsRoundTrip(t, n + 1, m, v, k + 1, depth, fmt, rest);
    NextItem(t, i0, i, v, k, n, m + |rest| + 1);
  }

  lemma ItemBegins(t: string, i0: nat, i: nat, w: Json, depth: nat, fmt: bool, x: string)
    requires Blank(t, i0, i) && IsPrint(w, depth, fmt, x) && Stands(t, i, x)
    ensures Skip(t, i0) == i && At(t, i) != ']'
  {
    ValueBegins(w, depth, fmt, x);
    StartsAt(t, i, x, 0);
    SkipBlank(t, i0, i);
  }

  /** Behind an item comes a comma, and the rest at m. */
  lemma CommaPlaces(t: string, i: nat, x: string, rest: string, fmt: bool) returns (m: nat)
    requires Stands(t, i, x + (Comma(fmt) + rest))
    ensures Stands(t, i, x) && At(t, i + |x|) == ',' && Stops(t, i + |x|)
    ensures Blank(t, i + |x| + 1, m) && Stands(t, m, rest) && m + |rest| == i + |x + (Comma(fmt) + rest)|
  {
    m := i + |x| + |Comma(fmt)|;
    StartsSplit(t, i, x, Comma(fmt) + rest);
    StartsSplit(t, i + |x|, Comma(fmt), rest);
    StartsAt(t, i + |x|, Comma(fmt), 0);
    if fmt {
      StartsAt(t, i + |x|, Comma(fmt), 1);
    }
  }

  lemma FrontPlaces(t: string, i: nat, tabs: string, name: string, colon: string, x: string)
    requires Stands(t, i, ((tabs + name) + colon) + x)
    ensures Stands(t, i, tabs) && Stands(t, i + |tabs|, name) && Stands(t, i + |tabs| + |name|, colon)
    ensures Stands(t, i + |tabs| + |name| + |colon|, x)
  {
    StartsSplit(t, i, (tabs + name) + colon, x);
    StartsSplit(t, i, tabs + name, colon);
    StartsSplit(t, i, tabs, name);
  }

  /** The places of a field: its name at a, the colon at b, the value from d to q, the next field at m. */
  lemma FieldPlaces(t: string, i: nat, depth: nat, fmt: bool, name: string, x: string, sep: string, rest: string)
    returns (a: nat, b: nat, d: nat, q: nat, m: nat)
    requires Stands(t, i, (((((Indent(depth, fmt) + name) + Colon(fmt)) + x) + sep) + Newline(fmt)) + rest)
    ensures b == a + |name| && q == d + |x|
    ensures m + |rest| == i + |(((((Indent(depth, fmt) + name) + Colon(fmt)) + x) + sep) + Newline(fmt)) + rest|
    ensures Blank(t, i, a) && Stands(t, a, name) && b < |t| && t[b] == ':' && Blank(t, b + 1, d) && Stands(t, d, x)
    ensures Stands(t, q, sep) && Blank(t, q + |sep|, m) && Stands(t, m, rest)
  {
    var tabs, colon, nl := Indent(depth, fmt), Colon(fmt), Newline(fmt);
    var front := ((tabs + name) + colon) + x;
    a := i + |tabs|;
    b := a + |name|;
    d := b + |colon|;
    q := d + |x|;
    m := q + |sep| + |nl|;
    StartsSplit(t, i, (front + sep) + nl, rest);
    StartsSplit(t, i, front + sep, nl);
    StartsSplit(t, i, front, sep);
    FrontPlaces(t, i, tabs, name, colon, x);
    BlankRun(t, i, tabs);
    ColonPlaces(t, b, fmt);
    BlankRun(t, q + |sep|, nl);
  }

  lemma ColonPlaces(t: string, b: nat, fmt: bool)
    requires Stands(t, b, Colon(fmt))
    ensures b < |t| && t[b] == ':' && Blank(t, b + 1, b + |Colon(fmt)|)
  {
    StartsAt(t, b, Colon(fmt), 0);
    if fmt {
      StartsAt(t, b, Colon(fmt), 1);
    }
  }

  lemma BlankJoin(t: string, i: nat, j: nat, k: nat)
    requires Blank(t, i, j) && Blank(t, j, k)
    ensures Blank(t, i, k)
  {
    assert Blanked(0);
  }

  lemma NameRoundTrip(t: string, a: nat, s: string, name: string)
    requires 0 as char !in s && IsString(s, name) && Stands(t, a, name)
    ensures ParseString(t, a) == Parsed(s, a + |name|) && a < |t| && t[a] == '\"'
  {
    assert Printed(0);
    StringRoundTrip(t, a, s);
  }

  /** The field k; the next one is at m behind a comma, or white space follows up to the brace at e. */
  lemma {:induction false} FieldRoundTrip(
    t: string, i0: nat, i: nat, v: Json, k: nat, depth: nat, fmt: bool, p: string, e: nat)
    returns (q: nat, m: nat, rest: string)
    requires Fine(v) && Blank(t, i0, i) && IsFields(v, k, depth, fmt, p) && Stands(t, i, p)
    requires Blank(t, i + |p|, e) && At(t, e) == '}'
    ensures ReadsField(t, i0, v.fields[k].0, v.fields[k].1, q) && At(t, Skip(t, i0)) == '\"'
    ensures k == |v.fields| - 1 ==> Skip(t, q) == e
    ensures k < |v.fields| - 1 ==> At(t, q) == ',' && Blank(t, q + 1, m) && Stands(t, m, rest)
    ensures k < |v.fields| - 1 ==> IsFields(v, k + 1, depth, fmt, rest) && m + |rest| == i + |p|
    decreases v, 0, 0
  {
    var name, x;
    name, x, rest := FieldsParts(v, k, depth, fmt, p);
    var s, w, sep := v.fields[k].0, v.fields[k].1, if k == |v.fields| - 1 then "" else ",";
    var a, b, d;
    a, b, d, q, m := FieldPlaces(t, i, depth, fmt, name, x, sep, rest);
    FineField(v, k);
    FieldEnds(t, q, m, sep, e);
    FieldBegins(t, i0, i, a, b, d, s, name, w, depth, fmt, x);
    ValueRoundTrip(t, d, w, depth, fmt, x);
    FieldStep(t, i0, a, b, d, s, w, q);
  }

  /** The fields from k on, printed at i behind white space; white space separates them from the brace at e. */
  lemma {:induction false} FieldsRoundTrip(
    t: string, i0: nat, i: nat, v: Json, k: nat, depth: nat, fmt: bool, p: string, e: nat)
    requires Fine(v) && Blank(t, i0, i) && IsFields(v, k, depth, fmt, p) && Stands(t, i, p)
    requires Blank(t, i + |p|, e) && At(t, e) == '}'
    ensures ReadsFields(t, i0, v, k, e + 1) && At(t, Skip(t, i0)) == '\"'
    decreases v, 1, |v.fields| - k
  {
    var q, m, rest := FieldRoundTrip(t, i0, i, v, k, depth, fmt, p, e);
    if k == |v.fields| - 1 {
      LastField(t, i0, v, k, q, e);
    } else {
      FieldsRoundTrip(t, q + 1, m, v, k + 1, depth, fmt, rest, e);
      NextField(t, i0, v, k, q, e + 1);
    }
  }

  /** Up to the value of a field. */
  lemma FieldBegins(t: string, i0: nat, i: nat, a: nat, b: nat, d: nat, s: string, name: string,
                    w: Json, depth: nat, fmt: bool, x: string)
    requires 0 as char !in s && IsString(s, name) && IsPrint(w, depth, fmt, x)
    requires Blank(t, i0, i) && Blank(t, i, a) && Stands(t, a, name) && b == a + |name|
    requires Blank(t, b + 1, d) && Stands(t, d, x)
    ensures Skip(t, i0) == a && a < |t| && t[a] == '\"' && ParseString(t, a) == Parsed(s, b) && Skip(t, b + 1) == d
  {
    NameRoundTrip(t, a, s, name);
    BlankJoin(t, i0, i, a);
    SkipBlank(t, i0, a);
    ValueBegins(w, depth, fmt, x);
    StartsAt(t, d, x, 0);
    SkipBlank(t, b + 1, d);
  }

  /** Behind the value of a field. */
  lemma FieldEnds(t: string, q: nat, m: nat, sep: string, e: nat)
    requires (sep == "," || sep == "") && Stands(t, q, sep) && Blank(t, q + |sep|, m)
    requires sep == "" ==> Blank(t, m, e) && At(t, e) == '}'
    ensures Stops(t, q) && (sep == "," ==> At(t, q) == ',') && (sep == "" ==> Skip(t, q) == e)
  {
    if sep == "," {
      StartsAt(t, q, sep, 0);
    } else {
      BlankJoin(t, q, m, e);
      SkipBlank(t, q, e);
    }
  }

  /** cJSON_Parse of either print rebuilds the tree and consumes the whole text. */
  lemma ParsePrint(v: Json, fmt: bool)
    requires Printable(v)
    ensures ParseValue(Print(v, 0, fmt), Skip(Print(v, 0, fmt), 0)) == Parsed(v, |Print(v, 0, fmt)|)
  {
    var t := Print(v, 0, fmt);
    ValueBegins(v, 0, fmt, t);
    SkipTo(t, 0, 0);
    assert t[0..0 + |t|] == t;
    ValueRoundTrip(t, 0, v, 0, fmt, t);
    assert Known(0);
  }
}
