/** cJSON_Minify: white space and comments are taken out of a text in place. */
module JsonMinify {
  import opened JsonSpec
  import opened JsonRoundTrip

  function LineEnd(t: string, i: nat): (j: nat)
    requires i <= |t|
    ensures i <= j <= |t|
    decreases |t| - i
  {
    if i < |t| && t[i] != '\n' then LineEnd(t, i + 1) else i
  }

  /** Where the mark that closes a comment stands, or the end of the text. */
  function CommentEnd(t: string, i: nat): (j: nat)
    requires i <= |t|
    ensures i <= j <= |t| && (j < |t| ==> t[j] == '*' && At(t, j + 1) == '/')
    decreases |t| - i
  {
    if i < |t| && !(t[i] == '*' && At(t, i + 1) == '/') then CommentEnd(t, i + 1) else i
  }

  /** Where the quote that closes a string stands, or -1. */
  function QuoteEnd(t: string, i: nat): (j: int)
    ensures j == -1 || (i <= j < |t| && t[j] == '\"')
    decreases |t| - i
  {
    if i >= |t| then -1
    else if t[i] == '\"' then i
    else if t[i] == '\\' then (if i + 1 < |t| then QuoteEnd(t, i + 2) else -1)
    else QuoteEnd(t, i + 1)
  }

  predicate IsSpace(c: char) {
    c == ' ' || c == '\t' || c == '\r' || c == '\n'
  }

  /** What is left of the text from i on; Stray when a comment or a string is not closed. */
  ghost function MinifyFrom(t: string, i: nat): (r: Parsed<string>)
    requires i <= |t|
    ensures !r.Failed? && (r.Parsed? ==> r.next == |t| && |r.value| <= |t| - i)
    decreases |t| - i
  {
    if i == |t| then Parsed("", i)
    else if IsSpace(t[i]) then MinifyFrom(t, i + 1)
    else if t[i] == '/' && At(t, i + 1) == '/' then MinifyFrom(t, LineEnd(t, i))
    else if t[i] == '/' && At(t, i + 1) == '*' then
      var j := CommentEnd(t, i);
      if j == |t| then Stray else MinifyFrom(t, j + 2)
    else if t[i] == '\"' then
      var j := QuoteEnd(t, i + 1);
      if j == -1 then Stray else Prepend(t[i..j + 1], MinifyFrom(t, j + 1))
    else Prepend([t[i]], MinifyFrom(t, i + 1))
  }

  // Minifying a print

  /** The text from i to n comes down to w. */
  ghost predicate Shrinks(t: string, i: nat, w: string, n: nat) {
    i <= n <= |t| && forall k {:trigger Shrunk(k)} | Shrunk(k) :: MinifyFrom(t, i) == Prepend(w, MinifyFrom(t, n))
  }

  ghost predicate Shrunk(k: int) {
    true
  }

  lemma ShrinksOn(t: string, i: nat, w: string, n: nat, w': string, m: nat)
    requires Shrinks(t, i, w, n) && Shrinks(t, n, w', m)
    ensures Shrinks(t, i, w + w', m)
  {
    assert Shrunk(0);
    var r := MinifyFrom(t, m);
    if r.Parsed? {
      assert w + (w' + r.value) == (w + w') + r.value;
    }
  }

  lemma ShrinksNone(t: string, i: nat)
    requires i <= |t|
    ensures Shrinks(t, i, "", i)
  {
    var r := MinifyFrom(t, i);
    if r.Parsed? {
      assert "" + r.value == r.value;
    }
  }

  lemma {:induction false} ShrinksBlank(t: string, i: nat, n: nat)
    requires Blank(t, i, n)
    ensures Shrinks(t, i, "", n)
    decreases n - i
  {
    if i == n {
      ShrinksNone(t, i);
    } else {
      assert Blanked(0);
      assert IsSpace(t[i]);
      ShrinksBlank(t, i + 1, n);
      assert Shrunk(0);
    }
  }

  ghost predicate Plain(c: char) {
    !IsSpace(c) && c != '/' && c != '\"'
  }

  lemma ShrinksChar(t: string, i: nat)
    requires i < |t| && Plain(t[i])
    ensures Shrinks(t, i, [t[i]], i + 1)
  {
  }

  lemma {:induction false} ShrinksPlain(t: string, i: nat, w: string)
    requires Stands(t, i, w) && forall c | c in w :: Plain(c)
    ensures Shrinks(t, i, w, i + |w|)
    decreases |w|
  {
    if w == "" {
      ShrinksNone(t, i);
    } else {
      assert w == [w[0]] + w[1..];
      StartsSplit(t, i, [w[0]], w[1..]);
      StartsAt(t, i, w, 0);
      ShrinksChar(t, i);
      ShrinksPlain(t, i + 1, w[1..]);
      ShrinksOn(t, i, [w[0]], i + 1, w[1..], i + |w|);
    }
  }

  /** What an escape may be: a plain character, or a backslash before a letter or before u and four digits. */
  lemma EscapeShape(c: char, x: string)
    requires IsEscape(c, x)
    ensures 0 < |x| && (|x| == 1 ==> x[0] != '\\' && x[0] != '\"')
    ensures |x| > 1 ==> x[0] == '\\' && (|x| == 2 || |x| == 6)
    ensures |x| == 6 ==> forall i | 2 <= i < 6 :: x[i] != '\\' && x[i] != '\"'
  {
    assert Printed(0);
  }

  lemma EscapeCloses(t: string, i: nat, c: char, x: string)
    requires Stands(t, i, x) && IsEscape(c, x)
    ensures QuoteEnd(t, i) == QuoteEnd(t, i + |x|)
  {
    EscapeShape(c, x);
    StartsAt(t, i, x, 0);
    if |x| > 1 {
      StartsAt(t, i, x, 1);
    }
    if |x| == 6 {
      DigitsClose(t, i, x);
    }
  }

  lemma DigitsClose(t: string, i: nat, x: string)
    requires Stands(t, i, x) && |x| == 6 && forall j | 2 <= j < 6 :: x[j] != '\\' && x[j] != '\"'
    ensures QuoteEnd(t, i + 2) == QuoteEnd(t, i + 6)
  {
    StartsAt(t, i, x, 2);
    StartsAt(t, i, x, 3);
    StartsAt(t, i, x, 4);
    StartsAt(t, i, x, 5);
    assert QuoteEnd(t, i + 2) == QuoteEnd(t, i + 3);
    assert QuoteEnd(t, i + 3) == QuoteEnd(t, i + 4);
    assert QuoteEnd(t, i + 4) == QuoteEnd(t, i + 5) == QuoteEnd(t, i + 6);
  }

  lemma {:induction false} BodyCloses(t: string, i: nat, s: string, k: nat, p: string)
    requires IsBody(s, k, p) && Stands(t, i, p + "\"")
    ensures QuoteEnd(t, i) == i + |p|
    decreases |s| - k
  {
    if k == |s| {
      assert p == "" by {
        assert Printed(0);
      }
      StartsAt(t, i, p + "\"", 0);
    } else {
      var x, rest := BodyParts(s, k, p);
      Regroup(x, rest, "\"");
      StartsSplit(t, i, x, rest + "\"");
      EscapeCloses(t, i, s[k], x);
      BodyCloses(t, i + |x|, s, k + 1, rest);
    }
  }

  lemma StringParts(s: string, p: string) returns (body: string)
    requires IsString(s, p)
    ensures IsBody(s, 0, body) && p == "\"" + (body + "\"")
  {
    assert Printed(0);
    body := EscapeFrom(s, 0);
    assert "\"" + body + "\"" == "\"" + (body + "\"");
  }

  /** A printed string is kept as it is. */
  lemma ShrinksString(t: string, i: nat, s: string, p: string)
    requires IsString(s, p) && Stands(t, i, p)
    ensures Shrinks(t, i, p, i + |p|)
  {
    var body := StringParts(s, p);
    StartsAt(t, i, p, 0);
    StartsSplit(t, i, "\"", body + "\"");
    BodyCloses(t, i + 1, s, 0, body);
    StringKept(t, i, p);
  }

  lemma StringKept(t: string, i: nat, p: string)
    requires Stands(t, i, p) && |p| > 1 && t[i] == '\"' && QuoteEnd(t, i + 1) == i + |p| - 1
    ensures Shrinks(t, i, p, i + |p|)
  {
    assert Stood(0);
    assert t[i..i + |p|] == p;
  }

  lemma {:induction false} DecimalPlain(n: nat)
    ensures forall c | c in Decimal(n) :: Plain(c)
  {
    if n >= 10 {
      DecimalPlain(n / 10);
    }
  }

  lemma ShrinksScalar(t: string, i: nat, v: Json, d: nat, d': nat, p: string, p': string)
    requires !v.Array? && !v.Object?
    requires IsPrint(v, d, true, p) && IsPrint(v, d', false, p') && Stands(t, i, p)
    ensures Shrinks(t, i, p', i + |p|)
  {
    assert Printed(0);
    match v {
      case Text(s) => ShrinksString(t, i, s, p);
      case Number(m, _) =>
        DecimalPlain(if m < 0 then -m else m);
        ShrinksPlain(t, i, p);
      case _ => ShrinksPlain(t, i, p);
    }
  }

  lemma ShrinksEmpty(t: string, i: nat, v: Json, d: nat, d': nat, p: string, p': string)
    requires (v.Array? && v.items == []) || (v.Object? && v.fields == [])
    requires IsPrint(v, d, true, p) && IsPrint(v, d', false, p') && Stands(t, i, p)
    ensures Shrinks(t, i, p', i + |p|)
  {
    var ws := "\n" + Tabs(d - 1);
    EmptyPrints(v, d, d', p, p', ws);
    if v.Array? {
      ShrinksPlain(t, i, p);
    } else {
      ShrinksEmptyBraces(t, i, p, ws);
    }
  }

  lemma EmptyPrints(v: Json, d: nat, d': nat, p: string, p': string, ws: string)
    requires (v.Array? && v.items == []) || (v.Object? && v.fields == [])
    requires IsPrint(v, d, true, p) && IsPrint(v, d', false, p') && ws == "\n" + Tabs(d - 1)
    ensures v.Array? ==> p == p' == "[]"
    ensures v.Object? ==> p == ("{" + ws) + "}" && p' == "{}"
    ensures forall c | c in ws :: c == '\n' || c == '\t'
  {
    assert Printed(0);
  }

  lemma ShrinksEmptyBraces(t: string, i: nat, p: string, ws: string)
    requires p == ("{" + ws) + "}" && Stands(t, i, p) && forall c | c in ws :: c == '\n' || c == '\t'
    ensures Shrinks(t, i, "{}", i + |p|)
  {
    var e := i + 1 + |ws|;
    StartsSplit(t, i, "{" + ws, "}");
    StartsSplit(t, i, "{", ws);
    StartsAt(t, i, "{", 0);
    StartsAt(t, e, "}", 0);
    BlankRun(t, i + 1, ws);
    BlankRun(t, e, "");
    ShrinksNone(t, e);
    ShrinksBraces(t, i, e, e, e, "");
    assert "{" + "" + "}" == "{}";
  }

  lemma {:induction false} ShrinksValue(t: string, i: nat, v: Json, d: nat, d': nat, p: string, p': string)
    requires IsPrint(v, d, true, p) && IsPrint(v, d', false, p') && Stands(t, i, p)
    ensures Shrinks(t, i, p', i + |p|)
    decreases v, 3, 0
  {
    if (v.Array? && v.items == []) || (v.Object? && v.fields == []) {
      ShrinksEmpty(t, i, v, d, d', p, p');
    } else if v.Array? {
      ShrinksArray(t, i, v, d, d', p, p');
    } else if v.Object? {
      ShrinksObject(t, i, v, d, d', p, p');
    } else {
      ShrinksScalar(t, i, v, d, d', p, p');
    }
  }

  lemma {:induction false} ShrinksArray(t: string, i: nat, v: Json, d: nat, d': nat, p: string, p': string)
    requires v.Array? && v.items != []
    requires IsPrint(v, d, true, p) && IsPrint(v, d', false, p') && Stands(t, i, p)
    ensures Shrinks(t, i, p', i + |p|)
    decreases v, 2, 0
  {
    var q := ArrayParts(v, d, true, p);
    var q' := ArrayParts(v, d', false, p');
    StartsSplit(t, i, "[" + q, "]");
    StartsSplit(t, i, "[", q);
    ShrinksPlain(t, i, "[");
    ShrinksItems(t, i + 1, v, 0, d + 1, d' + 1, q, q');
    ShrinksPlain(t, i + 1 + |q|, "]");
    ShrinksOn(t, i, "[", i + 1, q', i + 1 + |q|);
    ShrinksOn(t, i, "[" + q', i + 1 + |q|, "]", i + |p|);
  }

  lemma {:induction false} ShrinksItems(t: string, i: nat, v: Json, k: nat, d: nat, d': nat, p: string, p': string)
    requires IsItems(v, k, d, true, p) && IsItems(v, k, d', false, p') && Stands(t, i, p)
    ensures Shrinks(t, i, p', i + |p|)
    decreases v, 1, |v.items| - k
  {
    var x, rest := ItemsParts(v, k, d, true, p);
    var x', rest' := ItemsParts(v, k, d', false, p');
    if k == |v.items| - 1 {
      ShrinksValue(t, i, v.items[k], d, d', x, x');
    } else {
      var m := CommaPlaces(t, i, x, rest, true);
      ShrinksValue(t, i, v.items[k], d, d', x, x');
      ShrinksItems(t, m, v, k + 1, d, d', rest, rest');
      ShrinksComma(t, i, i + |x|, m, i + |p|, x', rest');
    }
  }

  lemma ShrinksComma(t: string, i: nat, n: nat, m: nat, e: nat, x: string, rest: string)
    requires Shrinks(t, i, x, n) && At(t, n) == ',' && Blank(t, n + 1, m) && Shrinks(t, m, rest, e)
    ensures Shrinks(t, i, x + (Comma(false) + rest), e)
  {
    ShrinksChar(t, n);
    ShrinksBlank(t, n + 1, m);
    ShrinksOn(t, n + 1, "", m, rest, e);
    ShrinksOn(t, n, ",", n + 1, "" + rest, e);
    ShrinksOn(t, i, x, n, "," + ("" + rest), e);
    assert "" + rest == rest;
  }

  lemma {:induction false} ShrinksObject(t: string, i: nat, v: Json, d: nat, d': nat, p: string, p': string)
    requires v.Object? && v.fields != []
    requires IsPrint(v, d, true, p) && IsPrint(v, d', false, p') && Stands(t, i, p)
    ensures Shrinks(t, i, p', i + |p|)
    decreases v, 2, 0
  {
    var q := ObjectParts(v, d, true, p);
    var q' := ObjectParts(v, d', false, p');
    var e, a := ObjectPlaces(t, i, d, true, p, q);
    ShrinksFields(t, a, v, 0, d + 1, d' + 1, q, q');
    ShrinksBraces(t, i, a, a + |q|, e, q');
    assert ((("{" + Newline(false)) + q') + Indent(d', false)) + "}" == "{" + q' + "}";
  }

  lemma ShrinksBraces(t: string, i: nat, a: nat, b: nat, e: nat, q: string)
    requires i < |t| && t[i] == '{' && At(t, e) == '}' && Blank(t, i + 1, a) && Shrinks(t, a, q, b) && Blank(t, b, e)
    ensures Shrinks(t, i, "{" + q + "}", e + 1)
  {
    ShrinksChar(t, i);
    ShrinksBlank(t, i + 1, a);
    ShrinksBlank(t, b, e);
    ShrinksChar(t, e);
    ShrinksOn(t, i, "{", i + 1, "", a);
    ShrinksOn(t, i, "{" + "", a, q, b);
    ShrinksOn(t, i, ("{" + "") + q, b, "", e);
    ShrinksOn(t, i, (("{" + "") + q) + "", e, "}", e + 1);
    assert ((("{" + "") + q) + "") + "}" == "{" + q + "}";
  }

  /** p is made of the parts of one field, and the rest. */
  ghost predicate IsJoined(p: string, d: nat, fmt: bool, name: string, x: string, sep: string, rest: string) {
    forall j {:trigger Printed(j)} | Printed(j) ::
      p == (((((Indent(d, fmt) + name) + Colon(fmt)) + x) + sep) + Newline(fmt)) + rest
  }

  ghost function Sep(v: Json, k: nat): string
    requires v.Object?
  {
    if k + 1 == |v.fields| then "" else ","
  }

  lemma JoinedParts(v: Json, k: nat, d: nat, fmt: bool, p: string) returns (name: string, x: string, rest: string)
    requires IsFields(v, k, d, fmt, p)
    ensures IsString(v.fields[k].0, name) && IsPrint(v.fields[k].1, d, fmt, x)
    ensures IsJoined(p, d, fmt, name, x, Sep(v, k), rest)
    ensures if k == |v.fields| - 1 then rest == "" else IsFields(v, k + 1, d, fmt, rest)
  {
    name, x, rest := FieldsParts(v, k, d, fmt, p);
  }

  lemma SameName(s: string, p: string, p': string)
    requires IsString(s, p) && IsString(s, p')
    ensures p == p'
  {
    assert Printed(0);
  }

  lemma JoinedPlaces(t: string, i: nat, d: nat, p: string, name: string, x: string, sep: string, rest: string)
    returns (a: nat, b: nat, c: nat, q: nat, m: nat)
    requires Stands(t, i, p) && IsJoined(p, d, true, name, x, sep, rest)
    ensures b == a + |name| && q == c + |x| && m + |rest| == i + |p|
    ensures Blank(t, i, a) && Stands(t, a, name) && b < |t| && t[b] == ':' && Blank(t, b + 1, c) && Stands(t, c, x)
    ensures Stands(t, q, sep) && Blank(t, q + |sep|, m) && Stands(t, m, rest)
  {
    assert Printed(0);
    a, b, c, q, m := FieldPlaces(t, i, d, true, name, x, sep, rest);
  }

  lemma {:induction false} ShrinksFields(t: string, i: nat, v: Json, k: nat, d: nat, d': nat, p: string, p': string)
    requires IsFields(v, k, d, true, p) && IsFields(v, k, d', false, p') && Stands(t, i, p)
    ensures Shrinks(t, i, p', i + |p|)
    decreases v, 1, |v.fields| - k
  {
    var name, x, rest := JoinedParts(v, k, d, true, p);
    var name', x', rest' := JoinedParts(v, k, d', false, p');
    SameName(v.fields[k].0, name, name');
    var a, b, c, q, m := JoinedPlaces(t, i, d, p, name, x, Sep(v, k), rest);
    ShrinksString(t, a, v.fields[k].0, name);
    ShrinksValue(t, c, v.fields[k].1, d, d', x, x');
    if k == |v.fields| - 1 {
      ShrinksNone(t, m);
    } else {
      ShrinksFields(t, m, v, k + 1, d, d', rest, rest');
    }
    FieldDone(t, i, a, b, c, q, m, i + |p|, d', p', name, x', Sep(v, k), rest');
  }

  lemma FieldDone(t: string, i: nat, a: nat, b: nat, c: nat, q: nat, m: nat, e: nat,
                  d: nat, p: string, name: string, x: string, sep: string, rest: string)
    requires Blank(t, i, a) && Shrinks(t, a, name, b) && b < |t| && t[b] == ':' && Blank(t, b + 1, c)
    requires Shrinks(t, c, x, q) && (sep == "" || sep == ",") && Stands(t, q, sep) && Blank(t, q + |sep|, m)
    requires Shrinks(t, m, rest, e) && IsJoined(p, d, false, name, x, sep, rest)
    ensures Shrinks(t, i, p, e)
  {
    ShrinksField(t, i, a, b, c, q, m, e, name, x, sep, rest);
    PlainField(d, name, x, sep, rest);
    assert Printed(0);
  }

  lemma PlainField(d: nat, name: string, x: string, sep: string, rest: string)
    ensures (((((Indent(d, false) + name) + Colon(false)) + x) + sep) + Newline(false)) + rest
            == name + ":" + x + sep + rest
  {
    assert "" + name == name;
    assert (((name + ":") + x) + sep) + "" == ((name + ":") + x) + sep;
  }

  lemma ShrinksField(t: string, i: nat, a: nat, b: nat, c: nat, q: nat, m: nat, e: nat,
                     name: string, x: string, sep: string, rest: string)
    requires Blank(t, i, a) && Shrinks(t, a, name, b) && b < |t| && t[b] == ':'
    requires Blank(t, b + 1, c) && Shrinks(t, c, x, q)
    requires (sep == "" || sep == ",") && Stands(t, q, sep) && Blank(t, q + |sep|, m) && Shrinks(t, m, rest, e)
    ensures Shrinks(t, i, name + ":" + x + sep + rest, e)
  {
    ShrinksBlank(t, i, a);
    ShrinksOn(t, i, "", a, name, b);
    ShrinksChar(t, b);
    ShrinksOn(t, i, "" + name, b, ":", b + 1);
    ShrinksBlank(t, b + 1, c);
    ShrinksOn(t, i, ("" + name) + ":", b + 1, "", c);
    ShrinksOn(t, i, (("" + name) + ":") + "", c, x, q);
    ShrinksPlain(t, q, sep);
    ShrinksOn(t, i, ((("" + name) + ":") + "") + x, q, sep, q + |sep|);
    ShrinksBlank(t, q + |sep|, m);
    ShrinksOn(t, i, (((("" + name) + ":") + "") + x) + sep, q + |sep|, "", m);
    ShrinksOn(t, i, ((((("" + name) + ":") + "") + x) + sep) + "", m, rest, e);
    assert (((((("" + name) + ":") + "") + x) + sep) + "") + rest == name + ":" + x + sep + rest;
  }

  /** Minifying a formatted print gives the unformatted one. */
  lemma MinifyPrint(v: Json)
    ensures MinifyFrom(Print(v, 0, true), 0) == Parsed(Print(v, 0, false), |Print(v, 0, true)|)
  {
    var t, p' := Print(v, 0, true), Print(v, 0, false);
    assert t[0..0 + |t|] == t;
    ShrinksValue(t, 0, v, 0, 0, t, p');
    assert Shrunk(0);
    assert p' + "" == p';
  }

  // In place

  /** The text in the buffer: all before the terminator at n. */
  ghost predicate Holds(a: array<char>, t: string)
    reads a
  {
    |t| < a.Length && a[..|t|] == t && a[|t|] == 0 as char && 0 as char !in t
  }

  /** The write cursor has not passed the read cursor, and the text from there on is as it was. */
  ghost predicate Unread(a: array<char>, t: string, into: int, json: int)
    reads a
  {
    && 0 <= into <= json <= |t| < a.Length && a[|t|] == 0 as char && 0 as char !in t && 0 as char !in a[..into]
    && forall k | json <= k < |t| :: a[k] == t[k]
  }

  /** *into++ = *json++ */
  method CopyChar(a: array<char>, ghost t: string, into: int, json: int)
    requires Unread(a, t, into, json) && json < |t|
    modifies a
    ensures Unread(a, t, into + 1, json + 1) && a[..into + 1] == old(a[..into]) + [t[json]]
  {
    assert t[json] in t;
    a[into] := a[json];
  }

  method SkipLine(a: array<char>, ghost t: string, into: int, json0: int) returns (json: int)
    requires Unread(a, t, into, json0)
    ensures json == LineEnd(t, json0) && Unread(a, t, into, json)
  {
    json := json0;
    while a[json] != 0 as char && a[json] != '\n'
      invariant json0 <= json <= |t| && LineEnd(t, json0) == LineEnd(t, json)
      decreases |t| - json
    {
      assert a[json] == t[json];
      json := json + 1;
    }
    assert json < |t| ==> a[json] == t[json] && t[json] in t;
  }

  method SkipComment(a: array<char>, ghost t: string, into: int, json0: int) returns (json: int)
    requires Unread(a, t, into, json0) && CommentEnd(t, json0) < |t|
    ensures json == CommentEnd(t, json0) + 2 && Unread(a, t, into, json)
  {
    json := json0;
    while a[json] != 0 as char && !(a[json] == '*' && a[json + 1] == '/')
      invariant json0 <= json < |t| && CommentEnd(t, json0) == CommentEnd(t, json)
      decreases |t| - json
    {
      assert a[json] == t[json] && (json + 1 < |t| ==> a[json + 1] == t[json + 1]);
      json := json + 1;
    }
    assert a[json] == t[json] && t[json] in t;
    json := json + 2;
  }

  /** One more character of the string that starts at start; pre is what was written before it. */
  method CopyOn(a: array<char>, ghost t: string, into: int, json: int, ghost pre: string, ghost start: int)
    requires Unread(a, t, into, json) && 0 <= start <= json < |t| && a[..into] == pre + t[start..json]
    modifies a
    ensures Unread(a, t, into + 1, json + 1) && a[..into + 1] == pre + t[start..json + 1]
  {
    CopyChar(a, t, into, json);
    assert t[start..json + 1] == t[start..json] + [t[json]];
  }

  lemma QuoteStep(t: string, i: nat)
    requires i < |t| && QuoteEnd(t, i) != -1 && t[i] != '\"'
    ensures t[i] == '\\' ==> i + 1 < |t| && QuoteEnd(t, i) == QuoteEnd(t, i + 2)
    ensures t[i] != '\\' ==> QuoteEnd(t, i) == QuoteEnd(t, i + 1)
  {
  }

  /** Copies one character, and with a backslash the one it escapes. */
  method CopyEscaped(a: array<char>, ghost t: string, into0: int, json0: int, ghost pre: string, ghost start: int)
    returns (into: int, json: int)
    requires Unread(a, t, into0, json0) && 0 <= start <= json0 < |t| && a[..into0] == pre + t[start..json0]
    requires t[json0] != '\"' && QuoteEnd(t, json0) != -1
    modifies a
    ensures Unread(a, t, into, json) && json0 < json && QuoteEnd(t, json) == QuoteEnd(t, json0)
    ensures a[..into] == pre + t[start..json]
  {
    QuoteStep(t, json0);
    into, json := into0, json0;
    if a[json] == '\\' {
      CopyOn(a, t, into, json, pre, start);
      into, json := into + 1, json + 1;
    }
    CopyOn(a, t, into, json, pre, start);
    into, json := into + 1, json + 1;
  }

  /** Copies a string with its quotes; j is where the closing quote stands. */
  method CopyString(a: array<char>, ghost t: string, into0: int, json0: int, ghost j: int)
    returns (into: int, json: int)
    requires Unread(a, t, into0, json0) && json0 < |t| && t[json0] == '\"'
    requires j == QuoteEnd(t, json0 + 1) && j != -1
    modifies a
    ensures json == j + 1 && Unread(a, t, into, json) && a[..into] == old(a[..into0]) + t[json0..j + 1]
  {
    ghost var pre := a[..into0];
    CopyOn(a, t, into0, json0, pre, json0);
    into, json := into0 + 1, json0 + 1;
    while a[json] != 0 as char && a[json] != '\"'
      invariant Unread(a, t, into, json) && json0 < json && j == QuoteEnd(t, json)
      invariant a[..into] == pre + t[json0..json]
      decreases |t| - json
    {
      into, json := CopyEscaped(a, t, into, json, pre, json0);
    }
    assert a[json] == t[json] && t[json] in t;
    CopyOn(a, t, into, json, pre, json0);
    into, json := into + 1, json + 1;
  }

  /** What was written and what is still to come at json make up the result, which there is. */
  ghost predicate OnTheWay(t: string, done: string, json: int) {
    && 0 <= json <= |t|
    && forall k {:trigger Shrunk(k)} | Shrunk(k) ::
         MinifyFrom(t, 0).Parsed? && MinifyFrom(t, 0) == Prepend(done, MinifyFrom(t, json))
  }

  lemma Starts(t: string)
    requires MinifyFrom(t, 0).Parsed?
    ensures OnTheWay(t, "", 0)
  {
    assert "" + MinifyFrom(t, 0).value == MinifyFrom(t, 0).value;
  }

  lemma Arrives(t: string, done: string)
    requires OnTheWay(t, done, |t|)
    ensures MinifyFrom(t, 0).Parsed? && MinifyFrom(t, 0).value == done
  {
    assert Shrunk(0);
  }

  /** The piece w is kept, or nothing when w is empty. */
  lemma Kept(t: string, done: string, json: int, w: string, json': int)
    requires OnTheWay(t, done, json) && 0 <= json' <= |t| && MinifyFrom(t, json) == Prepend(w, MinifyFrom(t, json'))
    ensures OnTheWay(t, done + w, json')
  {
    assert Shrunk(0);
    var r := MinifyFrom(t, json');
    if r.Parsed? {
      assert done + (w + r.value) == (done + w) + r.value;
    }
  }

  lemma Passed(t: string, done: string, json: int, json': int)
    requires OnTheWay(t, done, json) && 0 <= json' <= |t| && MinifyFrom(t, json) == MinifyFrom(t, json')
    ensures OnTheWay(t, done, json')
  {
    assert Shrunk(0);
  }

  lemma SpacePassed(t: string, done: string, json: int)
    requires OnTheWay(t, done, json) && json < |t| && IsSpace(t[json])
    ensures OnTheWay(t, done, json + 1)
  {
    Passed(t, done, json, json + 1);
  }

  lemma LinePassed(t: string, done: string, json: int)
    requires OnTheWay(t, done, json) && json + 1 < |t| && t[json] == '/' && t[json + 1] == '/'
    ensures json < LineEnd(t, json) && OnTheWay(t, done, LineEnd(t, json))
  {
    Passed(t, done, json, LineEnd(t, json));
  }

  lemma CommentPassed(t: string, done: string, json: int)
    requires OnTheWay(t, done, json) && json + 1 < |t| && t[json] == '/' && t[json + 1] == '*'
    ensures CommentEnd(t, json) < |t| && OnTheWay(t, done, CommentEnd(t, json) + 2)
  {
    assert Shrunk(0);
    Passed(t, done, json, CommentEnd(t, json) + 2);
  }

  lemma QuoteKept(t: string, done: string, json: int)
    requires OnTheWay(t, done, json) && json < |t| && t[json] == '\"'
    ensures
      var j := QuoteEnd(t, json + 1);
      j != -1 && OnTheWay(t, done + t[json..j + 1], j + 1)
  {
    assert Shrunk(0);
    var j := QuoteEnd(t, json + 1);
    Kept(t, done, json, t[json..j + 1], j + 1);
  }

  lemma CharKept(t: string, done: string, json: int)
    requires OnTheWay(t, done, json) && json < |t| && !IsSpace(t[json]) && t[json] != '\"'
    requires t[json] == '/' ==> At(t, json + 1) != '/' && At(t, json + 1) != '*'
    ensures OnTheWay(t, done + [t[json]], json + 1)
  {
    Kept(t, done, json, [t[json]], json + 1);
  }

  method MinifyString(a: array<char>, ghost t: string, into0: int, json0: int, ghost done: string)
    returns (into: int, json: int, ghost done': string)
    requires Unread(a, t, into0, json0) && json0 < |t| && OnTheWay(t, done, json0) && a[..into0] == done
    requires t[json0] == '\"'
    modifies a
    ensures Unread(a, t, into, json) && json0 < json && OnTheWay(t, done', json) && a[..into] == done'
  {
    QuoteKept(t, done, json0);
    done' := done + t[json0..QuoteEnd(t, json0 + 1) + 1];
    into, json := CopyString(a, t, into0, json0, QuoteEnd(t, json0 + 1));
  }

  method MinifyChar(a: array<char>, ghost t: string, into0: int, json0: int, ghost done: string)
    returns (into: int, json: int, ghost done': string)
    requires Unread(a, t, into0, json0) && json0 < |t| && OnTheWay(t, done, json0) && a[..into0] == done
    requires !IsSpace(t[json0]) && t[json0] != '\"'
    requires t[json0] == '/' ==> At(t, json0 + 1) != '/' && At(t, json0 + 1) != '*'
    modifies a
    ensures Unread(a, t, into, json) && json0 < json && OnTheWay(t, done', json) && a[..into] == done'
  {
    CharKept(t, done, json0);
    done' := done + [t[json0]];
    CopyChar(a, t, into0, json0);
    into, json := into0 + 1, json0 + 1;
  }

  /** White space and comments are passed over. */
  method PassOver(a: array<char>, ghost t: string, into: int, json0: int, ghost done: string) returns (json: int)
    requires Unread(a, t, into, json0) && json0 < |t| && OnTheWay(t, done, json0)
    ensures Unread(a, t, into, json) && OnTheWay(t, done, json)
    ensures json0 <= json && (json == json0 ==> !IsSpace(t[json0]))
    ensures json == json0 && t[json0] == '/' ==> At(t, json0 + 1) != '/' && At(t, json0 + 1) != '*'
  {
    json := json0;
    assert a[json] == t[json] && a[json + 1] == At(t, json + 1);
    if a[json] == ' ' || a[json] == '\t' || a[json] == '\r' || a[json] == '\n' {
      SpacePassed(t, done, json0);
      json := json + 1;
    } else if a[json] == '/' && a[json + 1] == '/' {
      LinePassed(t, done, json0);
      json := SkipLine(a, t, into, json);
    } else if a[json] == '/' && a[json + 1] == '*' {
      CommentPassed(t, done, json0);
      json := SkipComment(a, t, into, json);
    }
  }

  /** One round of the loop; done' is what is written after it. */
  method MinifyOne(a: array<char>, ghost t: string, into0: int, json0: int, ghost done: string)
    returns (into: int, json: int, ghost done': string)
    requires Unread(a, t, into0, json0) && json0 < |t| && OnTheWay(t, done, json0) && a[..into0] == done
    modifies a
    ensures Unread(a, t, into, json) && json0 < json && OnTheWay(t, done', json) && a[..into] == done'
  {
    done' := done;
    into := into0;
    json := PassOver(a, t, into0, json0, done);
    if json == json0 {
      assert a[json] == t[json];
      if a[json] == '\"' {
        into, json, done' := MinifyString(a, t, into0, json0, done);
      } else {
        into, json, done' := MinifyChar(a, t, into0, json0, done);
      }
    }
  }

  /** cJSON_Minify; every string and comment of the text t in the buffer is closed. */
  method Minify(a: array<char>, ghost t: string)
    requires Holds(a, t) && MinifyFrom(t, 0).Parsed?
    modifies a
    ensures Holds(a, MinifyFrom(t, 0).value)
  {
    var into, json := 0, 0;
    ghost var done := "";
    Starts(t);
    while a[json] != 0 as char
      invariant Unread(a, t, into, json) && OnTheWay(t, done, json) && a[..into] == done
      decreases |t| - json
    {
      into, json, done := MinifyOne(a, t, into, json, done);
    }
    assert json == |t|;
    Arrives(t, done);
    a[into] := 0 as char;
  }
}
