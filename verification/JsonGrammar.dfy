/**
 Which texts the parser accepts: a grammar of values with white space wherever section 2 of
 RFC 8259 allows it, against which the parser is proved in both directions.  Strings and
 numbers are those of JsonEscapes and JsonNumbers.
 */
module JsonGrammar {
  import opened JsonSpec
  import opened JsonRoundTrip

  /** The character c stands at i. */
  ghost predicate Is(t: string, i: nat, c: char) {
    i < |t| && t[i] == c
  }

  /** What the program takes for white space: every character up to 32. */
  ghost predicate Gap(t: string, i: nat, j: nat) {
    && i <= j <= |t|
    && forall q {:trigger Blanked(q)} | Blanked(q) :: forall k | i <= k < j :: t[k] != 0 as char && t[k] <= ' '
  }

  /** The character c stands between i and j, with white space around it. */
  ghost predicate Mark(t: string, i: nat, c: char, j: nat) {
    exists k: nat :: Gap(t, i, k) && Is(t, k, c) && Gap(t, k + 1, j)
  }

  /** The character c ends the text from i to n, behind white space. */
  ghost predicate Close(t: string, i: nat, c: char, n: nat) {
    n > 0 && Gap(t, i, n - 1) && Is(t, n - 1, c)
  }

  /** The text from i to n is the value v. */
  ghost predicate ValueAt(t: string, i: nat, v: Json, n: nat)
    decreases v, 2, 0
  {
    match v
    case Null => StartsWith(t, i, "null") && n == i + 4
    case False => StartsWith(t, i, "false") && n == i + 5
    case True => StartsWith(t, i, "true") && n == i + 4
    case Number(_, _) => i < |t| && (t[i] == '-' || IsDigit(t[i])) && ParseNumber(t, i) == Parsed(v, n)
    case Text(s) => i <= |t| && ParseString(t, i) == Parsed(s, n)
    case Array(items) =>
      Is(t, i, '[') && if items == [] then Close(t, i + 1, ']', n)
                       else exists j: nat :: Gap(t, i + 1, j) && ItemsAt(t, j, v, 0, n)
    case Object(fields) =>
      Is(t, i, '{') && if fields == [] then Close(t, i + 1, '}', n)
                       else exists j: nat :: Gap(t, i + 1, j) && FieldsAt(t, j, v, 0, n)
  }

  /** The values of an array from the k-th on, separated by commas, and its closing bracket. */
  ghost predicate ItemsAt(t: string, i: nat, v: Json, k: nat, n: nat)
    requires v.Array? && k < |v.items|
    decreases v, 1, |v.items| - k
  {
    exists m: nat :: ValueAt(t, i, v.items[k], m) &&
      if k == |v.items| - 1 then Close(t, m, ']', n)
      else exists l: nat :: Mark(t, m, ',', l) && ItemsAt(t, l, v, k + 1, n)
  }

  /** A name, a colon and a value. */
  ghost predicate FieldAt(t: string, i: nat, v: Json, k: nat, n: nat)
    requires v.Object? && k < |v.fields|
    decreases v, 0, 0
  {
    i <= |t| && exists b: nat, d: nat ::
      ParseString(t, i) == Parsed(v.fields[k].0, b) && Mark(t, b, ':', d) && ValueAt(t, d, v.fields[k].1, n)
  }

  /** The fields of an object from the k-th on, separated by commas, and its closing brace. */
  ghost predicate FieldsAt(t: string, i: nat, v: Json, k: nat, n: nat)
    requires v.Object? && k < |v.fields|
    decreases v, 1, |v.fields| - k
  {
    exists m: nat :: FieldAt(t, i, v, k, m) &&
      if k == |v.fields| - 1 then Close(t, m, '}', n)
      else exists l: nat :: Mark(t, m, ',', l) && FieldsAt(t, l, v, k + 1, n)
  }

  // White space

  /** The text goes on at i with something else than white space. */
  ghost predicate Firm(t: string, i: nat) {
    i < |t| && t[i] > ' '
  }

  lemma {:induction false} SkipGap(t: string, i: nat, j: nat)
    requires Gap(t, i, j) && Firm(t, j)
    ensures Skip(t, i) == j
    decreases j - i
  {
    assert Blanked(0);
    if i < j {
      SkipGap(t, i + 1, j);
    }
  }

  lemma {:induction false} SkipIs(t: string, i: nat)
    requires i <= |t|
    ensures Gap(t, i, Skip(t, i))
    ensures Skip(t, i) < |t| ==> t[Skip(t, i)] > ' ' || t[Skip(t, i)] == 0 as char
    decreases |t| - i
  {
    if i < |t| && t[i] <= ' ' && t[i] != 0 as char {
      SkipIs(t, i + 1);
    }
  }

  /** Skip stops at j; asserting Passed of some number brings that into a proof. */
  ghost predicate Skips(t: string, i: nat, j: nat) {
    i <= j && forall k {:trigger Passed(k)} | Passed(k) :: Skip(t, i) == j
  }

  ghost predicate Passed(k: int) {
    true
  }

  lemma GapSkips(t: string, i: nat, j: nat)
    requires Gap(t, i, j) && Firm(t, j)
    ensures Skips(t, i, j)
  {
    SkipGap(t, i, j);
  }

  /** A mark is found behind the white space before it. */
  lemma MarkSkips(t: string, i: nat, c: char, j: nat) returns (k: nat)
    requires Mark(t, i, c, j) && c > ' '
    ensures Skips(t, i, k) && k < |t| && At(t, k) == c && Gap(t, k + 1, j)
  {
    k :| Gap(t, i, k) && Is(t, k, c) && Gap(t, k + 1, j);
    SkipGap(t, i, k);
  }

  lemma CloseSkips(t: string, i: nat, c: char, n: nat)
    requires Close(t, i, c, n) && c > ' '
    ensures 0 < n <= |t| && Skips(t, i, n - 1) && At(t, n - 1) == c
  {
    SkipGap(t, i, n - 1);
  }

  lemma SkipsGap(t: string, i: nat, j: nat)
    requires Skips(t, i, j) && i <= |t|
    ensures Gap(t, i, j)
  {
    assert Passed(0);
    SkipIs(t, i);
  }

  lemma SkipsMark(t: string, i: nat, k: nat, c: char, j: nat)
    requires Skips(t, i, k) && i <= |t| && Is(t, k, c) && Gap(t, k + 1, j)
    ensures Mark(t, i, c, j)
  {
    SkipsGap(t, i, k);
  }

  lemma SkipsClose(t: string, i: nat, k: nat, c: char)
    requires Skips(t, i, k) && i <= |t| && Is(t, k, c)
    ensures Close(t, i, c, k + 1)
  {
    SkipsGap(t, i, k);
  }

  // Every text of the grammar is read

  lemma ValueFirm(t: string, i: nat, v: Json, n: nat)
    requires ValueAt(t, i, v, n)
    ensures Firm(t, i) && t[i] != ']' && t[i] != '}'
  {
    match v {
      case Null => assert t[i] == t[i..i + 4][0];
      case False => assert t[i] == t[i..i + 5][0];
      case True => assert t[i] == t[i..i + 4][0];
      case _ =>
    }
  }

  lemma WordRead(t: string, i: nat, v: Json, n: nat)
    requires ValueAt(t, i, v, n) && (v.Null? || v.False? || v.True?)
    ensures ReadsValue(t, i, v, n)
  {
    ValueFirm(t, i, v, n);
    match v {
      case Null => assert t[i] == t[i..i + 4][0];
      case False => assert t[i] == t[i..i + 5][0];
      case True => assert t[i] == t[i..i + 4][0];
    }
    OtherWord(t, i, "null");
    OtherWord(t, i, "false");
  }

  lemma TokenRead(t: string, i: nat, v: Json, n: nat)
    requires ValueAt(t, i, v, n) && (v.Number? || v.Text?)
    ensures ReadsValue(t, i, v, n)
  {
    ValueFirm(t, i, v, n);
    NoWord(t, i);
  }

  lemma EmptyRead(t: string, i: nat, v: Json, n: nat)
    requires ValueAt(t, i, v, n) && ((v.Array? && v.items == []) || (v.Object? && v.fields == []))
    ensures ReadsValue(t, i, v, n)
  {
    NoWord(t, i);
    CloseSkips(t, i + 1, if v.Array? then ']' else '}', n);
    assert Known(0);
    assert Passed(0);
  }

  lemma ArrayRead(t: string, i: nat, j: nat, v: Json, n: nat)
    requires Is(t, i, '[') && Skips(t, i + 1, j) && j < |t| && t[j] != ']' && n <= |t| && ReadsItems(t, j, v, 0, n)
    ensures ReadsValue(t, i, v, n)
  {
    assert Known(0);
    assert Passed(0);
    assert v.items[0..] == v.items;
    NoWord(t, i);
  }

  lemma ObjectRead(t: string, i: nat, j: nat, v: Json, n: nat)
    requires Is(t, i, '{') && Skips(t, i + 1, j) && j < |t| && t[j] != '}' && n <= |t| && ReadsFields(t, j, v, 0, n)
    ensures ReadsValue(t, i, v, n)
  {
    assert Known(0);
    assert Passed(0);
    assert v.fields[0..] == v.fields;
    NoWord(t, i);
  }

  lemma ItemLast(t: string, i0: nat, i: nat, v: Json, k: nat, m: nat, n: nat)
    requires v.Array? && k + 1 == |v.items| && Skips(t, i0, i) && 0 < n <= |t|
    requires ReadsValue(t, i, v.items[k], m) && Skips(t, m, n - 1) && At(t, n - 1) == ']'
    ensures ReadsItems(t, i0, v, k, n)
  {
    assert Known(0);
    assert Passed(0);
    assert v.items[k..] == [v.items[k]];
  }

  lemma ItemMore(t: string, i0: nat, i: nat, v: Json, k: nat, m: nat, j: nat, n: nat)
    requires v.Array? && k + 1 < |v.items| && Skips(t, i0, i)
    requires ReadsValue(t, i, v.items[k], m) && Skips(t, m, j) && At(t, j) == ','
    requires ReadsItems(t, j + 1, v, k + 1, n)
    ensures ReadsItems(t, i0, v, k, n)
  {
    assert Known(0);
    assert Passed(0);
    assert v.items[k..] == [v.items[k]] + v.items[k + 1..];
  }

  lemma FieldRead(t: string, i0: nat, i: nat, s: string, b: nat, c: nat, d: nat, v: Json, n: nat)
    requires Skips(t, i0, i) && i <= |t| && ParseString(t, i) == Parsed(s, b) && Skips(t, b, c) && At(t, c) == ':'
    requires c < |t| && Skips(t, c + 1, d) && ReadsValue(t, d, v, n)
    ensures ReadsField(t, i0, s, v, n)
  {
    assert Known(0);
    assert Passed(0);
  }

  lemma FieldLast(t: string, i: nat, v: Json, k: nat, m: nat, n: nat)
    requires v.Object? && k + 1 == |v.fields| && n > 0
    requires ReadsField(t, i, v.fields[k].0, v.fields[k].1, m) && Skips(t, m, n - 1) && At(t, n - 1) == '}'
    ensures ReadsFields(t, i, v, k, n)
  {
    assert Known(0);
    assert Passed(0);
    LastField(t, i, v, k, m, n - 1);
  }

  lemma FieldMore(t: string, i: nat, v: Json, k: nat, m: nat, j: nat, n: nat)
    requires v.Object? && k + 1 < |v.fields|
    requires ReadsField(t, i, v.fields[k].0, v.fields[k].1, m) && Skips(t, m, j) && At(t, j) == ','
    requires ReadsFields(t, j + 1, v, k + 1, n)
    ensures ReadsFields(t, i, v, k, n)
  {
    assert Known(0);
    assert Passed(0);
    assert v.fields[k..] == [v.fields[k]] + v.fields[k + 1..];
  }

  // The parts of the grammar out of sight, until Given of some number is asserted

  ghost predicate ValueHere(t: string, i: nat, v: Json, n: nat) {
    forall q {:trigger Given(q)} | Given(q) :: ValueAt(t, i, v, n)
  }

  ghost predicate ItemsHere(t: string, i: nat, v: Json, k: nat, n: nat) {
    v.Array? && k < |v.items| && forall q {:trigger Given(q)} | Given(q) :: ItemsAt(t, i, v, k, n)
  }

  ghost predicate FieldHere(t: string, i: nat, v: Json, k: nat, n: nat) {
    v.Object? && k < |v.fields| && forall q {:trigger Given(q)} | Given(q) :: FieldAt(t, i, v, k, n)
  }

  ghost predicate FieldsHere(t: string, i: nat, v: Json, k: nat, n: nat) {
    v.Object? && k < |v.fields| && forall q {:trigger Given(q)} | Given(q) :: FieldsAt(t, i, v, k, n)
  }

  ghost predicate Given(q: int) {
    true
  }

  lemma ItemsSplit(t: string, i: nat, v: Json, k: nat, n: nat) returns (m: nat, l: nat)
    requires v.Array? && k < |v.items| && ItemsAt(t, i, v, k, n)
    ensures ValueAt(t, i, v.items[k], m)
    ensures k == |v.items| - 1 ==> Close(t, m, ']', n)
    ensures k < |v.items| - 1 ==> Mark(t, m, ',', l) && ItemsAt(t, l, v, k + 1, n)
  {
    m :| ValueAt(t, i, v.items[k], m) &&
      if k == |v.items| - 1 then Close(t, m, ']', n)
      else exists l: nat :: Mark(t, m, ',', l) && ItemsAt(t, l, v, k + 1, n);
    l := 0;
    if k < |v.items| - 1 {
      l :| Mark(t, m, ',', l) && ItemsAt(t, l, v, k + 1, n);
    }
  }

  /** The first of the values, and what follows it. */
  lemma ItemParts(t: string, i: nat, v: Json, k: nat, n: nat) returns (m: nat, l: nat)
    requires ItemsHere(t, i, v, k, n)
    ensures ValueHere(t, i, v.items[k], m) && Firm(t, i) && t[i] != ']'
    ensures k == |v.items| - 1 ==> Close(t, m, ']', n)
    ensures k < |v.items| - 1 ==> Mark(t, m, ',', l) && ItemsHere(t, l, v, k + 1, n)
  {
    assert Given(0);
    m, l := ItemsSplit(t, i, v, k, n);
    ValueFirm(t, i, v.items[k], m);
  }

  lemma FieldsSplit(t: string, i: nat, v: Json, k: nat, n: nat) returns (m: nat, l: nat)
    requires v.Object? && k < |v.fields| && FieldsAt(t, i, v, k, n)
    ensures FieldAt(t, i, v, k, m)
    ensures k == |v.fields| - 1 ==> Close(t, m, '}', n)
    ensures k < |v.fields| - 1 ==> Mark(t, m, ',', l) && FieldsAt(t, l, v, k + 1, n)
  {
    m :| FieldAt(t, i, v, k, m) &&
      if k == |v.fields| - 1 then Close(t, m, '}', n)
      else exists l: nat :: Mark(t, m, ',', l) && FieldsAt(t, l, v, k + 1, n);
    l := 0;
    if k < |v.fields| - 1 {
      l :| Mark(t, m, ',', l) && FieldsAt(t, l, v, k + 1, n);
    }
  }

  lemma FieldParts(t: string, i: nat, v: Json, k: nat, n: nat) returns (m: nat, l: nat)
    requires FieldsHere(t, i, v, k, n)
    ensures FieldHere(t, i, v, k, m)
    ensures k == |v.fields| - 1 ==> Close(t, m, '}', n)
    ensures k < |v.fields| - 1 ==> Mark(t, m, ',', l) && FieldsHere(t, l, v, k + 1, n)
  {
    assert Given(0);
    m, l := FieldsSplit(t, i, v, k, n);
  }

  lemma FieldFirm(t: string, i: nat, v: Json, k: nat, n: nat)
    requires FieldHere(t, i, v, k, n)
    ensures Firm(t, i) && t[i] == '\"'
  {
    assert Given(0);
  }

  /** What stands in the grammar is read as the value it is. */
  lemma {:induction false} ValueRead(t: string, i: nat, v: Json, n: nat)
    requires ValueHere(t, i, v, n)
    ensures ReadsValue(t, i, v, n)
    decreases v, 2, 0
  {
    assert ValueAt(t, i, v, n) by {
      assert Given(0);
    }
    match v {
      case Array(items) =>
        if items == [] {
          EmptyRead(t, i, v, n);
        } else {
          var j: nat :| Gap(t, i + 1, j) && ItemsAt(t, j, v, 0, n);
          var m, _ := ItemParts(t, j, v, 0, n);
          GapSkips(t, i + 1, j);
          ItemsRead(t, j, j, v, 0, n);
          ArrayRead(t, i, j, v, n);
        }
      case Object(fields) =>
        if fields == [] {
          EmptyRead(t, i, v, n);
        } else {
          var j: nat :| Gap(t, i + 1, j) && FieldsAt(t, j, v, 0, n);
          var m, _ := FieldParts(t, j, v, 0, n);
          FieldFirm(t, j, v, 0, m);
          GapSkips(t, i + 1, j);
          FieldsRead(t, j, j, v, 0, n);
          ObjectRead(t, i, j, v, n);
        }
      case Number(_, _) => TokenRead(t, i, v, n);
      case Text(_) => TokenRead(t, i, v, n);
      case _ => WordRead(t, i, v, n);
    }
  }

  lemma {:induction false} ItemsRead(t: string, i0: nat, i: nat, v: Json, k: nat, n: nat)
    requires Gap(t, i0, i) && ItemsHere(t, i, v, k, n)
    ensures n <= |t| && ReadsItems(t, i0, v, k, n)
    decreases v, 1, |v.items| - k
  {
    var m, l := ItemParts(t, i, v, k, n);
    GapSkips(t, i0, i);
    ValueRead(t, i, v.items[k], m);
    if k == |v.items| - 1 {
      CloseSkips(t, m, ']', n);
      ItemLast(t, i0, i, v, k, m, n);
    } else {
      var j := MarkSkips(t, m, ',', l);
      ItemsRead(t, j + 1, l, v, k + 1, n);
      ItemMore(t, i0, i, v, k, m, j, n);
    }
  }

  /** The name, the colon and where the value starts. */
  lemma FieldSplit(t: string, i: nat, v: Json, k: nat, n: nat) returns (b: nat, d: nat)
    requires FieldHere(t, i, v, k, n)
    ensures i <= |t| && ParseString(t, i) == Parsed(v.fields[k].0, b) && Mark(t, b, ':', d) && Firm(t, i)
    ensures ValueHere(t, d, v.fields[k].1, n) && Firm(t, d)
  {
    assert Given(0);
    b, d :| ParseString(t, i) == Parsed(v.fields[k].0, b) && Mark(t, b, ':', d) && ValueAt(t, d, v.fields[k].1, n);
    ValueFirm(t, d, v.fields[k].1, n);
  }

  lemma {:induction false} OneFieldRead(t: string, i0: nat, i: nat, v: Json, k: nat, n: nat)
    requires Gap(t, i0, i) && FieldHere(t, i, v, k, n)
    ensures ReadsField(t, i0, v.fields[k].0, v.fields[k].1, n)
    decreases v, 0, 0
  {
    var b, d := FieldSplit(t, i, v, k, n);
    GapSkips(t, i0, i);
    var c := MarkSkips(t, b, ':', d);
    GapSkips(t, c + 1, d);
    ValueRead(t, d, v.fields[k].1, n);
    FieldRead(t, i0, i, v.fields[k].0, b, c, d, v.fields[k].1, n);
  }

  lemma {:induction false} FieldsRead(t: string, i0: nat, i: nat, v: Json, k: nat, n: nat)
    requires Gap(t, i0, i) && FieldsHere(t, i, v, k, n)
    ensures n <= |t| && ReadsFields(t, i0, v, k, n)
    decreases v, 1, |v.fields| - k
  {
    var m, l := FieldParts(t, i, v, k, n);
    OneFieldRead(t, i0, i, v, k, m);
    if k == |v.fields| - 1 {
      CloseSkips(t, m, '}', n);
      FieldLast(t, i0, v, k, m, n);
    } else {
      var j := MarkSkips(t, m, ',', l);
      FieldsRead(t, j + 1, l, v, k + 1, n);
      FieldMore(t, i0, v, k, m, j, n);
    }
  }

  // Everything that is read stands in the grammar

  lemma ItemsSome(t: string, i: nat)
    requires i <= |t| && ParseItems(t, i).Parsed?
    ensures ParseItems(t, i).value != []
  {
  }

  lemma FieldsSome(t: string, i: nat)
    requires i <= |t| && ParseFields(t, i).Parsed?
    ensures ParseFields(t, i).value != []
  {
  }

  lemma TailIs<T>(s: seq<T>, k: nat, x: T, r: seq<T>)
    requires k < |s| && s[k..] == [x] + r
    ensures s[k] == x && s[k + 1..] == r && (r == [] <==> k == |s| - 1)
  {
    assert s[k] == s[k..][0];
    assert s[k + 1..] == s[k..][1..] == ([x] + r)[1..] == r;
  }

  lemma ItemsUnfold(t: string, i: nat)
    requires i <= |t| && ParseItems(t, i).Parsed?
    ensures
      var x := ParseValue(t, Skip(t, i));
      && x.Parsed? && x.next <= |t|
      && var j := Skip(t, x.next);
      && (At(t, j) == ',' || At(t, j) == ']') && j < |t|
      && (At(t, j) == ',' ==>
           var r := ParseItems(t, j + 1);
           r.Parsed? && ParseItems(t, i) == Parsed([x.value] + r.value, r.next))
      && (At(t, j) == ']' ==> ParseItems(t, i) == Parsed([x.value], j + 1))
  {
  }

  /** The first value that was read, and what comes behind it. */
  lemma ItemTaken(t: string, i0: nat, v: Json, k: nat, n: nat) returns (i: nat, m: nat, j: nat)
    requires ReadsItems(t, i0, v, k, n) && k < |v.items|
    ensures Skips(t, i0, i) && ReadsValue(t, i, v.items[k], m) && Skips(t, m, j)
    ensures k == |v.items| - 1 ==> Is(t, j, ']') && n == j + 1
    ensures k < |v.items| - 1 ==> Is(t, j, ',') && ReadsItems(t, j + 1, v, k + 1, n)
  {
    assert Known(0);
    i := Skip(t, i0);
    var x := ParseValue(t, i);
    m := x.next;
    j := Skip(t, m);
    ItemsUnfold(t, i0);
    if At(t, j) == ',' {
      ItemsSome(t, j + 1);
      TailIs(v.items, k, x.value, ParseItems(t, j + 1).value);
    } else {
      assert [x.value] + [] == [x.value];
      TailIs(v.items, k, x.value, []);
    }
  }

  lemma FieldTaken(t: string, i0: nat, v: Json, k: nat, n: nat) returns (m: nat, j: nat)
    requires ReadsFields(t, i0, v, k, n) && k < |v.fields|
    ensures ReadsField(t, i0, v.fields[k].0, v.fields[k].1, m) && Skips(t, m, j)
    ensures k == |v.fields| - 1 ==> Is(t, j, '}') && n == j + 1
    ensures k < |v.fields| - 1 ==> Is(t, j, ',') && ReadsFields(t, j + 1, v, k + 1, n)
  {
    assert Known(0);
    FieldsExpand(t, i0);
    var x := ParseField(t, i0);
    m := x.next;
    j := Skip(t, m);
    if At(t, j) == ',' {
      FieldsSome(t, j + 1);
      TailIs(v.fields, k, x.value, ParseFields(t, j + 1).value);
    } else {
      assert [x.value] + [] == [x.value];
      TailIs(v.fields, k, x.value, []);
    }
  }

  lemma FieldTakenApart(t: string, i0: nat, s: string, v: Json, n: nat) returns (i: nat, b: nat, c: nat, d: nat)
    requires ReadsField(t, i0, s, v, n)
    ensures Skips(t, i0, i) && i <= |t| && ParseString(t, i) == Parsed(s, b) && Skips(t, b, c) && Is(t, c, ':')
    ensures Skips(t, c + 1, d) && ReadsValue(t, d, v, n)
  {
    assert Known(0);
    i := Skip(t, i0);
    b := ParseString(t, i).next;
    c := Skip(t, b);
    d := Skip(t, c + 1);
  }

  lemma ArrayTaken(t: string, i: nat, v: Json, n: nat) returns (j: nat)
    requires ReadsValue(t, i, v, n) && v.Array?
    ensures Is(t, i, '[') && Skips(t, i + 1, j)
    ensures v.items == [] ==> Is(t, j, ']') && n == j + 1
    ensures v.items != [] ==> ReadsItems(t, j, v, 0, n)
  {
    assert Known(0);
    j := Skip(t, i + 1);
    if At(t, j) != ']' {
      ItemsSome(t, j);
    }
    assert v.items[0..] == v.items;
  }

  lemma ObjectTaken(t: string, i: nat, v: Json, n: nat) returns (j: nat)
    requires ReadsValue(t, i, v, n) && v.Object?
    ensures Is(t, i, '{') && Skips(t, i + 1, j)
    ensures v.fields == [] ==> Is(t, j, '}') && n == j + 1
    ensures v.fields != [] ==> ReadsFields(t, j, v, 0, n)
  {
    assert Known(0);
    j := Skip(t, i + 1);
    if At(t, j) != '}' {
      FieldsSome(t, j);
    }
    assert v.fields[0..] == v.fields;
  }

  lemma ScalarTaken(t: string, i: nat, v: Json, n: nat)
    requires ReadsValue(t, i, v, n) && !v.Array? && !v.Object?
    ensures ValueHere(t, i, v, n)
  {
    assert Known(0);
  }

  lemma ItemsMade(t: string, i: nat, v: Json, k: nat, m: nat, l: nat, n: nat)
    requires v.Array? && k < |v.items| && ValueHere(t, i, v.items[k], m)
    requires k == |v.items| - 1 ==> Close(t, m, ']', n)
    requires k < |v.items| - 1 ==> Mark(t, m, ',', l) && ItemsHere(t, l, v, k + 1, n)
    ensures ItemsHere(t, i, v, k, n)
  {
    assert Given(0);
    assert ItemsAt(t, i, v, k, n);
  }

  lemma FieldsMade(t: string, i: nat, v: Json, k: nat, m: nat, l: nat, n: nat)
    requires FieldHere(t, i, v, k, m)
    requires k == |v.fields| - 1 ==> Close(t, m, '}', n)
    requires k < |v.fields| - 1 ==> Mark(t, m, ',', l) && FieldsHere(t, l, v, k + 1, n)
    ensures FieldsHere(t, i, v, k, n)
  {
    assert Given(0);
    assert FieldsAt(t, i, v, k, n);
  }

  lemma FieldMade(t: string, i: nat, v: Json, k: nat, b: nat, d: nat, n: nat)
    requires v.Object? && k < |v.fields| && i <= |t| && ParseString(t, i) == Parsed(v.fields[k].0, b)
    requires Mark(t, b, ':', d) && ValueHere(t, d, v.fields[k].1, n)
    ensures FieldHere(t, i, v, k, n)
  {
    assert Given(0);
    assert FieldAt(t, i, v, k, n);
  }

  /** What is read stands in the grammar. */
  lemma {:induction false} ValueTaken(t: string, i: nat, v: Json, n: nat)
    requires ReadsValue(t, i, v, n)
    ensures ValueHere(t, i, v, n)
    decreases v, 2, 0
  {
    match v {
      case Array(items) =>
        var j := ArrayTaken(t, i, v, n);
        if items == [] {
          SkipsClose(t, i + 1, j, ']');
        } else {
          SkipsGap(t, i + 1, j);
          var l := ItemsTaken(t, j, v, 0, n);
          GapJoin(t, i + 1, j, l);
          assert Given(0);
        }
      case Object(fields) =>
        var j := ObjectTaken(t, i, v, n);
        if fields == [] {
          SkipsClose(t, i + 1, j, '}');
        } else {
          SkipsGap(t, i + 1, j);
          var l := FieldsTaken(t, j, v, 0, n);
          GapJoin(t, i + 1, j, l);
          assert Given(0);
        }
      case _ => ScalarTaken(t, i, v, n);
    }
  }

  lemma GapJoin(t: string, i: nat, j: nat, k: nat)
    requires Gap(t, i, j) && Gap(t, j, k)
    ensures Gap(t, i, k)
  {
    assert Blanked(0);
  }

  lemma {:induction false} ItemsTaken(t: string, i0: nat, v: Json, k: nat, n: nat) returns (i: nat)
    requires ReadsItems(t, i0, v, k, n) && k < |v.items|
    ensures Gap(t, i0, i) && ItemsHere(t, i, v, k, n)
    decreases v, 1, |v.items| - k
  {
    var m, j;
    i, m, j := ItemTaken(t, i0, v, k, n);
    SkipsGap(t, i0, i);
    ValueTaken(t, i, v.items[k], m);
    if k == |v.items| - 1 {
      SkipsClose(t, m, j, ']');
      ItemsMade(t, i, v, k, m, 0, n);
    } else {
      var l := ItemsTaken(t, j + 1, v, k + 1, n);
      SkipsMark(t, m, j, ',', l);
      ItemsMade(t, i, v, k, m, l, n);
    }
  }

  lemma {:induction false} OneFieldTaken(t: string, i0: nat, v: Json, k: nat, n: nat) returns (i: nat)
    requires v.Object? && k < |v.fields| && ReadsField(t, i0, v.fields[k].0, v.fields[k].1, n)
    ensures Gap(t, i0, i) && FieldHere(t, i, v, k, n)
    decreases v, 0, 0
  {
    var b, c, d;
    i, b, c, d := FieldTakenApart(t, i0, v.fields[k].0, v.fields[k].1, n);
    SkipsGap(t, i0, i);
    ValueTaken(t, d, v.fields[k].1, n);
    SkipsGap(t, c + 1, d);
    SkipsMark(t, b, c, ':', d);
    FieldMade(t, i, v, k, b, d, n);
  }

  lemma {:induction false} FieldsTaken(t: string, i0: nat, v: Json, k: nat, n: nat) returns (i: nat)
    requires ReadsFields(t, i0, v, k, n) && k < |v.fields|
    ensures Gap(t, i0, i) && FieldsHere(t, i, v, k, n)
    decreases v, 1, |v.fields| - k
  {
    var m, j := FieldTaken(t, i0, v, k, n);
    i := OneFieldTaken(t, i0, v, k, m);
    if k == |v.fields| - 1 {
      SkipsClose(t, m, j, '}');
      FieldsMade(t, i, v, k, m, 0, n);
    } else {
      var l := FieldsTaken(t, j + 1, v, k + 1, n);
      SkipsMark(t, m, j, ',', l);
      FieldsMade(t, i, v, k, m, l, n);
    }
  }

  /** The parser reads v from i to n if and only if that is what stands there. */
  lemma ReadsExactly(t: string, i: nat, v: Json, n: nat)
    requires i <= |t|
    ensures ParseValue(t, i) == Parsed(v, n) <==> ValueAt(t, i, v, n)
  {
    if ParseValue(t, i) == Parsed(v, n) {
      ValueTaken(t, i, v, n);
      assert Given(0);
    }
    if ValueAt(t, i, v, n) {
      ValueRead(t, i, v, n);
      assert Known(0);
    }
  }
}
