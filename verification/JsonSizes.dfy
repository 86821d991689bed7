/**
 The sizes cJSON computes before it allocates: the printer and the parser each walk over their
 input once to find out how much room the result may need, and fill it in a second pass.
 */
module JsonSizes {
  import opened JsonSpec

  // Strings, printed

  /** What the first pass counts for a character. */
  function CharLength(c: char): nat {
    if c == '\"' || c == '\\' || c == 8 as char || c == 12 as char || c == '\n' || c == '\r' || c == '\t' then 2
    else if c < 32 as char then 6
    else 1
  }

  function EscapedLength(s: string, k: nat): nat
    requires k <= |s|
    decreases |s| - k
  {
    if k == |s| then 0 else CharLength(s[k]) + EscapedLength(s, k + 1)
  }

  /** The count is exact: with two quotes and a terminator, the allocation is filled to its end. */
  lemma {:induction false} EscapedExact(s: string, k: nat)
    requires k <= |s|
    ensures |EscapeFrom(s, k)| == EscapedLength(s, k)
    decreases |s| - k
  {
    if k < |s| {
      EscapedExact(s, k + 1);
      assert |Escape(s[k])| == CharLength(s[k]);
    }
  }

  /** What print_string_ptr allocates. */
  function StringSize(s: string): nat {
    EscapedLength(s, 0) + 3
  }

  lemma StringFits(s: string)
    ensures |PrintString(s)| + 1 == StringSize(s)
  {
    EscapedExact(s, 0);
  }

  // Arrays and objects, printed

  /** What print_array counts for the items from k on. */
  ghost function ItemsLength(v: Json, k: nat, depth: nat, fmt: bool): nat
    requires v.Array? && k <= |v.items|
    decreases |v.items| - k
  {
    if k == |v.items| then 0
    else |Print(v.items[k], depth, fmt)| + 2 + (if fmt then 1 else 0) + ItemsLength(v, k + 1, depth, fmt)
  }

  lemma {:induction false} ItemsFit(v: Json, k: nat, depth: nat, fmt: bool)
    requires v.Array? && k < |v.items|
    ensures |PrintItems(v, k, depth, fmt)| <= ItemsLength(v, k, depth, fmt)
    decreases |v.items| - k
  {
    if k < |v.items| - 1 {
      ItemsFit(v, k + 1, depth, fmt);
    }
  }

  ghost function ArraySize(v: Json, depth: nat, fmt: bool): nat
    requires v.Array?
  {
    if v.items == [] then 3 else 5 + ItemsLength(v, 0, depth + 1, fmt)
  }

  /** What print_array writes, terminator included, fits what it allocates. */
  lemma ArrayFits(v: Json, depth: nat, fmt: bool)
    requires v.Array?
    ensures |Print(v, depth, fmt)| + 1 <= ArraySize(v, depth, fmt)
  {
    if v.items != [] {
      ItemsFit(v, 0, depth + 1, fmt);
    }
  }

  /** What print_object counts for the fields from k on. */
  ghost function FieldsLength(v: Json, k: nat, depth: nat, fmt: bool): nat
    requires v.Object? && k <= |v.fields|
    decreases |v.fields| - k
  {
    if k == |v.fields| then 0
    else
      |Print(v.fields[k].1, depth, fmt)| + |PrintString(v.fields[k].0)| + 2 + (if fmt then 2 + depth else 0)
      + FieldsLength(v, k + 1, depth, fmt)
  }

  lemma {:induction false} FieldsFit(v: Json, k: nat, depth: nat, fmt: bool)
    requires v.Object? && k < |v.fields|
    ensures |PrintFields(v, k, depth, fmt)| <= FieldsLength(v, k, depth, fmt)
    decreases |v.fields| - k
  {
    if k < |v.fields| - 1 {
      FieldsFit(v, k + 1, depth, fmt);
    }
  }

  ghost function ObjectSize(v: Json, depth: nat, fmt: bool): nat
    requires v.Object?
  {
    if v.fields == [] then (if fmt then depth + 4 else 3)
    else 7 + (if fmt then depth + 1 else 0) + FieldsLength(v, 0, depth + 1, fmt)
  }

  lemma ObjectFits(v: Json, depth: nat, fmt: bool)
    requires v.Object?
    ensures |Print(v, depth, fmt)| + 1 <= ObjectSize(v, depth, fmt)
  {
    if v.fields != [] {
      FieldsFit(v, 0, depth + 1, fmt);
    }
  }

  // Strings, parsed

  /** What the first pass of parse_string counts from i on: one for a character, and one for an escape of two. */
  function RawLength(t: string, i: nat): nat
    decreases |t| - i
  {
    if i >= |t| || t[i] == '\"' then 0
    else if t[i] == '\\' then 1 + RawLength(t, i + 2)
    else 1 + RawLength(t, i + 1)
  }

  predicate FourDigits(t: string, i: nat) {
    i + 4 <= |t| && forall j | i <= j < i + 4 :: HexValue(t[j]) >= 0
  }

  /** Every u in an escape has its four digits. */
  predicate Tidy(t: string, i: nat)
    decreases |t| - i
  {
    if i >= |t| || t[i] == '\"' then true
    else if t[i] != '\\' then Tidy(t, i + 1)
    else if At(t, i + 1) == 'u' then FourDigits(t, i + 2) && Tidy(t, i + 6)
    else Tidy(t, i + 2)
  }

  lemma DigitsCount(t: string, i: nat)
    requires i + 1 < |t| && t[i] == '\\' && t[i + 1] == 'u' && FourDigits(t, i + 2)
    ensures RawLength(t, i) == 5 + RawLength(t, i + 6)
  {
    assert HexValue(t[i + 2]) >= 0 && HexValue(t[i + 3]) >= 0 && HexValue(t[i + 4]) >= 0 && HexValue(t[i + 5]) >= 0;
    assert RawLength(t, i + 2) == 1 + RawLength(t, i + 3);
    assert RawLength(t, i + 3) == 1 + RawLength(t, i + 4);
    assert RawLength(t, i + 4) == 1 + RawLength(t, i + 5);
    assert RawLength(t, i + 5) == 1 + RawLength(t, i + 6);
  }

  /** An escape gives no more bytes than were counted for it, and both passes go on at the same place. */
  lemma EscapeFits(t: string, i: nat)
    requires i < |t| && t[i] == '\\' && Tidy(t, i) && Unescape(t, i + 1).Parsed?
    ensures
      var e := Unescape(t, i + 1);
      Tidy(t, e.next) && |e.value| + RawLength(t, e.next) <= RawLength(t, i)
  {
    var e := Unescape(t, i + 1);
    if t[i + 1] == 'u' {
      DigitsCount(t, i);
      if e.next == i + 12 {
        DigitsCount(t, i + 6);
      }
    }
  }

  /** What parse_string writes fits what its first pass counted, when every u has its four digits. */
  lemma {:induction false} BodyFits(t: string, i: nat)
    requires i <= |t| && Tidy(t, i)
    ensures StringBody(t, i).Parsed? ==> |StringBody(t, i).value| <= RawLength(t, i)
    decreases |t| - i
  {
    if i < |t| && t[i] != '\"' {
      if t[i] != '\\' {
        BodyFits(t, i + 1);
      } else if Unescape(t, i + 1).Parsed? {
        EscapeFits(t, i);
        BodyFits(t, Unescape(t, i + 1).next);
      }
    }
  }
}
