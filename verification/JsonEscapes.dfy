/**
 What string literals stand for: a decoder for UTF-8 (section 3 of RFC 3629) and the escapes
 of JSON (section 7 of RFC 8259), against which the parser's reading of strings is proved.
 */
module JsonEscapes {
  import opened JsonSpec
  import opened JsonRoundTrip

  // UTF-8

  /** How many bytes a first byte announces; 0 for one that cannot come first. */
  function Announced(b: int): int {
    if 0 <= b < 0x80 then 1
    else if 0xC0 <= b < 0xE0 then 2
    else if 0xE0 <= b < 0xF0 then 3
    else if 0xF0 <= b < 0xF8 then 4
    else 0
  }

  /** One character: a first byte, and as many bytes behind it as it announces. */
  predicate IsCharacter(b: string) {
    && 1 <= |b| <= 4 && Announced(b[0] as int) == |b|
    && forall i | 1 <= i < |b| :: 0x80 <= b[i] as int < 0xC0
  }

  /** Its code point: the free bits of its bytes, put together. */
  function CodePoint(b: string): int
    requires IsCharacter(b)
  {
    if |b| == 1 then b[0] as int
    else if |b| == 2 then (b[0] as int - 0xC0) * 0x40 + (b[1] as int - 0x80)
    else if |b| == 3 then (b[0] as int - 0xE0) * 0x1000 + (b[1] as int - 0x80) * 0x40 + (b[2] as int - 0x80)
    else (b[0] as int - 0xF0) * 0x4_0000 + (b[1] as int - 0x80) * 0x1000 + (b[2] as int - 0x80) * 0x40
         + (b[3] as int - 0x80)
  }

  /** The bytes needed for a code point. */
  function Width(uc: int): int {
    if uc < 0x80 then 1 else if uc < 0x800 then 2 else if uc < 0x1_0000 then 3 else 4
  }

  /** The bytes are the character with this code point, in its shortest form. */
  predicate Encodes(b: string, uc: int) {
    IsCharacter(b) && CodePoint(b) == uc && |b| == Width(uc)
  }

  lemma Utf8Encodes(uc: int)
    requires 0 <= uc < 0x11_0000
    ensures Encodes(Utf8(uc), uc)
  {
    if uc >= 0x1_0000 {
      FourBytes(uc);
    } else if uc >= 0x800 {
      ThreeBytes(uc);
    }
  }

  lemma ThreeBytes(uc: int)
    requires 0x800 <= uc < 0x1_0000
    ensures Encodes(Utf8(uc), uc)
  {
    var a, b, c := uc / 0x1000, uc / 0x40 % 0x40, uc % 0x40;
    Split(uc);
    assert Utf8(uc) == [(0xE0 + a) as char, (0x80 + b) as char, (0x80 + c) as char];
  }

  lemma FourBytes(uc: int)
    requires 0x1_0000 <= uc < 0x11_0000
    ensures Encodes(Utf8(uc), uc)
  {
    var a, b, c, d := uc / 0x4_0000, uc / 0x1000 % 0x40, uc / 0x40 % 0x40, uc % 0x40;
    Split(uc);
    Split(uc / 0x40);
    assert Utf8(uc) == [(0xF0 + a) as char, (0x80 + b) as char, (0x80 + c) as char, (0x80 + d) as char];
  }

  lemma Split(n: int)
    requires 0 <= n
    ensures n / 0x40 / 0x40 == n / 0x1000 && n / 0x40 / 0x1000 == n / 0x4_0000
    ensures n == n / 0x1000 * 0x1000 + n / 0x40 % 0x40 * 0x40 + n % 0x40
  {
  }

  /** There is only one such string of bytes. */
  lemma EncodedOnce(b: string, uc: int)
    requires 0 <= uc < 0x11_0000 && Encodes(b, uc)
    ensures b == Utf8(uc)
  {
    Utf8Encodes(uc);
    SameCode(b, Utf8(uc));
  }

  lemma SameCode(a: string, b: string)
    requires IsCharacter(a) && IsCharacter(b) && |a| == |b| && CodePoint(a) == CodePoint(b)
    ensures a == b
  {
    assert a[0] == b[0];
    if |a| > 1 {
      assert a[1] == b[1];
    }
    if |a| > 2 {
      assert a[2] == b[2];
    }
  }

  // Hexadecimal digits

  const LOWER := "0123456789abcdef"
  const UPPER := "0123456789ABCDEF"

  /** c is the digit d, in either case. */
  predicate IsHex(c: char, d: int) {
    0 <= d < 16 && (c == LOWER[d] || c == UPPER[d])
  }

  lemma HexValueIs(c: char, d: int)
    ensures IsHex(c, d) <==> d >= 0 && HexValue(c) == d
  {
  }

  /** The four characters from i on are the digits of n. */
  ghost predicate Spells(t: string, i: nat, n: int) {
    i + 4 <= |t| && exists a, b, c, d :: AreDigits(t, i, a, b, c, d) && n == 0x1000 * a + 0x100 * b + 0x10 * c + d
  }

  predicate AreDigits(t: string, i: nat, a: int, b: int, c: int, d: int)
    requires i + 4 <= |t|
  {
    IsHex(t[i], a) && IsHex(t[i + 1], b) && IsHex(t[i + 2], c) && IsHex(t[i + 3], d)
  }

  lemma Hex4Reads(t: string, i: nat, n: int)
    requires Spells(t, i, n)
    ensures Hex4(t, i) == n
  {
    var a, b, c, d :| AreDigits(t, i, a, b, c, d) && n == 0x1000 * a + 0x100 * b + 0x10 * c + d;
    HexValueIs(t[i], a);
    HexValueIs(t[i + 1], b);
    HexValueIs(t[i + 2], c);
    HexValueIs(t[i + 3], d);
  }

  /** Anything but four digits counts as zero. */
  lemma Hex4Fails(t: string, i: nat)
    requires i + 4 <= |t| && forall n :: !Spells(t, i, n)
    ensures Hex4(t, i) == 0
  {
    var a, b, c, d := HexValue(t[i]), HexValue(t[i + 1]), HexValue(t[i + 2]), HexValue(t[i + 3]);
    HexValueIs(t[i], a);
    HexValueIs(t[i + 1], b);
    HexValueIs(t[i + 2], c);
    HexValueIs(t[i + 3], d);
    assert !Spells(t, i, 0x1000 * a + 0x100 * b + 0x10 * c + d);
    assert !AreDigits(t, i, a, b, c, d);
  }

  // Escapes

  predicate Surrogate(n: int) {
    0xD800 <= n < 0xE000
  }

  /** An escape with the digits of a code point that is no surrogate. */
  lemma BasicRead(t: string, j: nat, n: int)
    requires j < |t| && t[j] == 'u' && Spells(t, j + 1, n) && n != 0 && !Surrogate(n)
    ensures Unescape(t, j).Parsed? && Unescape(t, j).next == j + 5 && Encodes(Unescape(t, j).value, n)
  {
    Hex4Reads(t, j + 1, n);
    Utf8Encodes(n);
  }

  /** The two halves of a code point beyond 16 bits. */
  predicate Pair(uc: int, high: int, low: int) {
    0xD800 <= high < 0xDC00 && 0xDC00 <= low < 0xE000 && uc == 0x1_0000 + (high - 0xD800) * 0x400 + (low - 0xDC00)
  }

  /** Two escapes with the digits of a surrogate pair. */
  lemma PairRead(t: string, j: nat, uc: int, high: int, low: int)
    requires Pair(uc, high, low) && j + 6 < |t| && t[j] == 'u' && t[j + 5] == '\\' && t[j + 6] == 'u'
    requires Spells(t, j + 1, high) && Spells(t, j + 7, low)
    ensures Unescape(t, j).Parsed? && Unescape(t, j).next == j + 11 && Encodes(Unescape(t, j).value, uc)
  {
    Hex4Reads(t, j + 1, high);
    Hex4Reads(t, j + 7, low);
    HalvesJoin(uc, high, low);
    PairIs(t, j, high, low, uc);
    Utf8Encodes(uc);
  }

  lemma HalvesJoin(uc: int, high: int, low: int)
    requires Pair(uc, high, low)
    ensures 0x1_0000 <= uc < 0x11_0000 && 0x1_0000 + high % 0x400 * 0x400 + low % 0x400 == uc
  {
    assert high % 0x400 == high - 0xD800 && low % 0x400 == low - 0xDC00;
  }

  lemma PairIs(t: string, j: nat, high: int, low: int, uc: int)
    requires j + 10 < |t| && t[j] == 'u' && t[j + 5] == '\\' && t[j + 6] == 'u'
    requires Hex4(t, j + 1) == high && Hex4(t, j + 7) == low && 0xD800 <= high < 0xDC00 && 0xDC00 <= low < 0xE000
    requires 0 <= uc < 0x11_0000 && 0x1_0000 + high % 0x400 * 0x400 + low % 0x400 == uc
    ensures Unescape(t, j) == Parsed(Utf8(uc), j + 11)
  {
  }

  /** A second escape follows the one whose u stands at j. */
  predicate Another(t: string, j: nat) {
    At(t, j + 5) == '\\' && At(t, j + 6) == 'u'
  }

  /** Zero and surrogates that make no pair are dropped, the second one with the first. */
  lemma InvalidDropped(t: string, j: nat, n: int, m: int)
    requires j < |t| && t[j] == 'u' && Spells(t, j + 1, n) && (n == 0 || Surrogate(n))
    ensures n == 0 || n >= 0xDC00 || !Another(t, j) ==> Unescape(t, j) == Parsed("", j + 5)
    ensures 0 < n < 0xDC00 && Another(t, j) && Spells(t, j + 7, m) && !(0xDC00 <= m < 0xE000) ==>
              Unescape(t, j) == Parsed("", j + 11)
  {
    Hex4Reads(t, j + 1, n);
    if Another(t, j) && Spells(t, j + 7, m) {
      Hex4Reads(t, j + 7, m);
    }
  }

  // String literals

  const LETTERS := "\"\\/bfnrt"
  const MEANINGS := ['\"', '\\', '/', 8 as char, 12 as char, 10 as char, 13 as char, 9 as char]

  /** A backslash and one of the letters of section 7 of RFC 8259. */
  ghost predicate IsShort(x: string, b: string) {
    |x| == 2 && x[0] == '\\' && exists k :: 0 <= k < 8 && x[1] == LETTERS[k] && b == [MEANINGS[k]]
  }

  /** A backslash, u and the digits of a code point. */
  ghost predicate IsBasic(x: string, b: string) {
    |x| == 6 && x[0] == '\\' && x[1] == 'u' && exists n :: Spells(x, 2, n) && n != 0 && !Surrogate(n) && Encodes(b, n)
  }

  /** Two of those, for the two halves of a code point. */
  ghost predicate IsPair(x: string, b: string) {
    && |x| == 12 && x[0] == x[6] == '\\' && x[1] == x[7] == 'u'
    && exists uc, high, low :: Pair(uc, high, low) && Spells(x, 2, high) && Spells(x, 8, low) && Encodes(b, uc)
  }

  /** The characters x of a string literal stand for the bytes b. */
  ghost predicate Denotes(x: string, b: string) {
    forall k {:trigger Written(k)} | Written(k) :: IsPlain(x, b) || IsShort(x, b) || IsBasic(x, b) || IsPair(x, b)
  }

  /** Asserting Written of some number brings what Denotes says into a proof. */
  ghost predicate Written(k: int) {
    true
  }

  ghost predicate IsPlain(x: string, b: string) {
    |x| == 1 && x[0] != '\"' && x[0] != '\\' && b == x
  }

  lemma SpellsAt(t: string, i: nat, x: string, k: nat, n: int)
    requires Stands(t, i, x) && Spells(x, k, n)
    ensures Spells(t, i + k, n)
  {
    var a, b, c, d :| AreDigits(x, k, a, b, c, d) && n == 0x1000 * a + 0x100 * b + 0x10 * c + d;
    StartsAt(t, i, x, k);
    StartsAt(t, i, x, k + 1);
    StartsAt(t, i, x, k + 2);
    StartsAt(t, i, x, k + 3);
    assert AreDigits(t, i + k, a, b, c, d);
  }

  lemma ShortRead(t: string, j: nat, x: string, b: string)
    requires IsShort(x, b) && j < |t| && t[j] == x[1]
    ensures Unescape(t, j) == Parsed(b, j + 1)
  {
  }

  /** What is read for a code point is the only thing that encodes it. */
  lemma ReadAs(r: Parsed<string>, next: nat, uc: int, b: string)
    requires r.Parsed? && r.next == next && Encodes(r.value, uc) && Encodes(b, uc) && 0 <= uc < 0x11_0000
    ensures r == Parsed(b, next)
  {
    EncodedOnce(b, uc);
    EncodedOnce(r.value, uc);
  }

  lemma BasicParts(x: string, b: string) returns (n: int)
    requires IsBasic(x, b)
    ensures Spells(x, 2, n) && 0 < n < 0x1_0000 && !Surrogate(n) && Encodes(b, n)
  {
    n :| Spells(x, 2, n) && n != 0 && !Surrogate(n) && Encodes(b, n);
  }

  lemma BasicEscape(t: string, i: nat, x: string, b: string)
    requires Stands(t, i, x) && IsBasic(x, b)
    ensures Unescape(t, i + 1) == Parsed(b, i + 6)
  {
    StartsAt(t, i, x, 1);
    var n := BasicParts(x, b);
    SpellsAt(t, i, x, 2, n);
    BasicRead(t, i + 1, n);
    ReadAs(Unescape(t, i + 1), i + 6, n, b);
  }

  lemma PairParts(x: string, b: string) returns (uc: int, high: int, low: int)
    requires IsPair(x, b)
    ensures Pair(uc, high, low) && Spells(x, 2, high) && Spells(x, 8, low) && Encodes(b, uc)
    ensures 0x1_0000 <= uc < 0x11_0000
  {
    uc, high, low :| Pair(uc, high, low) && Spells(x, 2, high) && Spells(x, 8, low) && Encodes(b, uc);
  }

  lemma PairEscape(t: string, i: nat, x: string, b: string)
    requires Stands(t, i, x) && IsPair(x, b)
    ensures Unescape(t, i + 1) == Parsed(b, i + 12)
  {
    StartsAt(t, i, x, 1);
    StartsAt(t, i, x, 6);
    StartsAt(t, i, x, 7);
    var uc, high, low := PairParts(x, b);
    SpellsAt(t, i, x, 2, high);
    SpellsAt(t, i, x, 8, low);
    PairRead(t, i + 1, uc, high, low);
    ReadAs(Unescape(t, i + 1), i + 12, uc, b);
  }

  /** The parser reads an escape as what it stands for. */
  lemma EscapeRead(t: string, i: nat, x: string, b: string)
    requires Stands(t, i, x) && (IsShort(x, b) || IsBasic(x, b) || IsPair(x, b))
    ensures t[i] == '\\' && Unescape(t, i + 1) == Parsed(b, i + |x|)
  {
    StartsAt(t, i, x, 0);
    if IsBasic(x, b) {
      BasicEscape(t, i, x, b);
    } else if IsPair(x, b) {
      PairEscape(t, i, x, b);
    } else {
      StartsAt(t, i, x, 1);
      ShortRead(t, i + 1, x, b);
    }
  }

  lemma PieceRead(t: string, i: nat, x: string, b: string)
    requires Stands(t, i, x) && Denotes(x, b)
    ensures StringBody(t, i) == Prepend(b, StringBody(t, i + |x|))
  {
    assert Written(0);
    StartsAt(t, i, x, 0);
    if !IsPlain(x, b) {
      EscapeRead(t, i, x, b);
    } else {
      assert b == x == [t[i]];
    }
  }

  ghost function Concat(parts: seq<string>): string {
    if parts == [] then "" else parts[0] + Concat(parts[1..])
  }

  /**
   A string literal, whatever escapes it is written with, is read as the bytes it stands for:
   plain characters, short escapes, code points up to 0xFFFF and surrogate pairs beyond.
   */
  lemma {:induction false} LiteralRead(t: string, i: nat, xs: seq<string>, bs: seq<string>)
    requires |xs| == |bs| && forall k | 0 <= k < |xs| :: Denotes(xs[k], bs[k])
    requires Stands(t, i, Concat(xs)) && At(t, i + |Concat(xs)|) == '\"'
    ensures StringBody(t, i) == Parsed(Concat(bs), i + |Concat(xs)| + 1)
    decreases |xs|
  {
    if xs != [] {
      var x, rest := xs[0], Concat(xs[1..]);
      StartsSplit(t, i, x, rest);
      PieceRead(t, i, x, bs[0]);
      LiteralRead(t, i + |x|, xs[1..], bs[1..]);
      assert Prepend(bs[0], Parsed(Concat(bs[1..]), i + |x| + |rest| + 1)) == Parsed(Concat(bs), i + |x + rest| + 1);
    } else {
      assert Concat(bs) == "";
    }
  }

  // What the printer writes for a character

  lemma HexDigitIs(d: int)
    requires 0 <= d < 16
    ensures HexDigit(d) == LOWER[d]
  {
  }

  /** The printer's escapes mean the character: a short one where there is one, digits for other control characters. */
  lemma EscapeDenotes(c: char)
    requires 0 < c as int < 256
    ensures Denotes(Escape(c), [c])
    ensures |Escape(c)| == if c == '\"' || c == '\\' || c as int in {8, 9, 10, 12, 13} then 2
                           else if c < ' ' then 6 else 1
  {
    if |Escape(c)| == 2 {
      assert exists k :: 0 <= k < 8 && Escape(c)[1] == LETTERS[k] && [c] == [MEANINGS[k]] by {
        ShortFor(c);
      }
    } else if |Escape(c)| == 6 {
      DigitsFor(c);
    }
  }

  lemma ShortFor(c: char)
    requires |Escape(c)| == 2
    ensures exists k :: 0 <= k < 8 && Escape(c)[1] == LETTERS[k] && c == MEANINGS[k]
  {
    var k := if c == '\"' then 0 else if c == '\\' then 1 else if c == 8 as char then 3
             else if c == 12 as char then 4 else if c == '\n' then 5 else if c == '\r' then 6 else 7;
    assert Escape(c)[1] == LETTERS[k] && c == MEANINGS[k];
  }

  lemma DigitsFor(c: char)
    requires 0 < c as int < 256 && |Escape(c)| == 6
    ensures IsBasic(Escape(c), [c])
  {
    var x, n := Escape(c), c as int;
    HexDigitIs(n / 16);
    HexDigitIs(n % 16);
    assert x[4] == HexDigit(n / 16) && x[5] == HexDigit(n % 16);
    assert AreDigits(x, 2, 0, 0, n / 16, n % 16);
    assert Spells(x, 2, n);
    assert Encodes([c], n);
  }
}

