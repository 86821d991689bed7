/** The value of a number text: sign, digits, fraction and exponent (section 6 of RFC 8259). */
module JsonNumbers {
  import opened JsonSpec
  import opened JsonRoundTrip

  ghost predicate Digits(s: string) {
    forall k | 0 <= k < |s| :: IsDigit(s[k])
  }

  /** The value of decimal digits, the last one counting once. */
  ghost function DigitsValue(s: string): int
    decreases |s|
  {
    if s == "" then 0 else DigitsValue(s[..|s| - 1]) * 10 + (s[|s| - 1] as int - '0' as int)
  }

  datatype Sign = Bare | Plus | Minus

  datatype Power = NoPower | Power(capital: bool, sign: Sign, digits: string)

  /**
   A number text: an optional minus sign, digits with at most one leading zero, maybe a point
   and more digits, maybe an e, a sign and the digits of an exponent.  The program takes a
   leading zero before other digits and no digits behind a minus sign, too.
   */
  datatype NumberText = NumberText(minus: bool, zero: bool, whole: string, fraction: string, power: Power)

  ghost predicate WellFormed(x: NumberText) {
    && Digits(x.whole) && (x.whole != "" ==> x.whole[0] != '0') && Digits(x.fraction)
    && (x.minus || x.zero || x.whole != "")
    && (x.power.Power? ==> Digits(x.power.digits) && x.power.digits != "")
  }

  ghost function Front(x: NumberText): string {
    (if x.minus then "-" else "") + ((if x.zero then "0" else "") + x.whole)
  }

  ghost function Middle(x: NumberText): string {
    if x.fraction == "" then "" else "." + x.fraction
  }

  ghost function SignText(sign: Sign): string {
    match sign
    case Bare => ""
    case Plus => "+"
    case Minus => "-"
  }

  ghost function Back(x: NumberText): string {
    if x.power.NoPower? then ""
    else (if x.power.capital then "E" else "e") + (SignText(x.power.sign) + x.power.digits)
  }

  ghost function Written(x: NumberText): string {
    Front(x) + (Middle(x) + Back(x))
  }

  ghost function PowerValue(p: Power): int {
    if p.NoPower? then 0 else if p.sign.Minus? then -DigitsValue(p.digits) else DigitsValue(p.digits)
  }

  /** All digits before the exponent make the number; each one behind the point takes one off the exponent. */
  ghost function ValueOf(x: NumberText): Json {
    var m := DigitsValue(x.whole + x.fraction);
    Number(if x.minus then -m else m, PowerValue(x.power) - |x.fraction|)
  }

  lemma {:induction false} ReadIs(t: string, i: nat, s: string, p: string)
    requires Stands(t, i, s)
    ensures Read(t, i, i + |s|, DigitsValue(p)) == DigitsValue(p + s)
    decreases |s|
  {
    if s == "" {
      assert p + s == p;
    } else {
      var front, last := s[..|s| - 1], s[|s| - 1..];
      assert s == front + last;
      StartsSplit(t, i, front, last);
      StartsAt(t, i, s, |s| - 1);
      ReadIs(t, i, front, p);
      ReadOn(t, i, i + |s| - 1, DigitsValue(p));
      assert (p + s)[..|p + s| - 1] == p + front;
    }
  }

  /** n is the value of the digits s behind the digits p; asserting Valued of some number brings that in. */
  ghost predicate Amounts(p: string, s: string, n: int) {
    forall k {:trigger Valued(k)} | Valued(k) :: n == DigitsValue(p + s)
  }

  ghost predicate Valued(k: int) {
    true
  }

  /** A run of digits, and what reading it behind the number n0 makes. */
  ghost predicate IsRun(t: string, i: nat, s: string, n0: int, n: int) {
    i + |s| <= |t| && DigitsEnd(t, i) == i + |s| && Read(t, i, i + |s|, n0) == n
  }

  /** A run of digits at i, and no more behind it. */
  lemma RunIs(t: string, i: nat, s: string, p: string, n0: int) returns (n: int)
    requires Stands(t, i, s) && Digits(s) && !IsDigit(At(t, i + |s|)) && Amounts("", p, n0)
    ensures IsRun(t, i, s, n0, n) && Amounts(p, s, n)
    ensures s != "" ==> At(t, i) == s[0]
  {
    assert Valued(0);
    assert "" + p == p;
    forall k | i <= k < i + |s| ensures IsDigit(t[k]) {
      StartsAt(t, i, s, k - i);
    }
    DigitsRun(t, i, i + |s|);
    ReadIs(t, i, s, p);
    n := DigitsValue(p + s);
    if s != "" {
      StartsAt(t, i, s, 0);
    }
  }

  lemma NoDigits(p: string, n: int)
    requires Amounts("", p, n)
    ensures Amounts(p, "", n)
  {
    assert Valued(0);
    assert "" + p == p + "" == p;
  }

  lemma NothingRead()
    ensures Amounts("", "", 0)
  {
  }

  /** The digits before the point, behind a zero or not. */
  lemma WholeIs(t: string, i: nat, zero: bool, s: string, n: int)
    requires IsRun(t, if zero then i + 1 else i, s, 0, n) && (zero ==> At(t, i) == '0' && i < |t|)
    requires s == "" ==> !('0' <= At(t, if zero then i + 1 else i) <= '9')
    requires s != "" ==> '1' <= At(t, if zero then i + 1 else i) <= '9'
    ensures Whole(t, i) == ((if zero then i + 1 else i) + |s|, n)
  {
  }

  lemma FractionIs(t: string, i: nat, s: string, n0: int, n: int)
    requires i < |t| && t[i] == '.' && s != "" && IsRun(t, i + 1, s, n0, n) && IsDigit(At(t, i + 1))
    ensures Fraction(t, i, n0) == (i + 1 + |s|, n, -|s|)
  {
  }

  lemma ExponentIs(t: string, i: nat, sign: Sign, s: string, e: int)
    requires i < |t| && (t[i] == 'e' || t[i] == 'E') && IsRun(t, if sign.Bare? then i + 1 else i + 2, s, 0, e)
    requires match sign
             case Bare => At(t, i + 1) != '+' && At(t, i + 1) != '-'
             case Plus => At(t, i + 1) == '+'
             case Minus => At(t, i + 1) == '-'
    ensures Exponent(t, i) == ((if sign.Bare? then i + 1 else i + 2) + |s|, if sign.Minus? then -e else e)
  {
  }

  /** The integer part stands at i and something else than a digit follows. */
  lemma FrontRead(t: string, i: nat, x: NumberText) returns (n: int)
    requires WellFormed(x) && Stands(t, i, Front(x)) && !IsDigit(At(t, i + |Front(x)|))
    ensures Amounts("", x.whole, n) && (x.minus ==> At(t, i) == '-')
    ensures Whole(t, if x.minus then i + 1 else i) == (i + |Front(x)|, n)
  {
    var sign, zero := if x.minus then "-" else "", if x.zero then "0" else "";
    StartsSplit(t, i, sign, zero + x.whole);
    StartsSplit(t, i + |sign|, zero, x.whole);
    if x.minus {
      StartsAt(t, i, sign, 0);
    }
    if x.zero {
      StartsAt(t, i + |sign|, zero, 0);
    }
    n := WholeRead(t, i + |sign|, x.zero, x.whole);
  }

  lemma WholeRead(t: string, i: nat, zero: bool, s: string) returns (n: int)
    requires Digits(s) && (s != "" ==> s[0] != '0') && (zero ==> At(t, i) == '0' && i < |t|)
    requires Stands(t, if zero then i + 1 else i, s) && !IsDigit(At(t, (if zero then i + 1 else i) + |s|))
    ensures Amounts("", s, n) && Whole(t, i) == ((if zero then i + 1 else i) + |s|, n)
  {
    NothingRead();
    n := RunIs(t, if zero then i + 1 else i, s, "", 0);
    assert s != "" ==> IsDigit(s[0]);
    WholeIs(t, i, zero, s, n);
  }

  lemma MiddleRead(t: string, i: nat, x: NumberText, n0: int) returns (n: int)
    requires WellFormed(x) && Stands(t, i, Middle(x)) && !IsDigit(At(t, i + |Middle(x)|))
    requires (x.fraction == "" ==> At(t, i) != '.') && Amounts("", x.whole, n0)
    ensures Amounts(x.whole, x.fraction, n)
    ensures Fraction(t, i, n0) == (i + |Middle(x)|, n, -|x.fraction|)
  {
    if x.fraction == "" {
      NoDigits(x.whole, n0);
      n := n0;
    } else {
      StartsSplit(t, i, ".", x.fraction);
      StartsAt(t, i, ".", 0);
      n := RunIs(t, i + 1, x.fraction, x.whole, n0);
      assert IsDigit(x.fraction[0]);
      FractionIs(t, i, x.fraction, n0, n);
    }
  }

  lemma BackRead(t: string, i: nat, x: NumberText)
    requires WellFormed(x) && Stands(t, i, Back(x)) && !IsDigit(At(t, i + |Back(x)|))
    requires x.power.NoPower? ==> At(t, i) != 'e' && At(t, i) != 'E'
    ensures Exponent(t, i) == (i + |Back(x)|, PowerValue(x.power))
  {
    if x.power.Power? {
      var mark, sign := if x.power.capital then "E" else "e", SignText(x.power.sign);
      StartsSplit(t, i, mark, sign + x.power.digits);
      StartsAt(t, i, mark, 0);
      StartsSplit(t, i + 1, sign, x.power.digits);
      if !x.power.sign.Bare? {
        StartsAt(t, i + 1, sign, 0);
      }
      PowerRead(t, i, x.power.sign, x.power.digits);
    }
  }

  lemma PowerRead(t: string, i: nat, sign: Sign, s: string)
    requires i < |t| && (t[i] == 'e' || t[i] == 'E') && Digits(s) && s != ""
    requires Stands(t, if sign.Bare? then i + 1 else i + 2, s)
    requires !IsDigit(At(t, (if sign.Bare? then i + 1 else i + 2) + |s|))
    requires sign.Plus? ==> At(t, i + 1) == '+'
    requires sign.Minus? ==> At(t, i + 1) == '-'
    ensures
      var e := DigitsValue(s);
      Exponent(t, i) == ((if sign.Bare? then i + 1 else i + 2) + |s|, if sign.Minus? then -e else e)
  {
    NothingRead();
    var e := RunIs(t, if sign.Bare? then i + 1 else i + 2, s, "", 0);
    assert IsDigit(s[0]);
    ExponentIs(t, i, sign, s, e);
    assert e == DigitsValue(s) by {
      assert Valued(0);
      assert "" + s == s;
    }
  }

  /** What stands first in each part. */
  lemma Joints(t: string, i: nat, x: NumberText) returns (a: nat, b: nat)
    requires WellFormed(x) && Stands(t, i, Written(x)) && Stops(t, i + |Written(x)|)
    ensures a == i + |Front(x)| && b == a + |Middle(x)| && b + |Back(x)| == i + |Written(x)|
    ensures Stands(t, i, Front(x)) && Stands(t, a, Middle(x)) && Stands(t, b, Back(x))
    ensures x.power.NoPower? ==> Stops(t, b)
    ensures x.power.Power? ==> At(t, b) == if x.power.capital then 'E' else 'e'
    ensures At(t, a) == if x.fraction == "" then At(t, b) else '.'
  {
    a, b := i + |Front(x)|, i + |Front(x)| + |Middle(x)|;
    StartsSplit(t, i, Front(x), Middle(x) + Back(x));
    StartsSplit(t, a, Middle(x), Back(x));
    if x.power.Power? {
      StartsAt(t, b, Back(x), 0);
    }
    if x.fraction != "" {
      StartsAt(t, a, Middle(x), 0);
    }
  }

  lemma FrontBegins(t: string, i: nat, x: NumberText)
    requires WellFormed(x) && Stands(t, i, Front(x))
    ensures At(t, i) == '-' <==> x.minus
  {
    StartsAt(t, i, Front(x), 0);
    if !x.minus && !x.zero {
      assert IsDigit(x.whole[0]);
    }
  }

  /** Where the parts stand, and what follows each of them. */
  lemma Places(t: string, i: nat, x: NumberText) returns (a: nat, b: nat)
    requires WellFormed(x) && Stands(t, i, Written(x)) && Stops(t, i + |Written(x)|)
    ensures a == i + |Front(x)| && b == a + |Middle(x)| && b + |Back(x)| == i + |Written(x)|
    ensures Stands(t, i, Front(x)) && Stands(t, a, Middle(x)) && Stands(t, b, Back(x))
    ensures !IsDigit(At(t, a)) && !IsDigit(At(t, b)) && (At(t, i) == '-' <==> x.minus)
    ensures x.fraction == "" ==> At(t, a) != '.'
    ensures x.power.NoPower? ==> At(t, b) != 'e' && At(t, b) != 'E'
  {
    a, b := Joints(t, i, x);
    FrontBegins(t, i, x);
  }

  lemma PartsRead(t: string, i: nat, minus: bool, a: nat, b: nat, c: nat, n0: int, n: int, f: int, e: int)
    requires i <= |t| && a <= |t| && b <= |t| && (At(t, i) == '-' <==> minus) && (minus ==> i < |t|)
    requires Whole(t, if minus then i + 1 else i) == (a, n0) && Fraction(t, a, n0) == (b, n, f)
    requires Exponent(t, b) == (c, e)
    ensures ParseNumber(t, i) == Parsed(Number(if minus then -n else n, f + e), c)
  {
  }

  lemma ValueIs(x: NumberText, n: int)
    requires Amounts(x.whole, x.fraction, n)
    ensures ValueOf(x) == Number(if x.minus then -n else n, PowerValue(x.power) - |x.fraction|)
  {
    assert Valued(0);
  }

  /** The parser reads every such text as its value, provided the number ends there. */
  lemma NumberRead(t: string, i: nat, x: NumberText)
    requires WellFormed(x) && Stands(t, i, Written(x)) && Stops(t, i + |Written(x)|)
    ensures ParseNumber(t, i) == Parsed(ValueOf(x), i + |Written(x)|)
  {
    var a, b := Places(t, i, x);
    var n0 := FrontRead(t, i, x);
    var n := MiddleRead(t, a, x, n0);
    BackRead(t, b, x);
    ValueIs(x, n);
    PartsRead(t, i, x.minus, a, b, b + |Back(x)|, n0, n, -|x.fraction|, PowerValue(x.power));
  }
}
