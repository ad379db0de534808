/**
  What a conversion of `rtprog/libc/snprintf.c` puts out, said of the text alone: where the spaces
  are, what stands before the digits, which number the digits spell and how many there are.  Each
  of these leaves one text only.
 */
module Conversions {
  import opened Printf

  // ------------------------------------------------------------------ fields

  /** `t` is `s` widened with spaces to `width`: before it or, with the minus flag, after it. */
  ghost predicate Laid(t: string, s: string, width: int, left: bool) {
    && |t| == Max(width, |s|)
    && (left ==> s <= t && forall i :: |s| <= i < |t| ==> t[i] == ' ')
    && (!left ==> t[|t| - |s|..] == s && forall i :: 0 <= i < |t| - |s| ==> t[i] == ' ')
  }

  lemma PaddedLaid(f: Spec, s: string)
    ensures Laid(Padded(f, s), s, f.width, f.flags.left)
  {
    hide Repeat;
  }

  lemma LaidOnce(t: string, u: string, s: string, width: int, left: bool)
    requires Laid(t, s, width, left) && Laid(u, s, width, left)
    ensures t == u
  {
    var gap := |t| - |s|;
    if !left {
      assert t == t[..gap] + t[gap..] && u == u[..gap] + u[gap..];
    }
  }

  // ---------------------------------------------------------------- integers

  predicate OtherCase(c: char, upper: bool) {
    if upper then 'a' <= c <= 'f' else 'A' <= c <= 'F'
  }

  /** Digits of `v` in letters of one case: at least `least` of them, and a zero in front only to reach that. */
  ghost predicate Spells(digits: string, v: nat, base: nat, upper: bool, least: nat) {
    && IsNumeral(digits, base) && Value(digits, base) == v
    && (forall i :: 0 <= i < |digits| ==> !OtherCase(digits[i], upper))
    && |digits| >= least && (|digits| > least ==> digits[0] != '0')
  }

  /** A field that holds a sign, a prefix and the digits of `v`. */
  ghost predicate Shows(t: string, lead: string, v: nat, base: nat, upper: bool, least: nat, width: int, left: bool) {
    exists digits :: Spells(digits, v, base, upper, least) && Laid(t, lead + digits, width, left)
  }

  /**
    The least number of digits after a sign and prefix of `lead` characters: the precision, 1 without
    one, or what fills the width with zeros.
   */
  function Least(f: Spec, lead: nat): nat {
    if f.prec >= 0 then f.prec
    else if f.flags.zero && !f.flags.left then Max(1, f.width - lead)
    else 1
  }

  lemma {:induction false} NumeralShape(v: nat, base: nat, upper: bool)
    requires 2 <= base <= 16
    ensures forall i :: 0 <= i < |Numeral(v, base, upper)| ==> !OtherCase(Numeral(v, base, upper)[i], upper)
    ensures v > 0 ==> Numeral(v, base, upper)[0] != '0'
    ensures v == 0 ==> Numeral(v, base, upper) == "0"
    decreases v
  {
    hide Numeral;
    NumeralStep(v, base, upper);
    if v >= base {
      DivMod(v, base);
      FrontPart(v, base);
      NumeralShape(v / base, base, upper);
    }
  }

  lemma FrontPart(v: nat, base: nat)
    requires 2 <= base <= v
    ensures v / base > 0
  {
  }

  /** What `emit_int` puts out. */
  lemma IntTextShows(f: Spec, u: nat, neg: bool, base: nat, upper: bool)
    requires base == 8 || base == 10 || base == 16
    ensures var lead := Sign(f, neg) + Prefix(f, u, base, upper);
            Shows(IntText(f, u, neg, base, upper), lead, u, base, upper, Least(f, |lead|), f.width, f.flags.left)
  {
    hide Numeral;
    hide Repeat;
    hide Sign;
    hide Prefix;
    hide Laid;
    hide Spells;
    var lead, digits := Sign(f, neg) + Prefix(f, u, base, upper), Digits(f, u, base, upper);
    var num := Repeat('0', Zeros(f, |digits|, |lead|)) + digits;
    BodySpells(f, u, base, upper, |lead|);
    PaddedLaid(f, lead + num);
  }

  lemma BodySpells(f: Spec, u: nat, base: nat, upper: bool, lead: nat)
    requires base == 8 || base == 10 || base == 16
    ensures var digits := Digits(f, u, base, upper);
            Spells(Repeat('0', Zeros(f, |digits|, lead)) + digits, u, base, upper, Least(f, lead))
  {
    hide Numeral;
    hide Value;
    hide IsNumeral;
    var digits := Digits(f, u, base, upper);
    NumeralShape(u, base, upper);
    DigitsRead(f, u, base, upper);
    LeadingZeros(Zeros(f, |digits|, lead), digits, base);
  }

  // -------------------------------------------------------------- uniqueness

  function Pow(base: nat, n: nat): (p: nat)
    ensures base > 0 ==> p > 0
  {
    if n == 0 then 1 else Pow(base, n - 1) * base
  }

  lemma {:induction false} PowGrows(base: nat, m: nat, n: nat)
    requires base >= 1 && m <= n
    ensures 1 <= Pow(base, m) <= Pow(base, n)
    decreases n
  {
    if m < n {
      PowGrows(base, m, n - 1);
      TimesBase(Pow(base, n - 1), base);
    } else if n > 0 {
      PowGrows(base, n - 1, n - 1);
      TimesBase(Pow(base, n - 1), base);
    }
  }

  lemma TimesBase(x: nat, base: nat)
    requires base >= 1
    ensures x <= x * base
  {
  }

  lemma Steps(a: int, d: int, bound: int, base: nat)
    requires 0 <= a < bound && 0 <= d < base
    ensures 0 <= a * base + d < bound * base
  {
    assert a * base + d < (a + 1) * base <= bound * base;
  }

  lemma {:induction false} ValueBounds(s: string, base: nat)
    requires base >= 2 && IsNumeral(s, base)
    ensures 0 <= Value(s, base) < Pow(base, |s|)
    ensures s != "" && s[0] != '0' ==> Value(s, base) >= Pow(base, |s| - 1)
    decreases |s|
  {
    if s != "" {
      var front, n := s[..|s| - 1], |s|;
      ValueBounds(front, base);
      Steps(Value(front, base), DigitValue(s[n - 1]), Pow(base, n - 1), base);
      if n > 1 && s[0] != '0' {
        Over(Value(front, base), Pow(base, n - 2), base);
      }
    }
  }

  lemma Over(x: nat, y: nat, base: nat)
    requires x >= y
    ensures x * base >= y * base
  {
  }

  lemma SameParts(a: int, d: int, b: int, e: int, base: nat)
    requires 0 <= d < base && 0 <= e < base && a * base + d == b * base + e
    ensures a == b && d == e
  {
    if a < b {
      Apart(a, b, base);
    } else if b < a {
      Apart(b, a, base);
    }
  }

  lemma Apart(a: int, b: int, m: nat)
    requires a < b
    ensures a * m + m <= b * m
  {
    var k := b - a - 1;
    assert b * m == a * m + m + k * m;
  }

  lemma SameDigit(c: char, d: char, upper: bool)
    requires DigitValue(c) == DigitValue(d) >= 0 && !OtherCase(c, upper) && !OtherCase(d, upper)
    ensures c == d
  {
  }

  lemma {:induction false} SameLength(s: string, t: string, base: nat, upper: bool)
    requires base >= 2 && |s| == |t| && IsNumeral(s, base) && IsNumeral(t, base) && Value(s, base) == Value(t, base)
    requires forall i :: 0 <= i < |s| ==> !OtherCase(s[i], upper) && !OtherCase(t[i], upper)
    ensures s == t
    decreases |s|
  {
    hide OtherCase;
    hide DigitValue;
    var n := |s|;
    if n > 0 {
      SameParts(Value(s[..n - 1], base), DigitValue(s[n - 1]), Value(t[..n - 1], base), DigitValue(t[n - 1]), base);
      SameLength(s[..n - 1], t[..n - 1], base, upper);
      SameDigit(s[n - 1], t[n - 1], upper);
      assert s == s[..n - 1] + [s[n - 1]] && t == t[..n - 1] + [t[n - 1]];
    }
  }

  lemma NotShorter(s: string, t: string, v: nat, base: nat, upper: bool, least: nat)
    requires base >= 2 && Spells(s, v, base, upper, least) && Spells(t, v, base, upper, least)
    ensures |t| <= |s|
  {
    if |s| < |t| {
      ValueBounds(s, base);
      ValueBounds(t, base);
      PowGrows(base, |s|, |t| - 1);
    }
  }

  /** Number, base, case and least count leave one string of digits. */
  lemma SpellsOnce(s: string, t: string, v: nat, base: nat, upper: bool, least: nat)
    requires base >= 2 && Spells(s, v, base, upper, least) && Spells(t, v, base, upper, least)
    ensures s == t
  {
    NotShorter(s, t, v, base, upper, least);
    NotShorter(t, s, v, base, upper, least);
    SameLength(s, t, base, upper);
  }

  lemma ShowsOnce(t: string, u: string, lead: string, v: nat, base: nat, upper: bool, least: nat, width: int, left: bool)
    requires base >= 2 && Shows(t, lead, v, base, upper, least, width, left) && Shows(u, lead, v, base, upper, least, width, left)
    ensures t == u
  {
    hide Spells;
    hide Laid;
    var d :| Spells(d, v, base, upper, least) && Laid(t, lead + d, width, left);
    var e :| Spells(e, v, base, upper, least) && Laid(u, lead + e, width, left);
    SpellsOnce(d, e, v, base, upper, least);
    LaidOnce(t, u, lead + d, width, left);
  }

  // --------------------------------------------------------------- arguments

  /** How many bytes the type has that a length modifier names. */
  function Bytes(len: Length): nat {
    match len
    case Hh => 1
    case H => 2
    case NoLength => 4
    case BigL => 4
    case _ => 8
  }

  /** `value` is what is left of `v` in the integer type of a length modifier. */
  ghost predicate Narrowed(value: int, v: int, len: Length, signed: bool) {
    var m: int := Pow(256, Bytes(len));
    && (value - v) % m == 0
    && (if signed then -m <= 2 * value < m else 0 <= value < m)
  }

  lemma NarrowedOnce(a: int, b: int, v: int, len: Length, signed: bool)
    requires Narrowed(a, v, len, signed) && Narrowed(b, v, len, signed)
    ensures a == b
  {
    var m: int := Pow(256, Bytes(len));
    assert -m < a - b < m;
    Near(a - v, b - v, m);
  }

  lemma Near(x: int, y: int, m: int)
    requires m > 0 && x % m == 0 && y % m == 0 && -m < x - y < m
    ensures x == y
  {
    var i, j := x / m, y / m;
    if i < j {
      Apart(i, j, m);
    } else if j < i {
      Apart(j, i, m);
    }
  }
}
