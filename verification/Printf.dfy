/** Integer, character and string formatting of `rtprog/libc/snprintf.c`. */
module Printf {
  import opened Bits
  import opened Words


  // ------------------------------------------------------------------ output

  function Repeat(c: char, count: int): (s: string)
    ensures |s| == (if count < 0 then 0 else count) && forall i :: 0 <= i < |s| ==> s[i] == c
  {
    if count <= 0 then [] else Repeat(c, count - 1) + [c]
  }

  /** `out_t`: the buffer, how much of it may be used, and how much text there has been. */
  class Out {
    const buf: array<char>
    const cap: nat
    var len: nat

    // Everything put out so far, and what the buffer held at first.
    ghost var text: string
    ghost const was: string

    /** The buffer holds as much of the text as fits; nothing else in it has changed. */
    ghost predicate Valid()
      reads this, buf
    {
      && (cap > 0 ==> cap < buf.Length) && |was| == buf.Length && len == |text|
      && (forall i :: 0 <= i < buf.Length ==> buf[i] == if i < cap && i < len then text[i] else was[i])
    }

    /** `out_init`: one place is kept for the final NUL. */
    constructor (dst: array<char>, n: nat)
      requires n <= dst.Length
      ensures Valid() && text == "" && buf == dst && was == dst[..] && cap == (if n > 0 then n - 1 else 0)
    {
      buf := dst;
      cap := if n > 0 then n - 1 else 0;
      len, text, was := 0, "", dst[..];
    }

    /** `out_putc`. */
    method Putc(c: char)
      requires Valid()
      modifies this`len, this`text, buf
      ensures Valid() && text == old(text) + [c]
    {
      if len < cap {
        buf[len] := c;
      }
      len := len + 1;
      text := text + [c];
    }

    /** `out_write_n`. */
    method WriteN(s: string, n: nat)
      requires Valid() && n <= |s|
      modifies this`len, this`text, buf
      ensures Valid() && text == old(text) + s[..n]
    {
      for i := 0 to n
        invariant Valid() && text == old(text) + s[..i]
      {
        Putc(s[i]);
        assert s[..i + 1] == s[..i] + [s[i]];
      }
    }

    /** `pad`. */
    method Pad(c: char, count: int)
      requires Valid()
      modifies this`len, this`text, buf
      ensures Valid() && text == old(text) + Repeat(c, count)
    {
      var i := 0;
      while i < count
        invariant Valid() && 0 <= i && (i <= count || i == 0) && text == old(text) + Repeat(c, i)
      {
        Putc(c);
        i := i + 1;
      }
    }

    /** `out_terminate`: with room for one character and the NUL at least, the text is cut off and terminated. */
    method Terminate()
      requires Valid()
      modifies buf
      ensures len == |text|
      ensures cap > 0 ==> var m := if |text| < cap then |text| else cap; m < buf.Length && buf[..m] == text[..m] && buf[m] == '\0'
      ensures cap > 0 ==> forall i :: 0 <= i < buf.Length && i > (if |text| < cap then |text| else cap) ==> buf[i] == was[i]
      ensures cap == 0 ==> buf[..] == was
    {
      if cap > 0 {
        var at := if len < cap then len else cap;
        buf[at] := '\0';
      }
    }
  }

  // ------------------------------------------------------------------ digits

  const LOWER: string := "0123456789abcdef"
  const UPPER: string := "0123456789ABCDEF"

  function Digit(d: nat, upper: bool): char
    requires d < 16
  {
    if upper then UPPER[d] else LOWER[d]
  }

  /** The numeral of `v`, first digit first. */
  function Numeral(v: nat, base: nat, upper: bool): (s: string)
    requires 2 <= base <= 16
    ensures |s| > 0
    decreases v
  {
    if v < base then [Digit(v, upper)] else Numeral(v / base, base, upper) + [Digit(v % base, upper)]
  }

  function DigitValue(c: char): int {
    if '0' <= c <= '9' then c as int - '0' as int
    else if 'a' <= c <= 'f' then c as int - 'a' as int + 10
    else if 'A' <= c <= 'F' then c as int - 'A' as int + 10
    else -1
  }

  predicate IsNumeral(s: string, base: nat) {
    forall i :: 0 <= i < |s| ==> 0 <= DigitValue(s[i]) < base
  }

  /** The number a string of digits stands for. */
  function Value(s: string, base: nat): int {
    if s == "" then 0 else Value(s[..|s| - 1], base) * base + DigitValue(s[|s| - 1])
  }

  lemma DigitReads(d: nat, upper: bool)
    requires d < 16
    ensures DigitValue(Digit(d, upper)) == d
  {
  }

  lemma NumeralStep(v: nat, base: nat, upper: bool)
    requires 2 <= base <= 16
    ensures v < base ==> Numeral(v, base, upper) == [Digit(v, upper)]
    ensures v >= base ==> Numeral(v, base, upper) == Numeral(v / base, base, upper) + [Digit(v % base, upper)]
  {
  }

  lemma DivMod(v: nat, base: nat)
    requires base >= 2
    ensures v / base * base + v % base == v && (v > 0 ==> v / base < v)
  {
  }

  /** Numerals read back. */
  lemma {:induction false} NumeralReads(v: nat, base: nat, upper: bool)
    requires 2 <= base <= 16
    ensures IsNumeral(Numeral(v, base, upper), base) && Value(Numeral(v, base, upper), base) == v
    decreases v
  {
    hide Digit;
    hide DigitValue;
    hide Value;
    hide Numeral;
    NumeralStep(v, base, upper);
    if v < base {
      DigitReads(v, upper);
      ValueOne(Digit(v, upper), base);
    } else {
      DivMod(v, base);
      NumeralReads(v / base, base, upper);
      DigitReads(v % base, upper);
      ValuePush(Numeral(v / base, base, upper), Digit(v % base, upper), base);
    }
  }

  lemma ValueOne(c: char, base: nat)
    ensures Value([c], base) == DigitValue(c)
  {
  }

  lemma ValuePush(s: string, c: char, base: nat)
    ensures Value(s + [c], base) == Value(s, base) * base + DigitValue(c)
  {
    assert (s + [c])[..|s|] == s;
  }

  lemma {:induction false} LeadingZeros(n: nat, s: string, base: nat)
    requires base > 0
    ensures Value(Repeat('0', n) + s, base) == Value(s, base)
    ensures IsNumeral(s, base) ==> IsNumeral(Repeat('0', n) + s, base)
    decreases |s|, n
  {
    var z := Repeat('0', n);
    if s != "" {
      LeadingZeros(n, s[..|s| - 1], base);
      assert z + s == (z + s[..|s| - 1]) + [s[|s| - 1]];
      ValuePush(z + s[..|s| - 1], s[|s| - 1], base);
    } else if n > 0 {
      LeadingZeros(n - 1, "", base);
      assert z + "" == (Repeat('0', n - 1) + "") + ['0'];
      ValuePush(Repeat('0', n - 1) + "", '0', base);
    } else {
      assert z + s == s;
    }
  }

  ghost predicate Reversed(a: string, b: string) {
    |a| == |b| && forall i :: 0 <= i < |a| ==> a[i] == b[|b| - 1 - i]
  }

  /** `utoa_rev`: the numeral in reverse, never more than 22 of the 64 places. */
  method UtoaRev(tmp: array<char>, v: nat, base: nat, upper: bool) returns (n: nat)
    requires tmp.Length == 64 && v < U64 && (base == 8 || base == 10 || base == 16)
    modifies tmp
    ensures 1 <= n <= 22 && Reversed(tmp[..n], Numeral(v, base, upper))
  {
    hide Pow2;
    hide Numeral;
    hide Digit;
    hide Reversed;
    hide Front;
    n := 0;
    if v == 0 {
      tmp[n] := '0';
      n := n + 1;
      NumeralStep(v, base, upper);
      DigitZero(upper);
      assert tmp[..n] == "0";
      ReversedPush("", "", '0');
      return;
    }
    var rest: nat := v;
    ghost var back := "";
    FrontIs(v, base, upper);
    SixtySixBits();
    ReversedPush("", "", '0');
    assert tmp[..n] == "";
    while rest > 0
      invariant n <= 22 && rest < Pow2(66 - 3 * n) && (n == 0 ==> rest == v)
      invariant Numeral(v, base, upper) == Front(rest, base, upper) + back
      invariant Reversed(tmp[..n], back)
      decreases rest
    {
      NotYetFull(rest, n);
      FrontStep(rest, base, upper, back);
      EighthFits(rest, base, 66 - 3 * n);
      var d := rest % base;
      rest := rest / base;
      ReversedPush(tmp[..n], back, Digit(d, upper));
      tmp[n] := Digit(d, upper);
      n := n + 1;
      assert tmp[..n] == tmp[..n - 1] + [Digit(d, upper)];
      back := [Digit(d, upper)] + back;
    }
    FrontIs(0, base, upper);
    assert Front(rest, base, upper) + back == back;
  }

  /** The digits still to be written. */
  ghost function Front(rest: nat, base: nat, upper: bool): string
    requires 2 <= base <= 16
  {
    if rest > 0 then Numeral(rest, base, upper) else ""
  }

  lemma FrontIs(v: nat, base: nat, upper: bool)
    requires 2 <= base <= 16
    ensures v > 0 ==> Front(v, base, upper) + "" == Numeral(v, base, upper)
    ensures Front(0, base, upper) == ""
  {
  }

  lemma FrontStep(rest: nat, base: nat, upper: bool, back: string)
    requires 2 <= base <= 16 && rest > 0
    ensures rest / base < rest && rest % base < base
    ensures Front(rest, base, upper) + back == Front(rest / base, base, upper) + ([Digit(rest % base, upper)] + back)
  {
    hide Numeral;
    hide Digit;
    NumeralStep(rest, base, upper);
    DivMod(rest, base);
    if rest < base {
      SmallDiv(rest, base);
    }
  }

  lemma SmallDiv(v: nat, base: nat)
    requires v < base
    ensures v / base == 0 && v % base == v
  {
  }

  lemma ReversedPush(a: string, b: string, c: char)
    ensures Reversed("", "") && (Reversed(a, b) ==> Reversed(a + [c], [c] + b))
    ensures a == b == "" ==> Reversed([c], [c])
  {
  }

  lemma DigitZero(upper: bool)
    ensures Digit(0, upper) == '0'
  {
  }

  lemma NotYetFull(rest: nat, n: nat)
    requires n <= 22 && 0 < rest < Pow2(66 - 3 * n)
    ensures n < 22
  {
    Pow2Zero();
  }

  lemma SixtySixBits()
    ensures U64 <= Pow2(66)
  {
    hide Pow2;
    SixteenBits();
    Pow2Sum(16, 16);
    Pow2Sum(32, 32);
    Pow2Sum(64, 2);
  }

  lemma SixteenBits()
    ensures Pow2(16) == 0x1_0000 && Pow2(2) == 4
  {
  }

  lemma EighthFits(v: nat, base: nat, k: nat)
    requires k >= 3 && v < Pow2(k) && base >= 8
    ensures v / base < Pow2(k - 3)
  {
    hide Pow2;
    Pow2Step(k);
    Pow2Step(k - 1);
    Pow2Step(k - 2);
    EightTimes(v, base);
  }

  lemma EightTimes(v: nat, base: nat)
    requires base >= 8
    ensures v / base * 8 <= v
  {
    var q := v / base;
    assert v == q * base + v % base;
    assert q * base == q * 8 + q * (base - 8);
  }

  // ---------------------------------------------------------------- integers

  datatype Flags = Flags(left: bool, sign: bool, zero: bool, alt: bool, space: bool)

  datatype Length = NoLength | Hh | H | L | Ll | J | Z | T | BigL

  /** `fmt_t`: a width or precision of -1 is not set. */
  datatype Spec = Spec(flags: Flags, width: int, prec: int, len: Length, conv: char)

  function Max(x: int, y: int): int {
    if x < y then y else x
  }

  function Sign(f: Spec, neg: bool): string {
    if neg then "-" else if f.flags.sign then "+" else if f.flags.space then " " else ""
  }

  function Prefix(f: Spec, u: nat, base: nat, upper: bool): string {
    if !f.flags.alt || u == 0 then ""
    else if base == 8 then "0"
    else if base == 16 then (if upper then "0X" else "0x")
    else ""
  }

  function Digits(f: Spec, u: nat, base: nat, upper: bool): string
    requires 2 <= base <= 16
  {
    if f.prec == 0 && u == 0 then "" else Numeral(u, base, upper)
  }

  /** How many zeros go before `n` digits after a sign and prefix of `m` characters. */
  function Zeros(f: Spec, n: nat, m: nat): nat {
    if f.prec >= 0 then Max(0, f.prec - n)
    else if f.flags.zero && !f.flags.left && f.width > 0 then Max(0, f.width - (n + m))
    else 0
  }

  /** Sign, prefix, zeros and digits. */
  function Body(f: Spec, u: nat, neg: bool, base: nat, upper: bool): string
    requires 2 <= base <= 16
  {
    var lead, digits := Sign(f, neg) + Prefix(f, u, base, upper), Digits(f, u, base, upper);
    lead + (Repeat('0', Zeros(f, |digits|, |lead|)) + digits)
  }

  /** A text padded with spaces to the width, on the left or, when asked, on the right. */
  function Padded(f: Spec, s: string): string {
    if f.flags.left then s + Repeat(' ', f.width - |s|) else Repeat(' ', f.width - |s|) + s
  }

  function IntText(f: Spec, u: nat, neg: bool, base: nat, upper: bool): string
    requires 2 <= base <= 16
  {
    Padded(f, Body(f, u, neg, base, upper))
  }

  /** The digits of `emit_int`, which `utoa_rev` left in reverse. */
  method EmitDigits(o: Out, tmp: array<char>, n: nat, ghost digits: string)
    requires o.Valid() && tmp != o.buf && n <= tmp.Length && Reversed(tmp[..n], digits)
    modifies o`len, o`text, o.buf
    ensures o.Valid() && o.text == old(o.text) + digits
  {
    hide Out.Valid;
    assert digits[..0] == "";
    for i := 0 to n
      invariant o.Valid() && o.text == old(o.text) + digits[..i]
    {
      assert tmp[..n][n - 1 - i] == digits[i];
      o.Putc(tmp[n - 1 - i]);
      assert digits[..i + 1] == digits[..i] + [digits[i]];
    }
    assert digits[..n] == digits;
  }

  /** `emit_int`. */
  method EmitInt(o: Out, f: Spec, u: nat, neg: bool, base: nat, upper: bool)
    requires o.Valid() && u < U64 && (base == 8 || base == 10 || base == 16)
    modifies o`len, o`text, o.buf
    ensures o.Valid() && o.text == old(o.text) + IntText(f, u, neg, base, upper)
  {
    hide Numeral;
    hide Repeat;
    hide Body;
    hide Sign;
    hide Prefix;
    hide Zeros;
    hide Out.Valid;
    var tmp := new char[64];
    var ndig := UtoaRev(tmp, u, base, upper);
    if f.prec == 0 && u == 0 {
      ndig := 0;
    }
    ghost var digits, was := Digits(f, u, base, upper), o.text;
    assert Reversed(tmp[..ndig], digits);
    var sign, pre := Sign(f, neg), Prefix(f, u, base, upper);
    var zeros := Zeros(f, ndig, |pre| + |sign|);
    var total := ndig + zeros + |pre| + |sign|;
    var padLen := if f.width > total then f.width - total else 0;
    BodyIs(f, u, neg, base, upper);
    PadSame(f.width - total);
    if !f.flags.left {
      o.Pad(' ', padLen);
    }
    ghost var front := o.text;
    o.WriteN(sign, |sign|);
    o.WriteN(pre, |pre|);
    o.Pad('0', zeros);
    EmitDigits(o, tmp, ndig, digits);
    FiveParts(front, sign, pre, Repeat('0', zeros), digits);
    if f.flags.left {
      o.Pad(' ', padLen);
      TwoParts(was, Body(f, u, neg, base, upper), Repeat(' ', padLen));
    } else {
      TwoParts(was, Repeat(' ', padLen), Body(f, u, neg, base, upper));
    }
  }

  lemma BodyIs(f: Spec, u: nat, neg: bool, base: nat, upper: bool)
    requires 2 <= base <= 16
    ensures var sign, pre, digits := Sign(f, neg), Prefix(f, u, base, upper), Digits(f, u, base, upper);
            var zeros := Zeros(f, |digits|, |pre| + |sign|);
            && Body(f, u, neg, base, upper) == sign + pre + (Repeat('0', zeros) + digits)
            && |Body(f, u, neg, base, upper)| == |digits| + zeros + |pre| + |sign|
  {
    hide Numeral;
    hide Sign;
    hide Prefix;
    hide Zeros;
  }

  lemma FiveParts(a: string, b: string, c: string, d: string, e: string)
    ensures a + b[..|b|] + c[..|c|] + d + e == a + (b + c + (d + e))
  {
  }

  lemma TwoParts(a: string, b: string, c: string)
    ensures a + b + c == a + (b + c)
  {
  }

  lemma PadSame(n: int)
    ensures Repeat(' ', Max(0, n)) == Repeat(' ', n)
  {
  }

  /** How long a formatted integer is. */
  lemma IntLength(f: Spec, u: nat, neg: bool, base: nat, upper: bool)
    requires 2 <= base <= 16
    ensures |IntText(f, u, neg, base, upper)| ==
            Max(f.width, |Sign(f, neg)| + |Prefix(f, u, base, upper)| + Max(|Digits(f, u, base, upper)|, f.prec))
  {
    hide Numeral;
  }

  // ----------------------------------------------------------------- reading

  function AfterSpaces(s: string): string {
    if s != "" && s[0] == ' ' then AfterSpaces(s[1..]) else s
  }

  function LeadingDigits(s: string, base: nat): string {
    if s != "" && 0 <= DigitValue(s[0]) < base then [s[0]] + LeadingDigits(s[1..], base) else ""
  }

  function AfterPrefix(s: string, base: nat): string {
    if base == 16 && |s| >= 2 && s[0] == '0' && (s[1] == 'x' || s[1] == 'X') then s[2..] else s
  }

  /** Read an integer the way the standard library's `strtoull` does: is there a minus sign, and the magnitude. */
  function Scan(s: string, base: nat): (bool, int) {
    var t := AfterSpaces(s);
    var neg := t != "" && t[0] == '-';
    var rest := if t != "" && (t[0] == '-' || t[0] == '+') then t[1..] else t;
    (neg, Value(LeadingDigits(AfterPrefix(rest, base), base), base))
  }

  lemma {:induction false} SkipSpaces(n: int, s: string)
    ensures AfterSpaces(Repeat(' ', n) + s) == AfterSpaces(s)
    decreases n
  {
    hide AfterSpaces;
    if n <= 0 {
      assert Repeat(' ', n) + s == s;
    } else {
      SkipSpaces(n - 1, s);
      RepeatFront(' ', n);
      var rest := Repeat(' ', n - 1) + s;
      assert Repeat(' ', n) + s == [' '] + rest;
      SpaceInFront(rest);
    }
  }

  lemma SpaceInFront(s: string)
    ensures AfterSpaces([' '] + s) == AfterSpaces(s)
  {
    assert ([' '] + s)[1..] == s;
  }

  lemma RepeatFront(c: char, n: nat)
    requires n > 0
    ensures Repeat(c, n) == [c] + Repeat(c, n - 1)
  {
  }

  /** Digits are read up to the end or to padding. */
  lemma {:induction false} ReadDigits(s: string, n: int, base: nat)
    requires IsNumeral(s, base)
    ensures LeadingDigits(s + Repeat(' ', n), base) == s
    decreases |s|
  {
    if s == "" {
      assert s + Repeat(' ', n) == Repeat(' ', n);
    } else {
      ReadDigits(s[1..], n, base);
      assert (s + Repeat(' ', n))[1..] == s[1..] + Repeat(' ', n);
    }
  }

  lemma ReadHex(pre: string, num: string, n: int)
    requires |pre| == 2 && pre[0] == '0' && (pre[1] == 'x' || pre[1] == 'X') && IsNumeral(num, 16)
    ensures LeadingDigits(AfterPrefix(pre + num + Repeat(' ', n), 16), 16) == num
  {
    hide LeadingDigits;
    var tail := Repeat(' ', n);
    assert (pre + num + tail)[2..] == num + tail;
    ReadDigits(num, n, 16);
  }

  lemma ReadPlain(num: string, n: int, base: nat)
    requires IsNumeral(num, base) && base <= 16
    ensures LeadingDigits(AfterPrefix(num + Repeat(' ', n), base), base) == num
  {
    hide LeadingDigits;
    NotAPrefix(num, Repeat(' ', n), base);
    ReadDigits(num, n, base);
  }

  lemma NotAPrefix(s: string, tail: string, base: nat)
    requires IsNumeral(s, base) && forall i :: 0 <= i < |tail| ==> tail[i] == ' '
    ensures AfterPrefix(s + tail, base) == s + tail
  {
    if |s + tail| >= 2 {
      assert (s + tail)[1] == (if |s| >= 2 then s[1] else tail[1 - |s|]);
      if |s| >= 2 {
        assert 0 <= DigitValue(s[1]);
      }
    }
  }

  /** Zeros and digits, after a prefix or none, read as the value. */
  lemma ReadPrefixed(f: Spec, u: nat, base: nat, upper: bool, zeros: nat, n: int)
    requires base == 8 || base == 10 || base == 16
    ensures var s := Prefix(f, u, base, upper) + (Repeat('0', zeros) + Digits(f, u, base, upper)) + Repeat(' ', n);
            Value(LeadingDigits(AfterPrefix(s, base), base), base) == u
  {
    hide Digits;
    hide Value;
    hide LeadingDigits;
    hide AfterPrefix;
    hide IsNumeral;
    hide Repeat;
    var digits := Digits(f, u, base, upper);
    var num := Repeat('0', zeros) + digits;
    DigitsRead(f, u, base, upper);
    LeadingZeros(zeros, digits, base);
    var pre := Prefix(f, u, base, upper);
    if |pre| == 2 {
      ReadHex(pre, num, n);
    } else if |pre| == 1 {
      LeadingZeros(1, num, base);
      OneZero();
      ReadPlain("0" + num, n, base);
    } else {
      assert pre + num == num;
      ReadPlain(num, n, base);
    }
  }

  lemma OneZero()
    ensures Repeat('0', 1) == "0"
  {
  }

  lemma DigitsRead(f: Spec, u: nat, base: nat, upper: bool)
    requires base == 8 || base == 10 || base == 16
    ensures var s := Digits(f, u, base, upper); IsNumeral(s, base) && Value(s, base) == u
  {
    NumeralReads(u, base, upper);
  }

  lemma ScanSpaces(n: int, s: string, base: nat)
    ensures Scan(Repeat(' ', n) + s, base) == Scan(s, base)
  {
    hide AfterSpaces;
    SkipSpaces(n, s);
  }

  lemma Regroup(sign: string, pre: string, num: string, tail: string)
    ensures sign + pre + num + tail == sign + (pre + num + tail)
  {
  }

  /** A formatted integer reads back, whatever the flags, width and precision. */
  lemma IntReads(f: Spec, u: nat, neg: bool, base: nat, upper: bool)
    requires base == 8 || base == 10 || base == 16
    ensures Scan(IntText(f, u, neg, base, upper), base) == (neg, u)
  {
    hide Numeral;
    hide Digits;
    hide Prefix;
    hide Zeros;
    hide Repeat;
    hide Body;
    hide Scan;
    BodyIs(f, u, neg, base, upper);
    var sign, body := Sign(f, neg), Body(f, u, neg, base, upper);
    var pre, digits := Prefix(f, u, base, upper), Digits(f, u, base, upper);
    var zeros := Zeros(f, |digits|, |pre| + |sign|);
    var k := f.width - |body|;
    var num := Repeat('0', zeros) + digits;
    if f.flags.left {
      Regroup(sign, pre, num, Repeat(' ', k));
      ScanBody(f, u, neg, base, upper, zeros, k);
    } else {
      ScanSpaces(k, body, base);
      RepeatNone(' ');
      Regroup(sign, pre, num, "");
      assert body == sign + pre + num + "";
      ScanBody(f, u, neg, base, upper, zeros, 0);
    }
  }

  lemma ScanBody(f: Spec, u: nat, neg: bool, base: nat, upper: bool, zeros: nat, n: int)
    requires base == 8 || base == 10 || base == 16
    ensures var core := Prefix(f, u, base, upper) + (Repeat('0', zeros) + Digits(f, u, base, upper)) + Repeat(' ', n);
            Scan(Sign(f, neg) + core, base) == (neg, u)
  {
    hide Digits;
    hide Prefix;
    hide Repeat;
    hide Scan;
    hide AfterSpaces;
    hide LeadingDigits;
    hide AfterPrefix;
    hide Value;
    hide DigitValue;
    ReadPrefixed(f, u, base, upper, zeros, n);
    CoreStart(f, u, base, upper, zeros, n);
    ScanSigned(Sign(f, neg), Prefix(f, u, base, upper) + (Repeat('0', zeros) + Digits(f, u, base, upper)) + Repeat(' ', n), base);
  }

  lemma RepeatNone(c: char)
    ensures Repeat(c, 0) == ""
  {
  }

  /** What follows the sign starts with a digit, or is blank and stands for zero. */
  lemma CoreStart(f: Spec, u: nat, base: nat, upper: bool, zeros: nat, n: int)
    requires base == 8 || base == 10 || base == 16
    ensures var s := Prefix(f, u, base, upper) + (Repeat('0', zeros) + Digits(f, u, base, upper)) + Repeat(' ', n);
            if s != "" && 0 <= DigitValue(s[0]) then true else AfterSpaces(s) == "" && u == 0
  {
    hide Numeral;
    hide AfterSpaces;
    var pre, digits := Prefix(f, u, base, upper), Digits(f, u, base, upper);
    var num := Repeat('0', zeros) + digits;
    DigitsRead(f, u, base, upper);
    LeadingZeros(zeros, digits, base);
    if pre == "" && num == "" {
      assert pre + num + Repeat(' ', n) == Repeat(' ', n) + "";
      SkipSpaces(n, "");
      NoSpaces("");
    } else {
      var s := pre + num + Repeat(' ', n);
      assert s[0] == (if pre != "" then pre[0] else num[0]);
    }
  }

  lemma NoSpaces(s: string)
    requires s == "" || s[0] != ' '
    ensures AfterSpaces(s) == s
  {
  }

  lemma OneSpace(s: string)
    ensures AfterSpaces(" " + s) == AfterSpaces(s)
  {
    assert (" " + s)[1..] == s;
  }

  lemma ScanSigned(sign: string, core: string, base: nat)
    requires sign == "-" || sign == "+" || sign == " " || sign == ""
    requires if core != "" && 0 <= DigitValue(core[0]) then true
             else AfterSpaces(core) == "" && Value(LeadingDigits(AfterPrefix(core, base), base), base) == 0
    ensures Scan(sign + core, base) == (sign == "-", Value(LeadingDigits(AfterPrefix(core, base), base), base))
  {
    hide LeadingDigits;
    hide AfterPrefix;
    hide AfterSpaces;
    hide Value;
    if sign == "-" || sign == "+" {
      NoSpaces(sign + core);
      assert (sign + core)[1..] == core;
    } else {
      if sign == " " {
        OneSpace(core);
      } else {
        assert sign + core == core;
      }
      if core != "" && 0 <= DigitValue(core[0]) {
        NoSpaces(core);
      } else {
        EmptyReads(base);
      }
    }
  }

  lemma EmptyReads(base: nat)
    ensures Value(LeadingDigits(AfterPrefix("", base), base), base) == 0
  {
  }
}
