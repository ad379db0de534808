/** Writing formats out as text, and that `vsnprintf` reads back exactly what was written. */
module FormatText {
  import opened Printf
  import opened Vsnprintf

  function FlagsText(f: Flags): string {
    (if f.left then "-" else "") + (if f.sign then "+" else "") + (if f.zero then "0" else "")
    + (if f.alt then "#" else "") + (if f.space then " " else "")
  }

  function WidthText(f: Spec): string {
    if f.width <= 0 then "" else Numeral(f.width, 10, false)
  }

  function PrecisionText(f: Spec): string {
    if f.prec < 0 then "" else "." + Numeral(f.prec, 10, false)
  }

  function ItemText(i: Item): string {
    match i
    case Lit(c) => [c]
    case Dir(f) => "%" + (FlagsText(f.flags) + (WidthText(f) + (PrecisionText(f) + (LengthText(f.len) + [f.conv]))))
    case Star => "%*"
  }

  /** A format, written out. */
  function Unparse(items: seq<Item>): string {
    if items == [] then "" else ItemText(items[0]) + Unparse(items[1..])
  }

  predicate IsConversion(c: char) {
    c in {'%', 'c', 's', 'd', 'i', 'u', 'o', 'x', 'X', 'p'}
  }

  /** A literal other than the percent sign, or a directive with a covered conversion. */
  predicate Plain(i: Item) {
    match i
    case Lit(c) => c != '%'
    case Dir(f) => (f.width == -1 || f.width >= 1) && f.prec >= -1 && IsConversion(f.conv)
    case Star => false
  }

  ghost predicate AllPlain(items: seq<Item>) {
    forall i :: 0 <= i < |items| ==> Plain(items[i])
  }

  // -------------------------------------------------------------------- runs

  /** What the parsing functions compute, in terms of the characters they pass. */
  lemma {:induction false} FlagsAre(fmt: string, p: nat, q: nat, f: Flags)
    requires FlagRun(fmt, p, q)
    ensures var g := FlagsOf(fmt[p..q]);
            FlagsAt(fmt, p, f) == (Flags(f.left || g.left, f.sign || g.sign, f.zero || g.zero, f.alt || g.alt, f.space || g.space), q)
    decreases q - p
  {
    if p < q {
      assert fmt[p..q] == [fmt[p]] + fmt[p + 1..q];
      FlagsAre(fmt, p + 1, q, WithFlag(f, fmt[p]));
    }
  }

  lemma {:induction false} NumberIs(fmt: string, start: nat, p: nat, q: nat, v: nat)
    requires start <= p && DigitRun(fmt, p, q) && v == Value(fmt[start..p], 10)
    ensures NumberAt(fmt, p, v) == (Value(fmt[start..q], 10), q)
    decreases q - p
  {
    if p < q {
      assert fmt[start..p + 1] == fmt[start..p] + [fmt[p]];
      ValuePush(fmt[start..p], fmt[p], 10);
      NumberIs(fmt, start, p + 1, q, v * 10 + DigitOf(fmt[p]));
    }
  }

  lemma FlagsTextRead(f: Flags)
    ensures FlagsOf(FlagsText(f)) == f && forall i :: 0 <= i < |FlagsText(f)| ==> IsFlag(FlagsText(f)[i])
  {
    var a, b := if f.left then "-" else "", if f.sign then "+" else "";
    var c, d := if f.zero then "0" else "", if f.alt then "#" else "";
    var e := if f.space then " " else "";
    var t := FlagsText(f);
    forall x: char ensures x in t <==> x in a || x in b || x in c || x in d || x in e {
      InBoth(a, b, x);
      InBoth(a + b, c, x);
      InBoth(a + b + c, d, x);
      InBoth(a + b + c + d, e, x);
    }
    forall i | 0 <= i < |t| ensures IsFlag(t[i]) {
      assert t[i] in t;
    }
  }

  lemma InBoth(s: string, t: string, x: char)
    ensures x in s + t <==> x in s || x in t
  {
  }

  /** Decimal digits, the first not 0 unless the number is. */
  lemma {:induction false} DecimalText(v: nat)
    ensures var s := Numeral(v, 10, false);
            (forall i :: 0 <= i < |s| ==> IsDigit(s[i])) && (v > 0 ==> s[0] != '0') && Value(s, 10) == v
    decreases v
  {
    NumeralReads(v, 10, false);
    var s := Numeral(v, 10, false);
    forall i | 0 <= i < |s| ensures IsDigit(s[i]) {
      assert 0 <= DigitValue(s[i]) < 10;
    }
    if v >= 10 {
      DecimalText(v / 10);
      assert s[0] == Numeral(v / 10, 10, false)[0];
    }
  }

  // ------------------------------------------------------------- directives

  /** Positions inside a text made of two parts. */
  lemma Parts(fmt: string, p: nat, s: string, t: string)
    requires p <= |fmt| && fmt[p..] == s + t
    ensures var q := p + |s|;
            && q <= |fmt| && fmt[p..q] == s && fmt[q..] == t
            && (forall i :: 0 <= i < |s| ==> fmt[p + i] == s[i])
            && (q < |fmt| <==> t != "") && (t != "" ==> fmt[q] == t[0])
  {
    var q := p + |s|;
    assert |fmt[p..]| == |fmt| - p;
    forall i | 0 <= i < |s| ensures fmt[p + i] == s[i] {
      assert fmt[p..][i] == s[i];
    }
    forall i | 0 <= i < |t| ensures fmt[q + i] == t[i] {
      assert fmt[p..][|s| + i] == t[i];
    }
  }

  lemma ReadLength(fmt: string, p: nat, f: Spec, rest: string)
    requires p <= |fmt| && fmt[p..] == LengthText(f.len) + ([f.conv] + rest) && IsConversion(f.conv)
    ensures LengthAt(fmt, p) == (f.len, p + |LengthText(f.len)|) && p + |LengthText(f.len)| < |fmt|
    ensures fmt[p + |LengthText(f.len)|] == f.conv && fmt[p + |LengthText(f.len)| + 1..] == rest
    ensures fmt[p] != '.' && fmt[p] != '*' && !IsDigit(fmt[p]) && !IsFlag(fmt[p])
  {
    var s, t := LengthText(f.len), [f.conv] + rest;
    Parts(fmt, p, s, t);
    Parts(fmt, p + |s|, [f.conv], rest);
    assert |s| > 0 ==> fmt[p + 0] == s[0];
    assert |s| > 1 ==> fmt[p + 1] == s[1];
    assert At(fmt, p + |s|) == f.conv;
  }

  lemma ReadPrecision(fmt: string, p: nat, f: Spec, rest: string)
    requires p <= |fmt| && fmt[p..] == PrecisionText(f) + (LengthText(f.len) + ([f.conv] + rest)) && Plain(Dir(f))
    ensures var q := p + |PrecisionText(f)|;
            && PrecisionAt(fmt, p) == (f.prec, q) && q <= |fmt| && fmt[q..] == LengthText(f.len) + ([f.conv] + rest)
            && p < |fmt| && !IsDigit(fmt[p]) && !IsFlag(fmt[p]) && fmt[p] != '*' && (fmt[p] == '.' ==> At(fmt, p + 1) != '*')
  {
    hide Value;
    hide Numeral;
    var s, t := PrecisionText(f), LengthText(f.len) + ([f.conv] + rest);
    Parts(fmt, p, s, t);
    var q := p + |s|;
    ReadLength(fmt, q, f, rest);
    if f.prec >= 0 {
      DecimalText(f.prec);
      assert s[1..] == Numeral(f.prec, 10, false) && fmt[p + 1..q] == s[1..];
      ValueEmpty(fmt, p + 1);
      forall i | p + 1 <= i < q ensures IsDigit(fmt[i]) {
        assert fmt[i] == s[i - p];
      }
      NumberIs(fmt, p + 1, p + 1, q, 0);
    }
  }

  lemma ValueEmpty(fmt: string, p: nat)
    requires p <= |fmt|
    ensures Value(fmt[p..p], 10) == 0
  {
  }

  lemma ReadWidth(fmt: string, p: nat, f: Spec, rest: string)
    requires p <= |fmt| && Plain(Dir(f))
    requires fmt[p..] == WidthText(f) + (PrecisionText(f) + (LengthText(f.len) + ([f.conv] + rest)))
    ensures var q := p + |WidthText(f)|;
            && WidthAt(fmt, p) == (f.width, q) && q <= |fmt|
            && fmt[q..] == PrecisionText(f) + (LengthText(f.len) + ([f.conv] + rest))
            && p < |fmt| && !IsFlag(fmt[p]) && fmt[p] != '*'
  {
    hide Value;
    hide Numeral;
    var s, t := WidthText(f), PrecisionText(f) + (LengthText(f.len) + ([f.conv] + rest));
    Parts(fmt, p, s, t);
    var q := p + |s|;
    ReadPrecision(fmt, q, f, rest);
    ValueEmpty(fmt, p);
    if f.width >= 1 {
      DecimalText(f.width);
      assert fmt[p] == s[0];
      forall i | p <= i < q ensures IsDigit(fmt[i]) {
        assert fmt[i] == s[i - p];
      }
    }
    NumberIs(fmt, p, p, q, 0);
  }

  /** A directive reads back. */
  lemma ReadDirective(fmt: string, p: nat, f: Spec, rest: string)
    requires p <= |fmt| && Plain(Dir(f))
    requires fmt[p..] == FlagsText(f.flags) + (WidthText(f) + (PrecisionText(f) + (LengthText(f.len) + ([f.conv] + rest))))
    ensures var d := DirectiveAt(fmt, p);
            d.0 == f && !d.1 && d.2 < |fmt| && fmt[d.2 + 1..] == rest
  {
    hide FlagsAt;
    hide NumberAt;
    hide LengthAt;
    hide WidthAt;
    hide PrecisionAt;
    hide FlagsOf;
    hide Value;
    hide Numeral;
    hide FlagsText;
    hide WidthText;
    hide PrecisionText;
    hide LengthText;
    var s, t := FlagsText(f.flags), WidthText(f) + (PrecisionText(f) + (LengthText(f.len) + ([f.conv] + rest)));
    Parts(fmt, p, s, t);
    var a := p + |s|;
    ReadWidth(fmt, a, f, rest);
    FlagsTextRead(f.flags);
    forall i | p <= i < a ensures IsFlag(fmt[i]) {
      assert fmt[i] == s[i - p];
    }
    FlagsAre(fmt, p, a, NO_FLAGS);
    assert FlagsAt(fmt, p, NO_FLAGS) == (f.flags, a);
    var b := a + |WidthText(f)|;
    ReadPrecision(fmt, b, f, rest);
    var c := b + |PrecisionText(f)|;
    ReadLength(fmt, c, f, rest);
  }

  lemma Flatten(f: Spec, rest: string)
    ensures ItemText(Dir(f)) + rest ==
            "%" + (FlagsText(f.flags) + (WidthText(f) + (PrecisionText(f) + (LengthText(f.len) + ([f.conv] + rest)))))
  {
    var l, c := LengthText(f.len), [f.conv];
    assert (l + c) + rest == l + (c + rest);
    var r := PrecisionText(f);
    assert (r + (l + c)) + rest == r + (l + (c + rest));
    var w := WidthText(f);
    assert (w + (r + (l + c))) + rest == w + (r + (l + (c + rest)));
    var g := FlagsText(f.flags);
    assert (g + (w + (r + (l + c)))) + rest == g + (w + (r + (l + (c + rest))));
  }

  lemma ReadLiteral(fmt: string, p: nat, item: Item, rest: string)
    requires p <= |fmt| && item.Lit? && Plain(item) && fmt[p..] == ItemText(item) + rest
    ensures p < |fmt| && fmt[p + 1..] == rest && ItemsAt(fmt, p) == [item] + ItemsAt(fmt, p + 1)
  {
    hide Plain;
    hide ItemText;
    LitText(item.c);
    Parts(fmt, p, [item.c], rest);
  }

  lemma ReadSpec(fmt: string, p: nat, item: Item, rest: string) returns (q: nat)
    requires p <= |fmt| && item.Dir? && Plain(item) && fmt[p..] == ItemText(item) + rest
    ensures p < q <= |fmt| && fmt[q..] == rest && ItemsAt(fmt, p) == [item] + ItemsAt(fmt, q)
  {
    hide Plain;
    hide ItemText;
    hide FlagsText;
    hide WidthText;
    hide PrecisionText;
    hide LengthText;
    hide IsConversion;
    hide ItemsAt;
    hide DirectiveAt;
    var f := item.spec;
    Flatten(f, rest);
    var body := FlagsText(f.flags) + (WidthText(f) + (PrecisionText(f) + (LengthText(f.len) + ([f.conv] + rest))));
    Parts(fmt, p, "%", body);
    ReadDirective(fmt, p + 1, f, rest);
    ItemsDirective(fmt, p);
    q := DirectiveAt(fmt, p + 1).2 + 1;
  }

  lemma ItemsDirective(fmt: string, p: nat)
    requires p < |fmt| && fmt[p] == '%' && !DirectiveAt(fmt, p + 1).1 && DirectiveAt(fmt, p + 1).2 < |fmt|
    ensures var d := DirectiveAt(fmt, p + 1); ItemsAt(fmt, p) == [Dir(d.0)] + ItemsAt(fmt, d.2 + 1)
  {
    hide DirectiveAt;
  }

  /** Every format written out reads back as the same pieces. */
  lemma {:induction false} FormatReads(items: seq<Item>, fmt: string, p: nat)
    requires AllPlain(items) && p <= |fmt| && fmt[p..] == Unparse(items)
    ensures ItemsAt(fmt, p) == items
    decreases |items|
  {
    hide Plain;
    hide ItemText;
    hide ItemsAt;
    if items != [] {
      var rest := Unparse(items[1..]);
      assert Plain(items[0]);
      PlainRest(items);
      var q: nat;
      if items[0].Lit? {
        ReadLiteral(fmt, p, items[0], rest);
        q := p + 1;
      } else {
        NotStar(items[0]);
        q := ReadSpec(fmt, p, items[0], rest);
      }
      FormatReads(items[1..], fmt, q);
    } else {
      AtEnd(fmt, p);
    }
  }

  lemma AtEnd(fmt: string, p: nat)
    requires p <= |fmt| && fmt[p..] == []
    ensures ItemsAt(fmt, p) == []
  {
  }

  lemma PlainRest(items: seq<Item>)
    requires AllPlain(items) && items != []
    ensures AllPlain(items[1..])
  {
  }

  lemma LitText(c: char)
    ensures ItemText(Lit(c)) == [c] && (Plain(Lit(c)) ==> c != '%')
  {
  }

  lemma NotStar(i: Item)
    requires Plain(i)
    ensures !i.Star?
  {
  }

  lemma PlainCovered(items: seq<Item>)
    requires AllPlain(items)
    ensures AllCovered(items)
  {
  }

  // ----------------------------------------------------------------------- NUL

  /** The pieces before a NUL among the literals. */
  function BeforeNul(items: seq<Item>): seq<Item> {
    if items == [] || items[0] == Lit('\0') then [] else [items[0]] + BeforeNul(items[1..])
  }

  lemma TextAppend(s: string, t: string)
    requires '\0' !in s
    ensures CText(s + t) == s + CText(t)
  {
    hide CText;
    var n := |s| + |CText(t)|;
    var u := s + t;
    assert u[..n] == s + CText(t);
    if n < |u| {
      assert u[n] == t[|CText(t)|];
    }
    SameText(u, n);
  }

  lemma NumeralNoNul(v: nat)
    ensures '\0' !in Numeral(v, 10, false)
  {
    hide Numeral;
    DecimalText(v);
  }

  lemma LengthNoNul(len: Length)
    ensures '\0' !in LengthText(len)
  {
  }

  /** A directive written out holds no NUL. */
  lemma DirectiveNoNul(f: Spec)
    requires Plain(Dir(f))
    ensures '\0' !in ItemText(Dir(f))
  {
    hide Numeral;
    hide LengthText;
    if f.width > 0 {
      NumeralNoNul(f.width);
    }
    if f.prec >= 0 {
      NumeralNoNul(f.prec);
    }
    LengthNoNul(f.len);
  }

  /** The format ends at its first NUL: what is read are the pieces before it. */
  lemma {:induction false} FormatEnds(items: seq<Item>)
    requires AllPlain(items)
    ensures CText(Unparse(items)) == Unparse(BeforeNul(items)) && AllPlain(BeforeNul(items))
  {
    hide Plain;
    hide ItemText;
    hide CText;
    if items == [] {
      NothingText();
    } else {
      var rest := Unparse(items[1..]);
      PlainRest(items);
      FormatEnds(items[1..]);
      assert Plain(items[0]);
      NotStar(items[0]);
      if items[0] == Lit('\0') {
        LitText('\0');
        NulFirst(rest);
      } else {
        var before := BeforeNul(items[1..]);
        assert ([items[0]] + before)[1..] == before;
        if items[0].Lit? {
          LitText(items[0].c);
        } else {
          DirectiveNoNul(items[0].spec);
        }
        TextAppend(ItemText(items[0]), rest);
      }
    }
  }

  lemma NothingText()
    ensures CText("") == ""
  {
  }

  lemma NulFirst(s: string)
    ensures CText("\0" + s) == ""
  {
  }

  /**
    `snprintf` of a format written out of pieces: the text of exactly those pieces, as far as the first
    NUL among them, cut to fit and terminated; its length is returned whatever the size of the buffer.
   */
  method Snprintf(dst: array<char>, n: nat, items: seq<Item>, args: seq<Arg>) returns (r: nat)
    requires n <= dst.Length && AllPlain(items)
    modifies dst
    ensures r == |Rendered(BeforeNul(items), args, 0)|
    ensures Stands(BeforeNul(items), args, 0, Rendered(BeforeNul(items), args, 0))
    ensures n >= 2 ==>
              var m := if r < n - 1 then r else n - 1;
              && dst[..m] == Rendered(BeforeNul(items), args, 0)[..m] && dst[m] == '\0'
              && forall i :: m < i < dst.Length ==> dst[i] == old(dst[i])
    ensures n < 2 ==> dst[..] == old(dst[..])
  {
    hide ItemsAt;
    hide Rendered;
    hide Unparse;
    hide AllCovered;
    hide AllPlain;
    hide CText;
    hide BeforeNul;
    hide Stands;
    ghost var read := BeforeNul(items);
    var fmt := Unparse(items);
    FormatEnds(items);
    assert Unparse(read)[0..] == Unparse(read);
    FormatReads(read, Unparse(read), 0);
    PlainCovered(read);
    r := Vsnprintf.Vsnprintf(dst, n, fmt, args);
  }
}
