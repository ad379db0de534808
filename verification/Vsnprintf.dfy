/**
  `vsnprintf` of `rtprog/libc/snprintf.c` for formats made of literal characters and the
  conversions %, c, s, d, i, u, o, x, X and p: what text a format stands for, and that the
  buffer receives as much of it as fits.
 */
module Vsnprintf {
  import opened Conversions
  import opened Printf
  import opened Words

  /** An argument: an integer, or a string that may be NULL. */
  datatype Arg = Int(v: int) | Str(s: string) | Null

  /** A piece of a format. */
  datatype Item = Lit(c: char) | Dir(spec: Spec) | Star

  // ------------------------------------------------------------------ strings

  /** The text of a C string: what comes before its NUL. */
  function CText(s: string): (t: string)
    ensures |t| <= |s| && t == s[..|t|] && '\0' !in t && (|t| < |s| ==> s[|t|] == '\0')
  {
    if s == [] || s[0] == '\0' then [] else [s[0]] + CText(s[1..])
  }

  /** `cstr_len`, on memory that holds the string. */
  method CStrLen(s: string) returns (n: nat)
    ensures n <= |s| && s[..n] == CText(s)
  {
    n := 0;
    while n < |s| && s[n] != '\0'
      invariant n <= |s| && '\0' !in s[..n]
    {
      assert s[..n + 1] == s[..n] + [s[n]];
      n := n + 1;
    }
    SameText(s, n);
  }

  lemma SameText(s: string, n: nat)
    requires n <= |s| && '\0' !in s[..n] && (n < |s| ==> s[n] == '\0')
    ensures s[..n] == CText(s)
  {
    var t := CText(s);
    assert forall i :: 0 <= i < n ==> s[i] == s[..n][i];
    assert forall i :: 0 <= i < |t| ==> s[i] == t[i];
  }

  // ----------------------------------------------------------------- parsing

  function At(fmt: string, p: nat): char {
    if p < |fmt| then fmt[p] else '\0'
  }

  predicate IsDigit(c: char) {
    '0' <= c <= '9'
  }

  const NO_FLAGS := Flags(false, false, false, false, false)

  function WithFlag(f: Flags, c: char): Flags {
    match c
    case '-' => f.(left := true)
    case '+' => f.(sign := true)
    case '0' => f.(zero := true)
    case '#' => f.(alt := true)
    case ' ' => f.(space := true)
    case _ => f
  }

  predicate IsFlag(c: char) {
    c == '-' || c == '+' || c == '0' || c == '#' || c == ' '
  }

  function FlagsAt(fmt: string, p: nat, f: Flags): (Flags, nat)
    requires p <= |fmt|
    ensures p <= FlagsAt(fmt, p, f).1 <= |fmt|
    decreases |fmt| - p
  {
    if p < |fmt| && IsFlag(fmt[p]) then FlagsAt(fmt, p + 1, WithFlag(f, fmt[p])) else (f, p)
  }

  function NumberAt(fmt: string, p: nat, v: nat): (nat, nat)
    requires p <= |fmt|
    ensures p <= NumberAt(fmt, p, v).1 <= |fmt|
    decreases |fmt| - p
  {
    if p < |fmt| && IsDigit(fmt[p]) then NumberAt(fmt, p + 1, v * 10 + DigitOf(fmt[p])) else (v, p)
  }

  function DigitOf(c: char): nat {
    if IsDigit(c) then c as int - '0' as int else 0
  }

  /** A width: digits, or not set. */
  function WidthAt(fmt: string, p: nat): (int, nat)
    requires p <= |fmt|
    ensures p <= WidthAt(fmt, p).1 <= |fmt|
  {
    var n := NumberAt(fmt, p, 0);
    (if n.1 > p then n.0 else -1, n.1)
  }

  /** A precision: after a dot, digits or nothing for 0; or not set. */
  function PrecisionAt(fmt: string, p: nat): (int, nat)
    requires p <= |fmt|
    ensures p <= PrecisionAt(fmt, p).1 <= |fmt|
  {
    if At(fmt, p) == '.' && p < |fmt| then NumberAt(fmt, p + 1, 0) else (-1, p)
  }

  function LengthAt(fmt: string, p: nat): (Length, nat)
    requires p <= |fmt|
    ensures p <= LengthAt(fmt, p).1 <= |fmt|
  {
    if p >= |fmt| then (NoLength, p)
    else if fmt[p] == 'h' && At(fmt, p + 1) == 'h' then (Hh, p + 2)
    else if fmt[p] == 'h' then (H, p + 1)
    else if fmt[p] == 'l' && At(fmt, p + 1) == 'l' then (Ll, p + 2)
    else if fmt[p] == 'l' then (L, p + 1)
    else if fmt[p] == 'j' then (J, p + 1)
    else if fmt[p] == 'z' then (Z, p + 1)
    else if fmt[p] == 't' then (T, p + 1)
    else if fmt[p] == 'L' then (BigL, p + 1)
    else (NoLength, p)
  }

  /** The directive after a percent sign, up to its conversion character; a `*` is not read. */
  function DirectiveAt(fmt: string, p: nat): (Spec, bool, nat)
    requires p <= |fmt|
    ensures p <= DirectiveAt(fmt, p).2 <= |fmt|
  {
    var f := FlagsAt(fmt, p, NO_FLAGS);
    var w := WidthAt(fmt, f.1);
    var c := PrecisionAt(fmt, w.1);
    var l := LengthAt(fmt, c.1);
    var star := At(fmt, f.1) == '*' || (At(fmt, w.1) == '.' && At(fmt, w.1 + 1) == '*');
    (Spec(f.0, w.0, c.0, l.0, At(fmt, l.1)), star, l.1)
  }

  /** The pieces of a format from `p` on; a directive cut short by the end of the format is dropped. */
  function ItemsAt(fmt: string, p: nat): seq<Item>
    requires p <= |fmt|
    decreases |fmt| - p
  {
    if p == |fmt| then []
    else if fmt[p] != '%' then [Lit(fmt[p])] + ItemsAt(fmt, p + 1)
    else
      var d := DirectiveAt(fmt, p + 1);
      if d.1 then [Star]
      else if d.2 == |fmt| then []
      else [Dir(d.0)] + ItemsAt(fmt, d.2 + 1)
  }

  /** A piece this model covers: no `*`, no floating point, no `%n`. */
  predicate Covered(i: Item) {
    match i
    case Lit(_) => true
    case Dir(spec) => spec.conv !in {'f', 'F', 'e', 'E', 'g', 'G', 'n'}
    case Star => false
  }

  ghost predicate AllCovered(items: seq<Item>) {
    forall i :: i in items ==> Covered(i)
  }

  // --------------------------------------------------------------- rendering

  function BitsOf(len: Length): nat {
    match len
    case Hh => 0x100
    case H => 0x1_0000
    case NoLength => 0x1_0000_0000
    case BigL => 0x1_0000_0000
    case _ => 0x1_0000_0000_0000_0000
  }

  /** An integer argument converted to its type: unsigned, or two's complement signed. */
  function Unsigned(v: int, len: Length): (u: nat)
    ensures u < U64
  {
    v % BitsOf(len)
  }

  function Signed(v: int, len: Length): (r: int)
    ensures -0x8000_0000_0000_0000 <= r < 0x8000_0000_0000_0000
  {
    var u := v % BitsOf(len);
    if u < BitsOf(len) / 2 then u else u - BitsOf(len)
  }

  function ArgAt(args: seq<Arg>, k: nat): Arg {
    if k < |args| then args[k] else Int(0)
  }

  function IntArg(args: seq<Arg>, k: nat): int {
    if ArgAt(args, k).Int? then ArgAt(args, k).v else 0
  }

  function StrArg(args: seq<Arg>, k: nat): string {
    if ArgAt(args, k).Str? then CText(ArgAt(args, k).s) else "(null)"
  }

  function Magnitude(v: int): nat {
    if v < 0 then -v else v
  }

  /** A precision switches zero padding off. */
  function Adjusted(f: Spec): Spec {
    if f.prec >= 0 then f.(flags := f.flags.(zero := false)) else f
  }

  function PointerSpec(f: Spec): Spec {
    f.(flags := f.flags.(alt := true, sign := false, space := false), prec := 16)
  }

  function Cut(f: Spec, s: string): string {
    if 0 <= f.prec < |s| then s[..f.prec] else s
  }

  predicate TakesArg(f: Spec) {
    f.conv in {'c', 's', 'd', 'i', 'u', 'o', 'x', 'X', 'p'}
  }

  /** The text of one directive. */
  function Converted(f: Spec, args: seq<Arg>, k: nat): string {
    var v := IntArg(args, k);
    match f.conv
    case '%' => "%"
    case 'c' => Padded(f, [(v % 256) as char])
    case 's' => Padded(f, Cut(f, StrArg(args, k)))
    case 'd' => IntText(Adjusted(f), Magnitude(Signed(v, f.len)), Signed(v, f.len) < 0, 10, false)
    case 'i' => IntText(Adjusted(f), Magnitude(Signed(v, f.len)), Signed(v, f.len) < 0, 10, false)
    case 'u' => IntText(Adjusted(f), Unsigned(v, f.len), false, 10, false)
    case 'o' => IntText(Adjusted(f), Unsigned(v, f.len), false, 8, false)
    case 'x' => IntText(Adjusted(f), Unsigned(v, f.len), false, 16, false)
    case 'X' => IntText(Adjusted(f), Unsigned(v, f.len), false, 16, true)
    case 'p' => IntText(PointerSpec(f), Unsigned(v, Ll), false, 16, false)
    case _ => "%" + [f.conv]
  }

  /** The whole text a format stands for, whatever the size of the buffer. */
  function Rendered(items: seq<Item>, args: seq<Arg>, k: nat): string
    decreases |items|
  {
    if items == [] then ""
    else match items[0]
      case Lit(c) => [c] + Rendered(items[1..], args, k)
      case Dir(f) => Converted(f, args, k) + Rendered(items[1..], args, if TakesArg(f) then k + 1 else k)
      case Star => ""
  }

  lemma RenderedHead(item: Item, rest: seq<Item>, args: seq<Arg>, k: nat)
    ensures item.Lit? ==> Rendered([item] + rest, args, k) == [item.c] + Rendered(rest, args, k)
    ensures item.Dir? ==> Rendered([item] + rest, args, k) ==
                          Converted(item.spec, args, k) + Rendered(rest, args, if TakesArg(item.spec) then k + 1 else k)
  {
    assert ([item] + rest)[1..] == rest;
  }

  // ----------------------------------------------------------------- meaning

  function BaseOf(conv: char): nat {
    match conv
    case 'o' => 8
    case 'x' => 16
    case 'X' => 16
    case 'p' => 16
    case _ => 10
  }

  ghost predicate IsInt(f: Spec) {
    f.conv in {'d', 'i', 'u', 'o', 'x', 'X', 'p'}
  }

  /** What stands before the digits of `value`; `%p` has no sign and always asks for `0x`. */
  ghost function Lead(f: Spec, value: int): string {
    var pointer := f.conv == 'p';
    (if value < 0 then "-" else if pointer then "" else if f.flags.sign then "+" else if f.flags.space then " " else "")
    + (if value == 0 || !(pointer || f.flags.alt) then ""
       else if f.conv == 'o' then "0"
       else if f.conv == 'X' then "0X"
       else if f.conv == 'x' || pointer then "0x"
       else "")
  }

  /** `t` shows an integer as `f` asks: the sign and prefix, then digits in the base and case of the conversion. */
  ghost predicate ShowsInt(t: string, f: Spec, value: int) {
    var lead := Lead(f, value);
    var least := if f.conv == 'p' then 16 else Least(f, |lead|);
    Shows(t, lead, Magnitude(value), BaseOf(f.conv), f.conv == 'X', least, f.width, f.flags.left)
  }

  /** The type a directive takes its integer in: what the length modifier says, signed for `d` and `i`; 64 bits for `p`. */
  ghost predicate IsArg(value: int, f: Spec, args: seq<Arg>, k: nat) {
    Narrowed(value, IntArg(args, k), if f.conv == 'p' then Ll else f.len, f.conv in {'d', 'i'})
  }

  /** `t` is what directive `f` stands for. */
  ghost predicate Means(f: Spec, args: seq<Arg>, k: nat, t: string) {
    if IsInt(f) then exists value :: IsArg(value, f, args, k) && ShowsInt(t, f, value)
    else if f.conv == 'c' then Laid(t, [(IntArg(args, k) % 256) as char], f.width, f.flags.left)
    else if f.conv == 's' then
      exists n :: CutAt(n, f.prec, |StrArg(args, k)|) && Laid(t, StrArg(args, k)[..n], f.width, f.flags.left)
    else if f.conv == '%' then t == "%"
    else t == ['%', f.conv]
  }

  /** A precision cuts a string of `length` characters at `n`. */
  ghost predicate CutAt(n: int, prec: int, length: nat) {
    0 <= n <= length && (prec >= 0 ==> n <= prec) && (n < length ==> n == prec)
  }

  /** `t` is what the pieces stand for, from argument `k` on. */
  ghost predicate Stands(items: seq<Item>, args: seq<Arg>, k: nat, t: string)
    decreases |items|
  {
    if items == [] then t == ""
    else match items[0]
      case Lit(c) => t != "" && t[0] == c && Stands(items[1..], args, k, t[1..])
      case Dir(f) =>
        exists n ::
          && 0 <= n <= |t| && Means(f, args, k, t[..n])
          && Stands(items[1..], args, if IsInt(f) || f.conv in {'c', 's'} then k + 1 else k, t[n..])
      case Star => t == ""
  }

  lemma ArgNarrowed(f: Spec, args: seq<Arg>, k: nat)
    ensures f.conv in {'d', 'i'} ==> IsArg(Signed(IntArg(args, k), f.len), f, args, k)
    ensures f.conv in {'u', 'o', 'x', 'X'} ==> IsArg(Unsigned(IntArg(args, k), f.len), f, args, k)
    ensures f.conv == 'p' ==> IsArg(Unsigned(IntArg(args, k), Ll), f, args, k)
  {
    hide Pow;
    var len, v := if f.conv == 'p' then Ll else f.len, IntArg(args, k);
    PowBytes(len);
    Remainder(v, BitsOf(len));
  }

  lemma Remainder(v: int, m: nat)
    requires m > 0
    ensures (v % m - v) % m == 0 && (v % m - m - v) % m == 0
  {
    var q := v / m;
    assert v % m - v == (-q) * m && v % m - m - v == (-q - 1) * m;
    Multiple(-q, m);
    Multiple(-q - 1, m);
  }

  lemma Multiple(q: int, m: nat)
    requires m > 0
    ensures (q * m) % m == 0
  {
    var x := q * m;
    if x / m < q {
      Apart(x / m, q, m);
    } else if x / m > q {
      Apart(q, x / m, m);
    }
  }

  lemma PowBytes(len: Length)
    ensures Pow(256, Bytes(len)) == BitsOf(len)
  {
    assert Pow(256, 1) == 256;
    assert Pow(256, 2) == 0x1_0000;
    assert Pow(256, 4) == 0x1_0000_0000;
    assert Pow(256, 8) == 0x1_0000_0000_0000_0000;
  }

  /** What an integer directive puts out: the argument in its type, in the base and case of the conversion. */
  lemma ConvertedInt(f: Spec, args: seq<Arg>, k: nat) returns (value: int)
    requires IsInt(f)
    ensures IsArg(value, f, args, k)
    ensures ShowsInt(Converted(f, args, k), f, value)
    ensures Scan(Converted(f, args, k), BaseOf(f.conv)) == (value < 0, Magnitude(value))
  {
    hide IntText;
    hide Shows;
    hide Signed;
    hide Unsigned;
    hide Scan;
    hide IsArg;
    ArgNarrowed(f, args, k);
    var v := IntArg(args, k);
    value := if f.conv in {'d', 'i'} then Signed(v, f.len) else Unsigned(v, if f.conv == 'p' then Ll else f.len);
    var g := if f.conv == 'p' then PointerSpec(f) else Adjusted(f);
    IntTextShows(g, Magnitude(value), value < 0, BaseOf(f.conv), f.conv == 'X');
    IntReads(g, Magnitude(value), value < 0, BaseOf(f.conv), f.conv == 'X');
  }

  /** Every directive this model covers puts out what it stands for. */
  lemma ConvertedMeans(f: Spec, args: seq<Arg>, k: nat)
    ensures Means(f, args, k, Converted(f, args, k))
  {
    hide Laid;
    hide Padded;
    hide IntText;
    hide ShowsInt;
    hide IsArg;
    if IsInt(f) {
      var value := ConvertedInt(f, args, k);
    } else if f.conv == 'c' {
      PaddedLaid(f, [(IntArg(args, k) % 256) as char]);
    } else if f.conv == 's' {
      var s := StrArg(args, k);
      var n := if 0 <= f.prec < |s| then f.prec else |s|;
      assert Cut(f, s) == s[..n] && CutAt(n, f.prec, |s|);
      PaddedLaid(f, s[..n]);
    }
  }

  /** A directive stands for one text only. */
  lemma MeansOnce(f: Spec, args: seq<Arg>, k: nat, t: string, u: string)
    requires Means(f, args, k, t) && Means(f, args, k, u)
    ensures t == u
  {
    hide Laid;
    hide Shows;
    hide Narrowed;
    if IsInt(f) {
      var x :| IsArg(x, f, args, k) && ShowsInt(t, f, x);
      var y :| IsArg(y, f, args, k) && ShowsInt(u, f, y);
      NarrowedOnce(x, y, IntArg(args, k), if f.conv == 'p' then Ll else f.len, f.conv in {'d', 'i'});
      var lead := Lead(f, x);
      ShowsOnce(t, u, lead, Magnitude(x), BaseOf(f.conv), f.conv == 'X',
                if f.conv == 'p' then 16 else Least(f, |lead|), f.width, f.flags.left);
    } else if f.conv == 'c' {
      LaidOnce(t, u, [(IntArg(args, k) % 256) as char], f.width, f.flags.left);
    } else if f.conv == 's' {
      var s := StrArg(args, k);
      var m :| CutAt(m, f.prec, |s|) && Laid(t, s[..m], f.width, f.flags.left);
      var n :| CutAt(n, f.prec, |s|) && Laid(u, s[..n], f.width, f.flags.left);
      LaidOnce(t, u, s[..m], f.width, f.flags.left);
    }
  }

  /** The rendered text is what the pieces stand for. */
  lemma {:induction false} RenderedStands(items: seq<Item>, args: seq<Arg>, k: nat)
    ensures Stands(items, args, k, Rendered(items, args, k))
    decreases |items|
  {
    hide Means;
    hide Converted;
    if items != [] {
      var t := Rendered(items, args, k);
      match items[0]
      case Lit(c) =>
        RenderedStands(items[1..], args, k);
        assert t[1..] == Rendered(items[1..], args, k);
      case Dir(f) =>
        var next := if TakesArg(f) then k + 1 else k;
        var n := |Converted(f, args, k)|;
        RenderedStands(items[1..], args, next);
        ConvertedMeans(f, args, k);
        assert t[..n] == Converted(f, args, k) && t[n..] == Rendered(items[1..], args, next);
      case Star =>
    }
  }

  /** Pieces stand for one text only. */
  lemma {:induction false} StandsOnce(items: seq<Item>, args: seq<Arg>, k: nat, t: string, u: string)
    requires Stands(items, args, k, t) && Stands(items, args, k, u)
    ensures t == u
    decreases |items|
  {
    hide Means;
    if items != [] {
      match items[0]
      case Lit(c) =>
        StandsOnce(items[1..], args, k, t[1..], u[1..]);
        assert t == [c] + t[1..] && u == [c] + u[1..];
      case Dir(f) =>
        var next := if IsInt(f) || f.conv in {'c', 's'} then k + 1 else k;
        var m :| 0 <= m <= |t| && Means(f, args, k, t[..m]) && Stands(items[1..], args, next, t[m..]);
        var n :| 0 <= n <= |u| && Means(f, args, k, u[..n]) && Stands(items[1..], args, next, u[n..]);
        MeansOnce(f, args, k, t[..m], u[..n]);
        StandsOnce(items[1..], args, next, t[m..], u[n..]);
        assert t == t[..m] + t[m..] && u == u[..n] + u[n..];
      case Star =>
    }
  }

  // ----------------------------------------------------------------- methods

  /** `parse_flags`: reads on to the first character that is no flag, and sets exactly the flags it met. */
  method ParseFlags(fmt: string, start: nat) returns (f: Flags, p: nat)
    requires start <= |fmt|
    ensures (f, p) == FlagsAt(fmt, start, NO_FLAGS) && start <= p <= |fmt|
    ensures FlagRun(fmt, start, p) && f == FlagsOf(fmt[start..p])
  {
    f, p := NO_FLAGS, start;
    while p < |fmt| && IsFlag(fmt[p])
      invariant start <= p <= |fmt| && FlagsAt(fmt, p, f) == FlagsAt(fmt, start, NO_FLAGS)
      invariant (forall i :: start <= i < p ==> IsFlag(fmt[i])) && f == FlagsOf(fmt[start..p])
    {
      assert fmt[start..p + 1] == fmt[start..p] + [fmt[p]];
      f := WithFlag(f, fmt[p]);
      p := p + 1;
    }
  }

  /** The digit loop of `parse_width_prec`, and of the precision: the decimal value of the digits up to the first other character. */
  method ParseNumber(fmt: string, start: nat) returns (v: nat, seen: bool, p: nat)
    requires start <= |fmt|
    ensures (v, p) == NumberAt(fmt, start, 0) && seen == (p > start) && start <= p <= |fmt|
    ensures DigitRun(fmt, start, p) && v == Value(fmt[start..p], 10)
  {
    v, seen, p := 0, false, start;
    while p < |fmt| && IsDigit(fmt[p])
      invariant start <= p <= |fmt| && NumberAt(fmt, p, v) == NumberAt(fmt, start, 0) && seen == (p > start)
      invariant (forall i :: start <= i < p ==> IsDigit(fmt[i])) && v == Value(fmt[start..p], 10)
    {
      seen := true;
      assert fmt[start..p + 1] == fmt[start..p] + [fmt[p]];
      ValuePush(fmt[start..p], fmt[p], 10);
      v := v * 10 + (fmt[p] as int - '0' as int);
      p := p + 1;
    }
  }

  /** [start, p) is the longest run of flag characters from `start`. */
  ghost predicate FlagRun(fmt: string, start: nat, p: nat) {
    start <= p <= |fmt| && (forall i :: start <= i < p ==> IsFlag(fmt[i])) && (p < |fmt| ==> !IsFlag(fmt[p]))
  }

  ghost predicate DigitRun(fmt: string, start: nat, p: nat) {
    start <= p <= |fmt| && (forall i :: start <= i < p ==> IsDigit(fmt[i])) && (p < |fmt| ==> !IsDigit(fmt[p]))
  }

  /** The flags whose characters occur in `s`. */
  function FlagsOf(s: string): Flags {
    Flags('-' in s, '+' in s, '0' in s, '#' in s, ' ' in s)
  }

  /** The text of each length modifier. */
  function LengthText(len: Length): string {
    match len
    case NoLength => ""
    case Hh => "hh"
    case H => "h"
    case L => "l"
    case Ll => "ll"
    case J => "j"
    case Z => "z"
    case T => "t"
    case BigL => "L"
  }

  lemma LengthIs(fmt: string, p: nat)
    requires p <= |fmt|
    ensures var l := LengthAt(fmt, p); fmt[p..l.1] == LengthText(l.0)
  {
  }

  /**
    Flags, width, precision and length of a directive: [start, a) are its flags, [a, b) the digits
    of its width, [b, c) nothing or a dot and the digits of its precision, and [c, p) its length.
   */
  method ParseDirective(fmt: string, start: nat) returns (f: Spec, p: nat, ghost a: nat, ghost b: nat, ghost c: nat)
    requires start <= |fmt| && !DirectiveAt(fmt, start).1
    ensures f == DirectiveAt(fmt, start).0 && p == DirectiveAt(fmt, start).2 && p <= |fmt|
    ensures FlagRun(fmt, start, a) && f.flags == FlagsOf(fmt[start..a])
    ensures DigitRun(fmt, a, b) && f.width == if a < b then Value(fmt[a..b], 10) else -1
    ensures if b < |fmt| && fmt[b] == '.' then DigitRun(fmt, b + 1, c) && f.prec == Value(fmt[b + 1..c], 10) else c == b && f.prec == -1
    ensures c <= p && fmt[c..p] == LengthText(f.len) && (p < |fmt| ==> f.conv == fmt[p])
  {
    hide FlagsAt;
    hide NumberAt;
    hide LengthAt;
    hide Value;
    var flags, v, seen;
    flags, p := ParseFlags(fmt, start);
    a := p;
    v, seen, p := ParseNumber(fmt, p);
    b := p;
    var width: int := if seen then v else -1;
    var prec: int := -1;
    if At(fmt, p) == '.' && p < |fmt| {
      v, seen, p := ParseNumber(fmt, p + 1);
      prec := v;
    }
    c := p;
    LengthIs(fmt, p);
    var l := LengthAt(fmt, p);
    p := l.1;
    f := Spec(flags, width, prec, l.0, At(fmt, p));
  }

  /** A text with its padding, as the `c` and `s` conversions put it out. */
  method EmitPadded(o: Out, f: Spec, s: string)
    requires o.Valid()
    modifies o`len, o`text, o.buf
    ensures o.Valid() && o.text == old(o.text) + Padded(f, s)
  {
    hide Out.Valid;
    hide Repeat;
    var padLen := if f.width > |s| then f.width - |s| else 0;
    PadSame(f.width - |s|);
    ghost var was := o.text;
    if !f.flags.left {
      o.Pad(' ', padLen);
    }
    o.WriteN(s, |s|);
    assert s[..|s|] == s;
    if f.flags.left {
      o.Pad(' ', padLen);
      TwoParts(was, s, Repeat(' ', padLen));
    } else {
      TwoParts(was, Repeat(' ', padLen), s);
    }
  }

  /** The switch over conversions. */
  method EmitDirective(o: Out, f: Spec, args: seq<Arg>, k: nat) returns (next: nat)
    requires o.Valid() && Covered(Dir(f))
    modifies o`len, o`text, o.buf
    ensures o.Valid() && o.text == old(o.text) + Converted(f, args, k) && Means(f, args, k, Converted(f, args, k))
    ensures next == if TakesArg(f) then k + 1 else k
  {
    hide Out.Valid;
    hide IntText;
    hide Padded;
    hide Means;
    ConvertedMeans(f, args, k);
    next := if TakesArg(f) then k + 1 else k;
    var v := IntArg(args, k);
    match f.conv
    case '%' => o.Putc('%');
    case 'c' => EmitPadded(o, f, [(v % 256) as char]);
    case 's' => EmitPadded(o, f, Cut(f, StrArg(args, k)));
    case 'd' => EmitInt(o, Adjusted(f), Magnitude(Signed(v, f.len)), Signed(v, f.len) < 0, 10, false);
    case 'i' => EmitInt(o, Adjusted(f), Magnitude(Signed(v, f.len)), Signed(v, f.len) < 0, 10, false);
    case 'u' => EmitInt(o, Adjusted(f), Unsigned(v, f.len), false, 10, false);
    case 'o' => EmitInt(o, Adjusted(f), Unsigned(v, f.len), false, 8, false);
    case 'x' => EmitInt(o, Adjusted(f), Unsigned(v, f.len), false, 16, false);
    case 'X' => EmitInt(o, Adjusted(f), Unsigned(v, f.len), false, 16, true);
    case 'p' => EmitInt(o, PointerSpec(f), Unsigned(v, Ll), false, 16, false);
    case _ =>
      o.Putc('%');
      o.Putc(f.conv);
  }

  /**
    `vsnprintf`: returns the length of the whole text; a buffer of two or more receives as much
    as fits and a NUL, and nothing after it changes; a smaller one is left alone.  The format ends at
    its first NUL, and so do string arguments.
   */
  method Vsnprintf(dst: array<char>, n: nat, format: string, args: seq<Arg>) returns (r: nat)
    requires n <= dst.Length && AllCovered(ItemsAt(CText(format), 0))
    modifies dst
    ensures r == |Rendered(ItemsAt(CText(format), 0), args, 0)|
    ensures Stands(ItemsAt(CText(format), 0), args, 0, Rendered(ItemsAt(CText(format), 0), args, 0))
    ensures n >= 2 ==>
              var m := if r < n - 1 then r else n - 1;
              && dst[..m] == Rendered(ItemsAt(CText(format), 0), args, 0)[..m] && dst[m] == '\0'
              && forall i :: m < i < dst.Length ==> dst[i] == old(dst[i])
    ensures n < 2 ==> dst[..] == old(dst[..])
  {
    hide Out.Valid;
    hide Converted;
    hide DirectiveAt;
    hide ItemsAt;
    hide Rendered;
    hide Covered;
    hide CText;
    hide Means;
    hide Stands;
    RenderedStands(ItemsAt(CText(format), 0), args, 0);
    var length := CStrLen(format);
    var fmt := format[..length];
    ghost var whole := Rendered(ItemsAt(fmt, 0), args, 0);
    var out := new Out(dst, n);
    var p, k := 0, 0;
    while p < |fmt|
      invariant p <= |fmt| && out.Valid() && out.buf == dst && fresh(out)
      invariant AllCovered(ItemsAt(fmt, p))
      invariant whole == out.text + Rendered(ItemsAt(fmt, p), args, k)
      decreases |fmt| - p
    {
      ghost var text := out.text;
      if fmt[p] != '%' {
        LiteralStep(fmt, p, args, k, text);
        out.Putc(fmt[p]);
        p := p + 1;
      } else {
        DirectiveStep(fmt, p, args, k, text);
        var f: Spec;
        ghost var a, b, c: nat;
        f, p, a, b, c := ParseDirective(fmt, p + 1);
        if p == |fmt| {
          break;
        }
        k := EmitDirective(out, f, args, k);
        p := p + 1;
      }
    }
    NothingMore(fmt, args, k);
    out.Terminate();
    return out.len;
  }

  lemma LiteralStep(fmt: string, p: nat, args: seq<Arg>, k: nat, text: string)
    requires p < |fmt| && fmt[p] != '%' && AllCovered(ItemsAt(fmt, p))
    ensures AllCovered(ItemsAt(fmt, p + 1))
    ensures text + Rendered(ItemsAt(fmt, p), args, k) == text + [fmt[p]] + Rendered(ItemsAt(fmt, p + 1), args, k)
  {
    hide Rendered;
    var rest := ItemsAt(fmt, p + 1);
    RenderedHead(Lit(fmt[p]), rest, args, k);
    CoveredRest(Lit(fmt[p]), rest);
    TwoParts(text, [fmt[p]], Rendered(rest, args, k));
  }

  lemma DirectiveStep(fmt: string, p: nat, args: seq<Arg>, k: nat, text: string)
    requires p < |fmt| && fmt[p] == '%' && AllCovered(ItemsAt(fmt, p))
    ensures var d := DirectiveAt(fmt, p + 1);
            && !d.1
            && (d.2 == |fmt| ==> Rendered(ItemsAt(fmt, p), args, k) == "")
            && (d.2 < |fmt| ==>
                  && Covered(Dir(d.0)) && AllCovered(ItemsAt(fmt, d.2 + 1))
                  && text + Rendered(ItemsAt(fmt, p), args, k) ==
                     text + Converted(d.0, args, k) + Rendered(ItemsAt(fmt, d.2 + 1), args, if TakesArg(d.0) then k + 1 else k))
  {
    hide Rendered;
    hide Converted;
    hide DirectiveAt;
    NoStar(fmt, p);
    var d := DirectiveAt(fmt, p + 1);
    if d.2 < |fmt| {
      var rest := ItemsAt(fmt, d.2 + 1);
      RenderedHead(Dir(d.0), rest, args, k);
      CoveredRest(Dir(d.0), rest);
      TwoParts(text, Converted(d.0, args, k), Rendered(rest, args, if TakesArg(d.0) then k + 1 else k));
    } else {
      NothingMore(fmt, args, k);
    }
  }

  lemma CoveredRest(item: Item, rest: seq<Item>)
    ensures AllCovered([item] + rest) ==> Covered(item) && AllCovered(rest)
  {
    assert item in [item] + rest;
    forall i | i in rest ensures i in [item] + rest {
    }
  }

  lemma NoStar(fmt: string, p: nat)
    requires p < |fmt| && fmt[p] == '%' && AllCovered(ItemsAt(fmt, p))
    ensures !DirectiveAt(fmt, p + 1).1
  {
    hide DirectiveAt;
    var items := ItemsAt(fmt, p);
    assert DirectiveAt(fmt, p + 1).1 ==> Star in items;
  }

  lemma NothingMore(fmt: string, args: seq<Arg>, k: nat)
    ensures ItemsAt(fmt, |fmt|) == [] && Rendered([], args, k) == ""
  {
  }
}
