/** The timer of `rtprog/timer.c`: conversion between ticks and time, and when it is armed to fire. */
module Timer {
  import opened Bits
  import opened Words


  /** The compare value `timer_schedule_at_ticks` programs, with 64-bit wrap-around and a signed test. */
  function Arm(deadline: nat, now: nat): nat {
    var diff := (deadline - now) % 0x1_0000_0000_0000_0000;
    if diff == 0 || diff >= 0x8000_0000_0000_0000 then (now + 1) % 0x1_0000_0000_0000_0000 else deadline
  }

  /**
    The timer is armed at the deadline, or one tick ahead when that has passed, exactly when
    the two lie within 2^63 ticks of each other.
   */
  lemma ArmsAtDeadline(deadline: nat, now: nat)
    requires deadline < U64 && now + 1 < U64
    ensures Arm(deadline, now) == (if deadline > now then deadline else now + 1) <==>
            -0x8000_0000_0000_0000 <= deadline - now < 0x8000_0000_0000_0000
  {
  }

  // -------------------------------------------------------------- conversion

  const NS: nat := 1_000_000_000
  const US: nat := 1_000_000

  function Wrap(x: nat): nat {
    x % 0x1_0000_0000_0000_0000
  }

  function Times(x: nat, y: nat): nat {
    x * y
  }

  function Remainder(x: nat, m: nat): nat
    requires m > 0
  {
    x % m
  }

  function Quotient(x: nat, m: nat): nat
    requires m > 0
  {
    x / m
  }

  lemma WrapSmall(x: nat)
    requires x < U64
    ensures Wrap(x) == x
  {
  }

  /** `ticks_from_ns` and `ticks_from_us`: `unit` per second, counter frequency `f`, in 64-bit arithmetic. */
  function TicksFrom(x: nat, f: nat, unit: nat): nat
    requires unit > 0
  {
    var sec, rem := Quotient(x, unit), Remainder(x, unit);
    var t := Wrap(Times(sec, f));
    var num := Wrap(Wrap(Times(rem, f)) + Quotient(unit, 2));
    Wrap(t + Quotient(num, unit))
  }

  /** `ns_from_ticks` and `us_from_ticks`. */
  function FromTicks(t: nat, f: nat, unit: nat): nat
    requires f > 0
  {
    var sec, rem := Quotient(t, f), Remainder(t, f);
    var x := Wrap(Times(sec, unit));
    var num := Wrap(Times(rem, unit));
    Wrap(x + Quotient(num, f))
  }

  /** x * f / unit, rounded half up. */
  function RoundedTicks(x: nat, f: nat, unit: nat): nat
    requires unit > 0
  {
    (x * f + unit / 2) / unit
  }

  lemma Regroup(q: nat, r: nat, m: nat, c: nat, d: nat)
    requires m > 0
    ensures ((q * m + r) * c + d) / m == q * c + (r * c + d) / m
  {
    var n := r * c + d;
    assert (q * m + r) * c + d == m * (q * c + n / m) + n % m by {
      assert (q * m + r) * c == m * (q * c) + r * c;
      assert n == m * (n / m) + n % m;
      assert m * (q * c + n / m) == m * (q * c) + m * (n / m);
    }
    DivUnique((q * m + r) * c + d, m, q * c + n / m, n % m);
  }

  /** No step overflows and the result is the rounded quotient, while the frequency and the result are in range. */
  lemma TicksExact(x: nat, f: nat, unit: nat)
    requires unit > 0 && (unit - 1) * f + unit / 2 < U64 && RoundedTicks(x, f, unit) < U64
    ensures TicksFrom(x, f, unit) == RoundedTicks(x, f, unit)
  {
    hide Wrap;
    hide Quotient;
    hide Remainder;
    hide Times;
    hide RoundedTicks;
    SplitTicks(x, f, unit);
    RemainderFits(x, f, unit);
    NoWrap(Times(Quotient(x, unit), f), Times(Remainder(x, unit), f), Quotient(unit, 2), unit);
  }

  lemma RemainderFits(x: nat, f: nat, unit: nat)
    requires unit > 0 && (unit - 1) * f + unit / 2 < U64
    ensures Times(Remainder(x, unit), f) + Quotient(unit, 2) < U64
  {
    MulLe(x % unit, unit - 1, f);
  }

  lemma NoWrap(a: nat, b: nat, h: nat, m: nat)
    requires m > 0 && b + h < U64 && a + Quotient(b + h, m) < U64
    ensures Wrap(Wrap(a) + Quotient(Wrap(Wrap(b) + h), m)) == a + Quotient(b + h, m)
  {
    hide Wrap;
    hide Quotient;
    WrapSmall(a);
    WrapSmall(b);
    WrapSmall(b + h);
    WrapSmall(a + Quotient(b + h, m));
  }

  lemma SplitTicks(x: nat, f: nat, unit: nat)
    requires unit > 0
    ensures RoundedTicks(x, f, unit) == Times(Quotient(x, unit), f) + Quotient(Times(Remainder(x, unit), f) + Quotient(unit, 2), unit)
  {
    assert x == x / unit * unit + x % unit;
    Regroup(x / unit, x % unit, unit, f, unit / 2);
  }

  /** The same for the way back, which rounds down. */
  lemma FromTicksExact(t: nat, f: nat, unit: nat)
    requires f > 0 && (f - 1) * unit < U64 && t * unit / f < U64
    ensures FromTicks(t, f, unit) == t * unit / f
  {
    hide Wrap;
    hide Quotient;
    hide Remainder;
    hide Times;
    SplitTime(t, f, unit);
    RestFits(t, f, unit);
    var b := Times(Remainder(t, f), unit);
    NoWrap(Times(Quotient(t, f), unit), b, 0, f);
    WrapSmall(b);
  }

  lemma RestFits(t: nat, f: nat, unit: nat)
    requires f > 0 && (f - 1) * unit < U64
    ensures Times(Remainder(t, f), unit) < U64
  {
    MulLe(t % f, f - 1, unit);
  }

  lemma SplitTime(t: nat, f: nat, unit: nat)
    requires f > 0
    ensures t * unit / f == Times(Quotient(t, f), unit) + Quotient(Times(Remainder(t, f), unit), f)
  {
    assert t == t / f * f + t % f;
    Regroup(t / f, t % f, f, unit, 0);
  }

  lemma DivMono(a: nat, b: nat, m: nat)
    requires m > 0 && a <= b
    ensures a / m <= b / m
  {
    var p, q := a / m, b / m;
    assert a == p * m + a % m && b == q * m + b % m;
    if q + 1 <= p {
      MulLe(q + 1, p, m);
      assert false;
    }
  }

  lemma QuotientsMonotone(x: nat, y: nat, f: nat, unit: nat)
    requires x <= y && unit > 0 && f > 0
    ensures RoundedTicks(x, f, unit) <= RoundedTicks(y, f, unit) && x * unit / f <= y * unit / f
  {
    MulLe(x, y, f);
    DivMono(x * f + unit / 2, y * f + unit / 2, unit);
    MulLe(x, y, unit);
    DivMono(x * unit, y * unit, f);
  }

  /** Both conversions keep order, on 64-bit words in range. */
  lemma ConversionsMonotone(x: nat, y: nat, f: nat, unit: nat)
    requires x <= y && unit > 0 && f > 0
    ensures (unit - 1) * f + unit / 2 < U64 && RoundedTicks(y, f, unit) < U64 ==> TicksFrom(x, f, unit) <= TicksFrom(y, f, unit)
    ensures (f - 1) * unit < U64 && y * unit / f < U64 ==> FromTicks(x, f, unit) <= FromTicks(y, f, unit)
  {
    hide TicksFrom;
    hide FromTicks;
    hide RoundedTicks;
    QuotientsMonotone(x, y, f, unit);
    if (unit - 1) * f + unit / 2 < U64 && RoundedTicks(y, f, unit) < U64 {
      TicksExact(x, f, unit);
      TicksExact(y, f, unit);
    }
    if (f - 1) * unit < U64 && y * unit / f < U64 {
      FromTicksExact(x, f, unit);
      FromTicksExact(y, f, unit);
    }
  }

  /** Ticks to time and back: the same tick exactly when little was rounded away, which a slow counter guarantees. */
  lemma TickRoundTrip(t: nat, f: nat, unit: nat)
    requires f > 0 && unit > 0 && unit % 2 == 0
    ensures RoundedTicks(t * unit / f, f, unit) == t <==> t * unit % f <= unit / 2
    ensures f <= unit / 2 ==> RoundedTicks(t * unit / f, f, unit) == t
  {
    var n, r, h := t * unit / f, t * unit % f, unit / 2;
    assert t * unit == f * n + r;
    var k := RoundedTicks(n, f, unit);
    assert n * f == unit * t - r by {
      assert n * f == f * n;
    }
    assert n * f + h == unit * k + (n * f + h) % unit;
    if r <= h {
      DivUnique(n * f + h, unit, t, h - r);
    } else if k == t {
      assert false;
    }
  }

  /** Time to ticks and back: the same or one less, on a counter faster than half the unit. */
  lemma TimeRoundTrip(x: nat, f: nat, unit: nat)
    requires unit > 0 && unit % 2 == 0 && f > unit / 2
    ensures var y := RoundedTicks(x, f, unit) * unit / f;
            (y == x || y == x - 1) && (y == x <==> (x * f + unit / 2) % unit <= unit / 2)
  {
    var h := unit / 2;
    var t, s := (x * f + h) / unit, (x * f + h) % unit;
    assert x * f + h == unit * t + s;
    assert t * unit == f * x + (h - s) by {
      assert t * unit == unit * t && x * f == f * x;
    }
    if s <= h {
      DivUnique(t * unit, f, x, h - s);
    } else {
      assert f * (x - 1) == f * x - f;
      DivUnique(t * unit, f, x - 1, f + h - s);
    }
  }

  /** On a counter of at most 500 MHz, nanoseconds computed from ticks lead back to the same tick. */
  lemma NsRoundTrip(t: nat, f: nat)
    requires 0 < f <= 500_000_000 && t < U64 && t * NS / f < U64
    ensures TicksFrom(FromTicks(t, f, NS), f, NS) == t
  {
    MulLe(f - 1, 499_999_999, NS);
    FromTicksExact(t, f, NS);
    TickRoundTrip(t, f, NS);
    MulLe(f, 500_000_000, NS - 1);
    TicksExact(t * NS / f, f, NS);
  }

  lemma UsRoundTrip(u: nat, f: nat)
    requires 500_000 < f < 10_000_000_000 && RoundedTicks(u, f, US) < U64 && u < U64
    ensures FromTicks(TicksFrom(u, f, US), f, US) == u || FromTicks(TicksFrom(u, f, US), f, US) == u - 1
  {
    MulLe(f, 9_999_999_999, US - 1);
    TicksExact(u, f, US);
    TimeRoundTrip(u, f, US);
    MulLe(f - 1, 9_999_999_998, US);
    FromTicksExact(RoundedTicks(u, f, US), f, US);
  }

  /** The loop of `timer_irq_handler`: the first deadline of the period after `now`. */
  method SkipForward(start: nat, period: nat, now: nat) returns (next: nat)
    requires period > 0 && now + period < U64
    ensures next > now && (next == start || next - period <= now) && next >= start && (next - start) % period == 0
  {
    next := start;
    ghost var k := 0;
    while next <= now
      invariant next == start + k * period && (next == start || next - period <= now)
      decreases now - next
    {
      next := (next + period) % 0x1_0000_0000_0000_0000;
      k := k + 1;
    }
    DivUnique(next - start, period, k, 0);
  }
}
