/**
  The table walker of `rtprog/mmu.c` that prints a map as runs: it visits the mapped pages in
  order and joins neighbours whose addresses continue each other.
 */
module PageWalk {
  import opened Bits
  import opened PageFormat
  import opened Tree

  /** Addresses [va, va + len) lead to [pa, pa + len). */
  datatype Run = Run(va: nat, pa: nat, len: nat)

  type Mapping = (nat, nat)

  ghost function PagesOf(r: Run): (s: seq<Mapping>)
    ensures |s| == r.len / PAGE_SIZE
  {
    seq(r.len / PAGE_SIZE, i requires 0 <= i => (r.va + i * PAGE_SIZE, r.pa + i * PAGE_SIZE))
  }

  /** The pages a list of runs stands for, in order. */
  ghost function Expand(runs: seq<Run>): seq<Mapping> {
    if runs == [] then [] else Expand(runs[..|runs| - 1]) + PagesOf(runs[|runs| - 1])
  }

  ghost predicate Joins(r: Run, va: nat, pa: nat) {
    r.va + r.len == va && r.pa + r.len == pa
  }

  /** Whole pages, and no run continues the one before it. */
  ghost predicate Separate(runs: seq<Run>) {
    && (forall i :: 0 <= i < |runs| ==> runs[i].len % PAGE_SIZE == 0)
    && (forall i, j :: 0 <= i < |runs| && 0 <= j < |runs| && j == i + 1 ==> !Joins(runs[i], runs[j].va, runs[j].pa))
  }

  lemma ExpandPush(runs: seq<Run>, r: Run)
    ensures Expand(runs + [r]) == Expand(runs) + PagesOf(r)
  {
    assert (runs + [r])[..|runs|] == runs;
  }

  lemma SeparatePush(runs: seq<Run>, r: Run)
    requires Separate(runs) && r.len % PAGE_SIZE == 0
    requires runs != [] ==> !Joins(runs[|runs| - 1], r.va, r.pa)
    ensures Separate(runs + [r])
  {
  }

  /** Lengthening the last run. */
  lemma JoinPages(r: Run, size: nat)
    requires r.len % PAGE_SIZE == 0 && size % PAGE_SIZE == 0
    ensures PagesOf(r.(len := r.len + size)) == PagesOf(r) + PagesOf(Run(r.va + r.len, r.pa + r.len, size))
  {
    var n, k := r.len / PAGE_SIZE, size / PAGE_SIZE;
    assert r.len == n * PAGE_SIZE && size == k * PAGE_SIZE;
    assert (r.len + size) / PAGE_SIZE == n + k;
  }

  lemma SeparateLonger(runs: seq<Run>, r: Run, size: nat)
    requires Separate(runs + [r]) && size % PAGE_SIZE == 0
    ensures Separate(runs + [r.(len := r.len + size)])
  {
    var a, b := runs + [r], runs + [r.(len := r.len + size)];
    assert forall i :: 0 <= i < |runs| ==> a[i] == b[i];
    assert a[|runs|] == r;
    assert (r.len + size) % PAGE_SIZE == 0;
  }

  // ----------------------------------------------------------------- listing

  /** What slot `i` of a table maps. */
  ghost function SlotPages(m: Memory, level: nat, t: nat, base: nat, i: nat): seq<Mapping>
    decreases 4 - level, i, 0
  {
    var d := Load(m, t, i);
    match KindOf(d, level)
    case Invalid => []
    case Leaf => PagesOf(Run(base + i * Span(level), OutAddr(d), Span(level)))
    case Table => if level < 3 then Listing(m, level + 1, OutAddr(d), base + i * Span(level), 512) else []
  }

  /** What the slots before `i` of a table map, in slot order. */
  ghost function Listing(m: Memory, level: nat, t: nat, base: nat, i: nat): seq<Mapping>
    decreases 4 - level, i, 1
  {
    if i == 0 then [] else Listing(m, level, t, base, i - 1) + SlotPages(m, level, t, base, i - 1)
  }

  /** Page-aligned addresses in [lo, hi), strictly ascending. */
  ghost predicate Ascends(s: seq<Mapping>, lo: nat, hi: nat) {
    && (forall i :: 0 <= i < |s| ==> lo <= s[i].0 < hi && s[i].0 % PAGE_SIZE == 0)
    && (forall i, j :: 0 <= i < j < |s| ==> s[i].0 < s[j].0)
  }

  lemma AscendsJoin(s: seq<Mapping>, t: seq<Mapping>, lo: nat, mid: nat, hi: nat)
    requires Ascends(s, lo, mid) && Ascends(t, mid, hi) && lo <= mid <= hi
    ensures Ascends(s + t, lo, hi)
  {
  }

  lemma PagesAscend(r: Run)
    requires r.va % PAGE_SIZE == 0 && r.len % PAGE_SIZE == 0
    ensures Ascends(PagesOf(r), r.va, r.va + r.len)
  {
    var s := PagesOf(r);
    assert |s| * PAGE_SIZE == r.len;
    forall i | 0 <= i < |s| ensures r.va <= s[i].0 < r.va + r.len && s[i].0 % PAGE_SIZE == 0 {
      assert s[i].0 == r.va + i * PAGE_SIZE;
    }
  }

  lemma SpanFacts(level: nat)
    ensures Span(level) % PAGE_SIZE == 0 && (level < 3 ==> 512 * Span(level + 1) == Span(level))
  {
  }

  lemma {:induction false} SlotAscends(m: Memory, level: nat, t: nat, base: nat, i: nat)
    requires level <= 3 && base % PAGE_SIZE == 0
    ensures Ascends(SlotPages(m, level, t, base, i), base + i * Span(level), base + (i + 1) * Span(level))
    decreases 4 - level, i, 0
  {
    hide Ascends;
    hide KindOf;
    hide OutAddr;
    hide Span;
    SpanFacts(level);
    var d, b := Load(m, t, i), base + i * Span(level);
    MultipleOfPage(base, i, Span(level));
    assert b + Span(level) == base + (i + 1) * Span(level);
    match KindOf(d, level)
    case Invalid => EmptyAscends(b, b + Span(level));
    case Leaf => PagesAscend(Run(b, OutAddr(d), Span(level)));
    case Table =>
      if level < 3 {
        ListingAscends(m, level + 1, OutAddr(d), b, 512);
      } else {
        EmptyAscends(b, b + Span(level));
      }
  }

  lemma EmptyAscends(lo: nat, hi: nat)
    ensures Ascends([], lo, hi)
  {
  }

  lemma MultipleOfPage(base: nat, i: nat, span: nat)
    requires base % PAGE_SIZE == 0 && span % PAGE_SIZE == 0
    ensures (base + i * span) % PAGE_SIZE == 0
  {
    var k := span / PAGE_SIZE;
    assert i * span == (i * k) * PAGE_SIZE;
  }

  /** The walk meets pages in ascending order of address. */
  lemma {:induction false} ListingAscends(m: Memory, level: nat, t: nat, base: nat, i: nat)
    requires level <= 3 && base % PAGE_SIZE == 0
    ensures Ascends(Listing(m, level, t, base, i), base, base + i * Span(level))
    decreases 4 - level, i, 1
  {
    hide Ascends;
    hide Span;
    hide SlotPages;
    if i == 0 {
      EmptyAscends(base, base);
    } else {
      ListingAscends(m, level, t, base, i - 1);
      SlotAscends(m, level, t, base, i - 1);
      Times(i - 1, Span(level));
      AscendsJoin(Listing(m, level, t, base, i - 1), SlotPages(m, level, t, base, i - 1),
                  base, base + (i - 1) * Span(level), base + i * Span(level));
    }
  }

  lemma Times(i: nat, span: nat)
    ensures i * span <= (i + 1) * span && 0 <= i * span
  {
  }

  // --------------------------------------------------------------- exactness

  /** Only the slot that covers an address can list it. */
  lemma {:induction false} OnlyItsSlot(m: Memory, level: nat, t: nat, base: nat, s: nat, i: nat, e: Mapping)
    requires level <= 3 && base % PAGE_SIZE == 0 && base + s * Span(level) <= e.0 < base + (s + 1) * Span(level)
    ensures e in Listing(m, level, t, base, i) <==> s < i && e in SlotPages(m, level, t, base, s)
    decreases i
  {
    hide SlotPages;
    hide Span;
    if i > 0 {
      OnlyItsSlot(m, level, t, base, s, i - 1, e);
      if i - 1 != s {
        NotInSlot(m, level, t, base, s, i - 1, e);
      }
    }
  }

  lemma NotInSlot(m: Memory, level: nat, t: nat, base: nat, s: nat, j: nat, e: Mapping)
    requires level <= 3 && base % PAGE_SIZE == 0 && base + s * Span(level) <= e.0 < base + (s + 1) * Span(level) && j != s
    ensures e !in SlotPages(m, level, t, base, j)
  {
    hide SlotPages;
    hide Span;
    SlotAscends(m, level, t, base, j);
    Apart(s, j, Span(level));
  }

  lemma Apart(s: nat, j: nat, span: nat)
    requires s != j
    ensures (s + 1) * span <= j * span || (j + 1) * span <= s * span
  {
    if s < j {
      MulLe(s + 1, j, span);
    } else {
      MulLe(j + 1, s, span);
    }
  }

  lemma InPages(r: Run, x: nat, pa: nat)
    requires r.va % PAGE_SIZE == 0 && r.len % PAGE_SIZE == 0 && x % PAGE_SIZE == 0 && r.va <= x < r.va + r.len
    ensures (x, pa) in PagesOf(r) <==> pa == r.pa + (x - r.va)
  {
    var n, s := (x - r.va) / PAGE_SIZE, PagesOf(r);
    assert x == r.va + n * PAGE_SIZE && n < |s|;
    assert s[n] == (x, r.pa + (x - r.va));
    if (x, pa) in s {
      var k :| 0 <= k < |s| && s[k] == (x, pa);
      assert k == n;
    }
  }

  /** The slot an address falls in is its index at that level. */
  lemma SlotOf(level: nat, base: nat, x: nat)
    requires level <= 3 && base % (512 * Span(level)) == 0 && base <= x < base + 512 * Span(level)
    ensures var i := Idx(level, x);
            i < 512 && base + i * Span(level) <= x < base + (i + 1) * Span(level) && x % Span(level) == x - (base + i * Span(level))
  {
    hide Idx;
    hide Span;
    IdxIs(level, x);
    SlotArith(base, x, Span(level));
  }

  lemma Regroup(a: nat, b: nat, c: nat)
    ensures (a * b) * c == b * (a * c)
  {
  }

  lemma Distribute(a: nat, b: nat, c: nat)
    ensures a * (b + c) == a * b + a * c && (b + c) * a == b * a + c * a && a * b == b * a && a * c == c * a
  {
  }

  lemma Multiple(base: nat, span: nat) returns (k: nat)
    requires span > 0 && base % (512 * span) == 0
    ensures base == span * (512 * k)
  {
    var m := 512 * span;
    k := base / m;
    assert base == m * k;
    Regroup(512, span, k);
  }

  lemma SlotArith(base: nat, x: nat, span: nat)
    requires span > 0 && base % (512 * span) == 0 && base <= x < base + 512 * span
    ensures var i := x / span % 512;
            i < 512 && base + i * span <= x < base + (i + 1) * span && x % span == x - (base + i * span)
  {
    var k := Multiple(base, span);
    var i, r := (x - base) / span, (x - base) % span;
    assert x - base == span * i + r;
    Distribute(span, 512 * k, i);
    Distribute(span, i, 1);
    assert i < 512 by {
      if i >= 512 {
        MulLe(512, i, span);
      }
    }
    assert x == span * (512 * k + i) + r;
    DivUnique(x, span, 512 * k + i, r);
    DivUnique(512 * k + i, 512, k, i);
  }

  /** A page-aligned address is listed with exactly the frame the table walk gives it. */
  lemma {:induction false} ListingExact(m: Memory, level: nat, t: nat, base: nat, x: nat, pa: nat)
    requires level <= 3 && base % (512 * Span(level)) == 0 && base <= x < base + 512 * Span(level) && x % PAGE_SIZE == 0
    ensures (x, pa) in Listing(m, level, t, base, 512) <==> Leads(Walk(m, t, level, x), pa)
    decreases 4 - level
  {
    hide KindOf;
    hide OutAddr;
    hide AttrBits;
    hide Span;
    hide Idx;
    hide PagesOf;
    hide Listing;
    var i := Idx(level, x);
    SlotOf(level, base, x);
    SpanFacts(level);
    BaseAligned(level, base, i);
    OnlyItsSlot(m, level, t, base, i, 512, (x, pa));
    var d, b := Load(m, t, i), base + i * Span(level);
    match KindOf(d, level)
    case Invalid =>
    case Leaf => InPages(Run(b, OutAddr(d), Span(level)), x, pa);
    case Table =>
      if level < 3 {
        ListingExact(m, level + 1, OutAddr(d), b, x, pa);
      }
  }

  lemma BaseAligned(level: nat, base: nat, i: nat)
    requires level <= 3 && base % (512 * Span(level)) == 0
    ensures base % PAGE_SIZE == 0 && (base + i * Span(level)) % Span(level) == 0 && (base + i * Span(level)) % PAGE_SIZE == 0
  {
    hide Span;
    SpanFacts(level);
    var span := Span(level);
    var k := Multiple(base, span);
    Distribute(span, 512 * k, i);
    assert base + i * span == span * (512 * k + i);
    DivUnique(base + i * span, span, 512 * k + i, 0);
    MultipleOfPage(0, 512 * k, span);
    MultipleOfPage(0, 512 * k + i, span);
  }

  // ------------------------------------------------------------------ walker

  /** The coalescer's state `run_` and what has been printed. */
  class Dumper {
    var active: bool
    var run: Run
    var out: seq<Run>

    ghost function Runs(): seq<Run>
      reads this
    {
      if active then out + [run] else out
    }

    constructor ()
      ensures Runs() == [] && !active
    {
      active, run, out := false, Run(0, 0, 0), [];
    }

    /** `run_flush`. */
    method RunFlush()
      modifies this
      ensures !active && Runs() == old(Runs())
    {
      if active {
        out := out + [run];
        active := false;
      }
    }

    /** `run_visit`: one more mapped range, joined to the pending run when it continues it. */
    method RunVisit(va: nat, pa: nat, size: nat)
      requires Separate(Runs()) && size % PAGE_SIZE == 0 && (!active ==> out == [])
      modifies this
      ensures Separate(Runs()) && active
      ensures Expand(Runs()) == old(Expand(Runs())) + PagesOf(Run(va, pa, size))
    {
      hide Separate;
      hide Expand;
      hide PagesOf;
      ghost var r := run;
      if active && run.va + run.len == va && run.pa + run.len == pa {
        LastLength(out, run);
        SeparateLonger(out, run, size);
        ExpandPush(out, run);
        JoinPages(run, size);
        ExpandPush(out, run.(len := run.len + size));
        run := run.(len := run.len + size);
        return;
      }
      ghost var runs := Runs();
      RunFlush();
      active, run := true, Run(va, pa, size);
      SeparatePush(runs, run);
      ExpandPush(runs, run);
    }

    /** `walk_level`: appends what the table maps, in order; a table outside memory reads as empty. */
    method WalkLevel(m: Memory, level: nat, t: nat, base: nat)
      requires level <= 3 && Separate(Runs()) && (!active ==> out == [])
      modifies this
      ensures Separate(Runs()) && (!active ==> out == [])
      ensures Expand(Runs()) == old(Expand(Runs())) + Listing(m, level, t, base, 512)
      decreases 4 - level
    {
      hide Separate;
      hide Expand;
      hide PagesOf;
      hide KindOf;
      hide OutAddr;
      hide Load;
      hide Span;
      hide Listing;
      SpanFacts(level);
      ghost var seen := Expand(Runs());
      ListingNone(m, level, t, base);
      var i := 0;
      while i < 512
        invariant i <= 512 && Separate(Runs()) && (!active ==> out == [])
        invariant Expand(Runs()) == seen + Listing(m, level, t, base, i)
      {
        var d := Load(m, t, i);
        var k := KindOf(d, level);
        var slot := base + i * Span(level);
        ListingNext(m, level, t, base, i);
        if k == Table && level < 3 {
          WalkLevel(m, level + 1, OutAddr(d), slot);
        } else if k == Leaf {
          RunVisit(slot, OutAddr(d), Span(level));
        }
        i := i + 1;
      }
    }

    /** `dump_map`: the runs printed stand for exactly the map's pages in order, and none continues the one before. */
    method DumpMap(m: Memory, l0: nat)
      requires out == []
      modifies this
      ensures !active && Separate(out) && Expand(out) == Listing(m, 0, l0, 0, 512)
    {
      hide Listing;
      active := false;
      WalkLevel(m, 0, l0, 0);
      RunFlush();
    }
  }

  lemma ListingNone(m: Memory, level: nat, t: nat, base: nat)
    ensures Listing(m, level, t, base, 0) == []
  {
  }

  lemma ListingNext(m: Memory, level: nat, t: nat, base: nat, i: nat)
    ensures Listing(m, level, t, base, i + 1) == Listing(m, level, t, base, i) + SlotPages(m, level, t, base, i)
  {
  }

  lemma LastLength(runs: seq<Run>, r: Run)
    requires Separate(runs + [r])
    ensures r.len % PAGE_SIZE == 0
  {
    assert (runs + [r])[|runs|] == r;
  }

  /** The runs printed for a map: ascending, and (va, pa) among their pages exactly when va translates to pa. */
  lemma DumpIsMap(m: Memory, l0: nat, runs: seq<Run>, x: nat, pa: nat)
    requires Expand(runs) == Listing(m, 0, l0, 0, 512) && x < VA_LIMIT && x % PAGE_SIZE == 0
    ensures (x, pa) in Expand(runs) <==> Leads(Translate(m, l0, x), pa)
    ensures Ascends(Expand(runs), 0, VA_LIMIT)
  {
    hide Ascends;
    ListingExact(m, 0, l0, 0, x, pa);
    ListingAscends(m, 0, l0, 0, 512);
  }
}
