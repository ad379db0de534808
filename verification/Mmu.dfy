/**
  Building and tearing down translation tables (`rtprog/mmu.c`): table pages come from the
  allocator one by one, are linked into a tree, and all go back when the map is destroyed.
 */
module Mmu {
  import opened Bits
  import opened Words
  import opened PageFormat
  import opened Teardown
  import opened Tree
  import opened Alloc
  import opened Soundness
  import Blocks
  import Links
  import Layout
  import Raw
  import FreeStores

  // ------------------------------------------------------------ predicates

  /** Of the live allocations exactly those in `base` are not tables of this tree. */
  ghost predicate Ledger(base: set<nat>, at: Shape, live: set<nat>) {
    base !! Owned(at) && live == base + Owned(at)
  }

  ghost predicate Good(m: Memory, at: Shape, live: set<nat>, base: set<nat>) {
    IsTree(m, at, live) && Ledger(base, at, live)
  }

  /** Memory allocated outside the tree has not changed. */
  ghost predicate Kept(m: Memory, m': Memory, base: set<nat>) {
    forall t :: t in base ==> (t in m <==> t in m') && (t in m ==> m'[t] == m[t])
  }

  ghost predicate IsKey(k: Path) {
    |k| == 4 && k[3] < 512
  }

  ghost predicate SameEntries(m: Memory, at: Shape, m': Memory, at': Shape) {
    forall k :: IsKey(k) ==> Entry(m', at', k) == Entry(m, at, k)
  }

  /** Only the leaf descriptor of page `key` has changed, to `d`. */
  ghost predicate Remapped(m: Memory, at: Shape, m': Memory, at': Shape, key: Path, d: nat) {
    forall k :: IsKey(k) ==> Entry(m', at', k) == if k == key then d else Entry(m, at, k)
  }

  lemma KeptTrans(m: Memory, m1: Memory, m2: Memory, base: set<nat>)
    requires Kept(m, m1, base) && Kept(m1, m2, base)
    ensures Kept(m, m2, base)
  {
  }

  lemma KeptStore(m: Memory, t: nat, i: nat, d: nat, base: set<nat>)
    requires t !in base
    ensures Kept(m, Store(m, t, i, d), base)
  {
  }

  lemma KeptNew(m: Memory, q: nat, s: seq<nat>, base: set<nat>)
    requires q !in base
    ensures Kept(m, m[q := s], base)
  {
  }

  lemma SameTrans(m: Memory, at: Shape, m1: Memory, at1: Shape, m2: Memory, at2: Shape)
    requires SameEntries(m, at, m1, at1) && SameEntries(m1, at1, m2, at2)
    ensures SameEntries(m, at, m2, at2)
  {
  }

  lemma OwnedGrows(at: Shape, c: Path, q: nat)
    requires c !in at
    ensures Owned(at[c := q]) == Owned(at) + {q}
  {
    var at' := at[c := q];
    assert at'[c] == q;
    forall t | t in Owned(at) ensures t in Owned(at') {
      var x :| x in at && at[x] == t;
      assert x in at' && at'[x] == t;
    }
  }

  lemma OwnedAt(at: Shape, p: Path)
    requires p in at
    ensures at[p] in Owned(at)
  {
  }

  /** One more table, in one step. */
  lemma GrowGood(m: Memory, at: Shape, live: set<nat>, base: set<nat>, p: Path, i: nat, q: nat)
    requires Good(m, at, live, base) && CanGrow(m, at, live, p, i, q)
    ensures Good(Grown(m, at, p, i, q), at[Down(p, i) := q], live + {q}, base)
    ensures SameEntries(m, at, Grown(m, at, p, i, q), at[Down(p, i) := q])
    ensures Kept(m, Grown(m, at, p, i, q), base)
  {
    hide IsTree;
    hide Entry;
    hide Kept;
    var c := Down(p, i);
    var m', at' := Grown(m, at, p, i, q), at[c := q];
    GrowTree(m, at, live, p, i, q);
    OwnedGrows(at, c, q);
    forall k | IsKey(k) ensures Entry(m', at', k) == Entry(m, at, k) {
      GrowEntry(m, at, live, p, i, q, k);
    }
    OwnedAt(at, p);
    KeptNew(m, q, Zeros(), base);
    KeptStore(m[q := Zeros()], at[p], i, DescTable(q), base);
    KeptTrans(m, m[q := Zeros()], m', base);
  }

  /** One leaf written. */
  lemma WriteGood(m: Memory, at: Shape, live: set<nat>, base: set<nat>, p: Path, i: nat, d: nat)
    requires Good(m, at, live, base) && p in at && |p| == 3 && i < 512 && d % 4 == 3
    ensures var m' := Store(m, at[p], i, d);
            Good(m', at, live, base) && Remapped(m, at, m', at, Down(p, i), d) && Kept(m, m', base)
  {
    hide IsTree;
    hide Entry;
    hide Kept;
    hide Store;
    var m' := Store(m, at[p], i, d);
    WriteLeaf(m, at, live, p, i, d);
    forall k | IsKey(k) ensures Entry(m', at, k) == if k == Down(p, i) then d else Entry(m, at, k) {
      WriteEntry(m, at, live, p, i, d, k);
    }
    OwnedAt(at, p);
    KeptStore(m, at[p], i, d, base);
  }

  lemma RemapAfterSame(m: Memory, at: Shape, m1: Memory, at1: Shape, m2: Memory, at2: Shape, key: Path, d: nat)
    requires SameEntries(m, at, m1, at1) && Remapped(m1, at1, m2, at2, key, d)
    ensures Remapped(m, at, m2, at2, key, d)
  {
    hide Entry;
  }

  /** What an upper-level slot says about the table below it. */
  lemma SlotLink(m: Memory, at: Shape, live: set<nat>, p: Path, i: nat)
    requires IsTree(m, at, live) && p in at && |p| < 3 && i < 512
    ensures Valid(Load(m, at[p], i)) <==> Down(p, i) in at
    ensures Down(p, i) in at ==> NextTable(Load(m, at[p], i)) == at[Down(p, i)]
  {
    hide DescTable;
    hide Valid;
    hide NextTable;
    LinkedAt(m, at, p, i);
    if Down(p, i) in at {
      BackedAt(m, at, live, Down(p, i));
      TableRoundTrip(at[Down(p, i)]);
    } else {
      KindIs(0, 0);
    }
  }

  // ----------------------------------------------------------------- ranges

  const PAGES: nat := 0x10_0000_0000

  ghost function PageKey(v: nat): Path {
    Key(v * PAGE_SIZE)
  }

  /** Pages lo to hi - 1 hold descriptors of consecutive frames from `frame` on; the rest is as in `m0`. */
  ghost predicate Ranged(m0: Memory, at0: Shape, m: Memory, at: Shape, lo: nat, hi: nat, frame: nat, attrs: nat)
  {
    forall v: nat :: v < PAGES ==>
      Entry(m, at, PageKey(v)) ==
        if lo <= v < hi then DescPage((frame + (v - lo)) * PAGE_SIZE, attrs) else Entry(m0, at0, PageKey(v))
  }

  lemma PageKeys(v: nat, w: nat)
    requires v < PAGES && w < PAGES
    ensures IsKey(PageKey(v)) && (PageKey(v) == PageKey(w) <==> v == w)
  {
    hide Key;
    KeyIs(v * PAGE_SIZE);
    KeyNamesPage(v * PAGE_SIZE, w * PAGE_SIZE);
  }

  lemma RangeStep(m0: Memory, at0: Shape, m: Memory, at: Shape, m': Memory, at': Shape, lo: nat, hi: nat, frame: nat, attrs: nat)
    requires Ranged(m0, at0, m, at, lo, hi, frame, attrs) && lo <= hi < PAGES
    requires Remapped(m, at, m', at', PageKey(hi), DescPage((frame + (hi - lo)) * PAGE_SIZE, attrs))
    ensures Ranged(m0, at0, m', at', lo, hi + 1, frame, attrs)
  {
    hide Entry;
    hide PageKey;
    hide DescPage;
    hide IsKey;
    forall v: nat | v < PAGES
      ensures Entry(m', at', PageKey(v)) == if lo <= v < hi + 1 then DescPage((frame + (v - lo)) * PAGE_SIZE, attrs) else Entry(m0, at0, PageKey(v))
    {
      PageKeys(v, hi);
    }
  }

  function Floor(x: nat): nat {
    x - x % PAGE_SIZE
  }

  function Ceil(x: nat): nat {
    Floor(x + PAGE_SIZE - 1)
  }

  /**
    Addresses lo to hi - 1 lead to `pa` onwards with exactly the attributes `attrs`; every other
    address leads where it did, with those it had.
   */
  ghost predicate MapsRange(m0: Memory, m: Memory, l0: nat, lo: nat, hi: nat, pa: nat, attrs: nat) {
    forall x: nat :: x < VA_LIMIT ==>
      Translate(m, l0, x) == if lo <= x < hi then To(pa + (x - lo), attrs) else Translate(m0, l0, x)
  }

  lemma RangeTranslates(m0: Memory, at0: Shape, live0: set<nat>, m: Memory, at: Shape, live: set<nat>, l0: nat,
                        lo: nat, hi: nat, frame: nat, attrs: nat)
    requires IsTree(m0, at0, live0) && IsTree(m, at, live) && [] in at0 && [] in at && at0[[]] == at[[]] == l0
    requires Ranged(m0, at0, m, at, lo, hi, frame, attrs) && AttrsOk(attrs) && lo <= hi && (frame + (hi - lo)) * PAGE_SIZE <= PA_LIMIT
    ensures MapsRange(m0, m, l0, lo * PAGE_SIZE, hi * PAGE_SIZE, frame * PAGE_SIZE, attrs)
  {
    hide IsTree;
    hide Entry;
    hide Key;
    hide Translate;
    hide DescPage;
    hide OutAddr;
    forall x: nat | x < VA_LIMIT
      ensures Translate(m, l0, x) ==
              if lo * PAGE_SIZE <= x < hi * PAGE_SIZE then To(frame * PAGE_SIZE + (x - lo * PAGE_SIZE), attrs) else Translate(m0, l0, x)
    {
      var v := x / PAGE_SIZE;
      TranslateIs(m0, at0, live0, x);
      TranslateIs(m, at, live, x);
      KeyNamesPage(x, v * PAGE_SIZE);
      assert Key(x) == PageKey(v);
      if lo <= v < hi {
        PageRoundTrip((frame + (v - lo)) * PAGE_SIZE, attrs);
        NonZero(DescPage((frame + (v - lo)) * PAGE_SIZE, attrs));
      }
    }
  }

  lemma NonZero(d: nat)
    requires d % 4 == 3
    ensures d != 0
  {
  }

  /** When the two addresses agree within the page, every address goes to `pa` plus its offset. */
  lemma CongruentRange(m0: Memory, m: Memory, l0: nat, va: nat, pa: nat, len: nat, attrs: nat, x: nat)
    requires MapsRange(m0, m, l0, Floor(va), Ceil(va + len), Floor(pa), attrs) && va % PAGE_SIZE == pa % PAGE_SIZE
    requires x < VA_LIMIT && va <= x < va + len
    ensures Translate(m, l0, x) == To(pa + (x - va), attrs)
  {
    hide Translate;
  }

  ghost predicate MapsNothing(m: Memory, l0: nat) {
    forall x: nat :: x < VA_LIMIT ==> Translate(m, l0, x) == Unmapped
  }

  lemma EmptyTree(m: Memory, live: set<nat>, q: nat)
    requires q !in live && q % PAGE_SIZE == 0 && 0 < q < PA_LIMIT
    ensures var m', at: Shape := m[q := Zeros()], map[[] := q];
            Good(m', at, live + {q}, live) && Kept(m, m', live) && MapsNothing(m', q)
  {
    hide Translate;
    hide Key;
    var m', at: Shape := m[q := Zeros()], map[[] := q];
    assert at[[]] == q;
    assert IsTree(m', at, live + {q});
    forall x: nat | x < VA_LIMIT ensures Translate(m', q, x) == Unmapped {
      TranslateIs(m', at, live + {q}, x);
      KeyIs(x);
      assert Key(x)[..3] !in at;
    }
  }

  // ------------------------------------------------------------ memory layout

  const CODE_0: nat := 0x5000_0000
  const CODE_SIZE: nat := 0x100_0000
  const MEM_0: nat := 0x5100_0000
  const MEM_SIZE: nat := 0x100_0000
  const UART_BASE: nat := 0x900_0000
  const UART_SIZE: nat := 0x1000
  const GICD_BASE: nat := 0x800_0000
  const GICD_SIZE: nat := 0x1_0000
  const GICR_BASE0: nat := 0x80A_0000
  const GICR_FRAME_SIZE: nat := 0x2_0000
  const GICR_NUM_CPUS: nat := 4

  function Min(x: nat, y: nat): nat {
    if y < x then y else x
  }

  /** Where a process's address leads: the UART, the allocator's memory and the kernel by identity, the low window to its image. */
  ghost function ProcessFrame(image: nat, imageLen: nat, kernelEnd: nat, x: nat): Frame {
    if UART_BASE <= x < UART_BASE + UART_SIZE then To(x, PTE_DEV_RW_G)
    else if MEM_0 <= x < MEM_0 + MEM_SIZE then To(x, PTE_KERN_RWX)
    else if CODE_0 <= x < Ceil(Min(image, kernelEnd)) then To(x, PTE_KERN_RWX)
    else if x < Ceil(Min(CODE_0, imageLen)) then To(Floor(image) + x, PTE_PROC_RWX)
    else Unmapped
  }

  ghost predicate MapsProcess(m: Memory, l0: nat, image: nat, imageLen: nat, kernelEnd: nat) {
    forall x: nat :: x < VA_LIMIT ==> Translate(m, l0, x) == ProcessFrame(image, imageLen, kernelEnd, x)
  }

  lemma EmptyRange(m: Memory, l0: nat, va: nat, pa: nat, attrs: nat)
    ensures MapsRange(m, m, l0, va, va, pa, attrs)
  {
  }

  lemma RangeAt(m0: Memory, m: Memory, l0: nat, lo: nat, hi: nat, pa: nat, attrs: nat, x: nat)
    requires MapsRange(m0, m, l0, lo, hi, pa, attrs) && x < VA_LIMIT
    ensures Translate(m, l0, x) == if lo <= x < hi then To(pa + (x - lo), attrs) else Translate(m0, l0, x)
  {
  }

  lemma ProcessRanges(m0: Memory, m1: Memory, m2: Memory, m3: Memory, m4: Memory, l0: nat,
                      image: nat, imageLen: nat, kernelEnd: nat)
    requires MapsNothing(m0, l0)
    requires MapsRange(m0, m1, l0, 0, Ceil(Min(CODE_0, imageLen)), Floor(image), PTE_PROC_RWX)
    requires var k := Min(image, kernelEnd); MapsRange(m1, m2, l0, CODE_0, if k > CODE_0 then Ceil(k) else CODE_0, CODE_0, PTE_KERN_RWX)
    requires MapsRange(m2, m3, l0, MEM_0, MEM_0 + MEM_SIZE, MEM_0, PTE_KERN_RWX)
    requires MapsRange(m3, m4, l0, UART_BASE, UART_BASE + UART_SIZE, UART_BASE, PTE_DEV_RW_G)
    ensures MapsProcess(m4, l0, image, imageLen, kernelEnd)
  {
    hide Translate;
    hide MapsRange;
    var k := Min(image, kernelEnd);
    forall x: nat | x < VA_LIMIT ensures Translate(m4, l0, x) == ProcessFrame(image, imageLen, kernelEnd, x) {
      RangeAt(m0, m1, l0, 0, Ceil(Min(CODE_0, imageLen)), Floor(image), PTE_PROC_RWX, x);
      RangeAt(m1, m2, l0, CODE_0, if k > CODE_0 then Ceil(k) else CODE_0, CODE_0, PTE_KERN_RWX, x);
      RangeAt(m2, m3, l0, MEM_0, MEM_0 + MEM_SIZE, MEM_0, PTE_KERN_RWX, x);
      RangeAt(m3, m4, l0, UART_BASE, UART_BASE + UART_SIZE, UART_BASE, PTE_DEV_RW_G, x);
    }
  }

  /**
    What a process may do where: its own image is the only memory of its map that is not global, the
    UART the only device, and everything but the UART can be executed at EL1, nothing at EL0.
   */
  lemma ProcessAccess(image: nat, imageLen: nat, kernelEnd: nat, x: nat)
    ensures var f := ProcessFrame(image, imageLen, kernelEnd, x);
            var uart := UART_BASE <= x < UART_BASE + UART_SIZE;
            f.To? ==>
              var a := AccessOf(f.attrs);
              && (a.notGlobal <==> !uart && x < CODE_0) && (a.index == 1 <==> uart) && (a.pxn <==> uart)
              && a.uxn && a.accessed && a.perm == 0 && a.share == (if uart then 2 else 3) && a.index <= 1
  {
    PresetAttrs();
  }

  /** The kernel map is all global; its devices are device memory that cannot be executed, the rest is normal and can be. */
  lemma KernelAccess(x: nat)
    ensures KernelFrame(x).To? ==>
              var a := AccessOf(KernelFrame(x).attrs);
              && !a.notGlobal && (a.index == 1 <==> x < CODE_0) && (a.pxn <==> x < CODE_0)
              && a.uxn && a.accessed && a.perm == 0 && a.share == (if x < CODE_0 then 2 else 3) && a.index <= 1
  {
    PresetAttrs();
  }

  /** Relative to `m0`, the distributor and the first `n` redistributor frames lead to themselves. */
  ghost predicate MapsGic(m0: Memory, m: Memory, l0: nat, n: nat) {
    forall x: nat :: x < VA_LIMIT ==>
      Translate(m, l0, x) ==
        if GICD_BASE <= x < GICD_BASE + GICD_SIZE || GICR_BASE0 <= x < GICR_BASE0 + n * GICR_FRAME_SIZE then To(x, PTE_DEV_RW_G)
        else Translate(m0, l0, x)
  }

  lemma GicStart(m0: Memory, m: Memory, l0: nat)
    requires MapsRange(m0, m, l0, GICD_BASE, GICD_BASE + GICD_SIZE, GICD_BASE, PTE_DEV_RW_G)
    ensures MapsGic(m0, m, l0, 0)
  {
    hide Translate;
  }

  lemma GicNext(m0: Memory, m: Memory, m': Memory, l0: nat, n: nat)
    requires MapsGic(m0, m, l0, n)
    requires var frame := GICR_BASE0 + n * GICR_FRAME_SIZE; MapsRange(m, m', l0, frame, frame + GICR_FRAME_SIZE, frame, PTE_DEV_RW_G)
    ensures MapsGic(m0, m', l0, n + 1)
  {
    hide Translate;
  }

  ghost function KernelFrame(x: nat): Frame {
    if CODE_0 <= x < MEM_0 + MEM_SIZE then To(x, PTE_KERN_RWX)
    else if || UART_BASE <= x < UART_BASE + UART_SIZE
            || GICD_BASE <= x < GICD_BASE + GICD_SIZE
            || GICR_BASE0 <= x < GICR_BASE0 + GICR_NUM_CPUS * GICR_FRAME_SIZE
    then To(x, PTE_DEV_RW_G) else Unmapped
  }

  /** The kernel map is the identity on code, memory and devices, and nothing else. */
  ghost predicate MapsKernel(m: Memory, l0: nat) {
    forall x: nat :: x < VA_LIMIT ==> Translate(m, l0, x) == KernelFrame(x)
  }

  lemma KernelRanges(m0: Memory, m1: Memory, m2: Memory, m3: Memory, l0: nat)
    requires MapsNothing(m0, l0) && MapsRange(m0, m1, l0, CODE_0, MEM_0 + MEM_SIZE, CODE_0, PTE_KERN_RWX)
    requires MapsRange(m1, m2, l0, UART_BASE, UART_BASE + UART_SIZE, UART_BASE, PTE_DEV_RW_G) && MapsGic(m2, m3, l0, GICR_NUM_CPUS)
    ensures MapsKernel(m3, l0)
  {
    hide Translate;
  }

  /** A failed assertion stops the machine; `Corrupt` is a call that broke the allocator's lists. */
  datatype Status = Active | Panicked | Corrupt

  /** What a table page takes of the arena: the page and a used header. */
  const PAGE_BLOCK: nat := PAGE_SIZE + Blocks.USED_HEADER

  class Mmu {
    const alloc: Allocator
    const lo: nat
    const hi: nat

    /** The contents of allocated pages, by address. */
    var mem: Memory
    var status: Status

    // The live pointers; blocks that stay live throughout; and whether the lowest block stays free.
    ghost var live: set<nat>
    ghost var held: set<Blocks.Block>
    ghost var low: bool

    predicate Running()
      reads this`status
    {
      status == Active
    }

    /** Nothing has failed, and `live` is what the allocator's layout says. */
    ghost predicate Up()
      reads this`status, this`live, this`held, this`low, alloc
    {
      && status == Active && alloc.Valid() && alloc.base == lo && alloc.end == hi <= PA_LIMIT
      && live == Payloads(alloc.blocks) && held <= Blocks.Live(alloc.blocks)
      && (low ==> LowestStays(alloc.blocks, lo))
    }

    /**
      Why building a map stops: a panic when no free block holds another page, or broken lists when
      the gap in front of the page chosen is too small for a header.  The layout, and the live pointers
      in it, are those before the call that failed.
     */
    ghost predicate Stuck()
      reads this`status, this`live, alloc
    {
      var bs := alloc.blocks;
      && live == Payloads(bs)
      && (status == Panicked ==> Layout.NoneFitsAligned(bs, PAGE_BLOCK, PAGE_SIZE))
      && (status == Corrupt ==> exists i: nat :: Layout.IsAlignedPick(bs, i, PAGE_BLOCK, PAGE_SIZE) && SmallGap(bs, i))
    }

    lemma UpRuns()
      requires Up()
      ensures Running()
    {
    }

    /** `mmu_set_alloc`. */
    constructor (a: Allocator)
      requires a.Valid() && a.end <= PA_LIMIT
      ensures alloc == a && Up() && live == Payloads(a.blocks) && mem == map[] && held == {} && !low
    {
      hide Allocator.Valid;
      hide Payloads;
      alloc, lo, hi := a, a.base, a.end;
      mem, status := map[], Active;
      live, held, low := Payloads(a.blocks), {}, false;
    }

    /**
      `pt_alloc_page_or_die`: a free aligned page of the arena, zeroed.  It panics exactly when no
      free block holds one, and breaks the lists exactly when the gap in front of it is too small
      for a header.
     */
    method PtAllocPage() returns (q: nat, ghost i: nat)
      requires Up()
      modifies this`mem, this`status, this`live, alloc
      ensures var bs := old(alloc.blocks);
              && (status == Panicked <==> Layout.NoneFitsAligned(bs, PAGE_BLOCK, PAGE_SIZE))
              && (status == Corrupt ==> Layout.IsAlignedPick(bs, i, PAGE_BLOCK, PAGE_SIZE) && SmallGap(bs, i))
              && (!Running() ==> Stuck() && alloc.blocks == bs && mem == old(mem) && live == old(live))
              && (Running() ==> Layout.IsAlignedPick(bs, i, PAGE_BLOCK, PAGE_SIZE) && Layout.CutsLegally(bs[i], Layout.Gap(bs[i].addr, PAGE_SIZE), PAGE_BLOCK)
                                && q == bs[i].Payload() + Layout.Gap(bs[i].addr, PAGE_SIZE)
                                && alloc.blocks == Blocks.CarveAfter(bs, i, Layout.Gap(bs[i].addr, PAGE_SIZE), PAGE_BLOCK))
      ensures Running() ==> Up() && q !in old(live) && q % PAGE_SIZE == 0 && 0 < q < PA_LIMIT
      ensures Running() ==> live == old(live) + {q} && mem == old(mem)[q := Zeros()]
    {
      hide Allocator.Valid;
      hide Links.PayloadKept;
      hide Links.OutsideKept;
      hide Blocks.CarveAfter;
      hide Layout.NoneFitsAligned;
      hide Layout.Gap;
      hide Layout.AlignedPick;
      hide CutsOver;
      hide Raw.RawAligned;
      hide Payloads;
      hide LowestStays;
      hide Zeros;
      ghost var bs := alloc.blocks;
      ValidSpan(alloc);
      PagePow();
      var intact: bool;
      q, intact, i := alloc.AlignedAlloc(PAGE_SIZE, PAGE_SIZE, 12);
      if q == 0 {
        status := Panicked;
        return;
      }
      ghost var gap := Layout.Gap(bs[i].addr, PAGE_SIZE);
      if !intact {
        status := Corrupt;
        return;
      }
      Links.Near(bs, lo, hi, i);
      FreeNotLive(bs, lo, hi, i, gap);
      CarveAfterLive(bs, i, gap, PAGE_BLOCK);
      PayloadsCarvedAfter(bs, i, gap, PAGE_BLOCK);
      if low {
        LowestCarved(bs, lo, i, gap, PAGE_BLOCK);
      }
      live := live + {q};
      mem := mem[q := Zeros()];
    }

    /** `ensure_next`: the table below slot `i` of the table at `p`, made if it is missing. */
    method EnsureNext(t: nat, i: nat, ghost at: Shape, ghost p: Path, ghost base: set<nat>)
      returns (next: nat, ghost at': Shape)
      requires Up() && Good(mem, at, live, base) && p in at && at[p] == t && |p| < 3 && i < 512
      modifies this`mem, this`status, this`live, alloc
      ensures Good(mem, at', live, base) && (Running() ==> Up() && Down(p, i) in at' && at'[Down(p, i)] == next)
      ensures [] in at && [] in at' && at'[[]] == at[[]]
      ensures SameEntries(old(mem), at, mem, at') && Kept(old(mem), mem, base)
      ensures !Running() ==> Stuck() && alloc.blocks == old(alloc.blocks) && at' == at
    {
      hide Stuck;
      hide Up;
      hide Allocator.Valid;
      hide IsTree;
      hide Ledger;
      hide Entry;
      hide Load;
      hide Store;
      hide Valid;
      hide NextTable;
      hide DescTable;
      hide Down;
      UpRuns();
      at' := at;
      var d := Load(mem, t, i);
      SlotLink(mem, at, live, p, i);
      UpDown(p, i);
      RootIn(mem, at, live);
      if !Valid(d) {
        ghost var j;
        next, j := PtAllocPage();
        if !Running() {
          return;
        }
        mem := Store(mem, t, i, DescTable(next));
        at' := at[Down(p, i) := next];
        GrowGood(old(mem), at, old(live), base, p, i, next);
        return;
      }
      next := NextTable(d);
    }

    /** `map_page`: afterwards exactly the page of `va` leads to the page of `pa`. */
    method MapPage(l0: nat, va: nat, pa: nat, attrs: nat, ghost at: Shape, ghost base: set<nat>)
      returns (ghost at': Shape)
      requires Up() && Good(mem, at, live, base) && [] in at && at[[]] == l0
      requires pa < PA_LIMIT && AttrsOk(attrs)
      modifies this`mem, this`status, this`live, alloc
      ensures Good(mem, at', live, base) && [] in at' && at'[[]] == l0 && (Running() ==> Up())
      ensures Running() ==> Remapped(old(mem), at, mem, at', Key(va), DescPage(pa, attrs))
      ensures Kept(old(mem), mem, base) && (!Running() ==> Stuck())
    {
      hide Stuck;
      hide Up;
      hide Allocator.Valid;
      hide Good;
      hide SameEntries;
      hide Remapped;
      hide Kept;
      hide DescPage;
      hide Idx;
      hide AttrsOk;
      KeyIs(va);
      ghost var k := Key(va);
      assert k == [Idx(0, va), Idx(1, va), Idx(2, va), Idx(3, va)];
      assert Idx(0, va) == k[0] && Idx(1, va) == k[1] && Idx(2, va) == k[2] && Idx(3, va) == k[3];
      var l1, l2, l3: nat;
      at' := at;
      l1, at' := EnsureNext(l0, Idx(0, va), at, [], base);
      if !Running() {
        return;
      }
      ghost var m1, at1 := mem, at';
      l2, at' := EnsureNext(l1, Idx(1, va), at1, Down([], k[0]), base);
      KeptTrans(old(mem), m1, mem, base);
      if !Running() {
        return;
      }
      ghost var m2, at2 := mem, at';
      SameTrans(old(mem), at, m1, at1, m2, at2);
      l3, at' := EnsureNext(l2, Idx(2, va), at2, Down(Down([], k[0]), k[1]), base);
      KeptTrans(old(mem), m2, mem, base);
      if !Running() {
        return;
      }
      ghost var m3 := mem;
      SameTrans(old(mem), at, m2, at2, m3, at');
      mem := Store(mem, l3, Idx(3, va), DescPage(pa, attrs));
      PageRoundTrip(pa, attrs);
      ghost var p := Down(Down(Down([], k[0]), k[1]), k[2]);
      WriteGood(m3, at', live, base, p, k[3], DescPage(pa, attrs));
      assert Down(p, k[3]) == k;
      RemapAfterSame(old(mem), at, m3, at', mem, at', k, DescPage(pa, attrs));
      KeptTrans(old(mem), m3, mem, base);
    }

    /** `map_range_pages`: the pages that [va, va + len) touches lead to consecutive frames from that of `pa`. */
    method MapRangePages(l0: nat, va: nat, pa: nat, len: nat, attrs: nat, ghost at: Shape, ghost base: set<nat>)
      returns (ghost at': Shape)
      requires Up() && Good(mem, at, live, base) && [] in at && at[[]] == l0
      requires va + len + PAGE_SIZE <= VA_LIMIT && Floor(pa) + (Ceil(va + len) - Floor(va)) <= PA_LIMIT && AttrsOk(attrs)
      modifies this`mem, this`status, this`live, alloc
      ensures Good(mem, at', live, base) && [] in at' && at'[[]] == l0 && (Running() ==> Up())
      ensures Running() ==> MapsRange(old(mem), mem, l0, Floor(va), Ceil(va + len), Floor(pa), attrs)
      ensures Kept(old(mem), mem, base) && (!Running() ==> Stuck())
    {
      hide Stuck;
      hide Up;
      hide Allocator.Valid;
      hide IsTree;
      hide Ledger;
      hide Ranged;
      hide Remapped;
      hide MapsRange;
      hide Kept;
      hide DescPage;
      hide AttrsOk;
      hide Key;
      hide And;
      PageMasked(va);
      PageMasked(pa);
      PageMasked(va + len + PAGE_SIZE - 1);
      var v, a, end := And(va, PAGE_MASK), And(pa, PAGE_MASK), And(va + len + PAGE_SIZE - 1, PAGE_MASK);
      ghost var lo, frame, n: nat := v / PAGE_SIZE, a / PAGE_SIZE, 0;
      at' := at;
      Unchanged(mem, at, lo, frame, attrs, base);
      UpRuns();
      while v < end
        invariant Up() && Running() && Good(mem, at', live, base) && [] in at' && at'[[]] == l0
        invariant v == (lo + n) * PAGE_SIZE && a == (frame + n) * PAGE_SIZE
        invariant n == 0 || v <= end
        invariant Ranged(old(mem), at, mem, at', lo, lo + n, frame, attrs) && Kept(old(mem), mem, base)
      {
        ghost var m, shape := mem, at';
        at' := MapPage(l0, v, a, attrs, at', base);
        KeptTrans(old(mem), m, mem, base);
        if !Running() {
          return;
        }
        RangeStep(old(mem), at, m, shape, mem, at', lo, lo + n, frame, attrs);
        v, a, n := v + PAGE_SIZE, a + PAGE_SIZE, n + 1;
      }
      RangeTranslates(old(mem), at, old(live), mem, at', live, l0, lo, lo + n, frame, attrs);
    }

    // ---------------------------------------------------------------- maps

    /** `pt_root_new`: a root with nothing mapped. */
    method PtRootNew() returns (l0: nat, ghost at: Shape)
      requires Up()
      modifies this`mem, this`status, this`live, alloc
      ensures Running() ==> Up() && [] in at && at[[]] == l0 && Good(mem, at, live, old(live)) && Kept(old(mem), mem, old(live))
      ensures Running() ==> MapsNothing(mem, l0)
      ensures !Running() ==> Stuck()
    {
      hide Stuck;
      hide Up;
      hide Allocator.Valid;
      at := map[];
      ghost var j;
      l0, j := PtAllocPage();
      if !Running() {
        return;
      }
      at := map[[] := l0];
      EmptyTree(old(mem), old(live), l0);
    }

    /**
      `free` of one table page, which is any value outside the arena or the payload of block `i`.
      `ps` are the pages freed before it, from the layout `bs` on.
     */
    method FreePage(t: nat, ghost i: nat, ghost bs: seq<Blocks.Block>, ghost ps: seq<nat>)
      requires Up() && (lo < t < hi ==> Blocks.PayloadOf(alloc.blocks, i, t))
      requires alloc.blocks == AfterFrees(bs, ps) && FreesSound(alloc.pfreeNull, bs, ps)
      requires forall b :: b in held ==> b.Payload() != t
      modifies this`mem, this`status, this`live, alloc
      ensures status == Panicked <==> !(lo < t < hi && Blocks.LiveAt(old(alloc.blocks), i))
      ensures status != Panicked ==> (Running() <==> FreesSound(alloc.pfreeNull, bs, ps + [t]))
      ensures Running() ==> Up() && alloc.blocks == AfterFrees(bs, ps + [t])
      ensures Running() ==> live == old(live) - {t} && mem == old(mem) - {t}
      ensures status == Corrupt ==> !Links.Representable(alloc.ram, lo, alloc.free, hi) && !alloc.pfreeNull && !low
    {
      hide FreeStores.RawFree;
      hide Allocator.Valid;
      hide Links.PayloadKept;
      hide Links.OutsideKept;
      hide Links.Representable;
      hide Blocks.Release;
      hide Links.FreeSound;
      hide AfterFrees;
      hide FreesSound;
      hide Payloads;
      hide LowestStays;
      ghost var was := alloc.blocks;
      ValidSpan(alloc);
      var panic, sound := alloc.Free(t, i);
      if panic {
        status := Panicked;
        return;
      }
      OneMoreFree(alloc.pfreeNull, bs, lo, hi, ps, i);
      if low {
        LowestFreed(alloc.pfreeNull, was, lo, i);
      }
      SoundWith(alloc.pfreeNull, was, i);
      if !sound {
        status := Corrupt;
        return;
      }
      PayloadsReleased(was, lo, hi, i);
      Layout.ReleaseLive(was, lo, hi, i);
      live := live - {t};
      mem := mem - {t};
    }

    /**
      `free_table_level`: frees exactly the table pages at or below `p`, each once, and no other
      page.  It completes exactly when each of these frees, in their order, keeps the lists.
     */
    method FreeTableLevel(t: nat, level: nat, ghost at: Shape, ghost p: Path, ghost bs: seq<Blocks.Block>, ghost ps: seq<nat>)
      requires Up() && Subtree(mem, at, live, p) && at[p] == t && |p| == level <= 3
      requires alloc.blocks == AfterFrees(bs, ps) && FreesSound(alloc.pfreeNull, bs, ps)
      requires forall b :: b in held ==> b.Payload() !in Owned(at)
      modifies this`mem, this`status, this`live, alloc
      ensures Running() <==> FreesSound(alloc.pfreeNull, bs, ps + Order(at, p))
      ensures Running() ==> Up() && alloc.blocks == AfterFrees(bs, ps + Order(at, p))
      ensures Running() ==> live == old(live) - Below(at, p) && mem == old(mem) - Below(at, p)
      ensures !Running() ==> status == Corrupt && !Links.Representable(alloc.ram, lo, alloc.free, hi) && !alloc.pfreeNull && !low
      decreases 3 - level
    {
      hide Up;
      hide Allocator.Valid;
      hide AfterFrees;
      hide FreesSound;
      hide Links.Representable;
      hide Order;
      hide OrderFirst;
      hide Owned;
      hide Subtree;
      hide Trimmed;
      hide Below;
      hide BelowFirst;
      hide Load;
      hide Store;
      hide Valid;
      hide NextTable;
      hide Down;
      hide And;
      TrimFirst(mem, live, at, p);
      NoneFirst(at, p);
      TreeShape(mem, at, live, p);
      OwnedAt(at, p);
      ghost var done := ps;
      NothingOrdered(at, p, ps);
      UpRuns();
      var i := 0;
      while i < 512
        invariant i <= 512 && Up() && Running()
        invariant done == ps + OrderFirst(at, p, i)
        invariant alloc.blocks == AfterFrees(bs, done) && FreesSound(alloc.pfreeNull, bs, done)
        invariant Trimmed(old(mem), mem, at, p, i) && live == old(live) - BelowFirst(at, p, i)
      {
        ghost var m := mem;
        NextSlot(at, p, i);
        TrimNext(old(mem), old(live), m, at, p, i);
        TrimmedSlot(old(mem), m, at, p, i);
        OrderNext(at, p, i, ps);
        var d := Load(mem, t, i);
        if Valid(d) {
          LowBits(d);
          if level < 3 {
            SubtreeSlot(old(mem), at, old(live), p, i);
            ChildIntact(old(mem), old(live), m, at, p, i);
            UpDown(p, i);
            if And(d, 3) == 3 {
              FreeTableLevel(NextTable(d), level + 1, at, Down(p, i), bs, done);
              if !Running() {
                NotAll(alloc.pfreeNull, bs, ps, at, p, i + 1);
                return;
              }
              done := ps + OrderFirst(at, p, i + 1);
            }
          } else {
            LeafBelow(at, p, i);
            assert m - Below(at, Down(p, i)) == m;
          }
          mem := Store(mem, t, i, 0);
        } else if level < 3 {
          SubtreeSlot(old(mem), at, old(live), p, i);
          NoneBelow(at, Down(p, i));
        } else {
          LeafBelow(at, p, i);
        }
        i := i + 1;
      }
      TrimLast(old(mem), old(live), mem, at, p);
      AllSlots(at, p);
      StillLive(old(mem), old(live), at, p);
      OrderLast(at, p, ps);
      ghost var j := PageIndex(t);
      FreePage(t, j, bs, done);
    }

    /** The block of a live page. */
    lemma PageIndex(t: nat) returns (i: nat)
      requires Up() && t in live
      ensures i < |alloc.blocks| && alloc.blocks[i].used && alloc.blocks[i].Payload() == t && lo < t < hi
    {
      hide Allocator.Valid;
      hide Payloads;
      i := PayloadBlock(alloc.blocks, t);
      ValidSpan(alloc);
      Links.Near(alloc.blocks, lo, hi, i);
    }

    /**
      `pt_root_free`: the tables of the map go back, and what was allocated besides them is what is
      left; or one of the frees is unsound, and no blocks fit the memory left behind.
     */
    method PtRootFree(l0: nat, ghost at: Shape, ghost base: set<nat>)
      requires Up() && Good(mem, at, live, base) && [] in at && at[[]] == l0
      requires forall b :: b in held ==> b.Payload() in base
      modifies this`mem, this`status, this`live, alloc
      ensures Running() <==> FreesSound(alloc.pfreeNull, old(alloc.blocks), Order(at, []))
      ensures Running() ==> Up() && live == base && Kept(old(mem), mem, base)
      ensures !Running() ==> status == Corrupt && !Links.Representable(alloc.ram, lo, alloc.free, hi) && !alloc.pfreeNull && !low
    {
      hide Up;
      hide Allocator.Valid;
      hide Links.Representable;
      hide Order;
      hide Below;
      WholeTree(mem, at, live);
      assert [] + Order(at, []) == Order(at, []);
      FreeTableLevel(l0, 0, at, [], alloc.blocks, []);
    }

    // ------------------------------------------------------------- builders

    /** `map_uart`. */
    method MapUart(l0: nat, ghost at: Shape, ghost base: set<nat>) returns (ghost at': Shape)
      requires Up() && Good(mem, at, live, base) && [] in at && at[[]] == l0
      modifies this`mem, this`status, this`live, alloc
      ensures Good(mem, at', live, base) && [] in at' && at'[[]] == l0 && (Running() ==> Up())
      ensures Running() ==> MapsRange(old(mem), mem, l0, UART_BASE, UART_BASE + UART_SIZE, UART_BASE, PTE_DEV_RW_G)
      ensures Kept(old(mem), mem, base) && (!Running() ==> Stuck())
    {
      hide Stuck;
      hide Up;
      hide Allocator.Valid;
      hide Good;
      hide MapsRange;
      hide Kept;
      PresetAttrs();
      at' := MapRangePages(l0, UART_BASE, UART_BASE, UART_SIZE, PTE_DEV_RW_G, at, base);
    }

    /**
      `build_process_map`, on a map with nothing in it: where every address of the process leads.
      `kernelEnd` is the end of the kernel image.
     */
    method BuildProcessMap(l0: nat, image: nat, imageLen: nat, kernelEnd: nat, ghost at: Shape, ghost base: set<nat>)
      returns (ghost at': Shape)
      requires Up() && Good(mem, at, live, base) && [] in at && at[[]] == l0 && MapsNothing(mem, l0)
      requires Floor(image) + Ceil(Min(CODE_0, imageLen)) <= PA_LIMIT && kernelEnd + PAGE_SIZE <= PA_LIMIT
      modifies this`mem, this`status, this`live, alloc
      ensures Good(mem, at', live, base) && [] in at' && at'[[]] == l0 && (Running() ==> Up())
      ensures Running() ==> MapsProcess(mem, l0, image, imageLen, kernelEnd)
      ensures Kept(old(mem), mem, base) && (!Running() ==> Stuck())
    {
      hide Stuck;
      hide Up;
      hide Allocator.Valid;
      hide Good;
      hide MapsRange;
      hide MapsNothing;
      hide MapsProcess;
      hide Kept;
      PresetAttrs();
      var lowLen := Min(CODE_0, imageLen);
      at' := MapRangePages(l0, 0, image, lowLen, PTE_PROC_RWX, at, base);
      if !Running() {
        return;
      }
      ghost var m1 := mem;
      var kEnd := Min(image, kernelEnd);
      if kEnd > CODE_0 {
        at' := MapRangePages(l0, CODE_0, CODE_0, kEnd - CODE_0, PTE_KERN_RWX, at', base);
        KeptTrans(old(mem), m1, mem, base);
        if !Running() {
          return;
        }
      } else {
        EmptyRange(mem, l0, CODE_0, CODE_0, PTE_KERN_RWX);
      }
      ghost var m2 := mem;
      at' := MapRangePages(l0, MEM_0, MEM_0, MEM_SIZE, PTE_KERN_RWX, at', base);
      KeptTrans(old(mem), m2, mem, base);
      if !Running() {
        return;
      }
      ghost var m3 := mem;
      at' := MapUart(l0, at', base);
      KeptTrans(old(mem), m3, mem, base);
      if !Running() {
        return;
      }
      ProcessRanges(old(mem), m1, m2, m3, mem, l0, image, imageLen, kernelEnd);
    }

    /** `map_gic`: the distributor, then one redistributor frame per CPU, side by side. */
    method MapGic(l0: nat, ghost at: Shape, ghost base: set<nat>) returns (ghost at': Shape)
      requires Up() && Good(mem, at, live, base) && [] in at && at[[]] == l0
      modifies this`mem, this`status, this`live, alloc
      ensures Good(mem, at', live, base) && [] in at' && at'[[]] == l0 && (Running() ==> Up())
      ensures Running() ==> MapsGic(old(mem), mem, l0, GICR_NUM_CPUS)
      ensures Kept(old(mem), mem, base) && (!Running() ==> Stuck())
    {
      hide Stuck;
      hide Up;
      hide Allocator.Valid;
      hide Good;
      hide MapsRange;
      hide MapsGic;
      hide Kept;
      PresetAttrs();
      at' := MapRangePages(l0, GICD_BASE, GICD_BASE, GICD_SIZE, PTE_DEV_RW_G, at, base);
      if !Running() {
        return;
      }
      GicStart(old(mem), mem, l0);
      var i := 0;
      while i < GICR_NUM_CPUS
        invariant i <= GICR_NUM_CPUS && Up() && Running() && Good(mem, at', live, base) && [] in at' && at'[[]] == l0
        invariant MapsGic(old(mem), mem, l0, i) && Kept(old(mem), mem, base)
      {
        ghost var m := mem;
        var frame := GICR_BASE0 + i * GICR_FRAME_SIZE;
        at' := MapRangePages(l0, frame, frame, GICR_FRAME_SIZE, PTE_DEV_RW_G, at', base);
        KeptTrans(old(mem), m, mem, base);
        if !Running() {
          return;
        }
        GicNext(old(mem), m, mem, l0, i);
        i := i + 1;
      }
    }

    /** `build_kernel_map`, on a map with nothing in it. */
    method BuildKernelMap(l0: nat, ghost at: Shape, ghost base: set<nat>) returns (ghost at': Shape)
      requires Up() && Good(mem, at, live, base) && [] in at && at[[]] == l0 && MapsNothing(mem, l0)
      modifies this`mem, this`status, this`live, alloc
      ensures Good(mem, at', live, base) && [] in at' && at'[[]] == l0 && (Running() ==> Up())
      ensures Running() ==> MapsKernel(mem, l0)
      ensures Kept(old(mem), mem, base) && (!Running() ==> Stuck())
    {
      hide Stuck;
      hide Up;
      hide Allocator.Valid;
      hide Good;
      hide MapsRange;
      hide MapsNothing;
      hide MapsKernel;
      hide MapsGic;
      hide Kept;
      PresetAttrs();
      at' := MapRangePages(l0, CODE_0, CODE_0, MEM_0 + MEM_SIZE - CODE_0, PTE_KERN_RWX, at, base);
      if !Running() {
        return;
      }
      ghost var m1 := mem;
      at' := MapUart(l0, at', base);
      KeptTrans(old(mem), m1, mem, base);
      if !Running() {
        return;
      }
      ghost var m2 := mem;
      at' := MapGic(l0, at', base);
      KeptTrans(old(mem), m2, mem, base);
      if !Running() {
        return;
      }
      KernelRanges(old(mem), m1, m2, mem, l0);
    }

    /** `proc_map_create`: every table page of the new map is newly allocated. */
    method ProcMapCreate(image: nat, imageLen: nat, kernelEnd: nat) returns (l0: nat, ghost at: Shape)
      requires Up()
      requires Floor(image) + Ceil(Min(CODE_0, imageLen)) <= PA_LIMIT && kernelEnd + PAGE_SIZE <= PA_LIMIT
      modifies this`mem, this`status, this`live, alloc
      ensures Running() ==> Up() && Good(mem, at, live, old(live)) && [] in at && at[[]] == l0 && Kept(old(mem), mem, old(live))
      ensures Running() ==> MapsProcess(mem, l0, image, imageLen, kernelEnd)
      ensures !Running() ==> Stuck()
    {
      hide Stuck;
      hide Up;
      hide Allocator.Valid;
      hide Good;
      hide MapsNothing;
      hide MapsProcess;
      hide Kept;
      l0, at := PtRootNew();
      if !Running() {
        return;
      }
      ghost var m := mem;
      at := BuildProcessMap(l0, image, imageLen, kernelEnd, at, old(live));
      if !Running() {
        return;
      }
      KeptTrans(old(mem), m, mem, old(live));
    }

    /** `kern_map_create`. */
    method KernMapCreate() returns (l0: nat, ghost at: Shape)
      requires Up()
      modifies this`mem, this`status, this`live, alloc
      ensures Running() ==> Up() && Good(mem, at, live, old(live)) && [] in at && at[[]] == l0 && Kept(old(mem), mem, old(live))
      ensures Running() ==> MapsKernel(mem, l0)
      ensures !Running() ==> Stuck()
    {
      hide Stuck;
      hide Up;
      hide Allocator.Valid;
      hide Good;
      hide MapsNothing;
      hide MapsKernel;
      hide Kept;
      l0, at := PtRootNew();
      if !Running() {
        return;
      }
      ghost var m := mem;
      at := BuildKernelMap(l0, at, old(live));
      if !Running() {
        return;
      }
      KeptTrans(old(mem), m, mem, old(live));
    }

    /**
      `proc_map_create`, then `mmu_map_destroy`: the allocator's layout and every other table are as
      before, unless the arena runs out or its lists break.  With the map built (its tables `at`, the
      layout then `full`), that is exactly when each table's `free` is sound; always so when `pfree`
      returns NULL on 0, and in the shipped form when the lowest block was free and cannot hold a
      page at its very start.
     */
    method CreateDestroy(image: nat, imageLen: nat, kernelEnd: nat)
      returns (ghost built: bool, ghost full: seq<Blocks.Block>, ghost at: Shape)
      requires Up()
      requires Floor(image) + Ceil(Min(CODE_0, imageLen)) <= PA_LIMIT && kernelEnd + PAGE_SIZE <= PA_LIMIT
      modifies this, alloc
      ensures Running() ==> built && Up() && alloc.blocks == old(alloc.blocks) && live == old(live) && Kept(old(mem), mem, old(live))
      ensures !built ==> !Running() && Stuck()
      ensures built ==> (Running() <==> FreesSound(alloc.pfreeNull, full, Order(at, [])))
      ensures built ==> Blocks.Live(old(alloc.blocks)) <= Blocks.Live(full) && Payloads(full) == old(live) + Owned(at)
      ensures built && (alloc.pfreeNull || LowestStays(old(alloc.blocks), lo)) ==> Running()
      ensures built && !Running() ==> status == Corrupt && !Links.Representable(alloc.ram, lo, alloc.free, hi)
    {
      hide Stuck;
      hide Allocator.Valid;
      hide Links.Representable;
      hide Payloads;
      hide LowestStays;
      hide FreesSound;
      hide IsTree;
      hide MapsProcess;
      hide Kept;
      hide Order;
      ghost var bs := alloc.blocks;
      ValidSpan(alloc);
      held, low := Blocks.Live(bs), LowestStays(bs, lo);
      HeldPointers(bs);
      built, full := false, bs;
      var l0: nat;
      l0, at := ProcMapCreate(image, imageLen, kernelEnd);
      if !Running() {
        return;
      }
      built, full := true, alloc.blocks;
      ghost var m := mem;
      PtRootFree(l0, at, old(live));
      if !Running() {
        return;
      }
      KeptTrans(old(mem), m, mem, old(live));
      ValidSpan(alloc);
      SamePointers(bs, alloc.blocks, lo, hi);
    }
  }

  /** An aligned page in free block `i` leaves a gap in front too small for a header. */
  ghost predicate SmallGap(bs: seq<Blocks.Block>, i: nat) {
    i < |bs| && 0 < Layout.Gap(bs[i].addr, PAGE_SIZE) < Blocks.FREE_HEADER
  }

  /** The lowest block is free and stays so: a page cannot be cut from its very start. */
  ghost predicate LowestStays(bs: seq<Blocks.Block>, lo: nat) {
    |bs| > 0 && bs[0].addr == lo && !bs[0].used && Layout.Gap(lo, PAGE_SIZE) > 0
  }

  /** A fresh arena that starts on a multiple of 16, as the heap does: no page fits at its very start. */
  lemma FreshLowestStays(lo: nat, hi: nat)
    requires lo % 16 == 0 && lo <= hi
    ensures LowestStays([Blocks.Block(lo, hi - lo, false)], lo)
  {
    assert (lo + Blocks.USED_HEADER) % PAGE_SIZE != 0;
  }

  lemma LowestCarved(bs: seq<Blocks.Block>, lo: nat, i: nat, gap: nat, n: nat)
    requires LowestStays(bs, lo) && i < |bs| && !bs[i].used && gap == Layout.Gap(bs[i].addr, PAGE_SIZE) && gap + n <= bs[i].size
    ensures LowestStays(Blocks.CarveAfter(bs, i, gap, n), lo)
  {
    hide Blocks.Carve;
    hide Blocks.SplitAt;
    hide Layout.Gap;
    if gap == 0 {
      Layout.CarveElems(bs, i, n);
    } else {
      Blocks.SplitElems(bs, i, gap);
      Layout.CarveElems(Blocks.SplitAt(bs, i, gap), i + 1, n);
    }
  }

  lemma LowestFreed(pfreeNull: bool, bs: seq<Blocks.Block>, lo: nat, i: nat)
    requires LowestStays(bs, lo) && i < |bs| && bs[i].used
    ensures LowestStays(Blocks.Release(bs, i), lo) && Links.FreeSound(pfreeNull, bs, i)
  {
    hide Blocks.Release;
    hide Layout.Gap;
    Layout.ReleaseElems(bs, i);
    assert Links.FreeBelow(bs, i);
  }

  lemma SoundWith(pfreeNull: bool, bs: seq<Blocks.Block>, i: nat)
    ensures pfreeNull ==> Links.FreeSound(pfreeNull, bs, i)
  {
  }

  lemma HeldPointers(bs: seq<Blocks.Block>)
    ensures forall b :: b in Blocks.Live(bs) ==> b.Payload() in Payloads(bs)
  {
  }

  lemma ValidSpan(a: Allocator)
    requires a.Valid()
    ensures Blocks.Legal(a.blocks, a.base, a.end) && 0 < a.base
  {
    hide Allocator.Linked;
    hide Blocks.Tiled;
    a.TilingOf();
    a.ArenaOf();
  }

  lemma PagePow()
    ensures Pow2(12) == PAGE_SIZE
  {
    assert Pow2(4) == 16;
    assert Pow2(8) == 256;
  }

  lemma NothingOrdered(at: Shape, p: Path, ps: seq<nat>)
    ensures ps == ps + OrderFirst(at, p, 0)
  {
  }

  /** What the next slot adds to the order: nothing, or the tables below it. */
  lemma OrderNext(at: Shape, p: Path, i: nat, ps: seq<nat>)
    requires i < 512 && |p| <= 3
    ensures |p| < 3 && Down(p, i) in at ==>
              ps + OrderFirst(at, p, i + 1) == ps + OrderFirst(at, p, i) + Order(at, Down(p, i))
    ensures |p| == 3 || Down(p, i) !in at ==> OrderFirst(at, p, i + 1) == OrderFirst(at, p, i)
  {
  }

  lemma OrderLast(at: Shape, p: Path, ps: seq<nat>)
    requires p in at
    ensures ps + Order(at, p) == ps + OrderFirst(at, p, 512) + [at[p]]
  {
  }

  lemma NotAll(pfreeNull: bool, bs: seq<Blocks.Block>, ps: seq<nat>, at: Shape, p: Path, i: nat)
    requires p in at && i <= 512 && !FreesSound(pfreeNull, bs, ps + OrderFirst(at, p, i))
    ensures !FreesSound(pfreeNull, bs, ps + Order(at, p))
  {
    hide FreesSound;
    var rest := OrderStarts(at, p, i);
    assert ps + Order(at, p) == ps + OrderFirst(at, p, i) + rest;
    if FreesSound(pfreeNull, bs, ps + Order(at, p)) {
      SoundPrefix(pfreeNull, bs, ps + OrderFirst(at, p, i), rest);
    }
  }

  lemma RootIn(m: Memory, at: Shape, live: set<nat>)
    requires IsTree(m, at, live)
    ensures [] in at
  {
  }

  lemma Unchanged(m: Memory, at: Shape, lo: nat, frame: nat, attrs: nat, base: set<nat>)
    ensures Ranged(m, at, m, at, lo, lo, frame, attrs) && Kept(m, m, base)
  {
  }

  lemma TreeShape(m: Memory, at: Shape, live: set<nat>, p: Path)
    requires Subtree(m, at, live, p)
    ensures Paths(at) && Distinct(at) && p in at
  {
  }

  lemma TrimmedSlot(m0: Memory, m: Memory, at: Shape, p: Path, i: nat)
    requires Trimmed(m0, m, at, p, i) && i < 512
    ensures p in at && Load(m, at[p], i) == Load(m0, at[p], i)
  {
  }

  lemma LeafBelow(at: Shape, p: Path, i: nat)
    requires Paths(at) && |p| == 3
    ensures Below(at, Down(p, i)) == {}
  {
    LeafHasNone(at, p, i + 1);
    NextSlot(at, p, i);
  }

  lemma StillLive(m: Memory, live: set<nat>, at: Shape, p: Path)
    requires Subtree(m, at, live, p)
    ensures p in at && at[p] in live - BelowFirst(at, p, 512)
  {
    assert PageOk(m, live, at[p]);
    NotFreed(at, p, 512, p);
  }
}
