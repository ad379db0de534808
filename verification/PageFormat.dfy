/**
  Translation table descriptors and indices of `rtprog/mmu.c` (the VMSAv8-64 format with
  4 KiB granule, section D8.3 of Arm DDI 0487), written with the source's masks, and what
  those masks mean as arithmetic.
 */
module PageFormat {
  import opened Bits
  import opened Words

  const PAGE_SIZE: nat := 0x1000
  const PAGE_MASK: nat := 0xFFFF_FFFF_FFFF_F000
  const PA_LIMIT: nat := 0x10_0000_0000
  const VA_LIMIT: nat := 0x1_0000_0000_0000

  const PTE_KERN_RWX: nat := 0x40_0000_0000_0703
  const PTE_PROC_RWX: nat := 0x40_0000_0000_0F03
  const PTE_DEV_RW_G: nat := 0x60_0000_0000_0607

  datatype Kind = Invalid | Table | Leaf

  /** `level_span_bytes`: what one slot of a table covers. */
  function Span(level: nat): (s: nat)
    ensures s > 0
  {
    if level == 0 then 0x80_0000_0000 else if level == 1 then 0x4000_0000 else if level == 2 then 0x20_0000 else 0x1000
  }

  /** `idx_l0` to `idx_l3`. */
  function Idx(level: nat, va: nat): nat {
    And(va / Span(level), 0x1FF)
  }

  function DescTable(pa: nat): nat {
    Or(Or(And(pa, PAGE_MASK), 1), 3)
  }

  function DescPage(pa: nat, attrs: nat): nat {
    Or(And(pa, PAGE_MASK), attrs)
  }

  predicate Valid(d: nat) {
    And(d, 1) != 0
  }

  function NextTable(d: nat): nat {
    And(d, PAGE_MASK)
  }

  /** `desc_outaddr`: the address bits below PA_BITS. */
  function OutAddr(d: nat): nat {
    And(d, And(0xF_FFFF_FFFF, PAGE_MASK))
  }

  /** What of a descriptor is not its address field. */
  function AttrBits(d: nat): int {
    d - OutAddr(d)
  }

  /** `desc_kind`. */
  function KindOf(d: nat, level: nat): Kind {
    if !Valid(d) then Invalid
    else if level < 3 then
      if And(d, 3) == 3 then Table
      else if And(d, 3) == 1 && (level == 1 || level == 2) then Leaf
      else Invalid
    else if And(d, 3) == 3 then Leaf else Invalid
  }

  /** Attribute bits that make a page descriptor and stay off the address field. */
  predicate AttrsOk(attrs: nat) {
    attrs < U64 && attrs % 4 == 3 && attrs % PA_LIMIT < PAGE_SIZE
  }

  /**
    The attribute fields of a page descriptor: per process rather than global, accessed, shareability
    (2 outer, 3 inner), access permission (0: EL1 reads and writes, EL0 has none), index of the memory
    type (0 normal, 1 device), and never executed at EL0 and at EL1.
   */
  datatype Access = Access(notGlobal: bool, accessed: bool, share: nat, perm: nat, index: nat, uxn: bool, pxn: bool)

  function AccessOf(attrs: int): Access {
    Access(attrs / 0x800 % 2 == 1, attrs / 0x400 % 2 == 1, attrs / 0x100 % 4, attrs / 0x40 % 4, attrs / 4 % 8,
           attrs / 0x40_0000_0000_0000 % 2 == 1, attrs / 0x20_0000_0000_0000 % 2 == 1)
  }

  /** The page descriptor bits with these fields and nothing else set. */
  function BitsOf(a: Access): int {
    3 + 4 * a.index + 0x40 * a.perm + 0x100 * a.share
    + (if a.accessed then 0x400 else 0) + (if a.notGlobal then 0x800 else 0)
    + (if a.pxn then 0x20_0000_0000_0000 else 0) + (if a.uxn then 0x40_0000_0000_0000 else 0)
  }

  // ------------------------------------------------------------ arithmetic

  lemma Powers()
    ensures Pow2(1) == 2 && Pow2(2) == 4 && Pow2(9) == 512 && Pow2(12) == PAGE_SIZE && Pow2(36) == PA_LIMIT && Pow2(64) == U64
  {
    assert Pow2(12) == 4096;
    Pow2Sum(12, 24);
    Pow2Sum(12, 12);
    assert Pow2(24) == 0x100_0000;
    Pow2Sum(32, 32);
    Pow2Sum(16, 16);
    assert Pow2(16) == 0x1_0000;
  }

  const KERNEL := Access(false, true, 3, 0, 0, true, false)
  const PROCESS := Access(true, true, 3, 0, 0, true, false)
  const DEVICE := Access(false, true, 2, 0, 1, true, true)

  /**
    The presets, field by field: kernel pages are global, process pages are not, both are normal
    memory that EL1 may execute; device pages are global device memory that nobody may execute.
   */
  lemma PresetAttrs()
    ensures AttrsOk(PTE_KERN_RWX) && AttrsOk(PTE_PROC_RWX) && AttrsOk(PTE_DEV_RW_G)
    ensures PTE_KERN_RWX == BitsOf(KERNEL) && AccessOf(PTE_KERN_RWX) == KERNEL
    ensures PTE_PROC_RWX == BitsOf(PROCESS) && AccessOf(PTE_PROC_RWX) == PROCESS
    ensures PTE_DEV_RW_G == BitsOf(DEVICE) && AccessOf(PTE_DEV_RW_G) == DEVICE
  {
  }

  lemma PageMasked(x: nat)
    requires x < U64
    ensures And(x, PAGE_MASK) == x - x % PAGE_SIZE
  {
    hide And;
    hide Pow2;
    Powers();
    AndField(x, 64, 12);
  }

  lemma OutAddrIs(d: nat)
    ensures OutAddr(d) == d % PA_LIMIT - d % PAGE_SIZE
  {
    hide And;
    hide Pow2;
    Powers();
    PageMasked(0xF_FFFF_FFFF);
    AndField(d, 36, 12);
  }

  lemma LowBits(d: nat)
    ensures And(d, 1) == d % 2 && And(d, 3) == d % 4
  {
    hide And;
    hide Pow2;
    Powers();
    AndLowMask(d, 1);
    AndLowMask(d, 2);
  }

  /** The index at a level is a digit of the address in base 512. */
  lemma IdxIs(level: nat, va: nat)
    ensures Idx(level, va) == va / Span(level) % 512
  {
    hide And;
    hide Pow2;
    Powers();
    AndLowMask(va / Span(level), 9);
  }

  lemma KindIs(d: nat, level: nat)
    ensures KindOf(d, level) ==
            (if d % 4 == 3 then (if level < 3 then Table else Leaf)
             else if d % 4 == 1 && 1 <= level <= 2 then Leaf else Invalid)
    ensures Valid(d) <==> d % 2 == 1
  {
    LowBits(d);
  }

  /** A table descriptor is valid, of table kind, and leads back to the table. */
  lemma TableRoundTrip(pa: nat)
    requires pa % PAGE_SIZE == 0 && pa < PA_LIMIT
    ensures var d := DescTable(pa);
            && d == pa + 3 && d % 4 == 3 && Valid(d) && NextTable(d) == pa && OutAddr(d) == pa
            && forall level: nat :: level < 3 ==> KindOf(d, level) == Table
  {
    hide And;
    hide Or;
    hide Pow2;
    Powers();
    PageMasked(pa);
    OrField(pa, 1, 12);
    OrLow(pa);
    PlusThree(pa);
    PageMasked(pa + 3);
    OutAddrIs(pa + 3);
    LowBits(pa + 3);
  }

  lemma PlusThree(pa: nat)
    requires pa % PAGE_SIZE == 0 && pa < PA_LIMIT
    ensures (pa + 3) % 2 == 1 && (pa + 3) % 4 == 3 && (pa + 3) % PAGE_SIZE == 3 && (pa + 3) % PA_LIMIT == pa + 3
  {
  }

  lemma OrLow(pa: nat)
    requires pa % PAGE_SIZE == 0
    ensures Or(pa + 1, 3) == pa + 3
  {
    OrStep(pa + 1, 3);
    OrStep((pa + 1) / 2, 1);
    assert (pa + 1) / 4 == pa / 4;
    OrZero(pa / 4);
  }

  /** A page descriptor is valid, a leaf at level 3, leads back to the frame and carries exactly its attributes. */
  lemma PageRoundTrip(pa: nat, attrs: nat)
    requires pa < PA_LIMIT && AttrsOk(attrs)
    ensures var d := DescPage(pa, attrs);
            d % 4 == 3 && Valid(d) && KindOf(d, 3) == Leaf && OutAddr(d) == pa - pa % PAGE_SIZE && AttrBits(d) == attrs
  {
    hide And;
    hide Or;
    hide Pow2;
    Powers();
    PageMasked(pa);
    hide OutAddr;
    hide KindOf;
    hide Valid;
    var p, hi, lo := pa - pa % PAGE_SIZE, attrs / PA_LIMIT, attrs % PA_LIMIT;
    assert attrs == hi * PA_LIMIT + lo;
    assert lo % 4 == 3;
    OrBetween(p, hi, lo, 36, 12);
    var d := hi * PA_LIMIT + p + lo;
    assert DescPage(pa, attrs) == d;
    PageParts(p, hi, lo);
    OutAddrIs(d);
    KindIs(d, 3);
  }

  lemma PageParts(p: nat, hi: nat, lo: nat)
    requires p % PAGE_SIZE == 0 && p + PAGE_SIZE <= PA_LIMIT && lo < PAGE_SIZE && lo % 4 == 3
    ensures var d := hi * PA_LIMIT + p + lo; d % PA_LIMIT == p + lo && d % PAGE_SIZE == lo && d % 4 == 3
  {
  }
}
