/**
  Pieces too short for a free header.  `alloc` of fewer than 8 bytes cuts off a used block of 12 to
  19 bytes: exactly when the lists are right then, and exactly when they are right after its `free`.
 */
module Short {
  import opened Ram
  import opened Words
  import opened Blocks
  import opened Links
  import opened Layout
  import opened Raw
  import opened Growth

  // ------------------------------------------------------------ strung blocks

  lemma {:induction false} StrungOrder(bs: seq<Block>, base: nat, end: nat, i: nat, j: nat)
    requires Strung(bs, base, end) && i < j < |bs|
    ensures bs[i].End() <= bs[j].addr
    decreases j
  {
    if i + 1 < j {
      StrungOrder(bs, base, end, i, j - 1);
    }
    assert bs[j - 1].End() == bs[j].addr;
  }

  /** Where a block lies among the others. */
  lemma StrungNear(bs: seq<Block>, base: nat, end: nat, i: nat)
    requires Strung(bs, base, end) && i < |bs|
    ensures base <= bs[i].addr && bs[i].End() <= end && USED_HEADER <= bs[i].size
    ensures forall j :: 0 <= j < i ==> bs[j].End() <= bs[i].addr
    ensures forall j :: i < j < |bs| ==> bs[i].End() <= bs[j].addr
    ensures i + 1 < |bs| <==> bs[i].End() != end
    ensures i + 1 < |bs| ==> bs[i].End() == bs[i + 1].addr
  {
    forall j | 0 <= j < i ensures bs[j].End() <= bs[i].addr {
      StrungOrder(bs, base, end, j, i);
    }
    forall j | i < j < |bs| ensures bs[i].End() <= bs[j].addr {
      StrungOrder(bs, base, end, i, j);
    }
  }

  /** The free list runs upwards. */
  lemma StrungFree(bs: seq<Block>, base: nat, end: nat, k: nat)
    requires Strung(bs, base, end) && k < |FreeBlocks(bs)|
    ensures var fs := FreeBlocks(bs);
            && fs[k].size >= USED_HEADER && base <= fs[k].addr && fs[k].End() <= end && fs[k].End() <= AddrOr(fs, k + 1, end)
            && (forall l :: k < l < |fs| ==> fs[k].End() <= fs[l].addr)
            && (forall l :: 0 <= l < k ==> fs[l].End() <= fs[k].addr)
  {
    hide FreeBlocks;
    hide Strung;
    var fs := FreeBlocks(bs);
    var i := FreeIndex(bs, k);
    StrungNear(bs, base, end, i);
    forall l | 0 <= l < |fs| && l != k ensures if l < k then fs[l].End() <= fs[k].addr else fs[k].End() <= fs[l].addr {
      var j := FreeIndex(bs, l);
      if l < k && i <= j {
        PrefixCount(bs, i, j);
      }
      if k < l && j <= i {
        PrefixCount(bs, j, i);
      }
    }
  }

  // ------------------------------------------------------------------ the cut

  /** A request below 4 bytes cut off the first free block leaves memory that fits no blocks. */
  lemma SmallCarveBroken(m: seq<byte>, base: nat, end: nat, bs: seq<Block>, i: nat, size: nat)
    requires i < |bs| && Lists(m, base, bs[i].addr, end, bs)
    requires 8 <= size < 16 && size + MIN_SPLIT <= bs[i].size
    ensures !Representable(Carved(m, bs[i].addr, end, bs, i, size).0, base, Carved(m, bs[i].addr, end, bs, i, size).1, end)
  {
    hide Word;
    hide RawCarve;
    hide FreeBlocks;
    hide Representable;
    var b := bs[i].addr;
    var r := RawCarve(m, b, end, b, size);
    Near(bs, base, end, i);
    SizeIs(m, base, b, end, bs, i);
    hide Lists;
    if size < USED_HEADER {
      CarvedHead(m, end, b, size, b);
      forall j | 0 <= j < i ensures Word(r.0, bs[j].addr + 4) == Word(m, bs[j].addr + 4) {
        CarvedHead(m, end, b, size, bs[j].addr + 4);
      }
      TooSmall(m, r.0, base, b, r.1, end, bs, i);
    } else {
      HeadLost(m, end, b, size);
      LostHead(r.0, base, r.1, end, b + size);
    }
  }

  lemma LostHead(m: seq<byte>, base: nat, free: int, end: nat, s: nat)
    requires free == s && base < s < end && (Word(m, s + 12) == 0 || Word(m, s) == 0)
    ensures !Representable(m, base, free, end)
  {
    hide Threaded;
    hide FreeBlocks;
    hide Word;
    forall bs | Threaded(m, base, free, end, bs) ensures false {
      HeadBack(m, base, free, end, bs);
    }
  }

  /** The first free block is at the base or points back, and points ahead. */
  lemma HeadBack(m: seq<byte>, base: nat, free: int, end: nat, bs: seq<Block>)
    requires Threaded(m, base, free, end, bs) && free != end
    ensures Word(m, free + 12) > 0 && (free == base || Word(m, free) > 0)
  {
    hide FreeBlocks;
    hide Word;
    hide Strung;
    ThreadedHead(m, base, free, end, bs);
    StrungFree(bs, base, end, 0);
    var j := FreeIndex(bs, 0);
    assert HeaderAt(m, bs, j);
    StrungNear(bs, base, end, j);
    if j > 0 {
      StrungNear(bs, base, end, j - 1);
    } else {
      StrungStart(bs, base, end);
    }
  }

  lemma StrungStart(bs: seq<Block>, base: nat, end: nat)
    requires Strung(bs, base, end)
    ensures bs[0].addr == base
  {
  }

  /** With a free block below, a cut that does not go right leaves other lists than those of the cut. */
  lemma CarveBroken(m: seq<byte>, base: nat, free: int, end: nat, bs: seq<Block>, i: nat, size: nat)
    requires Lists(m, base, free, end, bs) && Coalesced(bs) && Cuts(bs, i, size) && !CarvesRight(bs, i, size)
    requires end - base + FREE_HEADER <= U32
    ensures !Threaded(Carved(m, free, end, bs, i, size).0, base, Carved(m, free, end, bs, i, size).1, end, Carve(bs, i, size))
  {
    hide Lists;
    hide Threaded;
    hide FreeBlocks;
    hide RawCarve;
    hide RawJoin;
    hide CarvesRight;
    hide GrowsRight;
    hide Carve;
    var r := Carved(m, free, end, bs, i, size);
    TilingIs(m, base, free, end, bs);
    if i > 0 {
      assert bs[i - 1].used;
      GrowsAsCarves(bs, i - 1, size);
      GrowthBroken(m, base, free, end, bs, i - 1, size);
      AroundCut(m, base, free, end, bs, i, size);
      if Threaded(r.0, base, r.1, end, Carve(bs, i, size)) {
        JoinThreads(r.0, base, r.1, end, bs, i - 1, size);
        assert false;
      }
    } else if size < USED_HEADER {
      TooShort(r.0, base, r.1, end, bs, i, size);
    } else {
      FirstIs(m, base, free, end, bs, size);
      SmallCarveBroken(m, base, end, bs, i, size);
    }
  }

  lemma TooShort(m: seq<byte>, base: nat, free: int, end: nat, bs: seq<Block>, i: nat, size: nat)
    requires Cuts(bs, i, size) && size < USED_HEADER
    ensures !Threaded(m, base, free, end, Carve(bs, i, size))
  {
    hide FreeBlocks;
    hide Carve;
    CarvedShape(bs, i, size);
    assert Carve(bs, i, size)[i].size < USED_HEADER;
  }

  /** A free block at the base is the first; a cut of 16 bytes or more off it is right. */
  lemma FirstIs(m: seq<byte>, base: nat, free: int, end: nat, bs: seq<Block>, size: nat)
    requires Lists(m, base, free, end, bs) && Cuts(bs, 0, size)
    ensures free == bs[0].addr && (CarvesRight(bs, 0, size) <==> size >= 16)
  {
    AroundCut(m, base, free, end, bs, 0, size);
  }

  /**
    Taking fewer than 20 bytes off free block `i`, splitting it: the lists of the layout with the short
    used block are there exactly when `CarvesRight`; for the first free block, when 16 bytes are taken.
   */
  lemma CarveExact(m: seq<byte>, base: nat, free: int, end: nat, bs: seq<Block>, i: nat, size: nat)
    requires Lists(m, base, free, end, bs) && Coalesced(bs) && Cuts(bs, i, size) && size < FREE_HEADER
    requires end - base + FREE_HEADER <= U32
    ensures var r := Carved(m, free, end, bs, i, size);
            Threaded(r.0, base, r.1, end, Carve(bs, i, size)) <==> CarvesRight(bs, i, size)
    ensures free == bs[i].addr ==> (CarvesRight(bs, i, size) <==> size >= 16)
  {
    hide Lists;
    hide Threaded;
    hide FreeBlocks;
    hide RawCarve;
    hide Carve;
    AroundCut(m, base, free, end, bs, i, size);
    if CarvesRight(bs, i, size) {
      CarveWorks(m, base, free, end, bs, i, size);
    } else {
      CarveBroken(m, base, free, end, bs, i, size);
    }
  }

  /** The lists are right once `alloc` has taken `n` bytes of free block `i`. */
  ghost predicate TakesRight(bs: seq<Block>, i: nat, n: nat)
    requires i < |bs| && !bs[i].used
  {
    CutsWhole(bs[i], n) || CarvesRight(bs, i, n)
  }

  lemma RightIsLong(bs: seq<Block>, i: nat, n: nat)
    requires Cuts(bs, i, n) && CarvesRight(bs, i, n)
    ensures n >= 16
  {
  }

  /** Whether a small cut goes right can be read off memory: from the list head and the block's own word. */
  lemma CarveRead(m: seq<byte>, base: nat, free: int, end: nat, bs: seq<Block>, i: nat, size: nat)
    requires Lists(m, base, free, end, bs) && Cuts(bs, i, size) && size < FREE_HEADER
    ensures CarvesRight(bs, i, size) <==>
            size >= 16 && (bs[i].addr == free || Overlay(Word(m, bs[i].addr + 16), size) == Word(m, bs[i].addr + 16))
  {
    hide FreeBlocks;
    hide Word;
    hide Tiled;
    hide Lists;
    hide Overlay;
    AroundCut(m, base, free, end, bs, i, size);
  }

  /** 16 bytes off a block that is not the first free one: the last word of the live block below grows by 16. */
  lemma LostWord(m: seq<byte>, base: nat, free: int, end: nat, bs: seq<Block>, i: nat)
    requires Lists(m, base, free, end, bs) && Coalesced(bs) && Cuts(bs, i, 16) && bs[i].addr != free
    ensures i > 0 && bs[i - 1].used && bs[i - 1].Payload() <= bs[i].addr - 4 && bs[i].addr == bs[i - 1].End()
    ensures Word(Carved(m, free, end, bs, i, 16).0, bs[i].addr - 4) == Wrap32(Word(m, bs[i].addr - 4) + 16)
    ensures !PayloadKept(bs, m, Carved(m, free, end, bs, i, 16).0)
  {
    hide FreeBlocks;
    hide Word;
    hide Lists;
    hide RawCarve;
    hide Wrap32;
    hide Tiled;
    var n, r := bs[i].addr, Carved(m, free, end, bs, i, 16).0;
    AroundCut(m, base, free, end, bs, i, 16);
    TilingIs(m, base, free, end, bs);
    Near(bs, base, end, i);
    if i == 0 {
      FirstIs(m, base, free, end, bs, 16);
    }
    Near(bs, base, end, i - 1);
    WordBelow(m, free, end, n);
    WrapMoves(Word(m, n - 4));
    if PayloadKept(bs, m, r) {
      PayloadWord(bs, i - 1, m, r);
    }
  }

  lemma SizeBelow(z: nat, xlen: nat)
    requires xlen + MIN_SPLIT <= z < U32
    ensures (z - xlen) % U64 == z - xlen && xlen % U32 == xlen
  {
  }

  /** An in-place `realloc` that splits its neighbour. */
  lemma ExtendIs(m: seq<byte>, base: nat, free: int, end: nat, bs: seq<Block>, i: nat, size: nat)
    requires Lists(m, base, free, end, bs) && Splits(bs, i, size)
    ensures RawExtend(m, free, end, bs[i].addr, bs[i + 1].addr, size) == RawGrow(m, free, end, bs[i].addr, bs[i + 1].addr, size)
  {
    hide Lists;
    hide RawCarve;
    hide RawJoin;
    hide Word;
    hide RawUse;
    hide FreeBlocks;
    AroundCut(m, base, free, end, bs, i + 1, size);
    SmallDifference(bs[i + 1].size, size);
  }

  lemma SmallDifference(z: nat, xlen: nat)
    requires xlen <= z < U64
    ensures (z - xlen) % U64 == z - xlen
  {
  }

  lemma WrapMoves(x: nat)
    requires x < U32
    ensures Wrap32(x + 16) != x
  {
  }

  lemma PayloadWord(bs: seq<Block>, j: nat, m: seq<byte>, r: seq<byte>)
    requires j < |bs| && bs[j].used && bs[j].Payload() + 4 <= bs[j].End() <= |m| && PayloadKept(bs, m, r)
    ensures Word(r, bs[j].End() - 4) == Word(m, bs[j].End() - 4)
  {
    hide Word;
    var x := bs[j].End() - 4;
    forall y | x <= y < x + 4 ensures Byte(r, y) == Byte(m, y) {
      assert r[y] == m[y];
    }
    SameWord(m, r, x);
  }

  lemma WordBelow(m: seq<byte>, free: int, end: int, n: nat)
    requires n != free && 4 <= n && 56 <= Word(m, n + 4) <= Word(m, n + 12) && n + Word(m, n + 12) <= end && end + 20 <= |m|
    ensures Word(RawCarve(m, free, end, n, 16).0, n - 4) == Wrap32(Word(m, n - 4) + 16)
  {
    hide Word;
    hide Put;
    hide Wrap32;
    hide RawSplit;
    var m1 := RawSplit(m, end, n, 16);
    LastWordSplit(m, end, n, 16);
    SplitElsewhere(m, end, n, 16, 0);
    SplitBelow(m, end, n, 16, n - 4);
    var v := Word(m1, n - 4) + 16;
    PutReads(m1, n - 4, v);
    PutApart(m1, n - 4, v, n + 12);
    PutApart(m1, n - 4, v, n + 16);
    PutApart(m1, n - 4, v, n + 32);
    var m2 := Put(m1, n - 4, v);
    var w := Word(m2, n + 32) + Word(m2, n + 16);
    PutApart(m2, n + 32, w, n - 4);
    var m3 := if n + 16 != end then Put(m2, n + 32, w) else m2;
    PutApart(m3, n + 8, 1, n - 4);
  }
}
