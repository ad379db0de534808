/**
  Which layouts memory can hold, read off its words; and exactly when an in-place `realloc`
  whose split leaves overlapping headers still leaves correct lists.
 */
module Growth {
  import opened Ram
  import opened Words
  import opened Blocks
  import opened Links
  import opened Layout
  import opened Raw

  // ----------------------------------------------------------- lists in memory

  /** Memory holds both lists of the layout `bs`, with the given free-list head. */
  ghost predicate Lists(m: seq<byte>, base: nat, free: int, end: nat, bs: seq<Block>) {
    && Tiled(bs, base, end) && end + FREE_HEADER <= |m|
    && (forall j :: 0 <= j < |bs| ==> HeaderAt(m, bs, j))
    && (forall k :: 0 <= k < |FreeBlocks(bs)| ==> LinksAt(m, FreeBlocks(bs), end, k))
    && free == AddrOr(FreeBlocks(bs), 0, end)
  }

  ghost function Read(m: seq<byte>, keys: set<int>, off: nat): Field {
    map a | a in keys :: Word(m, a + off)
  }

  lemma HeaderFrom(m: seq<byte>, bs: seq<Block>, prev: Field, next: Field, used: Field, j: nat)
    requires Sizes(next, bs) && Uses(used, bs) && Backs(prev, bs) && j < |bs|
    requires Mirrors(m, prev, PREV) && Mirrors(m, next, NEXT) && Mirrors(m, used, USED)
    ensures HeaderAt(m, bs, j)
  {
    hide Word;
    hide SizeBefore;
    var a := bs[j].addr;
    assert prev[a] == SizeBefore(bs, j) && next[a] == bs[j].size;
  }

  lemma LinksFrom(m: seq<byte>, fs: seq<Block>, end: nat, nfree: Field, pfree: Field, k: nat)
    requires Forwards(nfree, fs, end) && Backwards(pfree, fs) && k < |fs|
    requires Mirrors(m, nfree, NFREE) && Mirrors(m, pfree, PFREE)
    ensures LinksAt(m, fs, end, k)
  {
    hide Word;
    hide AddrOr;
    hide DistBefore;
    var a := fs[k].addr;
    assert nfree[a] == AddrOr(fs, k + 1, end) - a && pfree[a] == DistBefore(fs, k);
  }

  lemma EndKnown(m: seq<byte>, prev: Field, bs: seq<Block>, end: nat)
    requires prev.Keys == Addrs(bs) + {end as int} && Mirrors(m, prev, PREV)
    ensures end + FREE_HEADER <= |m|
  {
    hide Word;
    assert end in prev.Keys;
  }

  lemma ListsFromImage(m: seq<byte>, base: nat, free: int, end: nat, bs: seq<Block>,
                       prev: Field, next: Field, used: Field, nfree: Field, pfree: Field)
    requires Image(m, base, free, end, bs, prev, next, used, nfree, pfree)
    ensures Lists(m, base, free, end, bs)
  {
    hide FreeBlocks;
    hide Word;
    hide Tiled;
    hide Sizes;
    hide Uses;
    hide Backs;
    hide Forwards;
    hide Backwards;
    hide Mirrors;
    hide Addrs;
    hide HeaderAt;
    hide LinksAt;
    EndKnown(m, prev, bs, end);
    var fs := FreeBlocks(bs);
    forall j | 0 <= j < |bs| ensures HeaderAt(m, bs, j) {
      HeaderFrom(m, bs, prev, next, used, j);
    }
    forall k | 0 <= k < |fs| ensures LinksAt(m, fs, end, k) {
      LinksFrom(m, fs, end, nfree, pfree, k);
    }
  }

  lemma ImageFromLists(m: seq<byte>, base: nat, free: int, end: nat, bs: seq<Block>)
    requires Lists(m, base, free, end, bs)
    ensures var keys := Addrs(bs) + {end as int};
            Image(m, base, free, end, bs, Read(m, keys, PREV), Read(m, keys, NEXT), Read(m, keys, USED), Read(m, keys, NFREE), Read(m, keys, PFREE))
  {
    hide FreeBlocks;
    hide Word;
    hide Tiled;
    hide Sizes;
    hide Uses;
    hide Backs;
    hide Forwards;
    hide Backwards;
    hide Mirrors;
    hide Addrs;
    hide HeaderAt;
    hide LinksAt;
    hide Read;
    var keys := Addrs(bs) + {end as int};
    KeysInside(m, base, end, bs);
    ReadMirrors(m, keys, PREV);
    ReadMirrors(m, keys, NEXT);
    ReadMirrors(m, keys, USED);
    ReadMirrors(m, keys, NFREE);
    ReadMirrors(m, keys, PFREE);
    ReadHeaders(m, bs, keys);
    ReadLinks(m, FreeBlocks(bs), keys, end);
  }

  lemma KeysInside(m: seq<byte>, base: nat, end: nat, bs: seq<Block>)
    requires Tiled(bs, base, end) && end + FREE_HEADER <= |m|
    ensures var keys := Addrs(bs) + {end as int};
            && (forall a :: a in keys ==> 0 <= a && a + FREE_HEADER <= |m|)
            && (forall j :: 0 <= j < |bs| ==> bs[j].addr in keys)
            && (forall k :: 0 <= k < |FreeBlocks(bs)| ==> FreeBlocks(bs)[k].addr in keys)
  {
    hide FreeBlocks;
    var keys := Addrs(bs) + {end as int};
    FreeMembers(bs);
    Disjoint(bs, base, end);
    hide Tiled;
    var fs := FreeBlocks(bs);
    forall k | 0 <= k < |fs| ensures fs[k].addr in keys {
      assert fs[k] in fs;
    }
    forall a | a in keys ensures 0 <= a && a + FREE_HEADER <= |m| {
      if a != end {
        var x :| x in bs && x.addr == a;
        var j :| 0 <= j < |bs| && bs[j] == x;
        Near(bs, base, end, j);
      }
    }
  }

  lemma ReadMirrors(m: seq<byte>, keys: set<int>, off: nat)
    requires forall a :: a in keys ==> 0 <= a && a + FREE_HEADER <= |m|
    ensures Mirrors(m, Read(m, keys, off), off) && Read(m, keys, off).Keys == keys
  {
    hide Word;
  }

  lemma ReadHeaders(m: seq<byte>, bs: seq<Block>, keys: set<int>)
    requires (forall j :: 0 <= j < |bs| ==> HeaderAt(m, bs, j)) && forall j :: 0 <= j < |bs| ==> bs[j].addr in keys
    ensures Sizes(Read(m, keys, NEXT), bs) && Uses(Read(m, keys, USED), bs) && Backs(Read(m, keys, PREV), bs)
  {
    hide Word;
    hide SizeBefore;
    forall j | 0 <= j < |bs|
      ensures Read(m, keys, NEXT)[bs[j].addr] == bs[j].size && Read(m, keys, PREV)[bs[j].addr] == SizeBefore(bs, j)
      ensures Read(m, keys, USED)[bs[j].addr] == (if bs[j].used then 1 else 0)
    {
      assert HeaderAt(m, bs, j);
    }
  }

  lemma ReadLinks(m: seq<byte>, fs: seq<Block>, keys: set<int>, end: nat)
    requires (forall k :: 0 <= k < |fs| ==> LinksAt(m, fs, end, k)) && forall k :: 0 <= k < |fs| ==> fs[k].addr in keys
    ensures Forwards(Read(m, keys, NFREE), fs, end) && Backwards(Read(m, keys, PFREE), fs)
  {
    hide Word;
    hide AddrOr;
    hide DistBefore;
    forall k | 0 <= k < |fs|
      ensures Read(m, keys, NFREE)[fs[k].addr] == AddrOr(fs, k + 1, end) - fs[k].addr
      ensures Read(m, keys, PFREE)[fs[k].addr] == DistBefore(fs, k)
    {
      assert LinksAt(m, fs, end, k);
    }
  }

  /** The words read one by one and the ghost fields of the allocator say the same. */
  lemma ImageIsLists(m: seq<byte>, base: nat, free: int, end: nat, bs: seq<Block>)
    ensures (exists prev, next, used, nfree, pfree :: Image(m, base, free, end, bs, prev, next, used, nfree, pfree))
            <==> Lists(m, base, free, end, bs)
  {
    hide Image;
    hide Lists;
    forall prev, next, used, nfree, pfree | Image(m, base, free, end, bs, prev, next, used, nfree, pfree)
      ensures Lists(m, base, free, end, bs)
    {
      ListsFromImage(m, base, free, end, bs, prev, next, used, nfree, pfree);
    }
    if Lists(m, base, free, end, bs) {
      ImageFromLists(m, base, free, end, bs);
    }
  }

  // --------------------------------------------------------------- too small

  /** Two layouts agree on every block below one whose size words are the same. */
  lemma {:induction false} SameStart(m: seq<byte>, m': seq<byte>, base: nat, free: int, free': int, end: nat,
                                     bs: seq<Block>, bs': seq<Block>, i: nat)
    requires Lists(m, base, free, end, bs) && Threaded(m', base, free', end, bs') && i < |bs|
    requires forall j :: 0 <= j < i ==> Word(m', bs[j].addr + 4) == Word(m, bs[j].addr + 4)
    ensures i < |bs'| && bs'[i].addr == bs[i].addr
    decreases i
  {
    hide FreeBlocks;
    hide Word;
    if i > 0 {
      SameStart(m, m', base, free, free', end, bs, bs', i - 1);
      assert HeaderAt(m, bs, i - 1) && HeaderAt(m', bs', i - 1);
      hide Tiled;
      Near(bs, base, end, i - 1);
      Near(bs, base, end, i);
    }
  }

  /** A header on the chain of sizes from the base with less than 12 in its size word fits no blocks. */
  lemma TooSmall(m: seq<byte>, m': seq<byte>, base: nat, free: int, free': int, end: nat, bs: seq<Block>, i: nat)
    requires Lists(m, base, free, end, bs) && i < |bs| && Word(m', bs[i].addr + 4) < USED_HEADER
    requires forall j :: 0 <= j < i ==> Word(m', bs[j].addr + 4) == Word(m, bs[j].addr + 4)
    ensures !Representable(m', base, free', end)
  {
    hide Lists;
    hide Threaded;
    hide Word;
    forall bs' | Threaded(m', base, free', end, bs') ensures false {
      SameStart(m, m', base, free, free', end, bs, bs', i);
      ThreadedAt(m', base, free', end, bs', i);
    }
  }

  lemma SizeIs(m: seq<byte>, base: nat, free: int, end: nat, bs: seq<Block>, i: nat)
    requires Lists(m, base, free, end, bs) && i < |bs|
    ensures Word(m, bs[i].addr + 4) == bs[i].size >= FREE_HEADER
  {
    hide FreeBlocks;
    hide Word;
    assert HeaderAt(m, bs, i);
  }

  // ------------------------------------------------------------------- shifted

  /** Used block `i` takes `size` bytes of the free block after it, which keeps the rest. */
  ghost function Shifted(bs: seq<Block>, i: nat, size: nat): (r: seq<Block>)
    requires i + 1 < |bs| && size <= bs[i + 1].size
    ensures |r| == |bs|
  {
    bs[i := bs[i].(size := bs[i].size + size)][i + 1 := Block(bs[i + 1].addr + size, bs[i + 1].size - size, bs[i + 1].used)]
  }

  /** Growing block `i` by `size` bytes splits the free block after it. */
  ghost predicate Splits(bs: seq<Block>, i: nat, size: nat) {
    i + 1 < |bs| && bs[i].used && !bs[i + 1].used && size + MIN_SPLIT <= bs[i + 1].size
  }

  lemma GrowIsShifted(bs: seq<Block>, i: nat, size: nat)
    requires Splits(bs, i, size)
    ensures Grow(bs, i, size) == Shifted(bs, i, size)
  {
    var c := Carve(bs, i + 1, size);
    CarveElems(bs, i + 1, size);
    MergeElems(c, i);
  }

  lemma ShiftedTiled(bs: seq<Block>, base: nat, end: nat, i: nat, size: nat)
    requires Tiled(bs, base, end) && Splits(bs, i, size)
    ensures Tiled(Shifted(bs, i, size), base, end)
  {
    var r := Shifted(bs, i, size);
    forall j, l | 0 <= j < l < |r| && l == j + 1 ensures r[j].End() == r[l].addr {
      assert bs[j].End() == bs[l].addr;
    }
  }

  /** The free list with its `k`-th block moved up. */
  lemma ShiftedFree(bs: seq<Block>, i: nat, size: nat)
    requires Splits(bs, i, size)
    ensures var k, fs := |FreeBlocks(bs[..i + 1])|, FreeBlocks(bs);
            k < |fs| && fs[k] == bs[i + 1] && FreeBlocks(Shifted(bs, i, size)) == fs[k := Shifted(bs, i, size)[i + 1]]
  {
    hide FreeBlocks;
    var r := Shifted(bs, i, size);
    FreeAround(bs, i + 1);
    FreeAround(r, i + 1);
    assert r[i + 2..] == bs[i + 2..];
    assert bs[..i + 1] == bs[..i] + [bs[i]] && r[..i + 1] == bs[..i] + [r[i]];
    FreeConcat(bs[..i], [bs[i]]);
    FreeConcat(bs[..i], [r[i]]);
    NoneFree([bs[i]]);
    NoneFree([r[i]]);
  }

  /** Where the free block after block `i` lies, and its neighbours in the free list. */
  lemma AroundGrowth(m: seq<byte>, base: nat, free: int, end: nat, bs: seq<Block>, i: nat, size: nat)
    requires Lists(m, base, free, end, bs) && Splits(bs, i, size)
    ensures var b, n, k, fs := bs[i].addr, bs[i + 1].addr, |FreeBlocks(bs[..i + 1])|, FreeBlocks(bs);
            && b + FREE_HEADER <= n == b + bs[i].size && Adjacent(m, b, n, size, end) && end + FREE_HEADER <= |m|
            && k < |fs| && fs[k] == bs[i + 1] && (k == 0 <==> n == free)
            && Word(m, n + 4) == bs[i + 1].size && Word(m, n + 12) == AddrOr(fs, k + 1, end) - n
            && Word(m, n + 4) <= Word(m, n + 12) && n + Word(m, n + 12) <= end
            && (k > 0 ==> base <= fs[k - 1].addr && fs[k - 1].addr + FREE_HEADER <= b && Word(m, n + 16) == n - fs[k - 1].addr
                          && Word(m, fs[k - 1].addr + 12) == n - fs[k - 1].addr)
  {
    hide FreeBlocks;
    hide Word;
    hide Tiled;
    hide Increasing;
    var k, fs := |FreeBlocks(bs[..i + 1])|, FreeBlocks(bs);
    ShiftedFree(bs, i, size);
    FreeIncreasing(bs, base, end);
    NearFree(fs, end, k);
    assert HeaderAt(m, bs, i) && HeaderAt(m, bs, i + 1) && LinksAt(m, fs, end, k);
    Near(bs, base, end, i);
    Near(bs, base, end, i + 1);
    if k > 0 {
      assert LinksAt(m, fs, end, k - 1);
      BelowUsed(bs, base, end, i, k);
    }
  }

  lemma BelowUsed(bs: seq<Block>, base: nat, end: nat, i: nat, k: nat)
    requires Tiled(bs, base, end) && i + 1 < |bs| && bs[i].used && !bs[i + 1].used && 0 < k < |FreeBlocks(bs)|
    requires FreeBlocks(bs)[k] == bs[i + 1]
    ensures base <= FreeBlocks(bs)[k - 1].addr && FreeBlocks(bs)[k - 1].addr + FREE_HEADER <= bs[i].addr
  {
    hide FreeBlocks;
    var fs := FreeBlocks(bs);
    FreeIncreasing(bs, base, end);
    var j := FreeIndex(bs, k - 1);
    Near(bs, base, end, j);
    assert fs[k - 1].End() <= fs[k].addr;
    Near(bs, base, end, i + 1);
    Near(bs, base, end, i);
  }

  // ----------------------------------------------------------- exact condition

  /**
    When growing block `i` by `size` bytes, splitting the free block after it, leaves correct lists:
    when the piece cut off holds a whole header; or all but its last word, and that word is not
    needed because the block is the first free one, or by chance still reads as it did.
   */
  ghost predicate GrowsRight(bs: seq<Block>, i: nat, size: nat)
    requires Splits(bs, i, size)
  {
    var k, fs := |FreeBlocks(bs[..i + 1])|, FreeBlocks(bs);
    size >= FREE_HEADER || (size >= 16 && (k == 0 || Overlay(DistBefore(fs, k), size) == DistBefore(fs, k)))
  }

  /** Growing block `i` in place to a payload of `size` bytes leaves correct lists. */
  ghost predicate GrowsFine(bs: seq<Block>, i: nat, size: nat) {
    i < |bs| && bs[i].size - USED_HEADER <= size &&
    (Splits(bs, i, size - (bs[i].size - USED_HEADER)) ==> GrowsRight(bs, i, size - (bs[i].size - USED_HEADER)))
  }

  lemma OverlayApart(d: nat, size: nat)
    requires 16 <= size < 20 && 40 <= d
    ensures Overlay(d, size) == d || Overlay(d, size) + 4 <= d || d + 4 <= Overlay(d, size)
  {
  }

  ghost function Grown(m: seq<byte>, free: int, end: nat, bs: seq<Block>, i: nat, size: nat): (seq<byte>, int)
    requires i + 1 < |bs|
  {
    RawGrow(m, free, end, bs[i].addr, bs[i + 1].addr, size)
  }

  /** The word the lower free block should have had patched. */
  lemma MissedPatch(m: seq<byte>, base: nat, free: int, end: nat, bs: seq<Block>, i: nat, size: nat)
    requires Lists(m, base, free, end, bs) && Splits(bs, i, size) && size > 0
    requires var k := |FreeBlocks(bs[..i + 1])|; k > 0 && k < |FreeBlocks(bs)|
    requires var pf, n := FreeBlocks(bs)[|FreeBlocks(bs[..i + 1])| - 1].addr, bs[i + 1].addr;
             var x := n - Word(RawSplit(m, end, n, size), n + 16) + 12;
             x + 4 <= pf + 12 || pf + 16 <= x
    ensures !Lists(Grown(m, free, end, bs, i, size).0, base, Grown(m, free, end, bs, i, size).1, end, Shifted(bs, i, size))
  {
    hide FreeBlocks;
    hide Word;
    hide RawGrow;
    hide RawSplit;
    hide Tiled;
    var b, n, k, fs := bs[i].addr, bs[i + 1].addr, |FreeBlocks(bs[..i + 1])|, FreeBlocks(bs);
    AroundGrowth(m, base, free, end, bs, i, size);
    ShiftedFree(bs, i, size);
    var pf := fs[k - 1].addr;
    GrowMisses(m, free, end, b, n, size, pf + 12);
    var r, ls := Grown(m, free, end, bs, i, size).0, FreeBlocks(Shifted(bs, i, size));
    assert ls[k - 1] == fs[k - 1] && ls[k].addr == n + size;
    assert Lists(r, base, Grown(m, free, end, bs, i, size).1, end, Shifted(bs, i, size)) ==> LinksAt(r, ls, end, k - 1);
  }

  /** With the lower patch out of the way, a word of the grown block or of the rest is wrong. */
  lemma OwnWordWrong(m: seq<byte>, base: nat, free: int, end: nat, bs: seq<Block>, i: nat, size: nat)
    requires Lists(m, base, free, end, bs) && Splits(bs, i, size) && size < 16
    requires var b, n := bs[i].addr, bs[i + 1].addr;
             var m1 := RawSplit(m, end, n, size);
             if size < 8 then PatchesOff(m1, free, n, b) else PatchesLow(m1, free, n, b)
    ensures !Lists(Grown(m, free, end, bs, i, size).0, base, Grown(m, free, end, bs, i, size).1, end, Shifted(bs, i, size))
  {
    hide FreeBlocks;
    hide Word;
    hide RawGrow;
    hide RawSplit;
    hide Tiled;
    hide Increasing;
    var b, n, k := bs[i].addr, bs[i + 1].addr, |FreeBlocks(bs[..i + 1])|;
    AroundGrowth(m, base, free, end, bs, i, size);
    ShiftedFree(bs, i, size);
    ShiftedTiled(bs, base, end, i, size);
    var r, bs', ls := Grown(m, free, end, bs, i, size), Shifted(bs, i, size), FreeBlocks(Shifted(bs, i, size));
    FreeIncreasing(bs', base, end);
    NearFree(ls, end, k);
    if size < 8 {
      GrowSizesWrong(m, free, end, b, n, size);
    } else if size == 12 {
      GrowNextZero(m, free, end, b, n);
    } else {
      GrowPrevWrong(m, free, end, b, n, size);
    }
    assert k < |ls|;
    assert Lists(r.0, base, r.1, end, bs') ==> HeaderAt(r.0, bs', i);
    assert Lists(r.0, base, r.1, end, bs') ==> HeaderAt(r.0, bs', i + 1);
    var linked := LinksAt(r.0, ls, end, k);
    assert Lists(r.0, base, r.1, end, bs') ==> linked;
  }

  /** Whether a small growth goes right can be read off memory: from the list head and the block's own word. */
  lemma GrowthRead(m: seq<byte>, base: nat, free: int, end: nat, bs: seq<Block>, i: nat, size: nat)
    requires Lists(m, base, free, end, bs) && Splits(bs, i, size) && size < FREE_HEADER
    ensures GrowsRight(bs, i, size) <==>
            size >= 16 && (bs[i + 1].addr == free || Overlay(Word(m, bs[i + 1].addr + 16), size) == Word(m, bs[i + 1].addr + 16))
  {
    hide FreeBlocks;
    hide Word;
    hide Tiled;
    hide Lists;
    hide Overlay;
    AroundGrowth(m, base, free, end, bs, i, size);
  }

  /** Otherwise the lists are wrong. */
  lemma GrowthBroken(m: seq<byte>, base: nat, free: int, end: nat, bs: seq<Block>, i: nat, size: nat)
    requires Lists(m, base, free, end, bs) && Splits(bs, i, size) && !GrowsRight(bs, i, size)
    ensures !Lists(Grown(m, free, end, bs, i, size).0, base, Grown(m, free, end, bs, i, size).1, end, Shifted(bs, i, size))
  {
    hide FreeBlocks;
    hide Word;
    hide RawGrow;
    hide RawSplit;
    hide Tiled;
    hide Lists;
    hide Overlay;
    var b, n, k, fs := bs[i].addr, bs[i + 1].addr, |FreeBlocks(bs[..i + 1])|, FreeBlocks(bs);
    AroundGrowth(m, base, free, end, bs, i, size);
    var m1 := RawSplit(m, end, n, size);
    if size == 0 {
      SameSizeBack(m, end, n);
      OwnWordWrong(m, base, free, end, bs, i, size);
    } else if k == 0 {
      OwnWordWrong(m, base, free, end, bs, i, size);
    } else {
      var pf := fs[k - 1].addr;
      var x := n - Word(m1, n + 16) + 12;
      if x + 4 <= pf + 12 || pf + 16 <= x {
        MissedPatch(m, base, free, end, bs, i, size);
      } else if size < 16 {
        OwnWordWrong(m, base, free, end, bs, i, size);
      } else {
        SplitElsewhere(m, end, n, size, 0);
        OverlayApart(n - pf, size);
        assert false;
      }
    }
  }

  // ---------------------------------------------------------------- it works

  /** Taking `size` bytes off free block `i` splits it. */
  ghost predicate Cuts(bs: seq<Block>, i: nat, size: nat) {
    i < |bs| && !bs[i].used && size + MIN_SPLIT <= bs[i].size
  }

  /**
    When taking `size` bytes off free block `i`, splitting it, leaves correct lists: when the piece
    holds a whole header; or all but its last word, and that word is not needed because the block is
    the first free one, or by chance still reads as it did.
   */
  ghost predicate CarvesRight(bs: seq<Block>, i: nat, size: nat)
    requires Cuts(bs, i, size)
  {
    var k, fs := |FreeBlocks(bs[..i])|, FreeBlocks(bs);
    size >= FREE_HEADER || (size >= 16 && (k == 0 || Overlay(DistBefore(fs, k), size) == DistBefore(fs, k)))
  }

  lemma CarvedShape(bs: seq<Block>, i: nat, size: nat)
    requires Cuts(bs, i, size)
    ensures var c := Carve(bs, i, size);
            && |c| == |bs| + 1 && c[i] == Block(bs[i].addr, size, true) && c[i + 1] == Block(bs[i].addr + size, bs[i].size - size, false)
            && (forall j :: 0 <= j < i ==> c[j] == bs[j]) && (forall j :: i + 1 < j < |c| ==> c[j] == bs[j - 1])
  {
    hide Carve;
    CarveElems(bs, i, size);
  }

  lemma CarvedStrung(bs: seq<Block>, base: nat, end: nat, i: nat, size: nat)
    requires Tiled(bs, base, end) && Cuts(bs, i, size) && USED_HEADER <= size
    ensures Strung(Carve(bs, i, size), base, end)
  {
    hide Carve;
    CarvedShape(bs, i, size);
    var c := Carve(bs, i, size);
    forall j, l | 0 <= j < l < |c| && l == j + 1 ensures c[j].End() == c[l].addr {
      if j < i {
        assert bs[j].End() == bs[l].addr;
      } else if j > i {
        assert bs[j - 1].addr + bs[j - 1].size == bs[j - 1].End();
        if j < |bs| {
          assert bs[j - 1].End() == bs[j].addr;
        }
      }
    }
  }

  /** The free list with its `k`-th block moved up. */
  lemma CarvedFree(bs: seq<Block>, i: nat, size: nat)
    requires Cuts(bs, i, size)
    ensures var k, fs, c := |FreeBlocks(bs[..i])|, FreeBlocks(bs), Carve(bs, i, size);
            k < |fs| && fs[k] == bs[i] && i + 1 < |c| && FreeBlocks(c) == fs[k := c[i + 1]]
  {
    hide FreeBlocks;
    hide Carve;
    CarvedShape(bs, i, size);
    var c := Carve(bs, i, size);
    FreeAround(bs, i);
    FreeAround(c, i + 1);
    assert c[i + 2..] == bs[i + 1..];
    assert c[..i + 1] == bs[..i] + [c[i]];
    FreeConcat(bs[..i], [c[i]]);
    NoneFree([c[i]]);
  }

  /** Where free block `i` lies, and its neighbours in the free list. */
  lemma AroundCut(m: seq<byte>, base: nat, free: int, end: nat, bs: seq<Block>, i: nat, size: nat)
    requires Lists(m, base, free, end, bs) && Cuts(bs, i, size)
    ensures var n, k, fs := bs[i].addr, |FreeBlocks(bs[..i])|, FreeBlocks(bs);
            && base <= n && end + FREE_HEADER <= |m| && k < |fs| && fs[k] == bs[i] && (k == 0 <==> n == free)
            && Word(m, n) == SizeBefore(bs, i) && Word(m, n + 4) == bs[i].size && Word(m, n + 12) == AddrOr(fs, k + 1, end) - n
            && Word(m, n + 16) == DistBefore(fs, k)
            && Word(m, n + 4) <= Word(m, n + 12) && n + Word(m, n + 12) <= end
            && (k > 0 ==> base <= fs[k - 1].addr && fs[k - 1].addr + FREE_HEADER <= n && DistBefore(fs, k) == n - fs[k - 1].addr
                          && Word(m, fs[k - 1].addr + 12) == n - fs[k - 1].addr)
  {
    hide FreeBlocks;
    hide Word;
    hide Tiled;
    hide Increasing;
    hide Carve;
    var k, fs := |FreeBlocks(bs[..i])|, FreeBlocks(bs);
    CarvedFree(bs, i, size);
    FreeIncreasing(bs, base, end);
    NearFree(fs, end, k);
    assert HeaderAt(m, bs, i) && LinksAt(m, fs, end, k);
    Near(bs, base, end, i);
    if k > 0 {
      assert LinksAt(m, fs, end, k - 1);
      var j := FreeIndex(bs, k - 1);
      Near(bs, base, end, j);
    }
  }

  ghost function Carved(m: seq<byte>, free: int, end: nat, bs: seq<Block>, i: nat, size: nat): (seq<byte>, int)
    requires i < |bs|
  {
    RawCarve(m, free, end, bs[i].addr, size)
  }

  /** The free block below, when there is one; anything otherwise. */
  ghost function LowerFree(bs: seq<Block>, i: nat): int
    requires i < |bs|
  {
    var k, fs := |FreeBlocks(bs[..i])|, FreeBlocks(bs);
    if 0 < k <= |fs| then fs[k - 1].addr else 0
  }

  lemma CarvableHere(m: seq<byte>, base: nat, free: int, end: nat, bs: seq<Block>, i: nat, size: nat)
    requires Lists(m, base, free, end, bs) && Cuts(bs, i, size) && size < FREE_HEADER && CarvesRight(bs, i, size)
    ensures Carvable(m, free, end, bs[i].addr, size, LowerFree(bs, i))
  {
    hide FreeBlocks;
    hide Word;
    hide Tiled;
    hide Overlay;
    AroundCut(m, base, free, end, bs, i, size);
  }

  /** The header words of another block keep their values, save three patched ones. */
  lemma OtherWord(m: seq<byte>, base: nat, free: int, end: nat, bs: seq<Block>, i: nat, size: nat, j: nat, off: nat)
    requires Lists(m, base, free, end, bs) && Cuts(bs, i, size) && size < FREE_HEADER && CarvesRight(bs, i, size)
    requires j < |bs| && j != i && off + 4 <= FREE_HEADER
    requires j == i + 1 ==> off >= 4
    requires var nf := bs[i].addr + Word(m, bs[i].addr + 12); !(bs[j].addr == nf && off > 12)
    requires !(bs[j].addr == LowerFree(bs, i) && 8 < off < 16)
    ensures Word(Carved(m, free, end, bs, i, size).0, bs[j].addr + off) == Word(m, bs[j].addr + off)
  {
    hide FreeBlocks;
    hide Word;
    hide Byte;
    hide RawCarve;
    hide Tiled;
    hide Lists;
    hide Overlay;
    var n, k, a := bs[i].addr, |FreeBlocks(bs[..i])|, bs[j].addr;
    AroundCut(m, base, free, end, bs, i, size);
    CarvableHere(m, base, free, end, bs, i, size);
    TilingIs(m, base, free, end, bs);
    Near(bs, base, end, j);
    Near(bs, base, end, i);
    FreeSpot(bs, base, end, k, j);
    var r, pf := Carved(m, free, end, bs, i, size).0, LowerFree(bs, i);
    forall y | a + off <= y < a + off + 4 ensures Byte(r, y) == Byte(m, y) {
      CarveElsewhere(m, free, end, n, size, pf, y);
    }
    SameWord(m, r, a + off);
  }

  lemma TilingIs(m: seq<byte>, base: nat, free: int, end: nat, bs: seq<Block>)
    requires Lists(m, base, free, end, bs)
    ensures Tiled(bs, base, end)
  {
  }

  /** The neighbours in the free list are blocks of the layout, so block `j` is one of them or clear of them. */
  lemma FreeSpot(bs: seq<Block>, base: nat, end: nat, k: nat, j: nat)
    requires Tiled(bs, base, end) && k < |FreeBlocks(bs)| && j < |bs|
    ensures var fs := FreeBlocks(bs);
            var x := AddrOr(fs, k + 1, end);
            x == bs[j].addr || x + FREE_HEADER <= bs[j].addr || bs[j].addr + FREE_HEADER <= x
    ensures k > 0 ==> var x := FreeBlocks(bs)[k - 1].addr;
                      x == bs[j].addr || x + FREE_HEADER <= bs[j].addr || bs[j].addr + FREE_HEADER <= x
  {
    hide FreeBlocks;
    hide Tiled;
    var fs := FreeBlocks(bs);
    Near(bs, base, end, j);
    if k + 1 < |fs| {
      var l := FreeIndex(bs, k + 1);
      Near(bs, base, end, l);
    }
    if k > 0 {
      var l := FreeIndex(bs, k - 1);
      Near(bs, base, end, l);
    }
  }

  /** The header of a block other than the one cut. */
  lemma OtherHeader(m: seq<byte>, base: nat, free: int, end: nat, bs: seq<Block>, i: nat, size: nat, j: nat)
    requires Lists(m, base, free, end, bs) && Cuts(bs, i, size) && size < FREE_HEADER && CarvesRight(bs, i, size)
    requires j < |bs| && j != i
    ensures var r, a := Carved(m, free, end, bs, i, size).0, bs[j].addr;
            && (j != i + 1 ==> Word(r, a) == SizeBefore(bs, j)) && Word(r, a + 4) == bs[j].size
            && Word(r, a + 8) == (if bs[j].used then 1 else 0)
  {
    hide FreeBlocks;
    hide Word;
    hide RawCarve;
    hide Tiled;
    hide Overlay;
    hide CarvesRight;
    hide LowerFree;
    assert HeaderAt(m, bs, j);
    if j != i + 1 {
      OtherWord(m, base, free, end, bs, i, size, j, 0);
    }
    OtherWord(m, base, free, end, bs, i, size, j, 4);
    OtherWord(m, base, free, end, bs, i, size, j, 8);
  }

  /** Every header of the carved layout, in memory. */
  lemma CarvedHeader(m: seq<byte>, base: nat, free: int, end: nat, bs: seq<Block>, i: nat, size: nat, j: nat)
    requires Lists(m, base, free, end, bs) && Cuts(bs, i, size) && size < FREE_HEADER && CarvesRight(bs, i, size)
    requires end - base + FREE_HEADER <= U32 && j < |Carve(bs, i, size)|
    ensures HeaderAt(Carved(m, free, end, bs, i, size).0, Carve(bs, i, size), j)
  {
    hide FreeBlocks;
    hide Word;
    hide RawCarve;
    hide Tiled;
    hide Overlay;
    hide Carvable;
    hide CarvesRight;
    hide LowerFree;
    hide Carve;
    var n := bs[i].addr;
    AroundCut(m, base, free, end, bs, i, size);
    CarvableHere(m, base, free, end, bs, i, size);
    CarveWords(m, free, end, n, size, LowerFree(bs, i));
    CarvedShape(bs, i, size);
    Near(bs, base, end, i);
    if j < i {
      OtherHeader(m, base, free, end, bs, i, size, j);
    } else if j > i + 1 {
      OtherHeader(m, base, free, end, bs, i, size, j - 1);
      assert HeaderAt(m, bs, j - 1);
    }
  }

  /** Links of the free list with its `k`-th block moved up, in terms of those before. */
  lemma ShiftedLinks(fs: seq<Block>, end: int, k: nat, x: Block, l: nat)
    requires k < |fs| && l < |fs|
    ensures var ls := fs[k := x];
            && (l != k ==> ls[l] == fs[l]) && ls[k] == x
            && (l != k && l + 1 != k ==> AddrOr(ls, l + 1, end) == AddrOr(fs, l + 1, end))
            && (l + 1 == k ==> AddrOr(ls, l + 1, end) == x.addr) && (l == k ==> AddrOr(ls, l + 1, end) == AddrOr(fs, l + 1, end))
            && (l != k && l != k + 1 ==> DistBefore(ls, l) == DistBefore(fs, l))
            && (l == k + 1 ==> DistBefore(ls, l) == fs[l].addr - x.addr)
            && (l == k ==> DistBefore(ls, l) == if k > 0 then x.addr - fs[k - 1].addr else 0)
  {
  }

  /** Free blocks other than the one that moves and its neighbours in the list. */
  lemma OtherLinks(m: seq<byte>, base: nat, free: int, end: nat, bs: seq<Block>, i: nat, size: nat, l: nat)
    requires Lists(m, base, free, end, bs) && Cuts(bs, i, size) && size < FREE_HEADER && CarvesRight(bs, i, size)
    requires l < |FreeBlocks(bs)| && l != |FreeBlocks(bs[..i])|
    ensures var k, a, r := |FreeBlocks(bs[..i])|, FreeBlocks(bs)[l].addr, Carved(m, free, end, bs, i, size).0;
            (l + 1 != k ==> Word(r, a + 12) == Word(m, a + 12)) && (l != k + 1 ==> Word(r, a + 16) == Word(m, a + 16))
  {
    hide FreeBlocks;
    hide Word;
    hide RawCarve;
    hide Tiled;
    hide Increasing;
    hide Overlay;
    hide CarvesRight;
    var n, k, fs := bs[i].addr, |FreeBlocks(bs[..i])|, FreeBlocks(bs);
    AroundCut(m, base, free, end, bs, i, size);
    FreeIncreasing(bs, base, end);
    NearFree(fs, end, k);
    NearFree(fs, end, l);
    var j := FreeIndex(bs, l);
    Near(bs, base, end, i);
    assert j != i;
    if l + 1 != k {
      OtherWord(m, base, free, end, bs, i, size, j, 12);
    }
    if l != k + 1 {
      OtherWord(m, base, free, end, bs, i, size, j, 16);
    }
  }

  lemma CarvedLink(m: seq<byte>, base: nat, free: int, end: nat, bs: seq<Block>, i: nat, size: nat, l: nat)
    requires Lists(m, base, free, end, bs) && Cuts(bs, i, size) && size < FREE_HEADER && CarvesRight(bs, i, size)
    requires end - base + FREE_HEADER <= U32 && l < |FreeBlocks(Carve(bs, i, size))|
    ensures LinksAt(Carved(m, free, end, bs, i, size).0, FreeBlocks(Carve(bs, i, size)), end, l)
  {
    hide FreeBlocks;
    hide Word;
    hide RawCarve;
    hide Tiled;
    hide Increasing;
    hide Overlay;
    hide Carvable;
    hide CarvesRight;
    hide AddrOr;
    hide DistBefore;
    hide HeaderAt;
    hide Carve;
    var n, k, fs := bs[i].addr, |FreeBlocks(bs[..i])|, FreeBlocks(bs);
    AroundCut(m, base, free, end, bs, i, size);
    CarvableHere(m, base, free, end, bs, i, size);
    CarveWords(m, free, end, n, size, LowerFree(bs, i));
    CarvedFree(bs, i, size);
    CarvedShape(bs, i, size);
    FreeIncreasing(bs, base, end);
    NearFree(fs, end, l);
    Near(bs, base, end, i);
    assert LinksAt(m, fs, end, l);
    ShiftedLinks(fs, end, k, Carve(bs, i, size)[i + 1], l);
    if l != k {
      OtherLinks(m, base, free, end, bs, i, size, l);
    }
    if l == k + 1 {
      NextInList(fs, end, k);
    }
  }

  lemma NextInList(fs: seq<Block>, end: int, k: nat)
    requires k + 1 < |fs|
    ensures AddrOr(fs, k + 1, end) == fs[k + 1].addr && DistBefore(fs, k + 1) == fs[k + 1].addr - fs[k].addr
  {
  }

  /** A cut of 16 to 19 bytes under that condition leaves both lists, with a used block too short for its last words. */
  lemma CarveWorks(m: seq<byte>, base: nat, free: int, end: nat, bs: seq<Block>, i: nat, size: nat)
    requires Lists(m, base, free, end, bs) && Cuts(bs, i, size) && size < FREE_HEADER && CarvesRight(bs, i, size)
    requires end - base + FREE_HEADER <= U32
    ensures Threaded(Carved(m, free, end, bs, i, size).0, base, Carved(m, free, end, bs, i, size).1, end, Carve(bs, i, size))
  {
    hide FreeBlocks;
    hide Word;
    hide RawCarve;
    hide Tiled;
    hide HeaderAt;
    hide LinksAt;
    hide Overlay;
    hide Carvable;
    hide Carve;
    hide Strung;
    var r, c := Carved(m, free, end, bs, i, size), Carve(bs, i, size);
    AroundCut(m, base, free, end, bs, i, size);
    CarvableHere(m, base, free, end, bs, i, size);
    CarveWords(m, free, end, bs[i].addr, size, LowerFree(bs, i));
    CarvedStrung(bs, base, end, i, size);
    CarvedFree(bs, i, size);
    CarvedShape(bs, i, size);
    forall j | 0 <= j < |c| ensures HeaderAt(r.0, c, j) {
      CarvedHeader(m, base, free, end, bs, i, size, j);
    }
    forall l | 0 <= l < |FreeBlocks(c)| ensures LinksAt(r.0, FreeBlocks(c), end, l) {
      CarvedLink(m, base, free, end, bs, i, size, l);
    }
  }

  /** The bytes such a cut touches lie in headers and free blocks. */
  lemma TouchedInside(m: seq<byte>, base: nat, free: int, end: nat, bs: seq<Block>, i: nat, size: nat, x: int)
    requires Lists(m, base, free, end, bs) && Cuts(bs, i, size) && size < FREE_HEADER && CarvesRight(bs, i, size)
    requires CutTouches(x, free, end, bs[i].addr, size, bs[i].size, Word(m, bs[i].addr + 12), LowerFree(bs, i))
    ensures base <= x < end && forall j :: 0 <= j < |bs| && bs[j].used ==> x < bs[j].Payload() || bs[j].End() <= x
  {
    hide FreeBlocks;
    hide Word;
    hide Tiled;
    hide Overlay;
    hide CarvesRight;
    hide Increasing;
    var n, k, fs := bs[i].addr, |FreeBlocks(bs[..i])|, FreeBlocks(bs);
    AroundCut(m, base, free, end, bs, i, size);
    Near(bs, base, end, i);
    if Within(x, n, size + 20) {
      InFree(bs, base, end, i, x);
    } else if n + bs[i].size != end && Within(x, n + bs[i].size, 4) {
      InHeader(bs, base, end, i + 1, x);
    } else if k > 0 && n != free && Within(x, LowerFree(bs, i) + 12, 4) {
      var l := FreeIndex(bs, k - 1);
      Near(bs, base, end, l);
      InFree(bs, base, end, l, x);
    } else {
      NextFreeBlock(fs, end, k, n);
      var l := FreeIndex(bs, k + 1);
      Near(bs, base, end, l);
      InFree(bs, base, end, l, x);
    }
  }

  lemma NextFreeBlock(fs: seq<Block>, end: int, k: nat, n: int)
    requires AddrOr(fs, k + 1, end) != end
    ensures k + 1 < |fs| && fs[k + 1].addr == AddrOr(fs, k + 1, end)
  {
  }

  lemma InHeader(bs: seq<Block>, base: nat, end: nat, l: nat, x: int)
    requires Tiled(bs, base, end) && l < |bs| && bs[l].addr <= x < bs[l].Payload()
    ensures base <= x < end && forall j :: 0 <= j < |bs| && bs[j].used ==> x < bs[j].Payload() || bs[j].End() <= x
  {
    hide Tiled;
    Near(bs, base, end, l);
  }

  lemma InFree(bs: seq<Block>, base: nat, end: nat, l: nat, x: int)
    requires Tiled(bs, base, end) && l < |bs| && !bs[l].used && bs[l].addr <= x < bs[l].End()
    ensures base <= x < end && forall j :: 0 <= j < |bs| && bs[j].used ==> x < bs[j].Payload() || bs[j].End() <= x
  {
    hide Tiled;
    Near(bs, base, end, l);
  }

  /** Such a cut changes no live payload and nothing outside the arena. */
  lemma CarveKeeps(m: seq<byte>, base: nat, free: int, end: nat, bs: seq<Block>, i: nat, size: nat)
    requires Lists(m, base, free, end, bs) && Cuts(bs, i, size) && size < FREE_HEADER && CarvesRight(bs, i, size)
    ensures PayloadKept(bs, m, Carved(m, free, end, bs, i, size).0) && OutsideKept(base, end, m, Carved(m, free, end, bs, i, size).0)
  {
    hide FreeBlocks;
    hide Word;
    hide RawCarve;
    hide Lists;
    hide CarvesRight;
    hide CutTouches;
    hide Carvable;
    var r := Carved(m, free, end, bs, i, size).0;
    var n, z, nf, pf := bs[i].addr, bs[i].size, Word(m, bs[i].addr + 12), LowerFree(bs, i);
    AroundCut(m, base, free, end, bs, i, size);
    CarvableHere(m, base, free, end, bs, i, size);
    forall x | 0 <= x < |m| && !CutTouches(x, free, end, n, size, z, nf, pf) ensures r[x] == m[x] {
      CarveElsewhere(m, free, end, n, size, pf, x);
      assert Byte(r, x) == Byte(m, x);
    }
    forall x | 0 <= x < |m| && CutTouches(x, free, end, n, size, z, nf, pf)
      ensures base <= x < end && forall j :: 0 <= j < |bs| && bs[j].used ==> x < bs[j].Payload() || bs[j].End() <= x
    {
      TouchedInside(m, base, free, end, bs, i, size, x);
    }
  }

  // ----------------------------------------------------------- carve, then join

  /** Growth is a cut, then joining the piece to the block below it. */
  lemma GrowsAsCarves(bs: seq<Block>, i: nat, size: nat)
    requires Splits(bs, i, size)
    ensures Cuts(bs, i + 1, size) && (GrowsRight(bs, i, size) <==> CarvesRight(bs, i + 1, size))
  {
  }

  /** The headers of the grown block and of the rest, once the piece at `i + 1` of a carved layout has been joined to block `i`. */
  lemma JoinedOwn(c: seq<byte>, base: nat, free: int, end: nat, bs: seq<Block>, i: nat, size: nat)
    requires Tiled(bs, base, end) && Splits(bs, i, size) && Threaded(c, base, free, end, Carve(bs, i + 1, size))
    requires end - base + FREE_HEADER <= U32 && end + FREE_HEADER <= |c|
    ensures HeaderAt(RawJoin(c, end, bs[i].addr, bs[i + 1].addr), Shifted(bs, i, size), i)
    ensures HeaderAt(RawJoin(c, end, bs[i].addr, bs[i + 1].addr), Shifted(bs, i, size), i + 1)
  {
    hide FreeBlocks;
    hide Word;
    hide RawJoin;
    hide Tiled;
    hide Carve;
    hide Threaded;
    var b, n, ls := bs[i].addr, bs[i + 1].addr, Carve(bs, i + 1, size);
    CarvedShape(bs, i + 1, size);
    Near(bs, base, end, i);
    Near(bs, base, end, i + 1);
    ThreadedAt(c, base, free, end, ls, i);
    ThreadedAt(c, base, free, end, ls, i + 1);
    ThreadedAt(c, base, free, end, ls, i + 2);
    JoinWords(c, end, b, n, n + size + 4);
    JoinWords(c, end, b, n, n + size + 8);
    JoinWords(c, end, b, n, b);
    JoinWords(c, end, b, n, b + 8);
  }

  lemma JoinedHeader(c: seq<byte>, base: nat, free: int, end: nat, bs: seq<Block>, i: nat, size: nat, j: nat)
    requires Tiled(bs, base, end) && Splits(bs, i, size) && Threaded(c, base, free, end, Carve(bs, i + 1, size))
    requires end - base + FREE_HEADER <= U32 && end + FREE_HEADER <= |c| && j < |bs|
    ensures HeaderAt(RawJoin(c, end, bs[i].addr, bs[i + 1].addr), Shifted(bs, i, size), j)
  {
    hide FreeBlocks;
    hide Word;
    hide RawJoin;
    hide Tiled;
    hide Carve;
    hide Threaded;
    if j == i || j == i + 1 {
      JoinedOwn(c, base, free, end, bs, i, size);
      return;
    }
    var b, n, ls, a := bs[i].addr, bs[i + 1].addr, Carve(bs, i + 1, size), bs[j].addr;
    CarvedShape(bs, i + 1, size);
    Near(bs, base, end, i);
    Near(bs, base, end, i + 1);
    Near(bs, base, end, j);
    ThreadedAt(c, base, free, end, ls, i + 1);
    ThreadedAt(c, base, free, end, ls, if j < i then j else j + 1);
    JoinWords(c, end, b, n, a);
    JoinWords(c, end, b, n, a + 4);
    JoinWords(c, end, b, n, a + 8);
  }

  lemma JoinedLink(c: seq<byte>, base: nat, free: int, end: nat, bs: seq<Block>, i: nat, size: nat, l: nat)
    requires Tiled(bs, base, end) && Splits(bs, i, size) && Threaded(c, base, free, end, Carve(bs, i + 1, size))
    requires end + FREE_HEADER <= |c| && l < |FreeBlocks(Shifted(bs, i, size))|
    ensures LinksAt(RawJoin(c, end, bs[i].addr, bs[i + 1].addr), FreeBlocks(Shifted(bs, i, size)), end, l)
  {
    hide FreeBlocks;
    hide Word;
    hide RawJoin;
    hide Tiled;
    hide Carve;
    var b, n, ls := bs[i].addr, bs[i + 1].addr, Carve(bs, i + 1, size);
    CarvedShape(bs, i + 1, size);
    CarvedFree(bs, i + 1, size);
    ShiftedFree(bs, i, size);
    assert HeaderAt(c, ls, i + 1) && LinksAt(c, FreeBlocks(ls), end, l);
    ShiftedTiled(bs, base, end, i, size);
    var j := FreeIndex(Shifted(bs, i, size), l);
    Near(Shifted(bs, i, size), base, end, j);
    Near(Shifted(bs, i, size), base, end, i);
    var a := FreeBlocks(ls)[l].addr;
    JoinWords(c, end, b, n, a + 12);
    JoinWords(c, end, b, n, a + 16);
  }

  /** Joining the piece to the block below it turns the lists of the carved layout into those of the grown one. */
  lemma JoinThreads(c: seq<byte>, base: nat, free: int, end: nat, bs: seq<Block>, i: nat, size: nat)
    requires Tiled(bs, base, end) && Splits(bs, i, size) && Threaded(c, base, free, end, Carve(bs, i + 1, size))
    requires end - base + FREE_HEADER <= U32 && end + FREE_HEADER <= |c|
    ensures Lists(RawJoin(c, end, bs[i].addr, bs[i + 1].addr), base, free, end, Shifted(bs, i, size))
  {
    hide FreeBlocks;
    hide Word;
    hide RawJoin;
    hide Tiled;
    hide HeaderAt;
    hide LinksAt;
    hide Carve;
    hide Strung;
    var r, bs' := RawJoin(c, end, bs[i].addr, bs[i + 1].addr), Shifted(bs, i, size);
    ShiftedTiled(bs, base, end, i, size);
    ShiftedFree(bs, i, size);
    CarvedFree(bs, i + 1, size);
    CarvedShape(bs, i + 1, size);
    forall j | 0 <= j < |bs'| ensures HeaderAt(r, bs', j) {
      JoinedHeader(c, base, free, end, bs, i, size, j);
    }
    forall l | 0 <= l < |FreeBlocks(bs')| ensures LinksAt(r, FreeBlocks(bs'), end, l) {
      JoinedLink(c, base, free, end, bs, i, size, l);
    }
  }

  /** Growth under the exact condition leaves both lists of the grown layout. */
  lemma GrowthWorks(m: seq<byte>, base: nat, free: int, end: nat, bs: seq<Block>, i: nat, size: nat)
    requires Lists(m, base, free, end, bs) && Splits(bs, i, size) && size < FREE_HEADER && GrowsRight(bs, i, size)
    requires end - base + FREE_HEADER <= U32
    ensures Lists(Grown(m, free, end, bs, i, size).0, base, Grown(m, free, end, bs, i, size).1, end, Shifted(bs, i, size))
  {
    hide Lists;
    hide Threaded;
    hide RawCarve;
    hide RawJoin;
    hide GrowsRight;
    hide CarvesRight;
    hide FreeBlocks;
    GrowsAsCarves(bs, i, size);
    TilingIs(m, base, free, end, bs);
    AroundCut(m, base, free, end, bs, i + 1, size);
    CarveWorks(m, base, free, end, bs, i + 1, size);
    var c := Carved(m, free, end, bs, i + 1, size);
    JoinThreads(c.0, base, c.1, end, bs, i, size);
  }

  lemma GrowthKeeps(m: seq<byte>, base: nat, free: int, end: nat, bs: seq<Block>, i: nat, size: nat)
    requires Lists(m, base, free, end, bs) && Splits(bs, i, size) && size < FREE_HEADER && GrowsRight(bs, i, size)
    ensures PayloadKept(bs, m, Grown(m, free, end, bs, i, size).0) && OutsideKept(base, end, m, Grown(m, free, end, bs, i, size).0)
  {
    hide Lists;
    hide RawCarve;
    hide RawJoin;
    hide GrowsRight;
    hide CarvesRight;
    hide FreeBlocks;
    hide Tiled;
    hide Word;
    hide Carvable;
    GrowsAsCarves(bs, i, size);
    TilingIs(m, base, free, end, bs);
    AroundCut(m, base, free, end, bs, i + 1, size);
    CarveKeeps(m, base, free, end, bs, i + 1, size);
    CarvableHere(m, base, free, end, bs, i + 1, size);
    var b, n := bs[i].addr, bs[i + 1].addr;
    CarveWords(m, free, end, n, size, LowerFree(bs, i + 1));
    Near(bs, base, end, i);
    Near(bs, base, end, i + 1);
    var c := Carved(m, free, end, bs, i + 1, size).0;
    var r, t, s := RawJoin(c, end, b, n), b + 4, n + size;
    forall x | 0 <= x < |m| && !Within(x, t, 4) && !Within(x, s, 4) ensures r[x] == c[x] {
      JoinElsewhere(c, end, b, n, x);
      assert Byte(r, x) == Byte(c, x);
    }
    forall x | 0 <= x < |m| && (Within(x, t, 4) || Within(x, s, 4))
      ensures base <= x < end && forall j :: 0 <= j < |bs| && bs[j].used ==> x < bs[j].Payload() || bs[j].End() <= x
    {
      if Within(x, t, 4) {
        InHeader(bs, base, end, i, x);
      } else {
        InFree(bs, base, end, i + 1, x);
      }
    }
  }

  /** An alignment gap of 4 bytes in a fresh arena leaves memory that fits no blocks. */
  lemma GapFourBroken(m: seq<byte>, base: nat, end: nat, xlen: nat, free': int)
    requires base + 64 <= end && FREE_HEADER <= xlen < U32 && Lists(m, base, base, end, [Block(base, end - base, false)])
    ensures !Representable(RawAligned(m, base, end, base, 4, xlen).0, base, free', end)
  {
    hide Word;
    hide RawAligned;
    hide Representable;
    var bs := [Block(base, end - base, false)];
    assert FreeBlocks(bs) == bs;
    assert HeaderAt(m, bs, 0) && LinksAt(m, FreeBlocks(bs), end, 0);
    GapOfFour(m, base, end, xlen);
    TooSmall(m, RawAligned(m, base, end, base, 4, xlen).0, base, base, free', end, bs, 0);
  }

  // ------------------------------------------------------------- for the methods

  /** Wider growths, and those that take the whole neighbour, are right. */
  lemma WideGrows(bs: seq<Block>, i: nat, size: nat)
    requires i + 1 < |bs| && (size >= FREE_HEADER || bs[i + 1].size - size < MIN_SPLIT)
    ensures Splits(bs, i, size) ==> GrowsRight(bs, i, size)
  {
    hide FreeBlocks;
    hide Overlay;
  }

  lemma KeyBlock(bs: seq<Block>, base: nat, end: nat, a: int) returns (j: nat)
    requires Tiled(bs, base, end) && a in Addrs(bs)
    ensures j < |bs| && bs[j].addr == a && base <= a && a + FREE_HEADER <= end
  {
    hide Tiled;
    var x :| x in bs && x.addr == a;
    j :| 0 <= j < |bs| && bs[j] == x;
    Near(bs, base, end, j);
  }

  lemma TwoKeys(bs: seq<Block>, base: nat, end: nat, a: int, c: int)
    requires Tiled(bs, base, end) && a in Addrs(bs) && c in Addrs(bs)
    ensures a == c || a + FREE_HEADER <= c || c + FREE_HEADER <= a
  {
    hide Tiled;
    hide Addrs;
    var j := KeyBlock(bs, base, end, a);
    var l := KeyBlock(bs, base, end, c);
    Near(bs, base, end, j);
    Near(bs, base, end, l);
  }

  lemma TiledKeys(bs: seq<Block>, base: nat, end: nat)
    requires Tiled(bs, base, end)
    ensures Spaced(Addrs(bs) + {end as int}) && Bounded(Addrs(bs) + {end as int}, base, end) && base <= end
  {
    Near(bs, base, end, 0);
    hide Tiled;
    hide Addrs;
    var addrs := Addrs(bs);
    forall a | a in addrs ensures base <= a && a + FREE_HEADER <= end {
      var j := KeyBlock(bs, base, end, a);
    }
    forall a, c | a in addrs && c in addrs ensures a == c || a + FREE_HEADER <= c || c + FREE_HEADER <= a {
      TwoKeys(bs, base, end, a, c);
    }
  }

  lemma ReadKeys(m: seq<byte>, keys: set<int>)
    ensures forall off: nat :: Read(m, keys, off).Keys == keys
  {
    hide Word;
  }

  /** The list head never moves below where it was. */
  lemma FreeForward(m: seq<byte>, free: int, end: int, b: int, n: nat, size: nat)
    requires free >= 0
    ensures RawGrow(m, free, end, b, n, size).1 >= 0
  {
    hide RawSplit;
  }

  lemma AlignedIs(m: seq<byte>, free: int, end: int, b: int, gap: nat, xlen: nat)
    ensures gap == 0 ==> var t := RawTake(m, free, end, b, xlen % U32);
                         (xlen < U32 ==> RawAligned(m, free, end, b, gap, xlen) == (t.0, t.1, b))
    ensures gap > 0 ==> var m1 := RawSplit(m, end, b, gap);
                        var best := b + Word(m1, b + 4);
                        var t := RawTake(m1, free, end, best, xlen);
                        (xlen < U32 ==> RawAligned(m, free, end, b, gap, xlen) == (t.0, t.1, best))
  {
    hide RawSplit;
    hide RawUse;
    hide Word;
    assert xlen < U32 ==> xlen % U32 == xlen;
  }

  lemma RawBest(m: seq<byte>, free: int, end: int, b: nat, gap: nat, xlen: nat)
    requires free >= 0
    ensures RawAligned(m, free, end, b, gap, xlen).2 >= 0 && RawAligned(m, free, end, b, gap, xlen).1 >= 0
  {
    hide RawSplit;
  }
}
