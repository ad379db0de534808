/**
  What the allocator's operations do to the arena's layout: they keep it legal,
  they change the live blocks by exactly the one named, and freeing undoes them.
 */
module Layout {
  import opened Ram
  import opened Blocks
  import opened Links
  import Bits

  // ------------------------------------------------------------- legality

  /** Handing out `n` bytes of free block `i` leaves a legal layout exactly when the block is not split too small. */
  lemma CarveLegal(bs: seq<Block>, base: nat, end: nat, i: nat, n: nat)
    requires Legal(bs, base, end) && i < |bs| && !bs[i].used && n <= bs[i].size
    ensures Legal(Carve(bs, i, n), base, end) <==> (n >= FREE_HEADER || bs[i].size - n < MIN_SPLIT)
  {
    var r := Carve(bs, i, n);
    if bs[i].size - n >= MIN_SPLIT {
      SplitElems(bs, i, n);
      if n >= FREE_HEADER {
        SplitTiled(bs, base, end, i, n);
        SplitCoalesced(bs, i, n);
      } else {
        assert r[i].size < FREE_HEADER;
      }
    }
  }

  lemma SplitCoalesced(bs: seq<Block>, i: nat, n: nat)
    requires Coalesced(bs) && i < |bs| && !bs[i].used && n <= bs[i].size
    ensures Coalesced(Marked(SplitAt(bs, i, n), i, true))
  {
    hide SplitAt;
    SplitElems(bs, i, n);
    var r := Marked(SplitAt(bs, i, n), i, true);
    forall j, l | 0 <= j < l < |r| && l == j + 1 ensures r[j].used || r[l].used {
      if j == i + 1 {
        assert r[l] == bs[i + 1];
        assert bs[i].used || bs[i + 1].used;
      } else if j > i + 1 {
        assert r[j] == bs[j - 1] && r[l] == bs[j];
      }
    }
  }

  /** With a gap of free bytes kept in front, the gap too must hold a header. */
  lemma CarveAfterLegal(bs: seq<Block>, base: nat, end: nat, i: nat, gap: nat, n: nat)
    requires Legal(bs, base, end) && i < |bs| && !bs[i].used && gap + n <= bs[i].size
    ensures Legal(CarveAfter(bs, i, gap, n), base, end) <==>
            CutsLegally(bs[i], gap, n)
  {
    if gap == 0 {
      CarveLegal(bs, base, end, i, n);
    } else if gap >= FREE_HEADER && bs[i].size - gap >= FREE_HEADER && (n >= FREE_HEADER || bs[i].size - gap - n < MIN_SPLIT) {
      CarveAfterTiled(bs, base, end, i, gap, n);
      CarveAfterCoalesced(bs, i, gap, n);
    } else {
      CarveAfterHead(bs, i, gap, n);
    }
  }

  lemma CarveAfterHead(bs: seq<Block>, i: nat, gap: nat, n: nat)
    requires i < |bs| && !bs[i].used && 0 < gap && gap + n <= bs[i].size
    ensures var r := CarveAfter(bs, i, gap, n);
            && i + 1 < |r| && r[i].size == gap
            && r[i + 1].size == if bs[i].size - gap - n >= MIN_SPLIT then n else bs[i].size - gap
  {
    hide SplitAt;
    SplitElems(bs, i, gap);
    SplitElems(SplitAt(bs, i, gap), i + 1, n);
  }

  lemma CarveAfterTiled(bs: seq<Block>, base: nat, end: nat, i: nat, gap: nat, n: nat)
    requires Tiled(bs, base, end) && i < |bs| && !bs[i].used && gap + n <= bs[i].size
    requires gap >= FREE_HEADER && bs[i].size - gap >= FREE_HEADER && (n >= FREE_HEADER || bs[i].size - gap - n < MIN_SPLIT)
    ensures Tiled(CarveAfter(bs, i, gap, n), base, end)
  {
    hide SplitAt;
    var s := SplitAt(bs, i, gap);
    SplitElems(bs, i, gap);
    SplitTiled(bs, base, end, i, gap);
    if bs[i].size - gap - n >= MIN_SPLIT {
      SplitTiled(s, base, end, i + 1, n);
      SplitElems(s, i + 1, n);
      MarkedTiled(SplitAt(s, i + 1, n), base, end, i + 1, true);
    } else {
      MarkedTiled(s, base, end, i + 1, true);
    }
  }

  lemma MarkedTiled(bs: seq<Block>, base: nat, end: nat, i: nat, u: bool)
    requires Tiled(bs, base, end) && i < |bs|
    ensures Tiled(Marked(bs, i, u), base, end)
  {
  }

  lemma CarveAfterCoalesced(bs: seq<Block>, i: nat, gap: nat, n: nat)
    requires Coalesced(bs) && i < |bs| && !bs[i].used && 0 < gap && gap + n <= bs[i].size
    ensures Coalesced(CarveAfter(bs, i, gap, n))
  {
    hide SplitAt;
    var s, r := SplitAt(bs, i, gap), CarveAfter(bs, i, gap, n);
    SplitElems(bs, i, gap);
    SplitElems(s, i + 1, n);
    var d := |r| - |bs|;
    forall j, l | 0 <= j < l < |r| && l == j + 1 ensures r[j].used || r[l].used {
      if l <= i {
        assert r[j] == bs[j] && r[l].used == bs[l].used;
      } else if l > i + d {
        assert r[l] == bs[l - d];
        assert j == i + d ==> bs[i].used || bs[l - d].used;
        assert j > i + d ==> r[j] == bs[j - d];
      }
    }
  }

  /** Growing used block `i` by `n` bytes of its free neighbour leaves a legal layout, for every `n`. */
  lemma GrowLegal(bs: seq<Block>, base: nat, end: nat, i: nat, n: nat)
    requires Legal(bs, base, end) && i + 1 < |bs| && bs[i].used && !bs[i + 1].used && n <= bs[i + 1].size
    ensures Legal(Grow(bs, i, n), base, end)
  {
    hide Carve;
    hide MergeAt;
    var c := Carve(bs, i + 1, n);
    CarveElems(bs, i + 1, n);
    MergeElems(c, i);
    var r := MergeAt(c, i);
    var d := if bs[i + 1].size - n >= MIN_SPLIT then 0 else 1;
    forall j, l | 0 <= j < l < |r| && l == j + 1 ensures r[j].End() == r[l].addr && (r[j].used || r[l].used) {
      if j > i + 1 - d {
        assert r[j] == bs[j + d] && r[l] == bs[l + d];
      } else if l <= i {
        assert r[j] == bs[j] && r[l].addr == bs[l].addr && r[l].used == bs[l].used;
      } else {
        assert bs[i + 1].End() == (if i + 2 < |bs| then bs[i + 2].addr else end);
      }
    }
    assert r[|r| - 1].End() == end;
  }

  lemma CarveElems(bs: seq<Block>, i: nat, n: nat)
    requires i < |bs| && n <= bs[i].size
    ensures var r, split := Carve(bs, i, n), bs[i].size - n >= MIN_SPLIT;
            && |r| == (if split then |bs| + 1 else |bs|)
            && (forall j :: 0 <= j < i ==> r[j] == bs[j])
            && r[i] == Block(bs[i].addr, if split then n else bs[i].size, true)
            && (split ==> r[i + 1] == Block(bs[i].addr + n, bs[i].size - n, bs[i].used))
            && (forall j :: (if split then i + 1 else i) < j < |r| ==> r[j] == bs[if split then j - 1 else j])
  {
    SplitElems(bs, i, n);
  }

  /** Freeing keeps the layout legal: both free neighbours are absorbed. */
  lemma ReleaseLegal(bs: seq<Block>, base: nat, end: nat, i: nat)
    requires Legal(bs, base, end) && i < |bs|
    ensures Legal(Release(bs, i), base, end)
  {
    ReleaseTiled(bs, base, end, i);
    ReleaseCoalesced(bs, i);
  }

  lemma ReleaseTiled(bs: seq<Block>, base: nat, end: nat, i: nat)
    requires Tiled(bs, base, end) && i < |bs|
    ensures Tiled(Release(bs, i), base, end)
  {
    hide Tiled;
    hide MergeAt;
    hide Marked;
    var b1 := Marked(bs, i, false);
    MarkedTiled(bs, base, end, i, false);
    MarkedElems(bs, i, false);
    if i + 1 < |bs| && !bs[i + 1].used {
      MergeTiled(b1, base, end, i);
      MergeElems(b1, i);
      if i > 0 && !bs[i - 1].used {
        MergeTiled(MergeAt(b1, i), base, end, i - 1);
      }
    } else if i > 0 && !bs[i - 1].used {
      MergeTiled(b1, base, end, i - 1);
    }
  }

  lemma MarkedElems(bs: seq<Block>, i: nat, u: bool)
    requires i < |bs|
    ensures var r := Marked(bs, i, u);
            |r| == |bs| && r[i] == bs[i].(used := u) && (forall j :: 0 <= j < |bs| && j != i ==> r[j] == bs[j])
  {
  }

  /** The blocks of a released layout: those below, the merged block, those above. */
  lemma ReleaseElems(bs: seq<Block>, i: nat)
    requires i < |bs|
    ensures var r := Release(bs, i);
            var lo, hi := if i > 0 && !bs[i - 1].used then i - 1 else i, if i + 1 < |bs| && !bs[i + 1].used then i + 1 else i;
            && |r| == |bs| - (hi - lo)
            && (forall j :: 0 <= j < lo ==> r[j] == bs[j])
            && r[lo].addr == bs[lo].addr && !r[lo].used
            && r[lo].size == (if lo < i then bs[lo].size else 0) + bs[i].size + (if hi > i then bs[hi].size else 0)
            && (forall j :: lo < j < |r| ==> r[j] == bs[j + (hi - lo)])
  {
    hide AbsorbNext;
    hide Marked;
    var b1 := Marked(bs, i, false);
    MarkedElems(bs, i, false);
    AbsorbElems(b1, i);
    if i > 0 && !bs[i - 1].used {
      AbsorbElems(AbsorbNext(b1, i), i - 1);
    }
  }

  lemma AbsorbElems(bs: seq<Block>, i: nat)
    requires i < |bs| && !bs[i].used
    ensures var r, d := AbsorbNext(bs, i), if i + 1 < |bs| && !bs[i + 1].used then 1 else 0;
            && |r| == |bs| - d
            && (forall j :: 0 <= j < i ==> r[j] == bs[j])
            && r[i] == Block(bs[i].addr, bs[i].size + (if d == 1 then bs[i + 1].size else 0), false)
            && (forall j :: i < j < |r| ==> r[j] == bs[j + d])
  {
    hide MergeAt;
    hide SizeBefore;
    if i + 1 < |bs| && !bs[i + 1].used {
      MergeElems(bs, i);
    }
  }

  lemma ReleaseCoalesced(bs: seq<Block>, i: nat)
    requires Coalesced(bs) && i < |bs|
    ensures Coalesced(Release(bs, i))
  {
    hide Release;
    ReleaseElems(bs, i);
    var r := Release(bs, i);
    var lo, hi := if i > 0 && !bs[i - 1].used then i - 1 else i, if i + 1 < |bs| && !bs[i + 1].used then i + 1 else i;
    forall j, l | 0 <= j < l < |r| && l == j + 1 ensures r[j].used || r[l].used {
      if l < lo {
      } else if l == lo {
        assert r[j] == bs[lo - 1];
        if lo < i {
          assert bs[lo - 1].used;
        }
      } else if j == lo {
        assert r[l] == bs[hi + 1];
        if hi > i {
          assert bs[hi + 1].used;
        }
      } else {
        assert r[j] == bs[j + (hi - lo)] && r[l] == bs[l + (hi - lo)];
      }
    }
  }

  // ---------------------------------------------------------- freeing undoes

  /** Freeing what `alloc` just handed out restores the layout exactly. */
  lemma ReleaseUndoesCarve(bs: seq<Block>, i: nat, n: nat)
    requires Coalesced(bs) && i < |bs| && !bs[i].used && n <= bs[i].size
    ensures Release(Carve(bs, i, n), i) == bs
  {
    hide Release;
    hide Carve;
    var c := Carve(bs, i, n);
    CarveElems(bs, i, n);
    ReleaseElems(c, i);
    assert i > 0 ==> bs[i - 1].used;
    assert i + 1 < |bs| ==> bs[i + 1].used;
    var r := Release(c, i);
    assert i + 1 < |c| && bs[i].size - n < MIN_SPLIT ==> c[i + 1] == bs[i + 1];
    assert |r| == |bs|;
    forall j | 0 <= j < |bs| ensures r[j] == bs[j] {
    }
  }

  /** The same for `aligned_alloc`, whose front gap is absorbed again. */
  lemma ReleaseUndoesCarveAfter(bs: seq<Block>, i: nat, gap: nat, n: nat)
    requires Coalesced(bs) && i < |bs| && !bs[i].used && gap + n <= bs[i].size
    ensures Release(CarveAfter(bs, i, gap, n), if gap == 0 then i else i + 1) == bs
  {
    hide Release;
    hide Carve;
    hide SplitAt;
    if gap == 0 {
      ReleaseUndoesCarve(bs, i, n);
    } else {
      var s := SplitAt(bs, i, gap);
      SplitElems(bs, i, gap);
      var c := Carve(s, i + 1, n);
      CarveElems(s, i + 1, n);
      ReleaseElems(c, i + 1);
      assert i + 1 < |bs| ==> bs[i + 1].used;
      var r := Release(c, i + 1);
      assert i + 2 < |c| && bs[i].size - gap - n < MIN_SPLIT ==> c[i + 2] == bs[i + 1];
      assert |r| == |bs|;
      forall j | 0 <= j < |bs| ensures r[j] == bs[j] {
      }
    }
  }

  // ------------------------------------------------------------- live blocks

  /** Freeing removes exactly the freed block from the live ones. */
  lemma ReleaseLive(bs: seq<Block>, base: nat, end: nat, i: nat)
    requires Legal(bs, base, end) && i < |bs| && bs[i].used
    ensures Live(Release(bs, i)) == Live(bs) - {bs[i]}
  {
    hide Release;
    hide Tiled;
    ReleaseElems(bs, i);
    Near(bs, base, end, i);
    var r := Release(bs, i);
    var lo, hi := if i > 0 && !bs[i - 1].used then i - 1 else i, if i + 1 < |bs| && !bs[i + 1].used then i + 1 else i;
    forall b | b in Live(bs) && b != bs[i] ensures b in Live(r) {
      var j :| 0 <= j < |bs| && bs[j] == b;
      assert r[if j < i then j else j - (hi - lo)] == b;
    }
    forall b | b in Live(r) ensures b in Live(bs) && b != bs[i] {
      var j :| 0 <= j < |r| && r[j] == b;
      assert bs[if j < lo then j else j + (hi - lo)] == b;
    }
  }

  /** `alloc` adds exactly the block it hands out. */
  lemma CarveLive(bs: seq<Block>, i: nat, n: nat)
    requires i < |bs| && !bs[i].used && n <= bs[i].size
    ensures Live(Carve(bs, i, n)) == Live(bs) + {Carve(bs, i, n)[i]}
  {
    hide Carve;
    CarveElems(bs, i, n);
    var r := Carve(bs, i, n);
    var d := |r| - |bs|;
    forall b | b in Live(bs) ensures b in Live(r) {
      var j :| 0 <= j < |bs| && bs[j] == b;
      assert r[if j < i then j else j + d] == b;
    }
    forall b | b in Live(r) && b != r[i] ensures b in Live(bs) {
      var j :| 0 <= j < |r| && r[j] == b;
      assert bs[if j < i then j else j - d] == b;
    }
  }

  /** Used blocks have disjoint payloads inside the arena. */
  lemma LiveDisjoint(bs: seq<Block>, base: nat, end: nat)
    requires Tiled(bs, base, end)
    ensures forall x :: x in Live(bs) ==> base < x.Payload() && x.End() <= end
    ensures forall x, y :: x in Live(bs) && y in Live(bs) && x != y ==> x.End() <= y.Payload() || y.End() <= x.Payload()
  {
    hide Tiled;
    Disjoint(bs, base, end);
  }

  lemma UsedIsLive(bs: seq<Block>, i: nat)
    requires i < |bs| && bs[i].used
    ensures bs[i] in Live(bs)
  {
  }

  lemma FirstPair(bs: seq<Block>)
    requires Coalesced(bs) && |bs| > 1
    ensures bs[0].used || bs[1].used
  {
  }

  /** Nothing live: the arena is one free block again. */
  lemma AllFree(bs: seq<Block>, base: nat, end: nat)
    requires Legal(bs, base, end) && Live(bs) == {} && base <= end
    ensures bs == [Block(base, end - base, false)]
  {
    forall i | 0 <= i < |bs| ensures !bs[i].used {
      if bs[i].used {
        UsedIsLive(bs, i);
      }
    }
    if |bs| > 1 {
      FirstPair(bs);
    }
  }

  ghost function IndexOf(bs: seq<Block>, b: Block): (i: nat)
    requires b in bs
    ensures i < |bs| && bs[i] == b
  {
    if bs[0] == b then 0 else 1 + IndexOf(bs[1..], b)
  }

  /** Free the given live blocks, one after another. */
  ghost function ReleaseAll(bs: seq<Block>, order: seq<Block>): seq<Block>
    decreases |order|
  {
    if order == [] then bs
    else if order[0] in bs then ReleaseAll(Release(bs, IndexOf(bs, order[0])), order[1..])
    else bs
  }

  /** Freeing every live block, in any order, leaves a single free block of the arena's size. */
  lemma {:induction false} FreeingAllRestoresArena(bs: seq<Block>, base: nat, end: nat, order: seq<Block>)
    requires Legal(bs, base, end) && base <= end
    requires forall b :: b in order <==> b in Live(bs)
    requires forall i, j :: 0 <= i < j < |order| ==> order[i] != order[j]
    ensures ReleaseAll(bs, order) == [Block(base, end - base, false)]
    decreases |order|
  {
    hide Release;
    hide Legal;
    if order == [] {
      assert forall b :: b !in Live(bs);
      AllFree(bs, base, end);
    } else {
      assert order[0] in Live(bs);
      var i := IndexOf(bs, order[0]);
      ReleaseLegal(bs, base, end, i);
      ReleaseLive(bs, base, end, i);
      forall b ensures b in order[1..] <==> b in Live(Release(bs, i)) {
        assert order == [order[0]] + order[1..];
      }
      FreeingAllRestoresArena(Release(bs, i), base, end, order[1..]);
    }
  }

  // -------------------------------------------------------------- choosing

  /** Block `i` is the smallest free block of at least `n` bytes, and the lowest of that size. */
  ghost predicate IsBestFit(bs: seq<Block>, i: nat, n: nat) {
    && i < |bs| && !bs[i].used && bs[i].size >= n
    && forall j :: 0 <= j < |bs| && !bs[j].used && bs[j].size >= n ==>
         bs[i].size <= bs[j].size && (j < i ==> bs[i].size < bs[j].size)
  }

  ghost predicate NoneFits(bs: seq<Block>, n: nat) {
    forall j :: 0 <= j < |bs| && !bs[j].used ==> bs[j].size < n
  }

  /** What the search along the free list has found after `k` blocks; `best` is -1 for none. */
  ghost predicate BestSoFar(fs: seq<Block>, k: nat, n: nat, best: int) {
    && k <= |fs| && -1 <= best < k
    && (best < 0 ==> forall l :: 0 <= l < k ==> fs[l].size < n)
    && (best >= 0 ==>
          && fs[best].size >= n
          && (forall l :: 0 <= l < k && fs[l].size >= n ==> fs[best].size <= fs[l].size)
          && (forall l :: 0 <= l < best && fs[l].size >= n ==> fs[best].size < fs[l].size))
  }

  lemma FreePosition(bs: seq<Block>, j: nat)
    requires j < |bs| && !bs[j].used
    ensures |FreeBlocks(bs[..j])| < |FreeBlocks(bs)| && FreeBlocks(bs)[|FreeBlocks(bs[..j])|] == bs[j]
  {
    hide FreeBlocks;
    FreeAround(bs, j);
  }

  lemma BestOfList(bs: seq<Block>, n: nat, best: nat, i: nat)
    requires BestSoFar(FreeBlocks(bs), |FreeBlocks(bs)|, n, best)
    requires i < |bs| && bs[i] == FreeBlocks(bs)[best] && !bs[i].used && |FreeBlocks(bs[..i])| == best
    ensures IsBestFit(bs, i, n)
  {
    hide FreeBlocks;
    forall j | 0 <= j < |bs| && !bs[j].used && bs[j].size >= n
      ensures bs[i].size <= bs[j].size && (j < i ==> bs[i].size < bs[j].size)
    {
      FreePosition(bs, j);
      if j < i {
        PrefixCount(bs, j + 1, i);
        FreeAround(bs[..j + 1], j);
        assert bs[..j + 1][..j] == bs[..j];
      }
    }
  }

  lemma NoneOfList(bs: seq<Block>, n: nat)
    requires BestSoFar(FreeBlocks(bs), |FreeBlocks(bs)|, n, -1)
    ensures NoneFits(bs, n)
  {
    hide FreeBlocks;
    forall j | 0 <= j < |bs| && !bs[j].used ensures bs[j].size < n {
      FreePosition(bs, j);
    }
  }

  // ------------------------------------------------------- aligned choosing

  /** Free bytes to skip so that the payload of a block at `addr` starts on a multiple of `align`. */
  function Gap(addr: nat, align: nat): (g: nat)
    requires align > 0
    ensures g < align && (addr + USED_HEADER + g) % align == 0
  {
    var ca := (addr + USED_HEADER) % align;
    if ca == 0 then 0
    else
      AlignUp(addr + USED_HEADER, align);
      align - ca
  }

  lemma AlignUp(x: nat, m: nat)
    requires m > 0 && x % m != 0
    ensures (x + (m - x % m)) % m == 0
  {
    var q := x / m;
    assert x == m * q + x % m;
    assert x + (m - x % m) == m * (q + 1) + 0;
    Bits.DivUnique(x + (m - x % m), m, q + 1, 0);
  }

  ghost predicate FitsAligned(x: Block, n: nat, align: nat)
    requires align > 0
  {
    x.size >= Gap(x.addr, align) + n
  }

  /** The choice that the aligned search makes among the first `k` free blocks; -1 for none. */
  ghost function AlignedPick(fs: seq<Block>, k: nat, n: nat, align: nat): (best: int)
    requires k <= |fs| && align > 0
    ensures -1 <= best < k
    ensures best >= 0 ==> FitsAligned(fs[best], n, align)
    ensures best < 0 ==> forall l :: 0 <= l < k ==> !FitsAligned(fs[l], n, align)
  {
    if k == 0 then -1
    else
      var b, x := AlignedPick(fs, k - 1, n, align), fs[k - 1];
      var ca := (x.addr + USED_HEADER) % align;
      if x.size >= n && ca == 0 && (b < 0 || fs[b].size > x.size) then k - 1
      else if x.size >= n && x.size >= align - ca + n then k - 1
      else b
  }

  ghost predicate NoneFitsAligned(bs: seq<Block>, n: nat, align: nat)
    requires align > 0
  {
    forall j :: 0 <= j < |bs| && !bs[j].used ==> !FitsAligned(bs[j], n, align)
  }

  /** `x` has room for `n` bytes past the next multiple of `align` after its payload starts, even when that one is aligned. */
  ghost predicate Roomy(x: Block, n: nat, align: nat)
    requires align > 0
  {
    x.size >= align - (x.addr + USED_HEADER) % align + n
  }

  /** Among the first `k` blocks, free block `j` fits and no roomy free block comes after it. */
  ghost predicate Contends(bs: seq<Block>, k: nat, j: int, n: nat, align: nat)
    requires k <= |bs| && align > 0
  {
    && 0 <= j < k && !bs[j].used && FitsAligned(bs[j], n, align)
    && forall l :: j < l < k && !bs[l].used ==> !Roomy(bs[l], n, align)
  }

  /** Block `i` contends, is no larger than any other that does, and is the first of its size. */
  ghost predicate LeadsAligned(bs: seq<Block>, k: nat, i: int, n: nat, align: nat)
    requires k <= |bs| && align > 0
  {
    && Contends(bs, k, i, n, align)
    && forall j :: Contends(bs, k, j, n, align) ==> bs[i].size <= bs[j].size && (j < i ==> bs[i].size < bs[j].size)
  }

  /**
    Free block `i` is the one that the aligned search ends with.  The last roomy block shuts out all
    before it; of it and the aligned blocks after it that fit, the smallest is taken, the first of that size.
   */
  ghost predicate IsAlignedPick(bs: seq<Block>, i: nat, n: nat, align: nat)
    requires align > 0
  {
    LeadsAligned(bs, |bs|, i, n, align)
  }

  lemma RoomyFits(x: Block, n: nat, align: nat)
    requires align > 0
    ensures var ca := (x.addr + USED_HEADER) % align;
            && FitsAligned(x, n, align) == (if ca == 0 then x.size >= n else Roomy(x, n, align))
            && (Roomy(x, n, align) ==> FitsAligned(x, n, align))
  {
  }

  lemma ContendsStep(fs: seq<Block>, k: nat, j: int, n: nat, align: nat)
    requires 0 < k <= |fs| && align > 0 && !fs[k - 1].used
    ensures j < k - 1 ==> (Contends(fs, k, j, n, align) <==> Contends(fs, k - 1, j, n, align) && !Roomy(fs[k - 1], n, align))
    ensures Contends(fs, k, k - 1, n, align) <==> FitsAligned(fs[k - 1], n, align)
  {
    hide FitsAligned;
    hide Roomy;
  }

  /** The choice of the loop, by sizes and positions. */
  lemma {:induction false} PickLeads(fs: seq<Block>, k: nat, n: nat, align: nat)
    requires k <= |fs| && align > 0 && (forall l :: 0 <= l < |fs| ==> !fs[l].used)
    requires AlignedPick(fs, k, n, align) >= 0
    ensures LeadsAligned(fs, k, AlignedPick(fs, k, n, align), n, align)
    decreases k
  {
    hide FitsAligned;
    hide Roomy;
    hide Contends;
    var b, x, i := AlignedPick(fs, k - 1, n, align), fs[k - 1], AlignedPick(fs, k, n, align);
    PickStep(fs, k, n, align);
    ContendsStep(fs, k, i, n, align);
    if b >= 0 {
      PickLeads(fs, k - 1, n, align);
    }
    forall j | Contends(fs, k, j, n, align) ensures 0 <= j < k {
      ContendsBound(fs, k, j, n, align);
    }
    forall j | Contends(fs, k, j, n, align) ensures fs[i].size <= fs[j].size && (j < i ==> fs[i].size < fs[j].size) {
      ContendsStep(fs, k, j, n, align);
      ContendsBound(fs, k, j, n, align);
    }
  }

  lemma ContendsBound(fs: seq<Block>, k: nat, j: int, n: nat, align: nat)
    requires k <= |fs| && align > 0 && Contends(fs, k, j, n, align)
    ensures 0 <= j < k && !fs[j].used && FitsAligned(fs[j], n, align)
  {
  }

  lemma PickStep(fs: seq<Block>, k: nat, n: nat, align: nat)
    requires 0 < k <= |fs| && align > 0
    ensures var b, x, i := AlignedPick(fs, k - 1, n, align), fs[k - 1], AlignedPick(fs, k, n, align);
            && (Roomy(x, n, align) ==> i == k - 1)
            && (!Roomy(x, n, align) && FitsAligned(x, n, align) ==> i == if b < 0 || fs[b].size > x.size then k - 1 else b)
            && (!Roomy(x, n, align) && !FitsAligned(x, n, align) ==> i == b)
            && (Roomy(x, n, align) ==> FitsAligned(x, n, align))
  {
    hide FitsAligned;
    RoomyFits(fs[k - 1], n, align);
  }

  lemma FreeOrder(bs: seq<Block>, j: nat, i: nat)
    requires j < i < |bs| && !bs[j].used
    ensures |FreeBlocks(bs[..j])| < |FreeBlocks(bs[..i])|
  {
    hide FreeBlocks;
    FreeAround(bs[..i], j);
    assert bs[..i][..j] == bs[..j];
  }

  lemma ContendsInList(bs: seq<Block>, j: nat, n: nat, align: nat)
    requires align > 0 && j < |bs| && !bs[j].used
    ensures Contends(bs, |bs|, j, n, align) <==> Contends(FreeBlocks(bs), |FreeBlocks(bs)|, |FreeBlocks(bs[..j])|, n, align)
  {
    hide FreeBlocks;
    hide FitsAligned;
    hide Roomy;
    var fs, at := FreeBlocks(bs), |FreeBlocks(bs[..j])|;
    FreeMembers(bs);
    FreePosition(bs, j);
    if Contends(bs, |bs|, j, n, align) {
      forall l | at < l < |fs| ensures !Roomy(fs[l], n, align) {
        var m := FreeIndex(bs, l);
        if m < j {
          FreeOrder(bs, m, j);
        }
      }
    }
    if Contends(fs, |fs|, at, n, align) {
      forall l | j < l < |bs| && !bs[l].used ensures !Roomy(bs[l], n, align) {
        FreePosition(bs, l);
        FreeOrder(bs, j, l);
      }
    }
  }

  /** The choice on the free list is the choice in the layout. */
  lemma PickOfList(bs: seq<Block>, i: nat, n: nat, align: nat)
    requires align > 0 && i < |bs| && !bs[i].used
    requires |FreeBlocks(bs[..i])| == AlignedPick(FreeBlocks(bs), |FreeBlocks(bs)|, n, align)
    ensures IsAlignedPick(bs, i, n, align)
  {
    hide FreeBlocks;
    hide AlignedPick;
    hide FitsAligned;
    hide Roomy;
    hide Contends;
    var fs := FreeBlocks(bs);
    var at := |FreeBlocks(bs[..i])|;
    FreeMembers(bs);
    PickLeads(fs, |fs|, n, align);
    FreePosition(bs, i);
    ContendsInList(bs, i, n, align);
    forall j | Contends(bs, |bs|, j, n, align) ensures 0 <= j < |bs| {
      ContendsBound(bs, |bs|, j, n, align);
    }
    forall j | Contends(bs, |bs|, j, n, align) ensures bs[i].size <= bs[j].size && (j < i ==> bs[i].size < bs[j].size) {
      ContendsBound(bs, |bs|, j, n, align);
      ContendsInList(bs, j, n, align);
      FreePosition(bs, j);
      if j < i {
        FreeOrder(bs, j, i);
      }
    }
  }

  lemma NoneAlignedOfList(bs: seq<Block>, n: nat, align: nat)
    requires align > 0 && AlignedPick(FreeBlocks(bs), |FreeBlocks(bs)|, n, align) < 0
    ensures NoneFitsAligned(bs, n, align)
  {
    hide FreeBlocks;
    hide FitsAligned;
    forall j | 0 <= j < |bs| && !bs[j].used ensures !FitsAligned(bs[j], n, align) {
      FreePosition(bs, j);
    }
  }

  lemma BestIsSome(bs: seq<Block>, i: nat, n: nat)
    requires IsBestFit(bs, i, n)
    ensures !NoneFits(bs, n) && i < |bs| && !bs[i].used && n <= bs[i].size
  {
  }

  /** Taking `n` bytes of a free block leaves no piece too small for a header. */
  ghost predicate CutsWhole(b: Block, n: nat) {
    n >= FREE_HEADER || b.size - n < MIN_SPLIT
  }

  lemma CarveCoalesced(bs: seq<Block>, base: nat, end: nat, i: nat, n: nat)
    requires Tiled(bs, base, end) && Coalesced(bs) && i < |bs| && !bs[i].used && n <= bs[i].size
    requires n >= FREE_HEADER || bs[i].size - n < MIN_SPLIT
    ensures Coalesced(Carve(bs, i, n))
  {
    CarveLegal(bs, base, end, i, n);
  }

  lemma SurvivesItself(bs: seq<Block>)
    ensures Survives(bs, bs)
  {
  }

  lemma CarveAfterKeeps(bs: seq<Block>, base: nat, end: nat, i: nat, gap: nat, n: nat)
    requires Tiled(bs, base, end) && Coalesced(bs) && i < |bs| && !bs[i].used && gap + n <= bs[i].size
    requires CutsLegally(bs[i], gap, n)
    ensures Coalesced(CarveAfter(bs, i, gap, n))
  {
    CarveAfterLegal(bs, base, end, i, gap, n);
  }

  /** Taking `n` bytes of a free block after `gap` bytes leaves no piece too small for a header. */
  predicate CutsLegally(x: Block, gap: nat, n: nat) {
    && (gap == 0 || (gap >= FREE_HEADER && x.size - gap >= FREE_HEADER))
    && (n >= FREE_HEADER || x.size - gap - n < MIN_SPLIT)
  }

  /** Where used block `i` is after free block `j` was carved. */
  ghost function IndexAfterCarve(bs: seq<Block>, i: nat, j: nat, n: nat): nat
    requires j < |bs| && n <= bs[j].size
  {
    if j < i && bs[j].size - n >= MIN_SPLIT then i + 1 else i
  }

  lemma CarveMoves(bs: seq<Block>, i: nat, j: nat, n: nat)
    requires i < |bs| && j < |bs| && i != j && n <= bs[j].size
    ensures var c, t := Carve(bs, j, n), IndexAfterCarve(bs, i, j, n);
            && t < |c| && c[t] == bs[i] && t != j
            && j < |c| && c[j].addr == bs[j].addr && c[j].used && c[j].size >= n
  {
    hide Carve;
    CarveElems(bs, j, n);
  }

  lemma GrowElems(bs: seq<Block>, base: nat, end: nat, i: nat, n: nat)
    requires Tiled(bs, base, end) && i + 1 < |bs| && n <= bs[i + 1].size
    ensures var c := Carve(bs, i + 1, n);
            i + 1 < |c| && c[i] == bs[i] && c[i + 1].addr == bs[i + 1].addr && c[i + 1].used
  {
    hide Carve;
    CarveElems(bs, i + 1, n);
  }

  lemma GrowKeeps(bs: seq<Block>, base: nat, end: nat, i: nat, n: nat)
    requires Tiled(bs, base, end) && Coalesced(bs)
    requires i + 1 < |bs| && bs[i].used && !bs[i + 1].used && n <= bs[i + 1].size
    ensures i + 1 < |Carve(bs, i + 1, n)| && Coalesced(Grow(bs, i, n))
  {
    CarveElems(bs, i + 1, n);
    GrowLegal(bs, base, end, i, n);
  }

  /** Carve block `j`, write in it, free block `i`: every other payload comes through. */
  lemma MoveKeepsPayloads(bs: seq<Block>, i: nat, j: nat, n: nat, m0: seq<byte>, m1: seq<byte>, m2: seq<byte>, m3: seq<byte>)
    requires i < |bs| && j < |bs| && i != j && bs[i].used && !bs[j].used && n <= bs[j].size
    requires PayloadKept(bs, m0, m1)
    requires var c := Carve(bs, j, n); j < |c| && PayloadKept(Marked(c, j, false), m1, m2)
    requires var c, t := Carve(bs, j, n), IndexAfterCarve(bs, i, j, n); t < |c| && PayloadKept(Marked(c, t, false), m2, m3)
    ensures PayloadKept(Marked(bs, i, false), m0, m3)
  {
    hide Carve;
    var c, t := Carve(bs, j, n), IndexAfterCarve(bs, i, j, n);
    CarveMoves(bs, i, j, n);
    var ks := Marked(bs, i, false);
    forall l, x | 0 <= l < |ks| && ks[l].used && ks[l].Payload() <= x < ks[l].End() && x < |m0| ensures m3[x] == m0[x] {
      CarveMoves(bs, l, j, n);
      var t' := IndexAfterCarve(bs, l, j, n);
      assert Marked(c, j, false)[t'] == bs[l] && Marked(c, t, false)[t'] == bs[l];
    }
  }

  /** The bytes copied into the carved block are still there after block `i` is freed. */
  lemma MoveKeepsCopy(bs: seq<Block>, i: nat, j: nat, n: nat, m2: seq<byte>, m3: seq<byte>, x: nat, len: nat)
    requires i < |bs| && j < |bs| && i != j && bs[i].used && !bs[j].used && len + USED_HEADER <= n <= bs[j].size
    requires var c, t := Carve(bs, j, n), IndexAfterCarve(bs, i, j, n); t < |c| && PayloadKept(Marked(c, t, false), m2, m3)
    requires x == bs[j].Payload() && x + len <= |m2|
    ensures |m3| == |m2| && m3[x..x + len] == m2[x..x + len]
  {
    hide Carve;
    var c, t := Carve(bs, j, n), IndexAfterCarve(bs, i, j, n);
    CarveMoves(bs, i, j, n);
    assert Marked(c, t, false)[j] == c[j];
    forall y | x <= y < x + len ensures m3[y] == m2[y] {
    }
  }

  // ------------------------------------------------------------------ realloc

  /** `realloc` can take the new bytes from the block after used block `i`. */
  ghost predicate InPlace(bs: seq<Block>, i: nat, size: nat) {
    i + 1 < |bs| && !bs[i + 1].used && bs[i].size - USED_HEADER + bs[i + 1].size >= size
  }

  /** The layout after growing block `i` in place to a payload of `size` bytes. */
  ghost function GrowLayout(bs: seq<Block>, i: nat, size: nat): seq<Block> {
    if InPlace(bs, i, size) && bs[i].size - USED_HEADER <= size then Grow(bs, i, size - (bs[i].size - USED_HEADER)) else bs
  }

  /** Growing in place gives block `i` exactly the size asked for, unless too little would be left: then all of its neighbour. */
  lemma GrownElems(bs: seq<Block>, base: nat, end: nat, i: nat, size: nat)
    requires Tiled(bs, base, end) && InPlace(bs, i, size) && PayloadSize(bs, i) <= size
    ensures i + 1 < |bs|
    ensures var r, both, want := GrowLayout(bs, i, size), bs[i].size + bs[i + 1].size, size + USED_HEADER;
            var split := both - want >= MIN_SPLIT;
            && |r| == (if split then |bs| else |bs| - 1) && i < |r|
            && (forall j :: 0 <= j < i ==> r[j] == bs[j])
            && r[i] == Block(bs[i].addr, if split then want else both, bs[i].used)
            && (split ==> r[i + 1] == Block(bs[i].addr + want, both - want, bs[i + 1].used))
            && (forall j :: (if split then i + 1 else i) < j < |r| ==> r[j] == bs[if split then j else j + 1])
  {
    hide Carve;
    hide MergeAt;
    hide Tiled;
    var n := size - PayloadSize(bs, i);
    CarveElems(bs, i + 1, n);
    MergeElems(Carve(bs, i + 1, n), i);
    TiledNext(bs, base, end, i);
  }

  lemma TiledNext(bs: seq<Block>, base: nat, end: nat, i: nat)
    requires Tiled(bs, base, end) && i + 1 < |bs|
    ensures bs[i + 1].addr == bs[i].addr + bs[i].size
  {
  }

  /** Block `j` is the best fit for the new payload of used block `i`. */
  ghost predicate MovesTo(bs: seq<Block>, i: nat, j: nat, n: nat) {
    i < |bs| && bs[i].used && IsBestFit(bs, j, n)
  }

  ghost function MoveLayout(bs: seq<Block>, i: nat, j: nat, n: nat): seq<Block> {
    if MovesTo(bs, i, j, n) then
      CarveMoves(bs, i, j, n);
      Release(Carve(bs, j, n), IndexAfterCarve(bs, i, j, n))
    else bs
  }

  /** Freeing the old block after the move is sound. */
  ghost predicate MoveSound(pfreeNull: bool, bs: seq<Block>, i: nat, j: nat, n: nat) {
    MovesTo(bs, i, j, n) && FreeSound(pfreeNull, Carve(bs, j, n), IndexAfterCarve(bs, i, j, n))
  }

  lemma MoveUnfolds(pfreeNull: bool, bs: seq<Block>, i: nat, j: nat, n: nat)
    requires MovesTo(bs, i, j, n)
    ensures n <= bs[j].size && i != j && j < |bs| && !bs[j].used
    ensures var c, t := Carve(bs, j, n), IndexAfterCarve(bs, i, j, n);
            && t < |c| && MoveLayout(bs, i, j, n) == Release(c, t)
            && (MoveSound(pfreeNull, bs, i, j, n) <==> FreeSound(pfreeNull, c, t))
  {
    CarveMoves(bs, i, j, n);
  }

  lemma MovesToIs(bs: seq<Block>, i: nat, j: nat, n: nat)
    requires i < |bs| && bs[i].used && IsBestFit(bs, j, n)
    ensures MovesTo(bs, i, j, n)
  {
  }

  // ------------------------------------------------------------------- runs

  /** One allocator call, named by the block it acts on. */
  datatype Op =
    | Take(i: nat, gap: nat, n: nat)  // alloc (gap 0), aligned_alloc
    | Give(i: nat)                    // free
    | Extend(i: nat, n: nat)          // realloc in place; a moving realloc is Take, then Give

  ghost predicate Enabled(bs: seq<Block>, op: Op) {
    op.i < |bs| &&
    match op
    case Take(i, gap, n) => !bs[i].used && gap + n <= bs[i].size && CutsLegally(bs[i], gap, n)
    case Give(i) => bs[i].used
    case Extend(i, n) =>
      bs[i].used && i + 1 < |bs| && !bs[i + 1].used && n <= bs[i + 1].size
  }

  ghost function Apply(bs: seq<Block>, op: Op): seq<Block>
    requires Enabled(bs, op)
  {
    match op
    case Take(i, gap, n) => CarveAfter(bs, i, gap, n)
    case Give(i) => Release(bs, i)
    case Extend(i, n) => Grow(bs, i, n)
  }

  /** `trace` is a run of allocator calls: each layout comes from the one before by an enabled call. */
  ghost predicate Run(trace: seq<seq<Block>>, ops: seq<Op>) {
    && |trace| == |ops| + 1
    && forall t :: 0 <= t < |ops| ==> Enabled(trace[t], ops[t]) && trace[t + 1] == Apply(trace[t], ops[t])
  }

  lemma ApplyLegal(bs: seq<Block>, base: nat, end: nat, op: Op)
    requires Legal(bs, base, end) && Enabled(bs, op)
    ensures Legal(Apply(bs, op), base, end)
  {
    hide CarveAfter;
    hide Release;
    hide Grow;
    hide Legal;
    match op
    case Take(i, gap, n) => CarveAfterLegal(bs, base, end, i, gap, n);
    case Give(i) => ReleaseLegal(bs, base, end, i);
    case Extend(i, n) => GrowLegal(bs, base, end, i, n);
  }

  /**
    Every run that starts from a fresh arena keeps the blocks tiling it exactly, with no two
    neighbouring free blocks; once nothing is live, the arena is one free block again.
   */
  lemma {:induction false} RunsStayLegal(trace: seq<seq<Block>>, ops: seq<Op>, base: nat, end: nat, t: nat)
    requires Run(trace, ops) && base + FREE_HEADER <= end && trace[0] == [Block(base, end - base, false)]
    requires t < |trace|
    ensures Legal(trace[t], base, end)
    ensures Live(trace[t]) == {} ==> trace[t] == trace[0]
  {
    hide Apply;
    if t > 0 {
      RunsStayLegal(trace, ops, base, end, t - 1);
      ApplyLegal(trace[t - 1], base, end, ops[t - 1]);
      assert trace[t - 1 + 1] == Apply(trace[t - 1], ops[t - 1]);
    }
    if Live(trace[t]) == {} {
      AllFree(trace[t], base, end);
    }
  }

  // --------------------------------------------------------- where it fails

  /** A fresh 4 KiB arena after its first `alloc(100)`. */
  ghost const ONE_TAKEN: seq<Block> := [Block(4096, 112, true), Block(4208, 3984, false)]

  /** Freeing the first block ever allocated is not sound with the shipped `pfree`, and is with NULL on 0. */
  lemma FirstFreeUnsound()
    ensures Legal(ONE_TAKEN, 4096, 8192)
    ensures !FreeSound(false, ONE_TAKEN, 0) && FreeSound(true, ONE_TAKEN, 0)
  {
    assert !ONE_TAKEN[1].used;
  }

  /** `alloc(0)` and `aligned_alloc(64, 16)` in a fresh arena leave a piece too small for a header. */
  lemma SmallPiecesIllegal()
    ensures !Legal(Carve([Block(4096, 4096, false)], 0, 12), 4096, 8192)
    ensures Gap(4096, 16) == 4 && !Legal(CarveAfter([Block(4096, 4096, false)], 0, 4, 76), 4096, 8192)
  {
    var bs := [Block(4096, 4096, false)];
    CarveLegal(bs, 4096, 8192, 0, 12);
    CarveAfterLegal(bs, 4096, 8192, 0, 4, 76);
  }
}
