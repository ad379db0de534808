/**
  The layout of the allocator's arena as a sequence of blocks, and what each
  allocator operation does to it.  Everything here is about the layout alone;
  `Alloc.dfy` shows that the linked headers in memory follow it.
 */
module Blocks {

  /** A block spans [addr, addr + size); its payload starts 12 bytes in. */
  datatype Block = Block(addr: nat, size: nat, used: bool) {
    function End(): nat { addr + size }
    function Payload(): nat { addr + USED_HEADER }
  }

  const USED_HEADER: nat := 12
  const FREE_HEADER: nat := 20
  const MIN_SPLIT: nat := 2 * FREE_HEADER

  /** The blocks tile [base, end) exactly and each has room for a free header. */
  ghost predicate Tiled(bs: seq<Block>, base: nat, end: nat) {
    && |bs| > 0
    && bs[0].addr == base
    && bs[|bs| - 1].End() == end
    && (forall i :: 0 <= i < |bs| ==> bs[i].size >= FREE_HEADER)
    && (forall i, j :: 0 <= i < j < |bs| && j == i + 1 ==> bs[i].End() == bs[j].addr)
  }

  /** No two neighbouring blocks are both free. */
  ghost predicate Coalesced(bs: seq<Block>) {
    forall i, j :: 0 <= i < j < |bs| && j == i + 1 ==> bs[i].used || bs[j].used
  }

  ghost predicate Legal(bs: seq<Block>, base: nat, end: nat) {
    Tiled(bs, base, end) && Coalesced(bs)
  }

  /** The free blocks, in address order: what the free list must thread. */
  ghost function FreeBlocks(bs: seq<Block>): (r: seq<Block>)
    ensures |r| <= |bs|
  {
    if bs == [] then []
    else (if bs[0].used then [] else [bs[0]]) + FreeBlocks(bs[1..])
  }

  ghost function Live(bs: seq<Block>): set<Block> {
    set b | b in bs && b.used
  }

  /** `q` is the payload of block `j`. */
  ghost predicate PayloadOf(bs: seq<Block>, j: nat, q: nat) {
    j < |bs| && q == bs[j].Payload()
  }

  ghost predicate LiveAt(bs: seq<Block>, i: nat) {
    i < |bs| && bs[i].used
  }

  ghost function AddrAt(bs: seq<Block>, i: nat): nat {
    if i < |bs| then bs[i].addr else 0
  }

  ghost function PayloadSize(bs: seq<Block>, i: nat): int {
    if i < |bs| then bs[i].size - USED_HEADER else 0
  }

  /** [x, x + n) lies inside the payload of live block `i`. */
  ghost predicate InPayload(bs: seq<Block>, i: nat, x: nat, n: nat) {
    LiveAt(bs, i) && bs[i].Payload() <= x && x + n <= bs[i].End()
  }

  // ------------------------------------------------------------- operations

  ghost function SplitAt(bs: seq<Block>, i: nat, n: nat): seq<Block>
    requires i < |bs| && n <= bs[i].size
  {
    bs[..i] + [Block(bs[i].addr, n, bs[i].used), Block(bs[i].addr + n, bs[i].size - n, bs[i].used)] + bs[i + 1..]
  }

  ghost function Marked(bs: seq<Block>, i: nat, used: bool): seq<Block>
    requires i < |bs|
  {
    bs[i := bs[i].(used := used)]
  }

  ghost function MergeAt(bs: seq<Block>, i: nat): seq<Block>
    requires i + 1 < |bs|
  {
    bs[..i] + [Block(bs[i].addr, bs[i].size + bs[i + 1].size, bs[i].used)] + bs[i + 2..]
  }

  /** Hand out `n` bytes at the front of free block `i`, splitting when the rest is worth keeping. */
  ghost function Carve(bs: seq<Block>, i: nat, n: nat): seq<Block>
    requires i < |bs| && n <= bs[i].size
  {
    if bs[i].size - n >= MIN_SPLIT then Marked(SplitAt(bs, i, n), i, true) else Marked(bs, i, true)
  }

  /** Skip `gap` bytes of free block `i` before carving, leaving them as a free block. */
  ghost function CarveAfter(bs: seq<Block>, i: nat, gap: nat, n: nat): seq<Block>
    requires i < |bs| && gap + n <= bs[i].size
  {
    if gap == 0 then Carve(bs, i, n) else Carve(SplitAt(bs, i, gap), i + 1, n)
  }

  /** Free block `i` absorbs a free block right after it. */
  ghost function AbsorbNext(bs: seq<Block>, i: nat): seq<Block>
    requires i < |bs|
  {
    if i + 1 < |bs| && !bs[i + 1].used then MergeAt(bs, i) else bs
  }

  /** Free block `i` absorbs the free block after it and is absorbed by the free block before it. */
  ghost function AbsorbBoth(bs: seq<Block>, i: nat): seq<Block>
    requires i < |bs|
  {
    var r := AbsorbNext(bs, i);
    if i > 0 && !bs[i - 1].used then AbsorbNext(r, i - 1) else r
  }

  /** Free block `i` and merge it with its free neighbours. */
  ghost function Release(bs: seq<Block>, i: nat): seq<Block>
    requires i < |bs|
  {
    AbsorbBoth(Marked(bs, i, false), i)
  }

  /** The layout in which block `i` need not be kept. */
  ghost function Others(bs: seq<Block>, i: nat): seq<Block> {
    if i < |bs| then Marked(bs, i, false) else bs
  }

  /** Grow used block `i` by `n` bytes of the free block after it. */
  ghost function Grow(bs: seq<Block>, i: nat, n: nat): seq<Block>
    requires i + 1 < |bs| && n <= bs[i + 1].size
  {
    MergeAt(Carve(bs, i + 1, n), i)
  }

  // ------------------------------------------------------- facts about tiling

  lemma {:induction false} TiledOrder(bs: seq<Block>, base: nat, end: nat, i: nat, j: nat)
    requires Tiled(bs, base, end) && i < j < |bs|
    ensures bs[i].End() <= bs[j].addr
    decreases j
  {
    if i + 1 < j {
      TiledOrder(bs, base, end, i, j - 1);
    }
    assert bs[j - 1].End() == bs[j].addr;
  }

  lemma TiledBounds(bs: seq<Block>, base: nat, end: nat, i: nat)
    requires Tiled(bs, base, end) && i < |bs|
    ensures base <= bs[i].addr && bs[i].End() <= end
  {
    if i > 0 {
      TiledOrder(bs, base, end, 0, i);
    }
    if i < |bs| - 1 {
      TiledOrder(bs, base, end, i, |bs| - 1);
    }
  }

  /** Any two blocks of a tiling are the same block or do not overlap. */
  lemma Disjoint(bs: seq<Block>, base: nat, end: nat)
    requires Tiled(bs, base, end)
    ensures forall i, j :: 0 <= i < j < |bs| ==> bs[i].End() <= bs[j].addr
    ensures forall x :: x in bs ==> base <= x.addr && x.size >= FREE_HEADER && x.End() <= end
    ensures forall x, y :: x in bs && y in bs ==> x == y || x.End() <= y.addr || y.End() <= x.addr
  {
    forall i, j | 0 <= i < j < |bs| ensures bs[i].End() <= bs[j].addr {
      TiledOrder(bs, base, end, i, j);
    }
    forall x | x in bs ensures base <= x.addr && x.End() <= end {
      var i :| 0 <= i < |bs| && bs[i] == x;
      TiledBounds(bs, base, end, i);
    }
    forall x, y | x in bs && y in bs ensures x == y || x.End() <= y.addr || y.End() <= x.addr {
      var i :| 0 <= i < |bs| && bs[i] == x;
      var j :| 0 <= j < |bs| && bs[j] == y;
      if i < j {
        TiledOrder(bs, base, end, i, j);
      } else if j < i {
        TiledOrder(bs, base, end, j, i);
      }
    }
  }

  // ---------------------------------------------------- facts about free lists

  lemma {:induction false} FreeConcat(a: seq<Block>, b: seq<Block>)
    ensures FreeBlocks(a + b) == FreeBlocks(a) + FreeBlocks(b)
  {
    if a == [] {
      assert a + b == b;
    } else {
      var h := if a[0].used then [] else [a[0]];
      calc {
        FreeBlocks(a + b);
        { assert (a + b)[1..] == a[1..] + b && (a + b)[0] == a[0]; }
        h + FreeBlocks(a[1..] + b);
        { FreeConcat(a[1..], b); }
        h + (FreeBlocks(a[1..]) + FreeBlocks(b));
        h + FreeBlocks(a[1..]) + FreeBlocks(b);
        FreeBlocks(a) + FreeBlocks(b);
      }
    }
  }

  lemma FreeSingle(b: Block)
    ensures FreeBlocks([b]) == if b.used then [] else [b]
  {
    assert FreeBlocks([b][1..]) == [];
  }

  lemma FreeJoin(pre: seq<Block>, b: Block, post: seq<Block>)
    ensures FreeBlocks(pre + [b] + post) == FreeBlocks(pre) + (if b.used then [] else [b]) + FreeBlocks(post)
  {
    hide FreeBlocks;
    FreeSingle(b);
    FreeConcat(pre, [b]);
    FreeConcat(pre + [b], post);
  }

  lemma FreeAround(bs: seq<Block>, i: nat)
    requires i < |bs|
    ensures FreeBlocks(bs) == FreeBlocks(bs[..i]) + (if bs[i].used then [] else [bs[i]]) + FreeBlocks(bs[i + 1..])
  {
    hide FreeBlocks;
    InThree(bs, i);
    FreeJoin(bs[..i], bs[i], bs[i + 1..]);
  }

  lemma InThree(bs: seq<Block>, i: nat)
    requires i < |bs|
    ensures bs == bs[..i] + [bs[i]] + bs[i + 1..]
  {
  }

  lemma {:induction false} FreeMembers(bs: seq<Block>)
    ensures forall x :: x in FreeBlocks(bs) <==> x in bs && !x.used
  {
    if bs != [] {
      FreeMembers(bs[1..]);
      assert bs == [bs[0]] + bs[1..];
    }
  }

  lemma {:induction false} NoneFree(bs: seq<Block>)
    requires forall i :: 0 <= i < |bs| ==> bs[i].used
    ensures FreeBlocks(bs) == []
  {
    if bs != [] {
      NoneFree(bs[1..]);
    }
  }

  /** The k-th free block, as a position in the tiling. */
  lemma {:induction false} FreeIndex(bs: seq<Block>, k: nat) returns (i: nat)
    requires k < |FreeBlocks(bs)|
    ensures i < |bs| && bs[i] == FreeBlocks(bs)[k] && !bs[i].used
    ensures |FreeBlocks(bs[..i])| == k
  {
    if bs[0].used || k > 0 {
      var k' := if bs[0].used then k else k - 1;
      var i' := FreeIndex(bs[1..], k');
      i := i' + 1;
      assert bs[..i] == [bs[0]] + bs[1..][..i'];
    } else {
      i := 0;
    }
  }

  lemma PrefixCount(bs: seq<Block>, i: nat, j: nat)
    requires i <= j <= |bs|
    ensures |FreeBlocks(bs[..i])| <= |FreeBlocks(bs[..j])|
  {
    FreeConcat(bs[..i], bs[i..j]);
    assert bs[..j] == bs[..i] + bs[i..j];
  }

  /** Free blocks come in address order, none overlapping. */
  lemma {:induction false} FreeSorted(bs: seq<Block>, base: nat, end: nat)
    requires Tiled(bs, base, end)
    ensures forall k, l :: 0 <= k < l < |FreeBlocks(bs)| ==> FreeBlocks(bs)[k].End() <= FreeBlocks(bs)[l].addr
  {
    var fs := FreeBlocks(bs);
    forall k, l | 0 <= k < l < |fs| ensures fs[k].End() <= fs[l].addr {
      var i := FreeIndex(bs, k);
      var j := FreeIndex(bs, l);
      Disjoint(bs, base, end);
      if j <= i {
        PrefixCount(bs, j, i);
      }
    }
  }

  // ---------------------------------------------- operations keep the tiling

  lemma SplitElems(bs: seq<Block>, i: nat, n: nat)
    requires i < |bs| && n <= bs[i].size
    ensures var r := SplitAt(bs, i, n);
            && |r| == |bs| + 1
            && (forall j :: 0 <= j < i ==> r[j] == bs[j])
            && r[i] == Block(bs[i].addr, n, bs[i].used)
            && r[i + 1] == Block(bs[i].addr + n, bs[i].size - n, bs[i].used)
            && (forall j :: i + 1 < j < |r| ==> r[j] == bs[j - 1])
  {
  }

  lemma SplitTiled(bs: seq<Block>, base: nat, end: nat, i: nat, n: nat)
    requires Tiled(bs, base, end) && i < |bs|
    requires FREE_HEADER <= n && n + FREE_HEADER <= bs[i].size
    ensures Tiled(SplitAt(bs, i, n), base, end)
  {
    var r := SplitAt(bs, i, n);
    forall j, l | 0 <= j < l < |r| && l == j + 1 ensures r[j].End() == r[l].addr {
      if j > i {
        assert r[l] == bs[j];
        assert bs[j - 1].End() == bs[j].addr;
      }
    }
  }

  lemma MergeTiled(bs: seq<Block>, base: nat, end: nat, i: nat)
    requires Tiled(bs, base, end) && i + 1 < |bs|
    ensures Tiled(MergeAt(bs, i), base, end)
  {
    var r := MergeAt(bs, i);
    assert bs[i].End() == bs[i + 1].addr;
    forall j, l | 0 <= j < l < |r| && l == j + 1 ensures r[j].End() == r[l].addr {
      if j >= i {
        assert r[l] == bs[l + 1];
        assert bs[j + 1].End() == bs[l + 1].addr;
      }
    }
  }
}
