/**
  The allocator's two doubly linked lists: one field per header word, keyed by
  block address.  What it means for the fields to follow a layout, and how each
  operation's stores re-establish that.
 */
module Links {
  import opened Ram
  import opened Blocks
  import opened Words

  const PREV: nat := 0
  const NEXT: nat := 4
  const USED: nat := 8
  const NFREE: nat := 12
  const PFREE: nat := 16

  /** One header word of every block, by block address. */
  type Field = map<int, int>

  /** The field is what memory holds `off` bytes into each header. */
  ghost predicate Mirrors(m: seq<byte>, f: Field, off: nat) {
    forall a :: a in f ==> 0 <= a && a + FREE_HEADER <= |m| && f[a] == Word(m, a + off)
  }

  /** No two headers overlap. */
  ghost predicate Spaced(keys: set<int>) {
    forall a, b :: a in keys && b in keys ==> a == b || a + FREE_HEADER <= b || b + FREE_HEADER <= a
  }

  ghost function Addrs(bs: seq<Block>): set<int> {
    set x | x in bs :: x.addr
  }

  ghost predicate OneWordChanged(m: seq<byte>, m': seq<byte>, w: int) {
    && |m'| == |m|
    && forall x :: 0 <= x < |m| && !(w <= x < w + 4) ==> m'[x] == m[x]
  }

  lemma MirrorKept(m: seq<byte>, m': seq<byte>, f: Field, off: nat, b: int, at: nat)
    requires Mirrors(m, f, off) && OneWordChanged(m, m', b + at)
    requires b in f && Spaced(f.Keys)
    requires off + 4 <= at || at + 4 <= off
    requires off + 4 <= FREE_HEADER && at + 4 <= FREE_HEADER
    ensures Mirrors(m', f, off)
  {
    forall a | a in f ensures f[a] == Word(m', a + off) {
      assert f[a] == Word(m, a + off);
    }
  }

  lemma MirrorStored(m: seq<byte>, f: Field, off: nat, b: nat, v: nat)
    requires Mirrors(m, f, off) && b in f && Spaced(f.Keys) && v < U32 && off + 4 <= FREE_HEADER
    ensures Mirrors(Stored(m, b + off, v), f[b := v], off)
    ensures OneWordChanged(m, Stored(m, b + off, v), b + off)
  {
    var m' := Stored(m, b + off, v);
    StoredReadsBack(m, b + off, v);
    assert OneWordChanged(m, m', b + off);
    forall a | a in f && a != b ensures f[a] == Word(m', a + off) {
      assert f[a] == Word(m, a + off);
    }
  }

  ghost predicate Bounded(keys: set<int>, base: int, end: int) {
    forall a :: a in keys ==> base <= a && (a == end || a + FREE_HEADER <= end)
  }

  // ------------------------------------------------------------ what is touched

  /** The word at `w` overlaps no payload of a used block. */
  ghost predicate SafeWord(bs: seq<Block>, w: int) {
    forall i :: 0 <= i < |bs| && bs[i].used ==> w + 4 <= bs[i].Payload() || bs[i].End() <= w
  }

  /** No byte of a used block's payload differs. */
  ghost predicate PayloadKept(bs: seq<Block>, m: seq<byte>, m': seq<byte>) {
    && |m'| == |m|
    && forall i, x :: 0 <= i < |bs| && bs[i].used && bs[i].Payload() <= x < bs[i].End() && x < |m| ==> m'[x] == m[x]
  }

  /** No byte outside [base, end) differs, except in the `prev_free` word of a header at `end`. */
  ghost predicate OutsideKept(base: int, end: int, m: seq<byte>, m': seq<byte>) {
    && |m'| == |m|
    && forall x :: 0 <= x < |m| && (x < base || (end <= x && !(end + PFREE <= x < end + FREE_HEADER))) ==> m'[x] == m[x]
  }

  lemma TouchKeeps(bs: seq<Block>, base: int, end: int, m0: seq<byte>, m: seq<byte>, m': seq<byte>, w: int)
    requires PayloadKept(bs, m0, m) && OutsideKept(base, end, m0, m) && OneWordChanged(m, m', w)
    requires base <= end && SafeWord(bs, w) && ((base <= w && w + 4 <= end) || w == end + PFREE)
    ensures PayloadKept(bs, m0, m') && OutsideKept(base, end, m0, m')
  {
  }

  /** Every used block of `keep` is still a block of `bs`. */
  ghost predicate Survives(keep: seq<Block>, bs: seq<Block>) {
    forall x :: x in keep && x.used ==> x in bs
  }

  lemma HeadSafe(keep: seq<Block>, bs: seq<Block>, base: nat, end: nat, i: nat)
    requires Tiled(bs, base, end) && Survives(keep, bs) && i < |bs|
    ensures forall w :: bs[i].addr <= w && w + 4 <= bs[i].Payload() ==> SafeWord(keep, w)
  {
    hide Tiled;
    Disjoint(bs, base, end);
    assert bs[i] in bs;
    forall j | 0 <= j < |keep| && keep[j].used
      ensures bs[i].Payload() <= keep[j].Payload() || keep[j].End() <= bs[i].addr
    {
      assert keep[j] in keep;
    }
  }

  lemma FreeSafe(keep: seq<Block>, bs: seq<Block>, base: nat, end: nat, i: nat)
    requires Tiled(bs, base, end) && Survives(keep, bs) && i < |bs| && !bs[i].used
    ensures forall w :: bs[i].addr <= w && w + 4 <= bs[i].End() ==> SafeWord(keep, w)
  {
    hide Tiled;
    Disjoint(bs, base, end);
    assert bs[i] in bs;
    forall j | 0 <= j < |keep| && keep[j].used
      ensures bs[i].End() <= keep[j].Payload() || keep[j].End() <= bs[i].addr
    {
      assert keep[j] in keep;
    }
  }

  lemma EndSafe(keep: seq<Block>, bs: seq<Block>, base: nat, end: nat)
    requires Tiled(bs, base, end) && Survives(keep, bs)
    ensures SafeWord(keep, end + PFREE)
  {
    Disjoint(bs, base, end);
    forall j | 0 <= j < |keep| && keep[j].used ensures keep[j].End() <= end + PFREE {
      assert keep[j] in keep;
    }
  }

  lemma AdoptMirrors(m: seq<byte>, f: Field, off: nat, a: nat)
    requires Mirrors(m, f, off) && a + FREE_HEADER <= |m|
    ensures Mirrors(m, f[a := Word(m, a + off)], off)
  {
  }

  lemma DropMirrors(m: seq<byte>, f: Field, off: nat, a: int)
    requires Mirrors(m, f, off)
    ensures Mirrors(m, f - {a}, off)
  {
  }

  /** A fresh header inside block `i`, clear of the block's own, overlaps no header. */
  lemma SpacedInside(bs: seq<Block>, base: nat, end: nat, i: nat, s: int)
    requires Tiled(bs, base, end) && i < |bs|
    requires bs[i].addr + FREE_HEADER <= s && s + FREE_HEADER <= bs[i].End()
    requires Spaced(Addrs(bs) + {end}) && Bounded(Addrs(bs) + {end}, base, end)
    ensures Spaced(Addrs(bs) + {end} + {s}) && Bounded(Addrs(bs) + {end} + {s}, base, end)
    ensures s !in Addrs(bs) + {end}
  {
    hide Tiled;
    Disjoint(bs, base, end);
    assert bs[i] in bs;
    forall a | a in Addrs(bs) + {end} ensures a + FREE_HEADER <= s || s + FREE_HEADER <= a {
      if a != end {
        var x :| x in bs && x.addr == a;
      }
    }
  }

  lemma SpacedLess(keys: set<int>, base: int, end: int, a: int)
    requires Spaced(keys) && Bounded(keys, base, end)
    ensures Spaced(keys - {a}) && Bounded(keys - {a}, base, end)
  {
  }

  // ---------------------------------------------------------------- the lists

  ghost function SizeBefore(bs: seq<Block>, i: int): int {
    if 0 < i <= |bs| then bs[i - 1].size else 0
  }

  /** Every header records its own size. */
  ghost predicate Sizes(next: Field, bs: seq<Block>) {
    forall i :: 0 <= i < |bs| ==> bs[i].addr in next && next[bs[i].addr] == bs[i].size
  }

  /** Every header records whether the block is in use. */
  ghost predicate Uses(used: Field, bs: seq<Block>) {
    forall i :: 0 <= i < |bs| ==> bs[i].addr in used && used[bs[i].addr] == (if bs[i].used then 1 else 0)
  }

  /** Every header records its predecessor's size, and the first block none. */
  ghost predicate Backs(prev: Field, bs: seq<Block>) {
    && (forall i :: 0 <= i < |bs| ==> bs[i].addr in prev)
    && (forall i {:trigger prev[bs[i].addr]} :: 0 <= i < |bs| ==> prev[bs[i].addr] == SizeBefore(bs, i))
  }

  ghost function AddrOr(fs: seq<Block>, k: int, end: int): int {
    if 0 <= k < |fs| then fs[k].addr else end
  }

  ghost function DistBefore(fs: seq<Block>, k: int): int {
    if 0 < k < |fs| then fs[k].addr - fs[k - 1].addr else 0
  }

  /** Every free block records the distance to the next free one, or to the end. */
  ghost predicate Forwards(nfree: Field, fs: seq<Block>, end: int) {
    && (forall k :: 0 <= k < |fs| ==> fs[k].addr in nfree)
    && (forall k {:trigger nfree[fs[k].addr]} :: 0 <= k < |fs| ==> nfree[fs[k].addr] == AddrOr(fs, k + 1, end) - fs[k].addr)
  }

  /** Every free block records the distance back to the previous free one, the first 0. */
  ghost predicate Backwards(pfree: Field, fs: seq<Block>) {
    && (forall k :: 0 <= k < |fs| ==> fs[k].addr in pfree)
    && (forall k {:trigger pfree[fs[k].addr]} :: 0 <= k < |fs| ==> pfree[fs[k].addr] == DistBefore(fs, k))
  }

  /** Where the blocks around position `i` of a tiling lie. */
  lemma Near(bs: seq<Block>, base: nat, end: nat, i: nat)
    requires Tiled(bs, base, end) && i < |bs|
    ensures base <= bs[i].addr && bs[i].End() <= end && FREE_HEADER <= bs[i].size
    ensures forall j :: 0 <= j < i ==> bs[j].addr + FREE_HEADER <= bs[j].End() <= bs[i].addr
    ensures forall j :: i < j < |bs| ==> bs[i].End() <= bs[j].addr
    ensures forall j :: i + 1 < j < |bs| ==> bs[i].End() + FREE_HEADER <= bs[j].addr
    ensures i + 1 < |bs| <==> bs[i].End() != end
    ensures i + 1 < |bs| ==> bs[i].End() == bs[i + 1].addr
  {
    Disjoint(bs, base, end);
    if i + 1 < |bs| {
      TiledBounds(bs, base, end, i + 1);
    }
  }

  // -------------------------------------------------------------------- split

  lemma SplitSizes(next: Field, bs: seq<Block>, base: nat, end: nat, i: nat, size: nat)
    requires Tiled(bs, base, end) && Sizes(next, bs) && i < |bs|
    requires FREE_HEADER <= size && size + FREE_HEADER <= bs[i].size
    ensures var b, s := bs[i].addr, bs[i].addr + size;
            Sizes(next[s := next[b] - size][b := size], SplitAt(bs, i, size))
  {
    hide Tiled;
    hide SplitAt;
    Near(bs, base, end, i);
    SplitElems(bs, i, size);
  }

  lemma SplitUses(used: Field, bs: seq<Block>, base: nat, end: nat, i: nat, size: nat)
    requires Tiled(bs, base, end) && Uses(used, bs) && i < |bs| && !bs[i].used
    requires FREE_HEADER <= size && size + FREE_HEADER <= bs[i].size
    ensures Uses(used[bs[i].addr + size := 0], SplitAt(bs, i, size))
  {
    hide Tiled;
    hide SplitAt;
    Near(bs, base, end, i);
    SplitElems(bs, i, size);
  }

  lemma SplitBefore(bs: seq<Block>, i: nat, n: nat)
    requires i < |bs| && n <= bs[i].size
    ensures var r := SplitAt(bs, i, n);
            && (forall j :: 0 <= j <= i ==> SizeBefore(r, j) == SizeBefore(bs, j))
            && SizeBefore(r, i + 1) == n
            && SizeBefore(r, i + 2) == bs[i].size - n == SizeBefore(bs, i + 1) - n
            && (forall j :: i + 2 < j <= |r| ==> SizeBefore(r, j) == SizeBefore(bs, j - 1))
  {
  }

  lemma SplitBacks(prev: Field, bs: seq<Block>, base: nat, end: nat, i: nat, size: nat)
    requires Tiled(bs, base, end) && Backs(prev, bs) && i < |bs|
    requires FREE_HEADER <= size && size + FREE_HEADER <= bs[i].size
    requires bs[i].End() == end || bs[i].End() in prev
    ensures var s, n := bs[i].addr + size, bs[i].End();
            var prev1 := prev[s := size];
            Backs(if n != end then prev1[n := prev1[n] - size] else prev1, SplitAt(bs, i, size))
  {
    hide Tiled;
    hide SplitAt;
    hide SizeBefore;
    Near(bs, base, end, i);
    SplitElems(bs, i, size);
    SplitBefore(bs, i, size);
  }

  lemma SplitKeys(bs: seq<Block>, i: nat, size: nat)
    requires i < |bs| && size <= bs[i].size
    ensures Addrs(SplitAt(bs, i, size)) == Addrs(bs) + {bs[i].addr + size}
  {
    hide SplitAt;
    SplitElems(bs, i, size);
    var r := SplitAt(bs, i, size);
    forall a | a in Addrs(r) ensures a in Addrs(bs) + {bs[i].addr + size} {
      var j :| 0 <= j < |r| && r[j].addr == a;
      if j != i + 1 {
        assert bs[if j <= i then j else j - 1].addr == a;
      }
    }
    forall a | a in Addrs(bs) ensures a in Addrs(r) {
      var j :| 0 <= j < |bs| && bs[j].addr == a;
      assert r[if j <= i then j else j + 1].addr == a;
    }
    assert r[i + 1].addr in Addrs(r);
  }

  lemma SplitSurvives(keep: seq<Block>, bs: seq<Block>, i: nat, size: nat)
    requires Survives(keep, bs) && i < |bs| && size <= bs[i].size && !bs[i].used
    ensures Survives(keep, SplitAt(bs, i, size))
  {
    hide SplitAt;
    SplitElems(bs, i, size);
    forall x | x in keep && x.used ensures x in SplitAt(bs, i, size) {
      var j :| 0 <= j < |bs| && bs[j] == x;
      assert SplitAt(bs, i, size)[if j < i then j else j + 1] == x;
    }
  }

  // --------------------------------------------------- lists of free blocks

  /** Free blocks in address order, below `end`, none overlapping. */
  ghost predicate Increasing(fs: seq<Block>, end: int) {
    && (forall k :: 0 <= k < |fs| ==> fs[k].size >= FREE_HEADER && fs[k].End() <= end)
    && (forall k, l :: 0 <= k < l < |fs| ==> fs[k].End() <= fs[l].addr)
  }

  lemma FreeIncreasing(bs: seq<Block>, base: nat, end: nat)
    requires Tiled(bs, base, end)
    ensures Increasing(FreeBlocks(bs), end)
  {
    hide FreeBlocks;
    FreeSorted(bs, base, end);
    FreeMembers(bs);
    Disjoint(bs, base, end);
    var fs := FreeBlocks(bs);
    assert forall l :: 0 <= l < |fs| ==> fs[l] in fs;
  }

  /** Where the free blocks around position `k` lie. */
  lemma NearFree(fs: seq<Block>, end: int, k: int)
    requires Increasing(fs, end) && 0 <= k < |fs|
    ensures FREE_HEADER <= fs[k].size && fs[k].End() <= end
    ensures forall l :: 0 <= l < k ==> fs[l].addr + FREE_HEADER <= fs[l].End() <= fs[k].addr
    ensures forall l :: 0 <= l < k - 1 ==> fs[l].addr + FREE_HEADER <= fs[k - 1].addr
    ensures forall l :: k < l < |fs| ==> fs[k].End() <= fs[l].addr && fs[l].addr + FREE_HEADER <= end
    ensures forall l :: k + 1 < l < |fs| ==> AddrOr(fs, k + 1, end) + FREE_HEADER <= fs[l].addr
    ensures k + 1 < |fs| <==> AddrOr(fs, k + 1, end) != end
    ensures fs[k].End() <= AddrOr(fs, k + 1, end) <= end
  {
  }

  lemma SplitForwards(nfree: Field, fs: seq<Block>, end: int, k: nat, size: nat)
    requires Increasing(fs, end) && Forwards(nfree, fs, end) && k < |fs|
    requires FREE_HEADER <= size && size + FREE_HEADER <= fs[k].size
    ensures var b, s := fs[k].addr, fs[k].addr + size;
            Forwards(nfree[s := nfree[b] - size][b := size], SplitAt(fs, k, size), end)
  {
    hide Increasing;
    hide SplitAt;
    hide AddrOr;
    NearFree(fs, end, k);
    SplitElems(fs, k, size);
    SplitAddrs(fs, end, k, size);
  }

  lemma SplitAddrs(fs: seq<Block>, end: int, k: nat, n: nat)
    requires k < |fs| && n <= fs[k].size
    ensures var r := SplitAt(fs, k, n);
            && (forall j :: 0 <= j <= k ==> AddrOr(r, j, end) == AddrOr(fs, j, end))
            && AddrOr(r, k + 1, end) == fs[k].addr + n
            && (forall j :: k + 1 < j ==> AddrOr(r, j, end) == AddrOr(fs, j - 1, end))
            && (forall j :: 0 <= j <= k ==> DistBefore(r, j) == DistBefore(fs, j))
            && DistBefore(r, k + 1) == n
            && (k + 1 < |fs| ==> DistBefore(r, k + 2) == DistBefore(fs, k + 1) - n)
            && (forall j :: k + 2 < j < |r| ==> DistBefore(r, j) == DistBefore(fs, j - 1))
  {
  }

  lemma SplitBackwards(pfree: Field, fs: seq<Block>, end: int, k: nat, size: nat)
    requires Increasing(fs, end) && Backwards(pfree, fs) && k < |fs|
    requires FREE_HEADER <= size && size + FREE_HEADER <= fs[k].size
    requires AddrOr(fs, k + 1, end) != end ==> AddrOr(fs, k + 1, end) in pfree
    ensures var s, n := fs[k].addr + size, AddrOr(fs, k + 1, end);
            var pfree1 := pfree[s := size];
            Backwards(if n != end then pfree1[n := pfree1[n] - size] else pfree1, SplitAt(fs, k, size))
  {
    hide Increasing;
    hide SplitAt;
    hide DistBefore;
    NearFree(fs, end, k);
    SplitElems(fs, k, size);
    SplitAddrs(fs, end, k, size);
  }

  /** Splitting a free block splits it in the free list. */
  lemma SplitFree(bs: seq<Block>, i: nat, k: nat, size: nat)
    requires i < |bs| && size <= bs[i].size && !bs[i].used && k == |FreeBlocks(bs[..i])|
    ensures k < |FreeBlocks(bs)| && FreeBlocks(bs)[k] == bs[i]
    ensures FreeBlocks(SplitAt(bs, i, size)) == SplitAt(FreeBlocks(bs), k, size)
  {
    var x, y := Block(bs[i].addr, size, false), Block(bs[i].addr + size, bs[i].size - size, false);
    PairFree(x, y);
    hide FreeBlocks;
    var pre, post := bs[..i], bs[i + 1..];
    FreeAround(bs, i);
    FreeConcat(pre + [x, y], post);
    FreeConcat(pre, [x, y]);
  }

  lemma PairFree(x: Block, y: Block)
    requires !x.used && !y.used
    ensures FreeBlocks([x, y]) == [x, y]
  {
    assert [x, y][1..] == [y];
    assert FreeBlocks([y]) == [y];
  }

  /** Both lists follow the layout, and the fields have exactly its headers and the one at `end`. */
  ghost predicate Follows(prev: Field, next: Field, used: Field, nfree: Field, pfree: Field, bs: seq<Block>, base: nat, end: nat) {
    && Tiled(bs, base, end)
    && prev.Keys == next.Keys == used.Keys == nfree.Keys == pfree.Keys == Addrs(bs) + {end}
    && Sizes(next, bs) && Uses(used, bs) && Backs(prev, bs)
    && Forwards(nfree, FreeBlocks(bs), end) && Backwards(pfree, FreeBlocks(bs))
  }

  ghost function At(f: Field, a: int): int {
    if a in f then f[a] else 0
  }

  /** The field with `d` added at `n`, unless `n` is the end. */
  ghost function Shift(f: Field, n: int, d: int, end: int): Field {
    if n != end then f[n := At(f, n) + d] else f
  }

  lemma SplitFollows(prev: Field, next: Field, used: Field, nfree: Field, pfree: Field,
                     bs: seq<Block>, base: nat, end: nat, i: nat, k: nat, size: nat)
    requires Follows(prev, next, used, nfree, pfree, bs, base, end)
    requires i < |bs| && !bs[i].used && k == |FreeBlocks(bs[..i])|
    requires FREE_HEADER <= size && size + FREE_HEADER <= bs[i].size
    requires AddrOr(FreeBlocks(bs), k + 1, end) in pfree && bs[i].End() in prev && bs[i].addr in next && bs[i].addr in nfree
    ensures var b, s := bs[i].addr, bs[i].addr + size;
            var n, nf := bs[i].End(), AddrOr(FreeBlocks(bs), k + 1, end);
            Follows(Shift(prev[s := size], n, -(size as int), end), next[s := At(next, b) - size][b := size], used[s := 0],
                    nfree[s := At(nfree, b) - size][b := size], Shift(pfree[s := size], nf, -(size as int), end),
                    SplitAt(bs, i, size), base, end)
    ensures AddrOr(FreeBlocks(SplitAt(bs, i, size)), 0, end) == AddrOr(FreeBlocks(bs), 0, end)
  {
    hide Tiled;
    hide Sizes;
    hide Uses;
    hide Backs;
    hide Forwards;
    hide Backwards;
    hide FreeBlocks;
    hide AddrOr;
    hide SplitAt;
    hide Addrs;
    hide Increasing;
    hide DistBefore;
    var fs := FreeBlocks(bs);
    SplitFree(bs, i, k, size);
    FreeIncreasing(bs, base, end);
    SplitSizes(next, bs, base, end, i, size);
    SplitUses(used, bs, base, end, i, size);
    SplitBacks(prev, bs, base, end, i, size);
    SplitForwards(nfree, fs, end, k, size);
    SplitBackwards(pfree, fs, end, k, size);
    SplitTiled(bs, base, end, i, size);
    SplitKeys(bs, i, size);
    SplitAddrs(fs, end, k, size);
  }

  // --------------------------------------------------------------------- use

  ghost function RemoveAt(fs: seq<Block>, k: nat): seq<Block>
    requires k < |fs|
  {
    fs[..k] + fs[k + 1..]
  }

  lemma RemoveElems(fs: seq<Block>, end: int, k: nat)
    requires k < |fs|
    ensures AddrOr(fs, k, end) == fs[k].addr
    ensures var r := RemoveAt(fs, k);
            && |r| == |fs| - 1
            && (forall j :: 0 <= j < k ==> r[j] == fs[j])
            && (forall j :: k <= j < |r| ==> r[j] == fs[j + 1])
            && (forall j :: 0 <= j < k ==> AddrOr(r, j, end) == AddrOr(fs, j, end))
            && (forall j :: k <= j ==> AddrOr(r, j, end) == AddrOr(fs, j + 1, end))
            && (forall j :: 0 <= j < k ==> DistBefore(r, j) == DistBefore(fs, j))
            && (k < |r| ==> DistBefore(r, k) == if k == 0 then 0 else DistBefore(fs, k) + DistBefore(fs, k + 1))
            && (forall j :: k < j < |r| ==> DistBefore(r, j) == DistBefore(fs, j + 1))
  {
  }

  lemma UseForwards(nfree: Field, fs: seq<Block>, end: int, k: nat)
    requires Increasing(fs, end) && Forwards(nfree, fs, end) && k < |fs|
    ensures k == 0 ==> Forwards(nfree, RemoveAt(fs, k), end)
    ensures k > 0 ==> var p := fs[k - 1].addr; Forwards(nfree[p := nfree[p] + nfree[fs[k].addr]], RemoveAt(fs, k), end)
  {
    hide Increasing;
    hide RemoveAt;
    hide DistBefore;
    hide AddrOr;
    NearFree(fs, end, k);
    RemoveElems(fs, end, k);
  }

  lemma UseBackwards(pfree: Field, fs: seq<Block>, end: int, k: nat)
    requires Increasing(fs, end) && Backwards(pfree, fs) && k < |fs|
    requires AddrOr(fs, k + 1, end) in pfree
    ensures var n := AddrOr(fs, k + 1, end);
            Backwards(if k == 0 then pfree[n := 0]
                      else if n != end then pfree[n := pfree[n] + pfree[fs[k].addr]]
                      else pfree, RemoveAt(fs, k))
  {
    hide Increasing;
    hide RemoveAt;
    hide DistBefore;
    NearFree(fs, end, k);
    RemoveElems(fs, end, k);
    assert DistBefore(fs, 0) == 0 by { DistBeforeFirst(fs); }
  }

  lemma DistBeforeFirst(fs: seq<Block>)
    ensures DistBefore(fs, 0) == 0
  {
  }

  lemma UseFree(bs: seq<Block>, i: nat, k: nat)
    requires i < |bs| && !bs[i].used && k == |FreeBlocks(bs[..i])|
    ensures k < |FreeBlocks(bs)| && FreeBlocks(bs)[k] == bs[i]
    ensures FreeBlocks(Marked(bs, i, true)) == RemoveAt(FreeBlocks(bs), k)
  {
    hide FreeBlocks;
    FreeAround(bs, i);
    var r := Marked(bs, i, true);
    FreeAround(r, i);
    assert r[..i] == bs[..i] && r[i + 1..] == bs[i + 1..];
  }

  lemma MarkedKeeps(prev: Field, next: Field, used: Field, bs: seq<Block>, base: nat, end: nat, i: nat, u: bool)
    requires Tiled(bs, base, end) && i < |bs|
    requires Sizes(next, bs) && Uses(used, bs) && Backs(prev, bs)
    ensures var r := Marked(bs, i, u);
            && Tiled(r, base, end) && Sizes(next, r) && Backs(prev, r)
            && Uses(used[bs[i].addr := if u then 1 else 0], r)
            && Addrs(r) == Addrs(bs)
  {
    hide Sizes;
    hide Uses;
    hide Backs;
    MarkedUses(used, bs, base, end, i, u);
    MarkedSizes(prev, next, bs, i, u);
    var r := Marked(bs, i, u);
    forall x | x in Addrs(bs) ensures x in Addrs(r) {
      var j :| 0 <= j < |bs| && bs[j].addr == x;
      assert r[j].addr == x;
    }
    forall x | x in Addrs(r) ensures x in Addrs(bs) {
      var j :| 0 <= j < |r| && r[j].addr == x;
      assert bs[j].addr == x;
    }
  }

  lemma MarkedSizes(prev: Field, next: Field, bs: seq<Block>, i: nat, u: bool)
    requires i < |bs| && Sizes(next, bs) && Backs(prev, bs)
    ensures Sizes(next, Marked(bs, i, u)) && Backs(prev, Marked(bs, i, u))
  {
    assert forall j :: SizeBefore(Marked(bs, i, u), j) == SizeBefore(bs, j);
  }

  lemma MarkedUses(used: Field, bs: seq<Block>, base: nat, end: nat, i: nat, u: bool)
    requires Tiled(bs, base, end) && i < |bs| && Uses(used, bs)
    ensures Uses(used[bs[i].addr := if u then 1 else 0], Marked(bs, i, u))
  {
    hide Tiled;
    Near(bs, base, end, i);
  }

  lemma UseFollows(prev: Field, next: Field, used: Field, nfree: Field, pfree: Field,
                   bs: seq<Block>, base: nat, end: nat, i: nat, k: nat)
    requires Follows(prev, next, used, nfree, pfree, bs, base, end)
    requires i < |bs| && !bs[i].used && k == |FreeBlocks(bs[..i])|
    requires AddrOr(FreeBlocks(bs), k + 1, end) in pfree && bs[i].addr in nfree && bs[i].addr in pfree
    ensures var b, p := bs[i].addr, AddrOr(FreeBlocks(bs), k - 1, end);
            var nf := AddrOr(FreeBlocks(bs), k + 1, end);
            Follows(prev, next, used[b := 1],
                    if k == 0 then nfree else nfree[p := At(nfree, p) + At(nfree, b)],
                    if k == 0 then pfree[nf := 0] else Shift(pfree, nf, At(pfree, b), end),
                    Marked(bs, i, true), base, end)
    ensures AddrOr(FreeBlocks(Marked(bs, i, true)), 0, end) == AddrOr(FreeBlocks(bs), if k == 0 then 1 else 0, end)
    ensures k > 0 ==> AddrOr(FreeBlocks(bs), k - 1, end) in nfree
  {
    hide Tiled;
    hide Sizes;
    hide Uses;
    hide Backs;
    hide Forwards;
    hide Backwards;
    hide FreeBlocks;
    hide AddrOr;
    hide Addrs;
    hide Increasing;
    hide DistBefore;
    hide Marked;
    hide RemoveAt;
    var fs := FreeBlocks(bs);
    UseFree(bs, i, k);
    FreeIncreasing(bs, base, end);
    MarkedKeeps(prev, next, used, bs, base, end, i, true);
    UseForwards(nfree, fs, end, k);
    UseBackwards(pfree, fs, end, k);
    RemoveElems(fs, end, k);
    if k > 0 {
      ForwardsAt(nfree, fs, end, k - 1);
    }
  }

  lemma ForwardsAt(nfree: Field, fs: seq<Block>, end: int, k: nat)
    requires Forwards(nfree, fs, end) && k < |fs|
    ensures AddrOr(fs, k, end) == fs[k].addr && fs[k].addr in nfree
    ensures nfree[fs[k].addr] == AddrOr(fs, k + 1, end) - fs[k].addr
  {
  }

  lemma MarkSurvives(keep: seq<Block>, bs: seq<Block>, i: nat)
    requires Survives(keep, bs) && i < |bs| && !bs[i].used
    ensures Survives(keep, Marked(bs, i, true))
  {
    forall x | x in keep && x.used ensures x in Marked(bs, i, true) {
      var j :| 0 <= j < |bs| && bs[j] == x;
      assert Marked(bs, i, true)[j] == x;
    }
  }

  // ------------------------------------------------------------------ release

  ghost function InsertAt(fs: seq<Block>, k: nat, b: Block): seq<Block>
    requires k <= |fs|
  {
    fs[..k] + [b] + fs[k..]
  }

  lemma InsertElems(fs: seq<Block>, end: int, k: nat, b: Block)
    requires k <= |fs|
    ensures forall j :: 0 <= j < |fs| ==> AddrOr(fs, j, end) == fs[j].addr
    ensures var r := InsertAt(fs, k, b);
            && |r| == |fs| + 1
            && (forall j :: 0 <= j < k ==> r[j] == fs[j])
            && r[k] == b
            && (forall j :: k < j < |r| ==> r[j] == fs[j - 1])
            && (forall j :: 0 <= j < k ==> AddrOr(r, j, end) == AddrOr(fs, j, end))
            && AddrOr(r, k, end) == b.addr
            && (forall j :: k < j ==> AddrOr(r, j, end) == AddrOr(fs, j - 1, end))
            && (forall j :: 0 <= j < k ==> DistBefore(r, j) == DistBefore(fs, j))
            && DistBefore(r, k) == (if k == 0 then 0 else b.addr - fs[k - 1].addr)
            && (k < |fs| ==> DistBefore(r, k + 1) == fs[k].addr - b.addr)
            && (forall j :: k + 1 < j < |r| ==> DistBefore(r, j) == DistBefore(fs, j - 1))
  {
  }

  /** There is room for `b` between the free blocks around position `k`. */
  ghost predicate Between(fs: seq<Block>, end: int, k: nat, b: Block) {
    && k <= |fs|
    && (forall l :: 0 <= l < k ==> fs[l].addr < b.addr)
    && (forall l :: k <= l < |fs| ==> b.addr < fs[l].addr)
    && b.addr < end
  }

  lemma InsertForwards(nfree: Field, fs: seq<Block>, end: int, k: nat, b: Block)
    requires Increasing(fs, end) && Forwards(nfree, fs, end) && Between(fs, end, k, b)
    ensures var nfree1 := nfree[b.addr := AddrOr(fs, k, end) - b.addr];
            Forwards(if k == 0 then nfree1 else nfree1[fs[k - 1].addr := b.addr - fs[k - 1].addr], InsertAt(fs, k, b), end)
  {
    hide Increasing;
    hide InsertAt;
    hide DistBefore;
    hide AddrOr;
    if k > 0 {
      NearFree(fs, end, k - 1);
    }
    InsertElems(fs, end, k, b);
  }

  lemma InsertBackwards(pfree: Field, fs: seq<Block>, end: int, k: nat, b: Block)
    requires Increasing(fs, end) && Backwards(pfree, fs) && Between(fs, end, k, b)
    ensures var n := AddrOr(fs, k, end);
            var pfree1 := pfree[b.addr := if k == 0 then 0 else b.addr - fs[k - 1].addr];
            Backwards(if n != end then pfree1[n := n - b.addr] else pfree1, InsertAt(fs, k, b))
  {
    hide Increasing;
    hide InsertAt;
    hide DistBefore;
    if k < |fs| {
      NearFree(fs, end, k);
    }
    InsertElems(fs, end, k, b);
  }

  lemma ReleaseFree(bs: seq<Block>, i: nat, k: nat)
    requires i < |bs| && bs[i].used && k == |FreeBlocks(bs[..i])|
    ensures k <= |FreeBlocks(bs)|
    ensures FreeBlocks(Marked(bs, i, false)) == InsertAt(FreeBlocks(bs), k, bs[i].(used := false))
  {
    hide FreeBlocks;
    FreeAround(bs, i);
    var r := Marked(bs, i, false);
    FreeAround(r, i);
    assert r[..i] == bs[..i] && r[i + 1..] == bs[i + 1..];
  }

  // -------------------------------------------------------------------- merge

  lemma MergeElems(bs: seq<Block>, i: nat)
    requires i + 1 < |bs|
    ensures var r := MergeAt(bs, i);
            && |r| == |bs| - 1
            && (forall j :: 0 <= j < i ==> r[j] == bs[j])
            && r[i] == Block(bs[i].addr, bs[i].size + bs[i + 1].size, bs[i].used)
            && (forall j :: i < j < |r| ==> r[j] == bs[j + 1])
            && (forall j :: 0 <= j <= i ==> SizeBefore(r, j) == SizeBefore(bs, j))
            && SizeBefore(r, i + 1) == bs[i].size + SizeBefore(bs, i + 2)
            && (forall j :: i + 1 < j < |r| ==> SizeBefore(r, j) == SizeBefore(bs, j + 1))
  {
  }

  lemma MergeSizes(next: Field, bs: seq<Block>, base: nat, end: nat, i: nat)
    requires Tiled(bs, base, end) && Sizes(next, bs) && i + 1 < |bs|
    ensures var b, n := bs[i].addr, bs[i + 1].addr;
            Sizes(next[b := next[b] + next[n]] - {n}, MergeAt(bs, i))
  {
    hide Tiled;
    hide MergeAt;
    hide SizeBefore;
    Near(bs, base, end, i);
    Near(bs, base, end, i + 1);
    MergeElems(bs, i);
  }

  lemma MergeUses(used: Field, bs: seq<Block>, base: nat, end: nat, i: nat)
    requires Tiled(bs, base, end) && Uses(used, bs) && i + 1 < |bs|
    ensures Uses(used - {bs[i + 1].addr}, MergeAt(bs, i))
  {
    hide Tiled;
    hide MergeAt;
    hide SizeBefore;
    Near(bs, base, end, i + 1);
    MergeElems(bs, i);
  }

  lemma MergeBacks(prev: Field, bs: seq<Block>, base: nat, end: nat, i: nat)
    requires Tiled(bs, base, end) && Backs(prev, bs) && i + 1 < |bs|
    requires bs[i + 1].End() == end || bs[i + 1].End() in prev
    ensures var n, nn := bs[i + 1].addr, bs[i + 1].End();
            Backs((if nn != end then prev[nn := prev[nn] + bs[i].size] else prev) - {n}, MergeAt(bs, i))
  {
    hide Tiled;
    hide MergeAt;
    hide SizeBefore;
    Near(bs, base, end, i);
    Near(bs, base, end, i + 1);
    MergeElems(bs, i);
  }

  lemma MergeAddrs(fs: seq<Block>, end: int, k: nat)
    requires k + 1 < |fs|
    ensures AddrOr(fs, k + 1, end) == fs[k + 1].addr
    ensures var r := MergeAt(fs, k);
            && (forall j :: 0 <= j <= k ==> AddrOr(r, j, end) == AddrOr(fs, j, end))
            && (forall j :: k < j ==> AddrOr(r, j, end) == AddrOr(fs, j + 1, end))
            && (forall j :: 0 <= j <= k ==> DistBefore(r, j) == DistBefore(fs, j))
            && (k + 1 < |r| ==> DistBefore(r, k + 1) == DistBefore(fs, k + 2) + fs[k + 1].addr - fs[k].addr)
            && (forall j :: k + 1 < j < |r| ==> DistBefore(r, j) == DistBefore(fs, j + 1))
  {
  }

  lemma MergeForwards(nfree: Field, fs: seq<Block>, end: int, k: nat)
    requires Increasing(fs, end) && Forwards(nfree, fs, end) && k + 1 < |fs|
    ensures var b, n := fs[k].addr, fs[k + 1].addr;
            Forwards(nfree[b := nfree[b] + nfree[n]] - {n}, MergeAt(fs, k), end)
  {
    hide Increasing;
    hide MergeAt;
    hide SizeBefore;
    hide DistBefore;
    hide AddrOr;
    NearFree(fs, end, k);
    NearFree(fs, end, k + 1);
    MergeElems(fs, k);
    MergeAddrs(fs, end, k);
  }

  lemma MergeBackwards(pfree: Field, fs: seq<Block>, end: int, k: nat)
    requires Increasing(fs, end) && Backwards(pfree, fs) && k + 1 < |fs|
    requires AddrOr(fs, k + 2, end) != end ==> AddrOr(fs, k + 2, end) in pfree
    ensures var b, n, nn := fs[k].addr, fs[k + 1].addr, AddrOr(fs, k + 2, end);
            Backwards((if nn != end then pfree[nn := pfree[nn] + n - b] else pfree) - {n}, MergeAt(fs, k))
  {
    hide Increasing;
    hide MergeAt;
    hide SizeBefore;
    hide DistBefore;
    NearFree(fs, end, k);
    NearFree(fs, end, k + 1);
    MergeElems(fs, k);
    MergeAddrs(fs, end, k);
  }

  lemma MergeFree(bs: seq<Block>, i: nat, k: nat)
    requires i + 1 < |bs| && k == |FreeBlocks(bs[..i])| && !bs[i].used && !bs[i + 1].used
    ensures k + 1 < |FreeBlocks(bs)| && FreeBlocks(bs)[k] == bs[i] && FreeBlocks(bs)[k + 1] == bs[i + 1]
    ensures FreeBlocks(MergeAt(bs, i)) == MergeAt(FreeBlocks(bs), k)
  {
    hide FreeBlocks;
    var r := MergeAt(bs, i);
    FreeAround(bs, i);
    FreeAround(bs[i + 1..], 0);
    FreeAround(r, i);
    assert r[..i] == bs[..i] && r[i + 1..] == bs[i + 2..];
    assert bs[i + 1..][1..] == bs[i + 2..] && bs[i + 1..][..0] == [];
    assert FreeBlocks([]) == [] by { NoneFree([]); }
  }

  lemma MergeUsedFree(bs: seq<Block>, i: nat)
    requires i + 1 < |bs| && bs[i].used && bs[i + 1].used
    ensures FreeBlocks(MergeAt(bs, i)) == FreeBlocks(bs)
  {
    hide FreeBlocks;
    var r := MergeAt(bs, i);
    FreeAround(bs, i);
    FreeAround(bs[i + 1..], 0);
    FreeAround(r, i);
    assert r[..i] == bs[..i] && r[i + 1..] == bs[i + 2..];
    assert bs[i + 1..][1..] == bs[i + 2..] && bs[i + 1..][..0] == [];
    assert FreeBlocks([]) == [] by { NoneFree([]); }
  }

  // ------------------------------------------------- both lists after a store

  lemma {:induction false} BetweenFree(bs: seq<Block>, base: nat, end: nat, i: nat, k: nat)
    requires Tiled(bs, base, end) && i < |bs| && bs[i].used && k == |FreeBlocks(bs[..i])|
    ensures Between(FreeBlocks(bs), end, k, bs[i].(used := false))
  {
    hide FreeBlocks;
    FreeAround(bs, i);
    FreeMembers(bs[..i]);
    FreeMembers(bs[i + 1..]);
    Near(bs, base, end, i);
    hide Tiled;
    var fs, pre, post := FreeBlocks(bs), FreeBlocks(bs[..i]), FreeBlocks(bs[i + 1..]);
    forall l | 0 <= l < k ensures fs[l].addr < bs[i].addr {
      assert fs[l] == pre[l] && pre[l] in bs[..i];
    }
    forall l | k <= l < |fs| ensures bs[i].addr < fs[l].addr {
      assert fs[l] == post[l - k] && post[l - k] in bs[i + 1..];
    }
  }

  lemma ReleaseFollows(prev: Field, next: Field, used: Field, nfree: Field, pfree: Field,
                       bs: seq<Block>, base: nat, end: nat, i: nat, k: nat)
    requires Follows(prev, next, used, nfree, pfree, bs, base, end)
    requires i < |bs| && bs[i].used && k == |FreeBlocks(bs[..i])|
    requires bs[i].addr in nfree && bs[i].addr in pfree && AddrOr(FreeBlocks(bs), k, end) in pfree
    ensures var b, p, n := bs[i].addr, AddrOr(FreeBlocks(bs), k - 1, end), AddrOr(FreeBlocks(bs), k, end);
            var nfree1 := nfree[b := n - b];
            var pfree1 := pfree[b := if k == 0 then 0 else b - p];
            Follows(prev, next, used[b := 0],
                    if k == 0 then nfree1 else nfree1[p := b - p],
                    if n != end then pfree1[n := n - b] else pfree1,
                    Marked(bs, i, false), base, end)
    ensures AddrOr(FreeBlocks(Marked(bs, i, false)), 0, end) == if k == 0 then bs[i].addr else AddrOr(FreeBlocks(bs), 0, end)
    ensures k > 0 ==> AddrOr(FreeBlocks(bs), k - 1, end) in nfree
  {
    hide Tiled;
    hide Sizes;
    hide Uses;
    hide Backs;
    hide Forwards;
    hide Backwards;
    hide FreeBlocks;
    hide AddrOr;
    hide Addrs;
    hide Increasing;
    hide DistBefore;
    hide Marked;
    hide InsertAt;
    hide Between;
    var fs, b := FreeBlocks(bs), bs[i].(used := false);
    ReleaseFree(bs, i, k);
    FreeIncreasing(bs, base, end);
    BetweenFree(bs, base, end, i, k);
    MarkedKeeps(prev, next, used, bs, base, end, i, false);
    InsertForwards(nfree, fs, end, k, b);
    InsertBackwards(pfree, fs, end, k, b);
    InsertElems(fs, end, k, b);
    if k > 0 {
      ForwardsAt(nfree, fs, end, k - 1);
    }
  }

  lemma MergeKeys(bs: seq<Block>, base: nat, end: nat, i: nat)
    requires Tiled(bs, base, end) && i + 1 < |bs|
    ensures Addrs(MergeAt(bs, i)) + {end} == Addrs(bs) + {end} - {bs[i + 1].addr}
  {
    hide MergeAt;
    hide Tiled;
    hide SizeBefore;
    Near(bs, base, end, i + 1);
    MergeElems(bs, i);
    var r, n := MergeAt(bs, i), bs[i + 1].addr;
    forall a | a in Addrs(r) ensures a in Addrs(bs) && a != n {
      var j :| 0 <= j < |r| && r[j].addr == a;
      assert bs[if j <= i then j else j + 1].addr == a;
    }
    forall a | a in Addrs(bs) && a != n ensures a in Addrs(r) {
      var j :| 0 <= j < |bs| && bs[j].addr == a;
      assert r[if j <= i then j else j - 1].addr == a;
    }
  }

  lemma MergeFollows(prev: Field, next: Field, used: Field, nfree: Field, pfree: Field,
                     bs: seq<Block>, base: nat, end: nat, i: nat, k: nat)
    requires Follows(prev, next, used, nfree, pfree, bs, base, end)
    requires i + 1 < |bs| && !bs[i].used && !bs[i + 1].used && k == |FreeBlocks(bs[..i])|
    requires bs[i + 1].End() in prev && AddrOr(FreeBlocks(bs), k + 2, end) in pfree
    requires bs[i].addr in next && bs[i + 1].addr in next && bs[i].addr in nfree && bs[i + 1].addr in nfree
    ensures var b, n := bs[i].addr, bs[i + 1].addr;
            Follows(Shift(prev, bs[i + 1].End(), bs[i].size, end) - {n},
                    next[b := At(next, b) + At(next, n)] - {n}, used - {n},
                    nfree[b := At(nfree, b) + At(nfree, n)] - {n},
                    Shift(pfree, AddrOr(FreeBlocks(bs), k + 2, end), n - b, end) - {n},
                    MergeAt(bs, i), base, end)
    ensures AddrOr(FreeBlocks(MergeAt(bs, i)), 0, end) == AddrOr(FreeBlocks(bs), 0, end)
  {
    hide Tiled;
    hide Sizes;
    hide Uses;
    hide Backs;
    hide Forwards;
    hide Backwards;
    hide FreeBlocks;
    hide AddrOr;
    hide Addrs;
    hide Increasing;
    hide DistBefore;
    hide MergeAt;
    var fs := FreeBlocks(bs);
    MergeFree(bs, i, k);
    FreeIncreasing(bs, base, end);
    MergeTiled(bs, base, end, i);
    MergeKeys(bs, base, end, i);
    MergeSizes(next, bs, base, end, i);
    MergeUses(used, bs, base, end, i);
    MergeBacks(prev, bs, base, end, i);
    MergeForwards(nfree, fs, end, k);
    MergeBackwards(pfree, fs, end, k);
    MergeAddrs(fs, end, k);
  }

  /** Merging two used blocks touches only the block list. */
  lemma MergeUsedFollows(prev: Field, next: Field, used: Field, nfree: Field, pfree: Field,
                         bs: seq<Block>, base: nat, end: nat, i: nat)
    requires Follows(prev, next, used, nfree, pfree, bs, base, end)
    requires i + 1 < |bs| && bs[i].used && bs[i + 1].used
    requires bs[i + 1].End() in prev && bs[i].addr in next && bs[i + 1].addr in next
    ensures var b, n := bs[i].addr, bs[i + 1].addr;
            Follows(Shift(prev, bs[i + 1].End(), bs[i].size, end) - {n},
                    next[b := At(next, b) + At(next, n)] - {n}, used - {n}, nfree - {n}, pfree - {n},
                    MergeAt(bs, i), base, end)
    ensures FreeBlocks(MergeAt(bs, i)) == FreeBlocks(bs)
  {
    hide Tiled;
    hide Sizes;
    hide Uses;
    hide Backs;
    hide Forwards;
    hide Backwards;
    hide FreeBlocks;
    hide AddrOr;
    hide Addrs;
    hide Increasing;
    hide DistBefore;
    hide MergeAt;
    var fs := FreeBlocks(bs);
    MergeUsedFree(bs, i);
    MergeTiled(bs, base, end, i);
    MergeKeys(bs, base, end, i);
    MergeSizes(next, bs, base, end, i);
    MergeUses(used, bs, base, end, i);
    MergeBacks(prev, bs, base, end, i);
    DropUnlisted(nfree, pfree, bs, base, end, i + 1);
  }

  lemma DropUnlisted(nfree: Field, pfree: Field, bs: seq<Block>, base: nat, end: nat, i: nat)
    requires Tiled(bs, base, end) && i < |bs| && bs[i].used
    requires Forwards(nfree, FreeBlocks(bs), end) && Backwards(pfree, FreeBlocks(bs))
    ensures Forwards(nfree - {bs[i].addr}, FreeBlocks(bs), end) && Backwards(pfree - {bs[i].addr}, FreeBlocks(bs))
  {
    hide FreeBlocks;
    hide AddrOr;
    hide DistBefore;
    hide Tiled;
    Disjoint(bs, base, end);
    FreeMembers(bs);
    var fs := FreeBlocks(bs);
    assert bs[i] in bs;
    forall k | 0 <= k < |fs| ensures fs[k].addr != bs[i].addr {
      assert fs[k] in fs;
    }
  }

  lemma MergeSurvives(keep: seq<Block>, bs: seq<Block>, i: nat)
    requires Survives(keep, bs) && i + 1 < |bs| && !bs[i].used && !bs[i + 1].used
    ensures Survives(keep, MergeAt(bs, i))
  {
    hide MergeAt;
    hide SizeBefore;
    MergeElems(bs, i);
    forall x | x in keep && x.used ensures x in MergeAt(bs, i) {
      var j :| 0 <= j < |bs| && bs[j] == x;
      assert MergeAt(bs, i)[if j < i then j else j - 1] == x;
    }
  }

  lemma MirrorFar(m: seq<byte>, m': seq<byte>, f: Field, off: nat, w: int, base: int, end: int)
    requires Mirrors(m, f, off) && OneWordChanged(m, m', w) && Bounded(f.Keys, base, end)
    requires base <= end && end + FREE_HEADER <= w && off + 4 <= FREE_HEADER
    ensures Mirrors(m', f, off)
  {
    forall a | a in f ensures f[a] == Word(m', a + off) {
      assert f[a] == Word(m, a + off);
    }
  }

  lemma StoredOneWord(m: seq<byte>, x: nat, v: nat)
    requires x + 4 <= |m| && v < U32
    ensures OneWordChanged(m, Stored(m, x, v), x)
  {
  }

  lemma NothingTouched(bs: seq<Block>, base: int, end: int, m: seq<byte>)
    ensures PayloadKept(bs, m, m) && OutsideKept(base, end, m, m)
  {
  }

  /** Some block below (above) position `i` is free. */
  ghost predicate FreeBelow(bs: seq<Block>, i: nat) {
    exists j :: 0 <= j < i && j < |bs| && !bs[j].used
  }

  ghost predicate FreeAbove(bs: seq<Block>, i: nat) {
    exists j :: i < j < |bs| && !bs[j].used
  }

  /** The nearest free block at or after position `j`, when none lies between `i` and `j`. */
  lemma NextFreeIs(bs: seq<Block>, end: int, i: nat, j: nat)
    requires i < j <= |bs| && bs[i].used
    requires forall l :: i < l < j ==> bs[l].used
    requires j < |bs| ==> !bs[j].used
    ensures var fs, k := FreeBlocks(bs), |FreeBlocks(bs[..i])|;
            && k <= |fs|
            && AddrOr(fs, k, end) == (if j < |bs| then bs[j].addr else end)
            && (j < |bs| ==> k < |fs| && fs[k] == bs[j])
            && (k < |fs| <==> FreeAbove(bs, i))
  {
    hide FreeBlocks;
    FreeAround(bs, i);
    var mid := bs[i + 1..j];
    NoneFree(mid);
    assert bs[i + 1..] == mid + bs[j..];
    FreeConcat(mid, bs[j..]);
    if j < |bs| {
      FreeAround(bs[j..], 0);
      assert bs[j..][..0] == [];
      NoneFree([]);
    } else {
      assert bs[j..] == [];
      NoneFree([]);
    }
  }

  lemma PrevFreeIs(bs: seq<Block>, end: int, i: nat, j: int)
    requires -1 <= j < i < |bs|
    requires forall l :: j < l < i ==> bs[l].used
    requires j >= 0 ==> !bs[j].used
    ensures var fs, k := FreeBlocks(bs), |FreeBlocks(bs[..i])|;
            && k <= |fs|
            && (k > 0 <==> j >= 0)
            && (j >= 0 ==> AddrOr(fs, k - 1, end) == bs[j].addr)
            && (k > 0 <==> FreeBelow(bs, i))
  {
    hide FreeBlocks;
    FreeConcat(bs[..i], bs[i..]);
    assert bs == bs[..i] + bs[i..];
    var mid := bs[j + 1..i];
    NoneFree(mid);
    FreeConcat(bs[..j + 1], mid);
    assert bs[..i] == bs[..j + 1] + mid;
    if j >= 0 {
      FreeAround(bs[..j + 1], j);
      assert bs[..j + 1][j + 1..] == [];
      NoneFree([]);
    } else {
      assert bs[..j + 1] == [];
      NoneFree([]);
    }
  }

  lemma CountBelow(bs: seq<Block>, i: nat)
    requires i < |bs|
    ensures |FreeBlocks(bs[..i])| > 0 <==> FreeBelow(bs, i)
  {
    FreeMembers(bs[..i]);
    var fs := FreeBlocks(bs[..i]);
    if |fs| > 0 {
      assert fs[0] in fs;
      var j :| 0 <= j < i && bs[..i][j] == fs[0];
      assert !bs[j].used;
    }
    if FreeBelow(bs, i) {
      var j :| 0 <= j < i && j < |bs| && !bs[j].used;
      assert bs[..i][j] in bs[..i];
    }
  }

  /** Once block `i` need not be kept, its whole span is safe to write. */
  lemma FreedSafe(keep: seq<Block>, bs: seq<Block>, base: nat, end: nat, i: nat)
    requires Tiled(bs, base, end) && i < |bs| && keep == Marked(bs, i, false)
    ensures Survives(keep, keep) && Tiled(keep, base, end)
    ensures forall w :: bs[i].addr <= w && w + 4 <= bs[i].End() ==> SafeWord(keep, w)
  {
    hide SafeWord;
    FreeSafe(keep, keep, base, end, i);
  }

  lemma NeighboursAfter(bs: seq<Block>, end: int, i: nat, k: nat)
    requires i < |bs| && bs[i].used && k == |FreeBlocks(bs[..i])|
    ensures var fs, gs := FreeBlocks(bs), FreeBlocks(Marked(bs, i, false));
            && AddrOr(gs, k + 1, end) == AddrOr(fs, k, end)
            && (k > 0 ==> AddrOr(gs, k - 1, end) == AddrOr(fs, k - 1, end))
            && k <= |fs| && AddrOr(gs, k, end) == bs[i].addr
  {
    hide FreeBlocks;
    hide Marked;
    hide InsertAt;
    ReleaseFree(bs, i, k);
    InsertElems(FreeBlocks(bs), end, k, bs[i].(used := false));
  }

  /** The order in which `free` stores the back distances does not matter. */
  lemma StoreOrder(f: Field, b: int, n: int, p: int, end: int)
    requires b != n
    ensures var g := if n != end then f[b := 0][n := n - b] else f[b := 0];
            var h := f[b := if p != 0 then b - p else 0];
            (if p != 0 then g[b := b - p] else g) == (if n != end then h[n := n - b] else h)
  {
  }

  /** The next free block is the next block exactly when that one is free. */
  lemma NextIsFree(bs: seq<Block>, base: nat, end: nat, i: nat, k: nat)
    requires Tiled(bs, base, end) && i < |bs| && !bs[i].used && k == |FreeBlocks(bs[..i])|
    ensures var n := AddrOr(FreeBlocks(bs), k + 1, end);
            (n != end && n == bs[i].End()) <==> (i + 1 < |bs| && !bs[i + 1].used)
    ensures i + 1 < |bs| ==> |FreeBlocks(bs[..i + 1])| == k + 1
  {
    hide FreeBlocks;
    hide Tiled;
    Near(bs, base, end, i);
    FreeAround(bs, i);
    var fs, post := FreeBlocks(bs), FreeBlocks(bs[i + 1..]);
    if i + 1 < |bs| {
      FreeAround(bs[..i + 1], i);
      assert bs[..i + 1][..i] == bs[..i] && bs[..i + 1][i + 1..] == [];
      NoneFree([]);
      FreeAround(bs[i + 1..], 0);
      assert bs[i + 1..][..0] == [];
      if bs[i + 1].used && k + 1 < |fs| {
        var j := FreeIndex(bs, k + 1);
        Near(bs, base, end, i + 1);
        Near(bs, base, end, j);
        assert fs[k] == bs[i] && fs[k + 1] == bs[j];
        Disjoint(bs, base, end);
      }
    } else {
      assert bs[i + 1..] == [];
      NoneFree([]);
    }
  }

  /** Memory holds a well-formed pair of lists for the layout `bs`, with the given free-list head. */
  ghost predicate Image(m: seq<byte>, base: nat, free: int, end: nat, bs: seq<Block>,
                        prev: Field, next: Field, used: Field, nfree: Field, pfree: Field) {
    && Follows(prev, next, used, nfree, pfree, bs, base, end)
    && Mirrors(m, prev, PREV) && Mirrors(m, next, NEXT) && Mirrors(m, used, USED)
    && Mirrors(m, nfree, NFREE) && Mirrors(m, pfree, PFREE)
    && free == AddrOr(FreeBlocks(bs), 0, end)
  }

  // ------------------------------------------------------ lists, word by word

  /** The blocks follow each other from `base` to `end`, each with room for at least a used header. */
  ghost predicate Strung(bs: seq<Block>, base: nat, end: nat) {
    && |bs| > 0 && bs[0].addr == base && bs[|bs| - 1].End() == end
    && (forall i :: 0 <= i < |bs| ==> bs[i].size >= USED_HEADER)
    && (forall i, j :: 0 <= i < j < |bs| && j == i + 1 ==> bs[i].End() == bs[j].addr)
  }

  /** The header of block `j`: sizes before and at it, and its used flag. */
  ghost predicate HeaderAt(m: seq<byte>, bs: seq<Block>, j: nat)
    requires j < |bs|
  {
    && Word(m, bs[j].addr) == SizeBefore(bs, j) && Word(m, bs[j].addr + 4) == bs[j].size
    && Word(m, bs[j].addr + 8) == (if bs[j].used then 1 else 0)
  }

  /** The free links of the `k`-th free block. */
  ghost predicate LinksAt(m: seq<byte>, fs: seq<Block>, end: int, k: nat)
    requires k < |fs|
  {
    Word(m, fs[k].addr + 12) == AddrOr(fs, k + 1, end) - fs[k].addr && Word(m, fs[k].addr + 16) == DistBefore(fs, k)
  }

  /** Memory holds both lists of the blocks `bs`, with the given free-list head; headers may overlap. */
  ghost predicate Threaded(m: seq<byte>, base: nat, free: int, end: nat, bs: seq<Block>) {
    && Strung(bs, base, end)
    && (forall j :: 0 <= j < |bs| ==> HeaderAt(m, bs, j))
    && (forall k :: 0 <= k < |FreeBlocks(bs)| ==> LinksAt(m, FreeBlocks(bs), end, k))
    && free == AddrOr(FreeBlocks(bs), 0, end)
  }

  /** Memory holds the lists of some sequence of blocks. */
  ghost predicate Representable(m: seq<byte>, base: nat, free: int, end: nat) {
    exists bs :: Threaded(m, base, free, end, bs)
  }

  /** What the header of one block says. */
  lemma ThreadedAt(m: seq<byte>, base: nat, free: int, end: nat, bs: seq<Block>, i: nat)
    requires Threaded(m, base, free, end, bs) && i < |bs|
    ensures HeaderAt(m, bs, i) && bs[i].size >= USED_HEADER
  {
  }

  /** What the first free block says. */
  lemma ThreadedHead(m: seq<byte>, base: nat, free: int, end: nat, bs: seq<Block>)
    requires Threaded(m, base, free, end, bs) && free != end
    ensures |FreeBlocks(bs)| > 0 && FreeBlocks(bs)[0].addr == free && Word(m, free + 16) == 0
    ensures Word(m, free + 12) == AddrOr(FreeBlocks(bs), 1, end) - free
  {
    hide FreeBlocks;
    hide Word;
    assert LinksAt(m, FreeBlocks(bs), end, 0);
  }

  /** No blocks fit a memory whose first free block points back. */
  lemma HeadPointsBack(m: seq<byte>, base: nat, free: int, end: nat)
    requires free != end && Word(m, free + PFREE) != 0
    ensures !Representable(m, base, free, end)
  {
    hide Threaded;
    hide Word;
    forall bs | Threaded(m, base, free, end, bs) ensures false {
      ThreadedHead(m, base, free, end, bs);
    }
  }

  /** In the second coalescing round the lower free neighbour is adjacent exactly when the block just below is free. */
  lemma LowerNeighbour(bs: seq<Block>, base: nat, end: nat, i: nat, k: nat, j: nat)
    requires Tiled(bs, base, end) && i < |bs| && !bs[i].used && k == |FreeBlocks(bs[..i])| && 0 < k
    requires j < |bs| && !bs[j].used && |FreeBlocks(bs[..j])| == k - 1
    ensures (j + 1 < |bs| && !bs[j + 1].used) <==> !bs[i - 1].used
    ensures j < i && (!bs[i - 1].used ==> j == i - 1)
    ensures k < |FreeBlocks(bs)| && FreeBlocks(bs)[k] == bs[i] && FreeBlocks(bs)[k - 1] == bs[j]
  {
    hide FreeBlocks;
    FreeAround(bs, i);
    FreeAround(bs, j);
    if i <= j {
      PrefixCount(bs, i, j);
    }
    assert j < i;
    if j + 1 < i {
      FreeAround(bs[..i], i - 1);
      assert bs[..i][..i - 1] == bs[..i - 1] && bs[..i][i..] == [];
      FreeConcat(bs[..j + 1], bs[j + 1..i - 1]);
      assert bs[..i - 1] == bs[..j + 1] + bs[j + 1..i - 1];
      FreeAround(bs[..j + 1], j);
      assert bs[..j + 1][..j] == bs[..j] && bs[..j + 1][j + 1..] == [];
      NoneFree([]);
      FreeConcat(bs[..j + 2], bs[j + 2..i]);
      assert bs[..i] == bs[..j + 2] + bs[j + 2..i];
      FreeConcat(bs[..j + 1], [bs[j + 1]]);
      assert bs[..j + 2] == bs[..j + 1] + [bs[j + 1]];
      FreeAround([bs[j + 1]], 0);
    }
  }

  /** Absorbing the next block leaves everything below position `i` alone. */
  lemma AfterAbsorb(bs: seq<Block>, base: nat, end: nat, i: nat, k: nat)
    requires Tiled(bs, base, end) && i < |bs| && !bs[i].used && k == |FreeBlocks(bs[..i])|
    ensures var r := AbsorbNext(bs, i);
            && i < |r| && r[i].addr == bs[i].addr && !r[i].used && |FreeBlocks(r[..i])| == k
            && (i > 0 ==> r[i - 1] == bs[i - 1])
            && (k > 0 ==> base <= AddrOr(FreeBlocks(r), k - 1, end) == AddrOr(FreeBlocks(bs), k - 1, end))
            && k < |FreeBlocks(r)|
  {
    hide FreeBlocks;
    hide Tiled;
    FreeAround(bs, i);
    if k > 0 {
      var j := FreeIndex(bs, k - 1);
      Near(bs, base, end, j);
    }
    var r := AbsorbNext(bs, i);
    assert r[..i] == bs[..i];
    FreeAround(r, i);
    if i + 1 < |bs| && !bs[i + 1].used {
      MergeFree(bs, i, k);
      MergeAddrs(FreeBlocks(bs), end, k);
    }
  }

  lemma AbsorbLower(bs: seq<Block>, i: nat, j: nat)
    requires 0 < i < |bs| && j < i && (!bs[i - 1].used ==> j == i - 1)
    requires (j + 1 < |bs| && !bs[j + 1].used) <==> !bs[i - 1].used
    ensures AbsorbNext(bs, j) == if !bs[i - 1].used then AbsorbNext(bs, i - 1) else bs
  {
  }

  lemma LowerAddrs(bs: seq<Block>, end: int, k: nat)
    requires 0 < k < |FreeBlocks(bs)|
    ensures AddrOr(FreeBlocks(bs), k - 1, end) == FreeBlocks(bs)[k - 1].addr
    ensures AddrOr(FreeBlocks(bs), k, end) == FreeBlocks(bs)[k].addr
  {
  }

  lemma ReleaseKeepsOthers(bs: seq<Block>, i: nat)
    requires i < |bs|
    ensures Survives(Marked(bs, i, false), bs)
  {
    var ks := Marked(bs, i, false);
    forall x | x in ks && x.used ensures x in bs {
      var j :| 0 <= j < |ks| && ks[j] == x;
      assert bs[j] == x;
    }
  }

  /** Memory with `data` written at `x`. */
  ghost function Written(m: seq<byte>, x: nat, data: seq<byte>): seq<byte> {
    if x + |data| <= |m| then m[..x] + data + m[x + |data|..] else m
  }

  /** Writing inside one block's payload leaves the other headers, and this one's first three words, alone. */
  lemma WriteMirrors(m: seq<byte>, f: Field, off: nat, b: nat, x: nat, data: seq<byte>)
    requires Mirrors(m, f, off) && Spaced(f.Keys) && b in f && off + 4 <= FREE_HEADER
    requires b + USED_HEADER <= x && x + |data| <= |m|
    requires forall a :: a in f && a != b ==> a + FREE_HEADER <= x || x + |data| <= a
    ensures off + 4 <= USED_HEADER ==> Mirrors(Written(m, x, data), f, off)
    ensures Mirrors(Written(m, x, data), f[b := Word(Written(m, x, data), b + off)], off)
  {
    var m' := Written(m, x, data);
    forall a | a in f && (a != b || off + 4 <= USED_HEADER) ensures f[a] == Word(m', a + off) {
      assert f[a] == Word(m, a + off);
    }
  }

  lemma WriteMissesHeaders(bs: seq<Block>, base: nat, end: nat, i: nat, x: nat, n: nat)
    requires Tiled(bs, base, end) && i < |bs| && bs[i].Payload() <= x && x + n <= bs[i].End()
    ensures forall a :: a in Addrs(bs) + {end} && a != bs[i].addr ==> a + FREE_HEADER <= x || x + n <= a
  {
    hide Tiled;
    Near(bs, base, end, i);
    forall a | a in Addrs(bs) && a != bs[i].addr ensures a + FREE_HEADER <= x || x + n <= a {
      var j :| 0 <= j < |bs| && bs[j].addr == a;
      Near(bs, base, end, j);
    }
  }

  lemma WriteKeepsOthers(bs: seq<Block>, base: nat, end: nat, i: nat, m: seq<byte>, x: nat, data: seq<byte>)
    requires Tiled(bs, base, end) && i < |bs| && bs[i].Payload() <= x && x + |data| <= bs[i].End() <= |m|
    ensures PayloadKept(Marked(bs, i, false), m, Written(m, x, data)) && OutsideKept(base, end, m, Written(m, x, data))
  {
    hide Tiled;
    Near(bs, base, end, i);
    var m' := Written(m, x, data);
    assert |m'| == |m| && forall y :: 0 <= y < |m| && !(x <= y < x + |data|) ==> m'[y] == m[y];
    assert forall j :: 0 <= j < |bs| && j != i ==> bs[j].End() <= bs[i].addr || bs[i].End() <= bs[j].addr;
  }

  lemma ReWord(nfree: Field, pfree: Field, bs: seq<Block>, base: nat, end: nat, i: nat, v: int, w: int)
    requires Tiled(bs, base, end) && i < |bs| && bs[i].used
    requires Forwards(nfree, FreeBlocks(bs), end) && Backwards(pfree, FreeBlocks(bs))
    ensures Forwards(nfree[bs[i].addr := v], FreeBlocks(bs), end) && Backwards(pfree[bs[i].addr := w], FreeBlocks(bs))
  {
    hide FreeBlocks;
    hide AddrOr;
    hide DistBefore;
    hide Tiled;
    Disjoint(bs, base, end);
    FreeMembers(bs);
    var fs := FreeBlocks(bs);
    assert bs[i] in bs;
    forall k | 0 <= k < |fs| ensures fs[k].addr != bs[i].addr {
      assert fs[k] in fs;
    }
  }

  lemma SamePayload(bs: seq<Block>, i: nat, m: seq<byte>, m': seq<byte>)
    requires PayloadKept(bs, m, m') && i < |bs| && bs[i].used && bs[i].Payload() <= bs[i].End() <= |m|
    ensures |m'| == |m| && m'[bs[i].Payload()..bs[i].End()] == m[bs[i].Payload()..bs[i].End()]
  {
  }

  lemma OutsideTrans(base: int, end: int, m0: seq<byte>, m1: seq<byte>, m2: seq<byte>, m3: seq<byte>)
    requires OutsideKept(base, end, m0, m1) && OutsideKept(base, end, m1, m2) && OutsideKept(base, end, m2, m3)
    ensures OutsideKept(base, end, m0, m3)
  {
  }

  /** The header words found in memory at the first block and at the end. */
  ghost function FreshField(m: seq<byte>, base: nat, end: nat, off: nat): Field {
    map[base as int := Word(m, base + off), end as int := Word(m, end + off)]
  }

  /** One free block spanning the arena. */
  lemma SingleFollows(prev: Field, next: Field, used: Field, nfree: Field, pfree: Field, base: nat, end: nat)
    requires base + FREE_HEADER <= end
    requires prev.Keys == next.Keys == used.Keys == nfree.Keys == pfree.Keys == {base, end}
    requires prev[base] == 0 && next[base] == end - base && used[base] == 0 && nfree[base] == end - base && pfree[base] == 0
    ensures var bs := [Block(base, end - base, false)];
            && Follows(prev, next, used, nfree, pfree, bs, base, end)
            && AddrOr(FreeBlocks(bs), 0, end) == base
  {
    var bs := [Block(base, end - base, false)];
    assert bs[1..] == [];
    assert FreeBlocks(bs) == bs;
    assert Addrs(bs) == {base} by {
      assert bs[0].addr in Addrs(bs);
    }
  }

  /**
    Whether `free` of block `i` finds its lower free neighbour right: with the shipped `pfree`
    it does not when a free block lies above and none below.
   */
  ghost predicate FreeSound(pfreeNull: bool, bs: seq<Block>, i: nat) {
    pfreeNull || FreeBelow(bs, i) || !FreeAbove(bs, i)
  }

  ghost predicate SameBytes(m: seq<byte>, x: nat, m': seq<byte>, y: nat, len: int) {
    && 0 <= len && x + len <= |m| && y + len <= |m'|
    && m'[y..y + len] == m[x..x + len]
  }

  lemma FreshMirrors(m: seq<byte>, base: nat, end: nat, off: nat)
    requires end + FREE_HEADER <= |m| && base <= end
    ensures Mirrors(m, FreshField(m, base, end, off), off)
    ensures FreshField(m, base, end, off).Keys == {base as int, end as int}
  {
  }

  lemma FreshKeys(base: nat, end: nat)
    requires base + FREE_HEADER <= end
    ensures Spaced({base as int, end as int}) && Bounded({base as int, end as int}, base, end)
  {
  }

  lemma NothingSurvives(bs: seq<Block>)
    ensures Survives([], bs) && forall w :: SafeWord([], w)
  {
  }

  lemma WriteHeads(m: seq<byte>, prev: Field, next: Field, used: Field, b: nat, x: nat, data: seq<byte>)
    requires Mirrors(m, prev, PREV) && Mirrors(m, next, NEXT) && Mirrors(m, used, USED)
    requires prev.Keys == next.Keys == used.Keys && Spaced(prev.Keys) && b in prev
    requires b + USED_HEADER <= x && x + |data| <= |m|
    requires forall a :: a in prev.Keys && a != b ==> a + FREE_HEADER <= x || x + |data| <= a
    ensures var m' := Written(m, x, data); Mirrors(m', prev, PREV) && Mirrors(m', next, NEXT) && Mirrors(m', used, USED)
  {
    hide Mirrors;
    hide Written;
    hide Spaced;
    hide Word;
    WriteMirrors(m, prev, PREV, b, x, data);
    WriteMirrors(m, next, NEXT, b, x, data);
    WriteMirrors(m, used, USED, b, x, data);
  }

  lemma SameKeys(f: Field, b: int, v: int)
    requires b in f
    ensures f[b := v].Keys == f.Keys
  {
  }
}
