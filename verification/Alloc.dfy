/**
  The best-fit allocator of `rtprog/alloc.c`.  Headers live in the same bytes as
  the payloads: each block starts with five 32-bit words (distance to the previous
  block, size, used flag, distance to the next free block, distance to the previous
  free block), and the payload of a used block overlays the last two.
 */
module Alloc {
  import opened Ram
  import opened Blocks
  import opened Links
  import opened Layout
  import opened Raw
  import opened Growth
  import opened Short
  import opened FreeStores
  import opened ShortFree
  import opened Bits
  import opened Words

  /** Where `aligned_alloc` cuts without a gap, exactly when the lists are right after a short cut. */
  ghost predicate CutsOver(m: seq<byte>, free: int, base: nat, end: nat, bs: seq<Block>, i: nat, gap: nat, n: nat) {
    gap == 0 ==> Cuts(bs, i, n) && (Threaded(m, base, free, end, Carve(bs, i, n)) <==> CarvesRight(bs, i, n))
  }

  /** The first half of a moving `realloc` on bytes: take a block and copy `len` bytes. */
  ghost function RawCopy(m: seq<byte>, free: int, end: int, b: int, nb: int, size: int, len: int): (seq<byte>, int)
  {
    var t, p := RawTake(m, free, end, nb, size), b + USED_HEADER;
    (if 0 <= p <= p + len <= |t.0| && 0 <= nb then Written(t.0, nb + USED_HEADER, t.0[p..p + len]) else t.0, t.1)
  }

  lemma CopyIs(m: seq<byte>, free: int, end: int, b: int, nb: int, size: int, len: nat)
    requires 0 <= b + USED_HEADER && b + USED_HEADER + len <= |m| && 0 <= nb
    ensures var t := RawTake(m, free, end, nb, size);
            RawCopy(m, free, end, b, nb, size, len) == (Written(t.0, nb + USED_HEADER, t.0[b + USED_HEADER..b + USED_HEADER + len]), t.1)
  {
    hide RawTake;
    hide Written;
  }

  lemma SameLength(bs: seq<Block>, m: seq<byte>, m': seq<byte>)
    requires PayloadKept(bs, m, m')
    ensures |m'| == |m|
  {
  }

  lemma CopySame(bs: seq<Block>, i: nat, m0: seq<byte>, m1: seq<byte>, m2: seq<byte>, np: nat, blen: nat)
    requires PayloadKept(bs, m0, m1) && i < |bs| && bs[i].used && bs[i].size == blen + USED_HEADER && bs[i].End() <= |m0|
    requires var p := bs[i].Payload(); np + blen <= |m1| && m2 == Written(m1, np, m1[p..p + blen])
    ensures |m1| == |m0| && SameBytes(m0, bs[i].Payload(), m2, np, blen)
  {
    SamePayload(bs, i, m0, m1);
    var p := bs[i].Payload();
    var data := m1[p..p + blen];
    assert (m1[..np] + data + m1[np + blen..])[np..np + blen] == data;
  }

  /** The moving case of `realloc` on bytes: take a block, copy, free the old block. */
  ghost function RawMove(m: seq<byte>, free: int, end: int, b: int, nb: int, size: int, len: int, pfreeNull: bool): (seq<byte>, int)
  {
    var c := RawCopy(m, free, end, b, nb, size, len);
    RawFree(c.0, c.1, end, b, pfreeNull)
  }

  class Allocator {
    // The shipped `pfree` returns the block itself when `prev_free` is 0; with this set it
    // returns NULL there, as the comment on the field says.
    const pfreeNull: bool

    var ram: seq<byte>
    var base: nat
    var free: nat
    var end: nat

    // The layout, and the header words as fields.
    ghost var blocks: seq<Block>
    ghost var prev: Field
    ghost var next: Field
    ghost var used: Field
    ghost var nfree: Field
    ghost var pfree: Field

    // Memory at the start of the running operation, and the blocks whose payloads it must keep.
    ghost var ram0: seq<byte>
    ghost var keep: seq<Block>

    /** The ghost fields are the header words in memory, and headers do not overlap. */
    ghost predicate Mirrored()
      reads this`ram, this`base, this`end, this`prev, this`next, this`used, this`nfree, this`pfree
    {
      && prev.Keys == next.Keys == used.Keys == nfree.Keys == pfree.Keys
      && base <= end && Spaced(prev.Keys) && Bounded(prev.Keys, base, end)
      && Mirrors(ram, prev, PREV) && Mirrors(ram, next, NEXT) && Mirrors(ram, used, USED)
      && Mirrors(ram, nfree, NFREE) && Mirrors(ram, pfree, PFREE)
    }

    /** The running operation has left the payloads it must keep, and memory outside the arena, alone. */
    ghost predicate Tracked()
      reads this
    {
      PayloadKept(keep, ram0, ram) && OutsideKept(base, end, ram0, ram) && Survives(keep, blocks)
    }

    /** The block list alone: every header follows the layout, whatever the free list says. */
    ghost predicate BlockList()
      reads this`ram, this`base, this`end, this`free, this`blocks, this`prev, this`next, this`used, this`nfree, this`pfree
    {
      && 0 < base && end - base + FREE_HEADER <= U32
      && Mirrored()
      && Tiled(blocks, base, end) && prev.Keys == Addrs(blocks) + {end}
      && Sizes(next, blocks) && Uses(used, blocks) && Backs(prev, blocks)
    }

    /** Tiling, both linked lists and the list head; neighbouring free blocks allowed. */
    ghost predicate Linked()
      reads this`ram, this`base, this`end, this`free, this`blocks, this`prev, this`next, this`used, this`nfree, this`pfree
    {
      && 0 < base && end - base + FREE_HEADER <= U32
      && Mirrored()
      && Follows(prev, next, used, nfree, pfree, blocks, base, end)
      && free == AddrOr(FreeBlocks(blocks), 0, end)
    }

    ghost predicate Valid()
      reads this`ram, this`base, this`end, this`free, this`blocks, this`prev, this`next, this`used, this`nfree, this`pfree
    {
      Linked() && Coalesced(blocks)
    }

    // Header words, by the address of the block.

    function Prev(b: nat): (r: nat)
      reads this
      ensures Mirrored() && b in prev ==> r == prev[b]
    {
      Word(ram, b + PREV)
    }

    function Next(b: nat): (r: nat)
      reads this
      ensures Mirrored() && b in prev ==> r == next[b]
    {
      Word(ram, b + NEXT)
    }

    function Used(b: nat): (r: nat)
      reads this
      ensures Mirrored() && b in prev ==> r == used[b]
    {
      Word(ram, b + USED)
    }

    function NextFree(b: nat): (r: nat)
      reads this
      ensures Mirrored() && b in prev ==> r == nfree[b]
    {
      Word(ram, b + NFREE)
    }

    function PrevFree(b: nat): (r: nat)
      reads this
      ensures Mirrored() && b in prev ==> r == pfree[b]
    {
      Word(ram, b + PFREE)
    }

    // Stores of one header word; unsigned arithmetic wraps at 2^32.

    method SetPrev(b: nat, v: int)
      requires Mirrored() && Tracked() && b in prev && b != end && SafeWord(keep, b + PREV)
      modifies this`ram, this`prev
      ensures Mirrored() && Tracked() && prev == old(prev)[b := Wrap32(v)]
      ensures ram == Put(old(ram), b + PREV, v)
    {
      hide Word;
      hide Stored;
      hide Mirrors;
      hide Spaced;
      hide OneWordChanged;
      hide PayloadKept;
      hide OutsideKept;
      hide SafeWord;
      ghost var m := ram;
      InBounds(b);
      MirrorStored(ram, prev, PREV, b, Wrap32(v));
      ram := Stored(ram, b + PREV, Wrap32(v));
      MirrorKept(m, ram, next, NEXT, b, PREV);
      MirrorKept(m, ram, used, USED, b, PREV);
      MirrorKept(m, ram, nfree, NFREE, b, PREV);
      MirrorKept(m, ram, pfree, PFREE, b, PREV);
      TouchKeeps(keep, base, end, ram0, m, ram, b + PREV);
      prev := prev[b := Wrap32(v)];
      assert prev.Keys == old(prev).Keys;
    }

    method SetNext(b: nat, v: int)
      requires Mirrored() && Tracked() && b in prev && b != end && SafeWord(keep, b + NEXT)
      modifies this`ram, this`next
      ensures Mirrored() && Tracked() && next == old(next)[b := Wrap32(v)]
      ensures ram == Put(old(ram), b + NEXT, v)
    {
      hide Word;
      hide Stored;
      hide Mirrors;
      hide Spaced;
      hide OneWordChanged;
      hide PayloadKept;
      hide OutsideKept;
      hide SafeWord;
      ghost var m := ram;
      InBounds(b);
      MirrorStored(ram, next, NEXT, b, Wrap32(v));
      ram := Stored(ram, b + NEXT, Wrap32(v));
      MirrorKept(m, ram, prev, PREV, b, NEXT);
      MirrorKept(m, ram, used, USED, b, NEXT);
      MirrorKept(m, ram, nfree, NFREE, b, NEXT);
      MirrorKept(m, ram, pfree, PFREE, b, NEXT);
      TouchKeeps(keep, base, end, ram0, m, ram, b + NEXT);
      next := next[b := Wrap32(v)];
      assert next.Keys == old(next).Keys;
    }

    method SetUsed(b: nat, v: int)
      requires Mirrored() && Tracked() && b in prev && b != end && SafeWord(keep, b + USED)
      modifies this`ram, this`used
      ensures Mirrored() && Tracked() && used == old(used)[b := Wrap32(v)]
      ensures ram == Put(old(ram), b + USED, v)
    {
      hide Word;
      hide Stored;
      hide Mirrors;
      hide Spaced;
      hide OneWordChanged;
      hide PayloadKept;
      hide OutsideKept;
      hide SafeWord;
      ghost var m := ram;
      InBounds(b);
      MirrorStored(ram, used, USED, b, Wrap32(v));
      ram := Stored(ram, b + USED, Wrap32(v));
      MirrorKept(m, ram, prev, PREV, b, USED);
      MirrorKept(m, ram, next, NEXT, b, USED);
      MirrorKept(m, ram, nfree, NFREE, b, USED);
      MirrorKept(m, ram, pfree, PFREE, b, USED);
      TouchKeeps(keep, base, end, ram0, m, ram, b + USED);
      used := used[b := Wrap32(v)];
      assert used.Keys == old(used).Keys;
    }

    method SetNextFree(b: nat, v: int)
      requires Mirrored() && Tracked() && b in prev && b != end && SafeWord(keep, b + NFREE)
      modifies this`ram, this`nfree
      ensures Mirrored() && Tracked() && nfree == old(nfree)[b := Wrap32(v)]
      ensures ram == Put(old(ram), b + NFREE, v)
    {
      hide Word;
      hide Stored;
      hide Mirrors;
      hide Spaced;
      hide OneWordChanged;
      hide PayloadKept;
      hide OutsideKept;
      hide SafeWord;
      ghost var m := ram;
      InBounds(b);
      MirrorStored(ram, nfree, NFREE, b, Wrap32(v));
      ram := Stored(ram, b + NFREE, Wrap32(v));
      MirrorKept(m, ram, prev, PREV, b, NFREE);
      MirrorKept(m, ram, next, NEXT, b, NFREE);
      MirrorKept(m, ram, used, USED, b, NFREE);
      MirrorKept(m, ram, pfree, PFREE, b, NFREE);
      TouchKeeps(keep, base, end, ram0, m, ram, b + NFREE);
      nfree := nfree[b := Wrap32(v)];
      assert nfree.Keys == old(nfree).Keys;
    }

    method SetPrevFree(b: nat, v: int)
      requires Mirrored() && Tracked() && b in prev && SafeWord(keep, b + PFREE)
      modifies this`ram, this`pfree
      ensures Mirrored() && Tracked() && pfree == old(pfree)[b := Wrap32(v)]
      ensures ram == Put(old(ram), b + PFREE, v)
    {
      hide Word;
      hide Stored;
      hide Mirrors;
      hide Spaced;
      hide OneWordChanged;
      hide PayloadKept;
      hide OutsideKept;
      hide SafeWord;
      ghost var m := ram;
      InBounds(b);
      MirrorStored(ram, pfree, PFREE, b, Wrap32(v));
      ram := Stored(ram, b + PFREE, Wrap32(v));
      MirrorKept(m, ram, prev, PREV, b, PFREE);
      MirrorKept(m, ram, next, NEXT, b, PFREE);
      MirrorKept(m, ram, used, USED, b, PFREE);
      MirrorKept(m, ram, nfree, NFREE, b, PFREE);
      TouchKeeps(keep, base, end, ram0, m, ram, b + PFREE);
      pfree := pfree[b := Wrap32(v)];
      assert pfree.Keys == old(pfree).Keys;
    }

    lemma InBounds(b: nat)
      requires Mirrored() && b in prev
      ensures b + FREE_HEADER <= |ram|
      ensures forall a :: a in prev ==> 0 <= prev[a] < U32 && 0 <= next[a] < U32
      ensures forall a :: a in prev ==> 0 <= nfree[a] < U32 && 0 <= pfree[a] < U32
    {
      hide Spaced;
    }

    /** Start tracking the header words at `s`, which no store has named yet. */
    ghost method Adopt(s: nat)
      requires Mirrored() && s !in prev && s + FREE_HEADER <= |ram|
      requires Spaced(prev.Keys + {s}) && Bounded(prev.Keys + {s}, base, end)
      modifies this`prev, this`next, this`used, this`nfree, this`pfree
      ensures Mirrored()
      ensures prev == old(prev)[s := Word(ram, s + PREV)] && next == old(next)[s := Word(ram, s + NEXT)]
      ensures used == old(used)[s := Word(ram, s + USED)]
      ensures nfree == old(nfree)[s := Word(ram, s + NFREE)] && pfree == old(pfree)[s := Word(ram, s + PFREE)]
    {
      hide Word;
      hide Mirrors;
      hide Spaced;
      hide Bounded;
      AdoptMirrors(ram, prev, PREV, s);
      AdoptMirrors(ram, next, NEXT, s);
      AdoptMirrors(ram, used, USED, s);
      AdoptMirrors(ram, nfree, NFREE, s);
      AdoptMirrors(ram, pfree, PFREE, s);
      prev := prev[s := Word(ram, s + PREV)];
      next := next[s := Word(ram, s + NEXT)];
      used := used[s := Word(ram, s + USED)];
      nfree := nfree[s := Word(ram, s + NFREE)];
      pfree := pfree[s := Word(ram, s + PFREE)];
      assert prev.Keys == old(prev).Keys + {s};
      assert next.Keys == old(next).Keys + {s};
      assert used.Keys == old(used).Keys + {s};
      assert nfree.Keys == old(nfree).Keys + {s};
      assert pfree.Keys == old(pfree).Keys + {s};
    }

    /** Stop tracking the header at `n`, which has become part of another block. */
    ghost method Drop(n: nat)
      requires Mirrored()
      modifies this`prev, this`next, this`used, this`nfree, this`pfree
      ensures Mirrored()
      ensures prev == old(prev) - {n} && next == old(next) - {n} && used == old(used) - {n}
      ensures nfree == old(nfree) - {n} && pfree == old(pfree) - {n}
    {
      hide Word;
      hide Mirrors;
      hide Spaced;
      hide Bounded;
      DropMirrors(ram, prev, PREV, n);
      DropMirrors(ram, next, NEXT, n);
      DropMirrors(ram, used, USED, n);
      DropMirrors(ram, nfree, NFREE, n);
      DropMirrors(ram, pfree, PFREE, n);
      SpacedLess(prev.Keys, base, end, n);
      prev := prev - {n};
      next := next - {n};
      used := used - {n};
      nfree := nfree - {n};
      pfree := pfree - {n};
      assert prev.Keys == old(prev).Keys - {n};
      assert next.Keys == old(next).Keys - {n};
      assert used.Keys == old(used).Keys - {n};
      assert nfree.Keys == old(nfree).Keys - {n};
      assert pfree.Keys == old(pfree).Keys - {n};
    }

    /** The two halves' own header words. */
    method SplitHalves(b: nat, size: nat)
      requires Mirrored() && Tracked() && b in prev && b + size in prev
      requires FREE_HEADER <= size && size + FREE_HEADER <= At(next, b) <= At(nfree, b) && b + At(next, b) <= end
      requires forall w :: b <= w && w + 4 <= b + At(next, b) ==> SafeWord(keep, w)
      modifies this`ram, this`prev, this`next, this`used, this`nfree, this`pfree
      ensures Mirrored() && Tracked()
      ensures prev == old(prev)[b + size := size] && used == old(used)[b + size := 0] && pfree == old(pfree)[b + size := size]
      ensures next == old(next)[b + size := At(old(next), b) - size][b := size]
      ensures nfree == old(nfree)[b + size := At(old(nfree), b) - size][b := size]
      ensures ram == SplitHeads(old(ram), b, size)
    {
      hide Put;
      hide Mirrored;
      hide Tracked;
      hide SafeWord;
      hide Wrap32;
      hide Word;
      KeysAgree();
      InBounds(b);
      var s := b + size;
      SetNext(s, Next(b) - size);
      SetNext(b, size);
      SetPrev(s, size);
      SetNextFree(s, NextFree(b) - size);
      SetNextFree(b, Next(b));
      SetPrevFree(s, Prev(s));
      SetUsed(s, 0);
    }

    /** The back distances of the block and of the free block after the two halves. */
    method SplitNeighbours(s: nat, size: nat)
      requires Mirrored() && Tracked() && s in prev
      requires var n := s + At(next, s);
               s < n && n in prev && (n != end ==> At(prev, n) >= size && SafeWord(keep, n + PREV))
      requires var nf := s + At(nfree, s);
               s < nf && nf in pfree && (nf != end ==> At(pfree, nf) >= size && SafeWord(keep, nf + PFREE))
      modifies this`ram, this`prev, this`pfree
      ensures Mirrored() && Tracked()
      ensures prev == Shift(old(prev), s + At(next, s), -(size as int), end)
      ensures pfree == Shift(old(pfree), s + At(nfree, s), -(size as int), end)
      ensures ram == SplitTail(old(ram), end, s, size)
    {
      hide Put;
      hide Mirrored;
      hide Tracked;
      hide SafeWord;
      hide Wrap32;
      hide Word;
      KeysAgree();
      InBounds(s);
      var n := s + Next(s);
      if n != end {
        SetPrev(n, Prev(n) - size);
      }
      KeysAgree();
      n := s + NextFree(s);
      if n != end {
        SetPrevFree(n, PrevFree(n) - size);
      }
    }

    lemma KeysAgree()
      requires Mirrored()
      ensures prev.Keys == next.Keys == used.Keys == nfree.Keys == pfree.Keys
    {
    }

    /** The header of block `i`, read off the fields. */
    lemma AtBlock(i: nat)
      requires (Linked() || BlockList()) && i < |blocks|
      ensures var b := blocks[i].addr;
              && base <= b && b + FREE_HEADER <= blocks[i].End() <= end
              && b in prev && b in next && b in used && b in nfree && b in pfree
              && next[b] == blocks[i].size && used[b] == (if blocks[i].used then 1 else 0)
              && prev[b] == SizeBefore(blocks, i)
              && blocks[i].End() in prev
              && (i + 1 < |blocks| <==> blocks[i].End() != end)
              && (i + 1 < |blocks| ==> blocks[i].End() == blocks[i + 1].addr)
    {
      hide Tiled;
      hide Forwards;
      hide Backwards;
      hide FreeBlocks;
      hide SizeBefore;
      hide Mirrors;
      hide Spaced;
      hide Bounded;
      hide AddrOr;
      Near(blocks, base, end, i);
      assert blocks[i].addr in Addrs(blocks);
      assert i + 1 < |blocks| ==> blocks[i + 1].addr in Addrs(blocks);
    }

    /** The free-list words of free block `i`, at position `k` of the free list. */
    lemma AtFree(i: nat) returns (k: nat)
      requires Linked() && i < |blocks| && !blocks[i].used
      ensures var b, fs := blocks[i].addr, FreeBlocks(blocks);
              && k == |FreeBlocks(blocks[..i])| && k < |fs| && fs[k] == blocks[i]
              && b in nfree && b in pfree
              && nfree[b] == AddrOr(fs, k + 1, end) - b
              && pfree[b] == DistBefore(fs, k)
    {
      hide Tiled;
      hide Sizes;
      hide Uses;
      hide Backs;
      hide FreeBlocks;
      hide Mirrored;
      hide AddrOr;
      hide DistBefore;
      k := |FreeBlocks(blocks[..i])|;
      FreeAround(blocks, i);
    }

    /** Position `k` of the free list, as a position in the layout. */
    lemma FreeAt(k: nat) returns (i: nat)
      requires Linked() && k < |FreeBlocks(blocks)|
      ensures i < |blocks| && blocks[i] == FreeBlocks(blocks)[k] && !blocks[i].used && k == |FreeBlocks(blocks[..i])|
    {
      i := FreeIndex(blocks, k);
    }

    /** The block and the free block after free block `i`: their back distances, safe to patch. */
    lemma Beyond(i: nat, k: nat)
      requires Linked() && Tracked() && i < |blocks| && !blocks[i].used && k == |FreeBlocks(blocks[..i])|
      ensures var n := blocks[i].End();
              n in prev && (n != end ==> prev[n] == blocks[i].size && SafeWord(keep, n + PREV))
      ensures var nf := AddrOr(FreeBlocks(blocks), k + 1, end);
              && nf in pfree && blocks[i].End() <= nf <= end
              && (nf != end ==> pfree[nf] == nf - blocks[i].addr && SafeWord(keep, nf + PFREE))
    {
      hide Tiled;
      hide Sizes;
      hide Uses;
      hide Backs;
      hide Forwards;
      hide FreeBlocks;
      hide Mirrored;
      hide SafeWord;
      hide Survives;
      hide PayloadKept;
      hide OutsideKept;
      var fs := FreeBlocks(blocks);
      AtBlock(i);
      KeysAgree();
      if i + 1 < |blocks| {
        AtBlock(i + 1);
        HeadSafe(keep, blocks, base, end, i + 1);
      }
      var k' := AtFree(i);
      FreeIncreasing(blocks, base, end);
      NearFree(fs, end, k);
      if k + 1 < |fs| {
        var j := FreeAt(k + 1);
        AtBlock(j);
        FreeSafe(keep, blocks, base, end, j);
        assert fs[k + 1] == blocks[j];
      }
    }

    lemma BlockSafe(i: nat)
      requires (Linked() || BlockList()) && Tracked() && i < |blocks|
      ensures forall w :: blocks[i].addr <= w && w + 4 <= blocks[i].Payload() ==> SafeWord(keep, w)
      ensures !blocks[i].used ==> forall w :: blocks[i].addr <= w && w + 4 <= blocks[i].End() ==> SafeWord(keep, w)
    {
      hide Tiled;
      hide SafeWord;
      hide Survives;
      HeadSafe(keep, blocks, base, end, i);
      if !blocks[i].used {
        FreeSafe(keep, blocks, base, end, i);
      }
    }

    ghost method AdoptInside(i: nat, s: nat)
      requires Linked() && i < |blocks|
      requires blocks[i].addr + FREE_HEADER <= s && s + FREE_HEADER <= blocks[i].End()
      modifies this`prev, this`next, this`used, this`nfree, this`pfree
      ensures Mirrored() && s !in old(prev) && (old(Tracked()) ==> Tracked())
      ensures prev == old(prev)[s := Word(ram, s + PREV)] && next == old(next)[s := Word(ram, s + NEXT)]
      ensures used == old(used)[s := Word(ram, s + USED)]
      ensures nfree == old(nfree)[s := Word(ram, s + NFREE)] && pfree == old(pfree)[s := Word(ram, s + PFREE)]
    {
      hide Tiled;
      hide Sizes;
      hide Uses;
      hide Backs;
      hide Forwards;
      hide Backwards;
      hide FreeBlocks;
      hide Mirrors;
      hide Spaced;
      hide Bounded;
      hide Word;
      hide Addrs;
      AtBlock(i);
      SpacedInside(blocks, base, end, i, s);
      InBounds(blocks[i].End());
      Adopt(s);
    }

    method SplitStores(b: nat, size: nat, ghost i: nat)
      requires Linked() && Tracked()
      requires i < |blocks| && blocks[i].addr == b && !blocks[i].used
      requires FREE_HEADER <= size && size + FREE_HEADER <= blocks[i].size
      modifies this`ram, this`prev, this`next, this`used, this`nfree, this`pfree
      ensures Mirrored() && Tracked()
      ensures prev == Shift(old(prev)[b + size := size], blocks[i].End(), -(size as int), end)
      ensures next == old(next)[b + size := At(old(next), b) - size][b := size]
      ensures used == old(used)[b + size := 0]
      ensures nfree == old(nfree)[b + size := At(old(nfree), b) - size][b := size]
      ensures var nf := AddrOr(FreeBlocks(blocks), |FreeBlocks(blocks[..i])| + 1, end);
              pfree == Shift(old(pfree)[b + size := size], nf, -(size as int), end)
      ensures ram == RawSplit(old(ram), end, b, size)
    {
      hide Put;
      hide SplitHeads;
      hide Follows;
      hide Mirrored;
      hide FreeBlocks;
      hide AddrOr;
      hide DistBefore;
      hide SafeWord;
      hide Survives;
      hide PayloadKept;
      hide OutsideKept;
      hide Word;
      hide RawSplit;
      hide SplitTail;
      hide Tracked;
      hide Linked;
      hide Tiled;
      AtBlock(i);
      ghost var k := AtFree(i);
      Beyond(i, k);
      BlockSafe(i);
      AdoptInside(i, b + size);
      SplitIs(ram, end, b, size);
      SplitHalves(b, size);
      SplitNeighbours(b + size, size);
    }

    /** Cut the free block at `b` into a free block of `size` bytes and a free rest. */
    method Split(b: nat, size: nat, ghost i: nat)
      requires Linked() && Tracked()
      requires i < |blocks| && blocks[i].addr == b && !blocks[i].used
      requires FREE_HEADER <= size && size + FREE_HEADER <= blocks[i].size
      modifies this`ram, this`blocks, this`prev, this`next, this`used, this`nfree, this`pfree
      ensures Linked() && Tracked()
      ensures blocks == SplitAt(old(blocks), i, size)
      ensures ram == RawSplit(old(ram), end, b, size)
    {
      hide RawSplit;
      hide Follows;
      hide Mirrored;
      hide FreeBlocks;
      hide AddrOr;
      hide DistBefore;
      hide SafeWord;
      hide Survives;
      hide PayloadKept;
      hide OutsideKept;
      hide Word;
      hide SplitAt;
      AtBlock(i);
      ghost var k := AtFree(i);
      Beyond(i, k);
      SplitStores(b, size, i);
      SplitFollows(old(prev), old(next), old(used), old(nfree), old(pfree), blocks, base, end, i, k, size);
      SplitSurvives(keep, blocks, i, size);
      blocks := SplitAt(blocks, i, size);
    }

    /** The free block before free block `i` in the list, safe to patch. */
    lemma Before(i: nat, k: nat)
      requires Linked() && Tracked() && i < |blocks| && !blocks[i].used && k == |FreeBlocks(blocks[..i])|
      ensures var fs, b := FreeBlocks(blocks), blocks[i].addr;
              && (k == 0 <==> b == free)
              && (k > 0 ==> var p := AddrOr(fs, k - 1, end);
                            && base <= p < b && b in pfree && p == b - pfree[b]
                            && p in nfree && nfree[p] == b - p && SafeWord(keep, p + NFREE))
    {
      hide Tiled;
      hide Sizes;
      hide Uses;
      hide Backs;
      hide FreeBlocks;
      hide Mirrored;
      hide SafeWord;
      hide Survives;
      hide PayloadKept;
      hide OutsideKept;
      var fs := FreeBlocks(blocks);
      var k' := AtFree(i);
      FreeIncreasing(blocks, base, end);
      NearFree(fs, end, k);
      if k > 0 {
        var j := FreeAt(k - 1);
        AtBlock(j);
        BlockSafe(j);
        ForwardsAt(nfree, fs, end, k - 1);
        assert fs[k - 1] == blocks[j];
      }
    }

    lemma SentinelSafe()
      requires Linked() && Tracked()
      ensures SafeWord(keep, end + PFREE)
    {
      hide SafeWord;
      hide Mirrored;
      hide Tiled;
      hide Survives;
      hide FreeBlocks;
      hide PayloadKept;
      hide OutsideKept;
      EndSafe(keep, blocks, base, end);
    }

    method UseStores(b: nat, ghost i: nat, ghost k: nat)
      requires Linked() && Tracked()
      requires i < |blocks| && blocks[i].addr == b && !blocks[i].used && k == |FreeBlocks(blocks[..i])|
      modifies this`ram, this`free, this`used, this`nfree, this`pfree
      ensures Mirrored() && Tracked()
      ensures used == old(used)[b := 1]
      ensures var p := AddrOr(FreeBlocks(blocks), k - 1, end);
              nfree == if k == 0 then old(nfree) else old(nfree)[p := At(old(nfree), p) + At(old(nfree), b)]
      ensures var nf := AddrOr(FreeBlocks(blocks), k + 1, end);
              && pfree == (if k == 0 then old(pfree)[nf := 0] else Shift(old(pfree), nf, At(old(pfree), b), end))
              && free == if k == 0 then nf else old(free)
      ensures (ram, free as int) == RawUse(old(ram), old(free), end, b)
    {
      hide Put;
      hide Follows;
      hide Mirrored;
      hide FreeBlocks;
      hide AddrOr;
      hide DistBefore;
      hide SafeWord;
      hide Survives;
      hide PayloadKept;
      hide OutsideKept;
      hide Word;
      hide Wrap32;
      AtBlock(i);
      ghost var k' := AtFree(i);
      Beyond(i, k);
      Before(i, k);
      BlockSafe(i);
      SentinelSafe();
      InBounds(b);
      KeysAgree();
      if b == free {
        free := b + NextFree(b);
        SetPrevFree(free, 0);
      } else {
        var pf := b - PrevFree(b);
        SetNextFree(pf, NextFree(pf) + NextFree(b));
        var nf := b + NextFree(b);
        if nf != end {
          SetPrevFree(nf, PrevFree(nf) + PrevFree(b));
        }
      }
      SetUsed(b, 1);
    }

    /** Take the free block at `b` off the free list and mark it used. */
    method UseBlock(b: nat, ghost i: nat)
      requires Linked() && Tracked()
      requires i < |blocks| && blocks[i].addr == b && !blocks[i].used
      modifies this`ram, this`free, this`blocks, this`used, this`nfree, this`pfree
      ensures Linked() && Tracked()
      ensures blocks == Marked(old(blocks), i, true)
      ensures (ram, free as int) == RawUse(old(ram), old(free), end, b)
    {
      hide RawUse;
      hide Follows;
      hide Mirrored;
      hide FreeBlocks;
      hide AddrOr;
      hide DistBefore;
      hide SafeWord;
      hide Survives;
      hide PayloadKept;
      hide OutsideKept;
      hide Word;
      hide Marked;
      AtBlock(i);
      ghost var k := AtFree(i);
      Beyond(i, k);
      UseStores(b, i, k);
      UseFollows(prev, next, old(used), old(nfree), old(pfree), blocks, base, end, i, k);
      MarkSurvives(keep, blocks, i);
      blocks := Marked(blocks, i, true);
    }

    /**
      `nn->prev_free += d` through a pointer that may be wild: it names a header of the
      arena, or lies past the arena.  A store outside the modelled memory changes none of it.
     */
    method BumpPrevFree(nn: nat, d: int)
      requires Mirrored() && Tracked()
      requires (nn in pfree && SafeWord(keep, nn + PFREE)) || (end + FREE_HEADER <= nn && nn !in pfree)
      modifies this`ram, this`pfree, this`ram0
      ensures Mirrored() && Tracked()
      ensures nn in old(pfree) ==> ram0 == old(ram0) && pfree == old(pfree)[nn := Wrap32(old(pfree)[nn] + d)]
      ensures nn !in old(pfree) ==> pfree == old(pfree)
      ensures ram == Put(old(ram), nn + PFREE, Word(old(ram), nn + PFREE) + d)
    {
      hide Word;
      hide Stored;
      hide Mirrors;
      hide Spaced;
      hide OneWordChanged;
      hide PayloadKept;
      hide OutsideKept;
      hide SafeWord;
      hide Wrap32;
      hide Survives;
      ghost var wild := nn !in pfree;
      ghost var m := ram;
      if !wild {
        InBounds(nn);
        MirrorStored(ram, pfree, PFREE, nn, Wrap32(PrevFree(nn) + d));
      }
      if nn + FREE_HEADER <= |ram| {
        var v := Wrap32(PrevFree(nn) + d);
        StoredOneWord(ram, nn + PFREE, v);
        ram := Stored(ram, nn + PFREE, v);
        if wild {
          MirrorFar(m, ram, prev, PREV, nn + PFREE, base, end);
          MirrorFar(m, ram, next, NEXT, nn + PFREE, base, end);
          MirrorFar(m, ram, used, USED, nn + PFREE, base, end);
          MirrorFar(m, ram, nfree, NFREE, nn + PFREE, base, end);
          MirrorFar(m, ram, pfree, PFREE, nn + PFREE, base, end);
        } else {
          MirrorKept(m, ram, prev, PREV, nn, PFREE);
          MirrorKept(m, ram, next, NEXT, nn, PFREE);
          MirrorKept(m, ram, used, USED, nn, PFREE);
          MirrorKept(m, ram, nfree, NFREE, nn, PFREE);
          TouchKeeps(keep, base, end, ram0, m, ram, nn + PFREE);
          pfree := pfree[nn := v];
          assert pfree.Keys == old(pfree).Keys;
        }
      }
      if wild {
        ram0 := ram;
        NothingTouched(keep, base, end, ram);
      }
    }

    /** The stores of one coalescing round, for a free neighbour `n` right after `b`. */
    method CoalesceStores(b: nat, n: nat)
      requires Mirrored() && Tracked() && b in prev && n in prev
      requires b < n < end && n == b + At(next, b)
      requires SafeWord(keep, b + NEXT) && SafeWord(keep, b + NFREE)
      requires var nn := n + At(next, n);
               n < nn <= end && nn in prev && (nn != end ==> SafeWord(keep, nn + PREV) && At(prev, nn) + At(next, b) < U32)
      requires var nn := n + At(nfree, n);
               && n <= nn && (nn in pfree || end + FREE_HEADER <= nn)
               && (nn in pfree && nn != end ==> SafeWord(keep, nn + PFREE) && At(pfree, nn) + At(nfree, b) < U32)
      modifies this`ram, this`prev, this`next, this`nfree, this`pfree, this`ram0
      ensures Mirrored() && Tracked()
      ensures n + At(old(nfree), n) in old(pfree) ==> ram0 == old(ram0)
      ensures pfree == if n + At(old(nfree), n) in old(pfree)
                       then Shift(old(pfree), n + At(old(nfree), n), At(old(nfree), b), end) else old(pfree)
      ensures prev == Shift(old(prev), n + At(old(next), n), At(old(next), b), end)
      ensures nfree == old(nfree)[b := Wrap32(At(old(nfree), b) + At(old(nfree), n))]
      ensures next == old(next)[b := Wrap32(At(old(next), b) + At(old(next), n))]
      ensures ram == Round(old(ram), end, b, n)
    {
      hide Mirrored;
      hide Tracked;
      hide SafeWord;
      hide Wrap32;
      hide Word;
      hide Put;
      KeysAgree();
      InBounds(b);
      assert n == b + Next(b);
      var nn := n + NextFree(n);
      if nn != end {
        BumpPrevFree(nn, NextFree(b));
      }
      nn := n + Next(n);
      if nn != end {
        SetPrev(nn, Prev(nn) + Next(b));
      }
      SetNextFree(b, NextFree(b) + NextFree(n));
      SetNext(b, Next(b) + Next(n));
    }

    /** Walk forward from the block at `b` to the first unused block, or to the end. */
    method ScanForward(b: nat, ghost i: nat) returns (n: nat, ghost j: nat)
      requires BlockList() && i < |blocks| && blocks[i].addr == b
      ensures i < j <= |blocks| && n == (if j < |blocks| then blocks[j].addr else end)
      ensures forall l :: i < l < j ==> blocks[l].used
      ensures j < |blocks| ==> !blocks[j].used
    {
      hide BlockList;
      n := NextOf(b, i);
      j := i + 1;
      while n != end && Used(n) != 0
        invariant i < j <= |blocks| && n == (if j < |blocks| then blocks[j].addr else end)
        invariant forall l :: i < l < j ==> blocks[l].used
        invariant n != end <==> j < |blocks|
        invariant j < |blocks| ==> Used(n) == if blocks[j].used then 1 else 0
        decreases |blocks| - j
      {
        n := NextOf(n, j);
        j := j + 1;
      }
    }

    /** Walk back from the block at `b` to the first unused block; 0 when there is none. */
    method ScanBack(b: nat, ghost i: nat) returns (p: nat, ghost j: int)
      requires BlockList() && i < |blocks| && blocks[i].addr == b
      ensures -1 <= j < i && p == (if j >= 0 then blocks[j].addr else 0)
      ensures forall l :: j < l < i ==> blocks[l].used
      ensures j >= 0 ==> !blocks[j].used
    {
      hide BlockList;
      p := PrevOf(b, i);
      j := i - 1;
      while p != 0 && Used(p) != 0
        invariant -1 <= j < i && p == (if j >= 0 then blocks[j].addr else 0)
        invariant forall l :: j < l < i ==> blocks[l].used
        invariant p != 0 <==> j >= 0
        invariant j >= 0 ==> Used(p) == if blocks[j].used then 1 else 0
        decreases j
      {
        p := PrevOf(p, j);
        j := j - 1;
      }
    }

    /** `next(b)`: the end after the last block. */
    method NextOf(b: nat, ghost i: nat) returns (n: nat)
      requires BlockList() && i < |blocks| && blocks[i].addr == b
      ensures n == if i + 1 < |blocks| then blocks[i + 1].addr else end
      ensures n != end <==> i + 1 < |blocks|
      ensures i + 1 < |blocks| ==> Used(n) == if blocks[i + 1].used then 1 else 0
    {
      hide BlockList;
      AtBlock(i);
      KeysOfList();
      if i + 1 < |blocks| {
        AtBlock(i + 1);
      }
      return b + Next(b);
    }

    /** `prev(b)`: NULL for the first block. */
    method PrevOf(b: nat, ghost i: nat) returns (p: nat)
      requires BlockList() && i < |blocks| && blocks[i].addr == b
      ensures p == if i > 0 then blocks[i - 1].addr else 0
      ensures i > 0 ==> p > 0 && Used(p) == if blocks[i - 1].used then 1 else 0
    {
      hide BlockList;
      AtBlock(i);
      KeysOfList();
      if i > 0 {
        AtBlock(i - 1);
      }
      if Prev(b) == 0 {
        return 0;
      }
      return b - Prev(b);
    }

    lemma KeysOfList()
      requires BlockList()
      ensures Mirrored() && 0 < base <= end
    {
    }

    /** `pfree(n)`, see `pfreeNull`. */
    function PFree(n: nat): nat
      reads this
      requires PrevFree(n) <= n
    {
      if pfreeNull && PrevFree(n) == 0 then 0 else n - PrevFree(n)
    }

    /** The stores that put the block at `b` between the free blocks `p` (0 for none) and `n`. */
    method RelinkStores(b: nat, n: nat, p: nat)
      requires Mirrored() && Tracked() && b in prev && n in prev && 0 < b < n <= end && n - b < U32
      requires p != 0 ==> p in prev && p != end && SafeWord(keep, p + NFREE) && -0x1_0000_0000 < b - p < U32
      requires SafeWord(keep, b + NFREE) && SafeWord(keep, b + PFREE) && (n != end ==> SafeWord(keep, n + PFREE))
      requires p != b
      modifies this`ram, this`nfree, this`pfree
      ensures Mirrored() && Tracked()
      ensures var f := old(nfree)[b := n - b];
              nfree == if p != 0 then f[p := Wrap32(b - p)] else f
      ensures var g := if n != end then old(pfree)[n := n - b] else old(pfree);
              pfree == if p != 0 then g[b := Wrap32(b - p)] else g
      ensures ram == Relinked(old(ram), end, b, n, p)
    {
      hide Mirrored;
      hide Tracked;
      hide SafeWord;
      hide Wrap32;
      hide Word;
      hide Put;
      KeysAgree();
      SetNextFree(b, n - b);
      if n != end {
        SetPrevFree(n, NextFree(b));
      }
      if p != 0 {
        KeysAgree();
        SetPrevFree(b, b - p);
        SetNextFree(p, PrevFree(b));
      }
    }

    /** The first half of `free`: the block is unused and the head is no higher than it. */
    method MarkFree(b: nat, ghost i: nat)
      requires Linked() && Tracked() && i < |blocks| && blocks[i].addr == b && blocks[i].used
      requires keep == Marked(blocks, i, false)
      modifies this`ram, this`free, this`used, this`pfree, this`blocks
      ensures BlockList() && Tracked()
      ensures blocks == Marked(old(blocks), i, false)
      ensures used == old(used)[b := 0] && pfree == old(pfree)[b := 0]
      ensures free == if b < old(free) then b else old(free)
      ensures ram == Cleared(old(ram), b)
    {
      hide Put;
      hide Mirrored;
      hide SafeWord;
      hide Survives;
      hide PayloadKept;
      hide OutsideKept;
      hide Word;
      hide Wrap32;
      hide FreeBlocks;
      hide Forwards;
      hide Backwards;
      hide Sizes;
      hide Uses;
      hide Backs;
      hide Tiled;
      hide Addrs;
      hide AddrOr;
      hide Marked;
      AtBlock(i);
      KeysAgree();
      MarkedKeeps(prev, next, used, blocks, base, end, i, false);
      FreedSafe(keep, blocks, base, end, i);
      SetPrevFree(b, 0);
      SetUsed(b, 0);
      if b < free {
        free := b;
      }
      blocks := keep;
    }

    /** The free neighbours of the block just marked free, as the source finds them. */
    method FindNeighbours(b: nat, ghost i: nat, ghost bs: seq<Block>, ghost k: nat) returns (n: nat, p: nat)
      requires BlockList() && i < |bs| && bs[i].used && bs[i].addr == b && blocks == Marked(bs, i, false)
      requires k == |FreeBlocks(bs[..i])| && Increasing(FreeBlocks(bs), end) && Backwards(pfree, FreeBlocks(bs))
      ensures n == AddrOr(FreeBlocks(bs), k, end)
      ensures k > 0 ==> p == AddrOr(FreeBlocks(bs), k - 1, end)
      ensures k == 0 ==> p == if n == end || pfreeNull then 0 else n
      ensures n == end <==> !FreeAbove(bs, i)
      ensures k > 0 <==> FreeBelow(bs, i)
    {
      hide BlockList;
      hide FreeBlocks;
      hide Mirrored;
      hide FreeAbove;
      hide FreeBelow;
      ghost var fs := FreeBlocks(bs);
      assert forall l :: 0 <= l < |bs| && l != i ==> blocks[l] == bs[l];
      ghost var j;
      n, j := ScanForward(b, i);
      NextFreeIs(bs, end, i, j);
      CountBelow(bs, i);
      KeysOfList();
      if j < |bs| {
        NearFree(fs, end, k);
        AtBlock(j);
      } else {
        assert FreeBlocks(bs[..i]) == fs by { FreeAround(bs, i); }
      }
      if n != end {
        p := PFree(n);
      } else {
        ghost var l;
        p, l := ScanBack(b, i);
        PrevFreeIs(bs, end, i, l);
      }
    }

    /** The free list around used block `i`, before it is freed. */
    lemma AroundUsed(i: nat, k: nat)
      requires Linked() && Tracked() && i < |blocks| && blocks[i].used && k == |FreeBlocks(blocks[..i])|
      requires keep == Marked(blocks, i, false)
      ensures var fs, b := FreeBlocks(blocks), blocks[i].addr;
              && k <= |fs| && Increasing(fs, end)
              && Backwards(pfree[b := 0], fs)
              && (k > 0 <==> free < b)
              && (k > 0 ==> var p := AddrOr(fs, k - 1, end); base <= p < b && p in prev && SafeWord(keep, p + NFREE))
              && (var n := AddrOr(fs, k, end);
                  && b < n <= end && n in prev && (n != end ==> SafeWord(keep, n + PFREE) && SafeWord(keep, n + NFREE)))
      ensures forall w :: blocks[i].addr <= w && w + 4 <= blocks[i].End() ==> SafeWord(keep, w)
    {
      hide Tiled;
      hide Sizes;
      hide Uses;
      hide Backs;
      hide FreeBlocks;
      hide Mirrored;
      hide SafeWord;
      hide Survives;
      hide PayloadKept;
      hide OutsideKept;
      hide Marked;
      hide DistBefore;
      var fs := FreeBlocks(blocks);
      AtBlock(i);
      KeysAgree();
      FreedSafe(keep, blocks, base, end, i);
      FreeIncreasing(blocks, base, end);
      BetweenFree(blocks, base, end, i, k);
      if k > 0 {
        var j := FreeAt(k - 1);
        AtBlock(j);
        BlockSafe(j);
      }
      if k < |fs| {
        var j := FreeAt(k);
        AtBlock(j);
        BlockSafe(j);
      }
    }

    /** What a wrapped back distance leaves behind: the head of the free list points before itself. */
    ghost predicate Broken(b: nat, n: nat)
      reads this
    {
      && BlockList() && Tracked()
      && free == b < n < end && b in pfree && b in nfree && n in nfree
      && pfree[b] == nfree[n] == U32 - (n - b) && nfree[b] == n - b
    }

    method RelinkFields(b: nat, ghost i: nat, ghost k: nat) returns (n: nat, p: nat)
      requires Linked() && Tracked() && i < |blocks| && blocks[i].addr == b && blocks[i].used
      requires keep == Marked(blocks, i, false) && k == |FreeBlocks(blocks[..i])|
      modifies this`ram, this`free, this`used, this`nfree, this`pfree, this`blocks
      ensures BlockList() && Tracked() && blocks == Marked(old(blocks), i, false)
      ensures n == AddrOr(FreeBlocks(old(blocks)), k, end) && b < n <= end
      ensures k > 0 ==> p == AddrOr(FreeBlocks(old(blocks)), k - 1, end) && 0 < p < b && b - p < U32
      ensures k == 0 ==> p == if n == end || pfreeNull then 0 else n
      ensures FreeSound(pfreeNull, old(blocks), i) <==> k > 0 || n == end || pfreeNull
      ensures used == old(used)[b := 0]
      ensures var f := old(nfree)[b := n - b];
              nfree == if p != 0 then f[p := Wrap32(b - p)] else f
      ensures var g := if n != end then old(pfree)[b := 0][n := n - b] else old(pfree)[b := 0];
              pfree == if p != 0 then g[b := Wrap32(b - p)] else g
      ensures free == if k == 0 then b else old(free)
      ensures free == if b < old(free) then b else old(free)
      ensures ram == Relinked(Cleared(old(ram), b), end, b, n, p)
    {
      hide Cleared;
      hide Relinked;
      hide Follows;
      hide Tiled;
      hide Sizes;
      hide Uses;
      hide Backs;
      hide Addrs;
      hide Mirrored;
      hide FreeBlocks;
      hide AddrOr;
      hide DistBefore;
      hide SafeWord;
      hide Survives;
      hide PayloadKept;
      hide OutsideKept;
      hide Word;
      hide Wrap32;
      hide Marked;
      hide FreeAbove;
      hide FreeBelow;
      hide Increasing;
      hide Backwards;
      ghost var bs := blocks;
      AtBlock(i);
      AroundUsed(i, k);
      MarkFree(b, i);
      n, p := FindNeighbours(b, i, bs, k);
      RelinkStores(b, n, p);
    }

    /** `free` up to its coalescing loop: the block joins the free list between its neighbours. */
    method Relink(b: nat, ghost i: nat, ghost k: nat) returns (n: nat, p: nat)
      requires Linked() && Tracked() && i < |blocks| && blocks[i].addr == b && blocks[i].used
      requires keep == Marked(blocks, i, false) && k == |FreeBlocks(blocks[..i])|
      modifies this`ram, this`free, this`used, this`nfree, this`pfree, this`blocks
      ensures blocks == Marked(old(blocks), i, false)
      ensures FreeSound(pfreeNull, old(blocks), i) ==> Linked() && Tracked()
      ensures FreeSound(pfreeNull, old(blocks), i) ==> n == AddrOr(FreeBlocks(blocks), k + 1, end)
      ensures FreeSound(pfreeNull, old(blocks), i) ==> p == if k > 0 then AddrOr(FreeBlocks(blocks), k - 1, end) else 0
      ensures !FreeSound(pfreeNull, old(blocks), i) ==> Broken(b, n) && p == n
      ensures FreeSound(pfreeNull, old(blocks), i) ==> p != n
      ensures free == if b < old(free) then b else old(free)
      ensures ram == Relinked(Cleared(old(ram), b), end, b, n, p)
      ensures n == AddrOr(FreeBlocks(old(blocks)), k, end) && (k > 0 ==> p == AddrOr(FreeBlocks(old(blocks)), k - 1, end))
    {
      hide Cleared;
      hide Relinked;
      hide Follows;
      hide Tiled;
      hide Sizes;
      hide Uses;
      hide Backs;
      hide Addrs;
      hide Mirrored;
      hide FreeBlocks;
      hide AddrOr;
      hide DistBefore;
      hide SafeWord;
      hide Survives;
      hide PayloadKept;
      hide OutsideKept;
      hide Word;
      hide Wrap32;
      hide Marked;
      hide FreeAbove;
      hide FreeBelow;
      hide Increasing;
      hide Backwards;
      hide FreeSound;
      ghost var bs := blocks;
      AtBlock(i);
      AroundUsed(i, k);
      KeysAgree();
      NeighboursAfter(bs, end, i, k);
      ReleaseFollows(prev, next, used, nfree, pfree, bs, base, end, i, k);
      n, p := RelinkFields(b, i, k);
      StoreOrder(old(pfree), b, n, p, end);
    }

    /** The header words one coalescing round touches, in a sound list. */
    lemma AdjacentFree(i: nat, k: nat)
      requires Linked() && Tracked() && i + 1 < |blocks| && !blocks[i].used && !blocks[i + 1].used
      requires k == |FreeBlocks(blocks[..i])|
      ensures var b, n := blocks[i].addr, blocks[i + 1].addr;
              var nn, nf := blocks[i + 1].End(), AddrOr(FreeBlocks(blocks), k + 2, end);
              && b in prev && n in prev && b in next && n in next && b in nfree && n in nfree
              && b < n < end && next[b] == n - b && next[n] == nn - n && nfree[n] == nf - n && nfree[b] == n - b
              && n < nn <= end && nn in prev && (nn != end ==> SafeWord(keep, nn + PREV) && prev[nn] + next[b] < U32)
              && n <= nf && nf in pfree && (nf != end ==> SafeWord(keep, nf + PFREE) && pfree[nf] + nfree[b] < U32)
              && SafeWord(keep, b + NEXT) && SafeWord(keep, b + NFREE)
              && nfree[b] + nfree[n] < U32 && next[b] + next[n] < U32
    {
      hide Tiled;
      hide Sizes;
      hide Uses;
      hide Backs;
      hide Forwards;
      hide Backwards;
      hide FreeBlocks;
      hide Addrs;
      hide Mirrored;
      hide SafeWord;
      hide Survives;
      hide PayloadKept;
      hide OutsideKept;
      hide AddrOr;
      hide DistBefore;
      AtBlock(i);
      AtBlock(i + 1);
      KeysAgree();
      var k0 := AtFree(i);
      var k1 := AtFree(i + 1);
      NextIsFree(blocks, base, end, i, k);
      Beyond(i + 1, k + 1);
      BlockSafe(i);
    }

    /** The same words when the free list is broken: the next free pointer leads past the arena. */
    lemma AdjacentBroken(b: nat, n: nat, i: nat)
      requires Broken(b, n) && i < |blocks| && blocks[i].addr == b && !blocks[i].used && n == b + At(next, b)
      ensures b in prev && n in prev && b in next && n in next
      ensures var nn := n + At(next, n);
              n < nn <= end && nn in prev && (nn != end ==> SafeWord(keep, nn + PREV) && At(prev, nn) + At(next, b) < U32)
      ensures end + FREE_HEADER <= n + At(nfree, n) && n + At(nfree, n) !in pfree
      ensures SafeWord(keep, b + NEXT) && SafeWord(keep, b + NFREE)
    {
      hide Tiled;
      hide Sizes;
      hide Uses;
      hide Backs;
      hide Addrs;
      hide Mirrors;
      hide Spaced;
      hide SafeWord;
      hide Survives;
      hide PayloadKept;
      hide OutsideKept;
      AtBlock(i);
      AtBlock(i + 1);
      BlockSafe(i);
      if i + 2 < |blocks| {
        AtBlock(i + 2);
        BlockSafe(i + 2);
      }
    }

    /** One round of the coalescing loop: `b` absorbs the free block right after it, if that is `n`. */
    method Coalesce(b: nat, n: nat, ghost i: nat, ghost k: nat, ghost sound: bool)
      requires i < |blocks| && !blocks[i].used && k == |FreeBlocks(blocks[..i])|
      requires sound ==> Linked() && Tracked() && blocks[i].addr == b && n == AddrOr(FreeBlocks(blocks), k + 1, end)
      requires !sound ==> (Broken(b, n) && blocks[i].addr == b) || (Mirrored() && n < b)
      modifies this`ram, this`prev, this`next, this`used, this`nfree, this`pfree, this`blocks, this`ram0
      ensures sound ==> Linked() && Tracked() && ram0 == old(ram0)
      ensures sound ==> blocks == AbsorbNext(old(blocks), i)
      ensures !sound ==> Mirrored() && pfree == old(pfree) && blocks == old(blocks)
      ensures ram == Round(old(ram), end, b, n)
    {
      hide Round;
      hide Follows;
      hide Tiled;
      hide Sizes;
      hide Uses;
      hide Backs;
      hide Addrs;
      hide Mirrored;
      hide FreeBlocks;
      hide AddrOr;
      hide DistBefore;
      hide SafeWord;
      hide Survives;
      hide PayloadKept;
      hide OutsideKept;
      hide Word;
      hide Wrap32;
      hide MergeAt;
      if sound {
        AtBlock(i);
        TilingOf();
        NextIsFree(blocks, base, end, i, k);
      } else if b < n {
        AtBlock(i);
      }
      if n == end || n != b + Next(b) {
        NoRound(ram, end, b, n);
      } else {
        if sound {
          AdjacentFree(i, k);
        } else {
          AdjacentBroken(b, n, i);
        }
        CoalesceStores(b, n);
        if sound {
          MergeFollows(old(prev), old(next), old(used), old(nfree), old(pfree), blocks, base, end, i, k);
          MergeSurvives(keep, blocks, i);
          Drop(n);
          blocks := MergeAt(blocks, i);
        }
      }
    }

    lemma TilingOf()
      requires Linked()
      ensures Tiled(blocks, base, end) && 0 < base && end - base + FREE_HEADER <= U32
    {
    }

    /** Begin an operation that must keep the payloads of `ks`. */
    ghost method Begin(ks: seq<Block>)
      requires Survives(ks, blocks)
      modifies this`ram0, this`keep
      ensures keep == ks && ram0 == ram && Tracked()
    {
      NothingTouched(ks, base, end, ram);
      ram0, keep := ram, ks;
    }

    /** The coalescing loop of `free`: a round for the block, and one for its lower free neighbour if any. */
    method CoalesceBoth(b: nat, n: nat, p: nat, ghost i: nat, ghost k: nat, ghost sound: bool)
      requires i < |blocks| && blocks[i].addr == b && !blocks[i].used && k == |FreeBlocks(blocks[..i])|
      requires sound ==> Linked() && Tracked() && n == AddrOr(FreeBlocks(blocks), k + 1, end)
      requires sound ==> p == if k > 0 then AddrOr(FreeBlocks(blocks), k - 1, end) else 0
      requires !sound ==> Broken(b, n) && p == n
      modifies this`ram, this`prev, this`next, this`used, this`nfree, this`pfree, this`blocks, this`ram0
      ensures sound ==> Linked() && Tracked() && ram0 == old(ram0)
      ensures sound ==> blocks == AbsorbBoth(old(blocks), i)
      ensures !sound ==> Mirrored() && pfree == old(pfree)
      ensures ram == var r := Round(old(ram), end, b, n); if p != 0 then Round(r, end, p, b) else r
    {
      hide Round;
      hide Linked;
      hide Tracked;
      hide Mirrored;
      hide FreeBlocks;
      hide AddrOr;
      hide AbsorbNext;
      hide BlockList;
      ghost var bs := blocks;
      if sound {
        TilingOf();
        CountBelow(bs, i);
        assert i > 0 && !bs[i - 1].used ==> FreeBelow(bs, i);
        AfterAbsorb(bs, base, end, i, k);
      }
      Coalesce(b, n, i, k, sound);
      if p != 0 {
        ghost var j, k' := i, k;
        if sound {
          TilingOf();
          j := FreeAt(k - 1);
          k' := k - 1;
          LowerNeighbour(blocks, base, end, i, k, j);
          AbsorbLower(blocks, i, j);
          LowerAddrs(blocks, end, k);
        }
        Coalesce(p, b, j, k', sound);
      }
    }

    /** The neighbours that `free` finds, on memory as its first stores leave it. */
    lemma FoundHere(i: nat, k: nat)
      requires Linked() && i < |blocks| && blocks[i].used && k == |FreeBlocks(blocks[..i])|
      ensures var b, fs := blocks[i].addr, FreeBlocks(blocks);
              var n := AddrOr(fs, k, end);
              Found(Cleared(ram, b), end, b, pfreeNull) ==
              (n, if FreeSound(pfreeNull, blocks, i) then (if k > 0 then AddrOr(fs, k - 1, end) else 0) else n)
    {
      hide Lists;
      hide Threaded;
      hide FreeBlocks;
      hide Found;
      hide Cleared;
      hide Linked;
      ListsOf();
      ArenaOf();
      ListsAreSnug(ram, base, free, end, blocks);
      FoundIs(ram, base, free, end, blocks, i, k, pfreeNull);
      FreeAround(blocks, i);
    }

    /** `sound` tells whether the lists survive: the neighbours found differ exactly when they do. */
    method FreeBlock(b: nat, ghost i: nat) returns (sound: bool)
      requires Valid() && i < |blocks| && blocks[i].addr == b && blocks[i].used
      modifies this`ram, this`free, this`prev, this`next, this`used, this`nfree, this`pfree, this`blocks, this`ram0, this`keep
      ensures (ram, free as int) == RawFree(old(ram), old(free), end, b, pfreeNull)
      ensures sound <==> FreeSound(pfreeNull, old(blocks), i)
      ensures FreeSound(pfreeNull, old(blocks), i) ==> Linked() && blocks == Release(old(blocks), i)
      ensures FreeSound(pfreeNull, old(blocks), i) ==> PayloadKept(Marked(old(blocks), i, false), old(ram), ram)
      ensures FreeSound(pfreeNull, old(blocks), i) ==> OutsideKept(base, end, old(ram), ram)
      ensures !FreeSound(pfreeNull, old(blocks), i) ==> !Representable(ram, base, free, end)
    {
      hide Linked;
      hide Mirrored;
      hide FreeBlocks;
      hide AddrOr;
      hide AbsorbNext;
      hide BlockList;
      hide Word;
      hide Representable;
      hide Coalesced;
      hide PayloadKept;
      hide OutsideKept;
      hide Survives;
      hide FreeSound;
      hide Cleared;
      hide Relinked;
      hide Round;
      hide Found;
      hide LowerAt;
      FoundHere(i, |FreeBlocks(blocks[..i])|);
      AtBlock(i);
      TilingOf();
      ghost var bs, k := blocks, |FreeBlocks(blocks[..i])|;
      ReleaseKeepsOthers(bs, i);
      Begin(Marked(blocks, i, false));
      var n, p := Relink(b, i, k);
      sound := p != n;
      assert blocks[..i] == bs[..i];
      CoalesceBoth(b, n, p, i, k, sound);
      if !sound {
        HeadWord();
        HeadPointsBack(ram, base, free, end);
      }
    }

    /**
      `free(ptr)`, where `ptr` is any value outside the arena or the payload of some block.
      The assertions of the source end in a panic.  In the shipped form the lists survive
      exactly when `FreeSound` holds; otherwise no blocks fit the memory left behind.  `sound`
      is not a result of the source: it tells which of the two happened.
     */
    method Free(ptr: nat, ghost i: nat) returns (panic: bool, sound: bool)
      requires Valid()
      requires base < ptr < end ==> PayloadOf(blocks, i, ptr)
      modifies this`ram, this`free, this`prev, this`next, this`used, this`nfree, this`pfree, this`blocks, this`ram0, this`keep
      ensures panic <==> !(base < ptr < end && LiveAt(old(blocks), i))
      ensures !panic ==> (ram, free as int) == RawFree(old(ram), old(free), end, ptr - USED_HEADER, pfreeNull)
      ensures sound <==> panic || FreeSound(pfreeNull, old(blocks), i)
      ensures panic ==> Valid() && ram == old(ram) && free == old(free) && blocks == old(blocks)
      ensures !panic && FreeSound(pfreeNull, old(blocks), i) ==> Valid() && blocks == Release(old(blocks), i)
      ensures !panic && FreeSound(pfreeNull, old(blocks), i) ==> PayloadKept(Marked(old(blocks), i, false), old(ram), ram)
      ensures !panic && FreeSound(pfreeNull, old(blocks), i) ==> OutsideKept(base, end, old(ram), ram)
      ensures !panic && !FreeSound(pfreeNull, old(blocks), i) ==> !Representable(ram, base, free, end)
    {
      hide RawFree;
      hide Linked;
      hide Mirrored;
      hide Word;
      hide Representable;
      hide Coalesced;
      hide PayloadKept;
      hide OutsideKept;
      hide FreeSound;
      hide Release;
      hide Marked;
      if !(ptr < end) {
        return true, true;
      }
      if !(ptr > base) {
        return true, true;
      }
      var b := ptr - USED_HEADER;
      AtBlock(i);
      MirroredOf();
      if Used(b) != 1 {
        return true, true;
      }
      ReleaseCoalesced(blocks, i);
      panic := false;
      sound := FreeBlock(b, i);
    }

    /**
      `free(ptr)` where used blocks may be too short for a free header: `bs` are the blocks and `ptr`
      the payload of block `t`.  Otherwise as `Free`: the lists of the layout with the block released
      are there exactly when the previous free block is found right and `FreesRight`.
     */
    method FreeShort(ptr: nat, ghost bs: seq<Block>, ghost t: nat) returns (panic: bool)
      requires Threaded(ram, base, free, end, bs) && Snug(bs, base, end) && t < |bs| && bs[t].Payload() == ptr
      requires 0 < base && end + FREE_HEADER <= |ram| && end - base + FREE_HEADER <= U32
      modifies this`ram, this`free
      ensures panic <==> !bs[t].used
      ensures panic ==> ram == old(ram) && free == old(free)
      ensures |ram| == |old(ram)|
      ensures !panic && FreeSound(pfreeNull, bs, t) ==> (Threaded(ram, base, free, end, Release(bs, t)) <==> FreesRight(bs, t))
      ensures !panic && FreeSound(pfreeNull, bs, t) && t + 1 < |bs| ==>
                PayloadKept(Marked(bs, t, false), old(ram), ram) && OutsideKept(base, end, old(ram), ram)
      ensures !panic && !FreeSound(pfreeNull, bs, t) ==> !Representable(ram, base, free, end)
      ensures !panic ==> (ram, free as int) == RawFree(old(ram), old(free), end, ptr - USED_HEADER, pfreeNull)
    {
      hide Threaded;
      hide Snug;
      hide FreeSound;
      hide FreesRight;
      hide Release;
      hide Representable;
      hide Word;
      hide FreeBlocks;
      hide PayloadKept;
      hide OutsideKept;
      ThreadedAt(ram, base, free, end, bs, t);
      SnugSpan(bs, base, end, t);
      if !(ptr < end) {
        return true;
      }
      if !(ptr > base) {
        return true;
      }
      var b := ptr - USED_HEADER;
      if Word(ram, b + USED) != 1 {
        return true;
      }
      var r := RawFree(ram, free, end, b, pfreeNull);
      ghost var k := |FreeBlocks(bs[..t])|;
      FreeExact(ram, base, free, end, bs, t, k, pfreeNull);
      if FreeSound(pfreeNull, bs, t) && t + 1 < |bs| {
        FreeSpares(ram, base, free, end, bs, t, k, pfreeNull);
      }
      ram, free := r.0, r.1;
      return false;
    }

    lemma HeadWord()
      requires Mirrored() && free in pfree
      ensures Word(ram, free + PFREE) == pfree[free]
    {
      hide Spaced;
      hide Word;
    }

    lemma MirroredOf()
      requires Linked()
      ensures Mirrored()
    {
    }

    /** The header of the `k`-th free block; `curr` is its address. */
    lemma AtFreeIndex(k: nat, curr: int)
      requires Linked() && k <= |FreeBlocks(blocks)| && curr == AddrOr(FreeBlocks(blocks), k, end)
      ensures curr != end <==> k < |FreeBlocks(blocks)|
      ensures k < |FreeBlocks(blocks)| ==>
                var x := FreeBlocks(blocks)[k];
                && curr == x.addr && base <= curr < end && curr in prev && curr in next && curr in nfree
                && next[curr] == x.size && curr + nfree[curr] == AddrOr(FreeBlocks(blocks), k + 1, end)
    {
      hide Follows;
      hide Mirrored;
      hide FreeBlocks;
      if k < |FreeBlocks(blocks)| {
        var i := FreeAt(k);
        AtBlock(i);
        var k' := AtFree(i);
      }
    }

    /** The best-fit search of `alloc`. */
    method FindBest(xlen: nat) returns (best: nat, ghost at: int)
      requires Linked()
      ensures BestSoFar(FreeBlocks(blocks), |FreeBlocks(blocks)|, xlen, at)
      ensures best == 0 <==> at < 0
      ensures -1 <= at < |FreeBlocks(blocks)| && (at >= 0 ==> best == FreeBlocks(blocks)[at].addr)
    {
      hide Linked;
      hide FreeBlocks;
      hide Mirrored;
      MirroredOf();
      TilingOf();
      HeadOf();
      ghost var fs, k := FreeBlocks(blocks), 0;
      var curr := free;
      best, at := 0, -1;
      AtFreeIndex(0, curr);
      while curr != end
        invariant k <= |fs| && curr == AddrOr(fs, k, end) && (curr != end <==> k < |fs|)
        invariant BestSoFar(fs, k, xlen, at)
        invariant best == 0 <==> at < 0
        invariant at >= 0 ==> best == fs[at].addr && Next(best) == fs[at].size
        decreases |fs| - k
      {
        AtFreeIndex(k, curr);
        if Next(curr) >= xlen && (best == 0 || Next(best) > Next(curr)) {
          best, at := curr, k;
        }
        curr := curr + NextFree(curr);
        k := k + 1;
        AtFreeIndex(k, curr);
      }
    }

    lemma HeadOf()
      requires Linked()
      ensures free == AddrOr(FreeBlocks(blocks), 0, end)
    {
    }

    /** Split free block `i` to `xlen` bytes when the rest is worth keeping, and take it. */
    method CarveBlock(b: nat, xlen: nat, ghost i: nat)
      requires Linked() && Tracked() && i < |blocks| && blocks[i].addr == b && !blocks[i].used && xlen <= blocks[i].size
      requires xlen >= FREE_HEADER || blocks[i].size - xlen < MIN_SPLIT
      modifies this`ram, this`free, this`prev, this`next, this`used, this`nfree, this`pfree, this`blocks
      ensures Linked() && Tracked() && blocks == Carve(old(blocks), i, xlen)
      ensures (ram, free as int) == RawTake(old(ram), old(free), end, b, xlen)
    {
      hide Word;
      hide RawSplit;
      hide RawUse;
      hide Linked;
      hide Tracked;
      hide Mirrored;
      hide SplitAt;
      hide Marked;
      AtBlock(i);
      MirroredOf();
      SplitElems(blocks, i, xlen);
      SmallDifference(Next(b), xlen);
      if Next(b) - xlen >= MIN_SPLIT {
        Split(b, xlen, i);
      }
      UseBlock(b, i);
    }

    /** Memory, read word by word, holds the lists. */
    lemma ListsOf()
      requires Linked()
      ensures Lists(ram, base, free, end, blocks)
    {
      hide Follows;
      hide Mirrors;
      hide FreeBlocks;
      hide Lists;
      ListsFromImage(ram, base, free, end, blocks, prev, next, used, nfree, pfree);
    }

    /**
      `alloc(len)`: NULL (0) exactly when no free block holds the request and a used header,
      otherwise the payload of the best fit.  `size_t` addition wraps.  A split that leaves the
      block taken too small for a free header makes the same stores on overlapping headers: the lists
      are then right exactly when `CarvesRight`, and for the first free block when 16 bytes are
      taken; otherwise no blocks fit what they leave.  `intact` and `right` are not results of the
      source: they tell whether every block still has room for a free header, and whether the
      lists are right.
     */
    method Malloc(len: nat) returns (p: nat, intact: bool, right: bool, ghost i: nat)
      requires Valid() && len < U64
      modifies this`ram, this`free, this`prev, this`next, this`used, this`nfree, this`pfree, this`blocks, this`ram0, this`keep
      ensures var xlen := (len + USED_HEADER) % U64;
              && (p == 0 <==> NoneFits(old(blocks), xlen))
              && (p != 0 ==> i < |old(blocks)| && !old(blocks)[i].used)
              && (intact <==> p == 0 || CutsWhole(old(blocks)[i], xlen)) && (right <==> p == 0 || TakesRight(old(blocks), i, xlen))
              && (p == 0 ==> Valid() && ram == old(ram) && free == old(free) && blocks == old(blocks))
              && (p != 0 ==> IsBestFit(old(blocks), i, xlen) && p == old(blocks)[i].Payload())
              && (p != 0 ==> (ram, free as int) == RawTake(old(ram), old(free), end, old(blocks)[i].addr, xlen))
              && (p != 0 && CutsWhole(old(blocks)[i], xlen) ==>
                    && Valid() && blocks == Carve(old(blocks), i, xlen)
                    && PayloadKept(old(blocks), old(ram), ram) && OutsideKept(base, end, old(ram), ram))
              && (p != 0 && !CutsWhole(old(blocks)[i], xlen) ==>
                    && (Threaded(ram, base, free, end, Carve(old(blocks), i, xlen)) <==> CarvesRight(old(blocks), i, xlen))
                    && (CarvesRight(old(blocks), i, xlen) ==>
                          PayloadKept(old(blocks), old(ram), ram) && OutsideKept(base, end, old(ram), ram))
                    && (old(blocks)[i].addr == old(free) ==>
                          && (CarvesRight(old(blocks), i, xlen) <==> xlen >= 16)
                          && (8 <= xlen < 16 ==> !Representable(ram, base, free, end))))
    {
      hide Linked;
      hide Mirrored;
      hide FreeBlocks;
      hide BestSoFar;
      hide IsBestFit;
      hide NoneFits;
      hide Carve;
      hide Coalesced;
      hide PayloadKept;
      hide OutsideKept;
      hide Survives;
      hide Lists;
      hide Representable;
      hide RawTake;
      hide Threaded;
      hide CarvesRight;
      var xlen := (len + USED_HEADER) % U64;
      SurvivesItself(blocks);
      Begin(blocks);
      TilingOf();
      var best: nat;
      ghost var at: int;
      best, at := FindBest(xlen);
      i := 0;
      if best == 0 {
        NoneOfList(blocks, xlen);
        return 0, true, true, 0;
      }
      i := FreeAt(at);
      BestOfList(blocks, xlen, at, i);
      BestIsSome(blocks, i, xlen);
      MirroredOf();
      AtBlock(i);
      p := best + USED_HEADER;
      if xlen < FREE_HEADER && Next(best) - xlen >= MIN_SPLIT {
        right := SmallCarve(best, xlen, i);
        intact := false;
        return;
      }
      intact, right := true, true;
      CarveCoalesced(blocks, base, end, i, xlen);
      CarveBlock(best, xlen, i);
    }

    /** `alloc` of at least 8 bytes: every cut leaves room for headers. */
    method TakeWhole(len: nat) returns (p: nat, ghost i: nat)
      requires Valid() && 8 <= len && len + USED_HEADER < U64
      modifies this`ram, this`free, this`prev, this`next, this`used, this`nfree, this`pfree, this`blocks, this`ram0, this`keep
      ensures Valid() && (p == 0 <==> NoneFits(old(blocks), len + USED_HEADER))
      ensures p == 0 ==> ram == old(ram) && free == old(free) && blocks == old(blocks)
      ensures p != 0 ==> IsBestFit(old(blocks), i, len + USED_HEADER) && p == old(blocks)[i].Payload()
      ensures p != 0 ==> (ram, free as int) == RawTake(old(ram), old(free), end, old(blocks)[i].addr, len + USED_HEADER)
      ensures p != 0 ==> blocks == Carve(old(blocks), i, len + USED_HEADER)
      ensures p != 0 ==> PayloadKept(old(blocks), old(ram), ram) && OutsideKept(base, end, old(ram), ram)
    {
      hide Valid;
      hide Carve;
      hide NoneFits;
      hide PayloadKept;
      hide OutsideKept;
      hide RawTake;
      hide Threaded;
      hide CarvesRight;
      hide Representable;
      SmallDifference(len + USED_HEADER, 0);
      var intact, right: bool;
      p, intact, right, i := Malloc(len);
    }

    /** The stores of `split` and `use_block` for a piece too small for a free header. */
    method SmallCarve(b: nat, xlen: nat, ghost i: nat) returns (right: bool)
      requires Valid() && i < |blocks| && blocks[i].addr == b && !blocks[i].used
      requires xlen < FREE_HEADER && xlen + MIN_SPLIT <= blocks[i].size
      modifies this`ram, this`free
      ensures (ram, free as int) == RawTake(old(ram), old(free), end, b, xlen)
      ensures Threaded(ram, base, free, end, Carve(blocks, i, xlen)) <==> CarvesRight(blocks, i, xlen)
      ensures right <==> CarvesRight(blocks, i, xlen)
      ensures CarvesRight(blocks, i, xlen) ==> PayloadKept(blocks, old(ram), ram) && OutsideKept(base, end, old(ram), ram)
      ensures b == old(free) ==> (CarvesRight(blocks, i, xlen) <==> xlen >= 16)
      ensures b == old(free) && 8 <= xlen < 16 ==> !Representable(ram, base, free, end)
    {
      hide Overlay;
      hide SplitHeads;
      hide Put;
      hide FreeBlocks;
      hide Tiled;
      hide Linked;
      hide Lists;
      hide Threaded;
      hide Representable;
      hide RawSplit;
      hide Word;
      hide Carve;
      hide CarvesRight;
      hide PayloadKept;
      hide OutsideKept;
      ListsOf();
      ArenaOf();
      AroundCut(ram, base, free, end, blocks, i, xlen);
      SizeBelow(blocks[i].size, xlen);
      CarveRead(ram, base, free, end, blocks, i, xlen);
      right := xlen >= 16 && (b == free || Overlay(PrevFree(b), xlen) == PrevFree(b));
      var r := RawCarve(ram, free, end, b, xlen);
      CarveExact(ram, base, free, end, blocks, i, xlen);
      if CarvesRight(blocks, i, xlen) {
        CarveKeeps(ram, base, free, end, blocks, i, xlen);
      }
      if 8 <= xlen < 16 && b == free {
        SmallCarveBroken(ram, base, end, blocks, i, xlen);
      }
      ram, free := r.0, r.1;
    }

    /** The search of `aligned_alloc` along the free list. */
    method FindAligned(xlen: nat, align: nat, ghost e: nat) returns (best: nat, ghost at: int)
      requires Linked() && align == Pow2(e)
      ensures at == AlignedPick(FreeBlocks(blocks), |FreeBlocks(blocks)|, xlen, align)
      ensures best == 0 <==> at < 0
      ensures at >= 0 ==> best == FreeBlocks(blocks)[at].addr
    {
      hide Linked;
      hide FreeBlocks;
      hide Mirrored;
      hide FitsAligned;
      hide Gap;
      MirroredOf();
      TilingOf();
      HeadOf();
      ghost var fs, k := FreeBlocks(blocks), 0;
      var curr := free;
      best, at := 0, -1;
      AtFreeIndex(0, curr);
      while curr != end
        invariant k <= |fs| && curr == AddrOr(fs, k, end) && (curr != end <==> k < |fs|)
        invariant at == AlignedPick(fs, k, xlen, align)
        invariant best == 0 <==> at < 0
        invariant at >= 0 ==> best == fs[at].addr && Next(best) == fs[at].size
        decreases |fs| - k
      {
        AtFreeIndex(k, curr);
        if Next(curr) >= xlen {
          var ca := Misalignment(curr + USED_HEADER, align, e);
          if ca == 0 && (best == 0 || Next(best) > Next(curr)) {
            best, at := curr, k;
          } else if Next(curr) >= align - ca + xlen {
            best, at := curr, k;
          }
        }
        curr := curr + NextFree(curr);
        k := k + 1;
        AtFreeIndex(k, curr);
      }
    }

    /** `get_align(p, align)` for a power of two: how far `p` lies past a multiple of it. */
    static method Misalignment(p: nat, align: nat, ghost e: nat) returns (ca: nat)
      requires align == Pow2(e)
      ensures ca == p % align && ca < align
    {
      AndLowMask(p, e);
      ca := And(p, align - 1);
    }

    /** What `aligned_alloc` cuts off in front of a payload at `b` that is not aligned. */
    static method GapOf(b: nat, align: nat, ghost e: nat) returns (gap: nat)
      requires align == Pow2(e)
      ensures gap == Gap(b, align)
    {
      var ca := Misalignment(b + USED_HEADER, align, e);
      gap := if ca != 0 then align - ca else 0;
    }

    /** Cut a gap off the front of free block `i` and take `xlen` bytes after it. */
    method CarveGap(b: nat, gap: nat, xlen: nat, ghost i: nat) returns (best: nat)
      requires Linked() && Tracked() && i < |blocks| && blocks[i].addr == b && !blocks[i].used
      requires 0 < gap && gap + xlen <= blocks[i].size && CutsLegally(blocks[i], gap, xlen)
      modifies this`ram, this`free, this`prev, this`next, this`used, this`nfree, this`pfree, this`blocks
      ensures Linked() && Tracked() && blocks == CarveAfter(old(blocks), i, gap, xlen) && best == b + gap
      ensures var m := RawSplit(old(ram), end, b, gap);
              best == b + Word(m, b + 4) && (ram, free as int) == RawTake(m, old(free), end, best, xlen)
    {
      hide RawSplit;
      hide RawTake;
      hide Word;
      hide Linked;
      hide Tracked;
      hide Mirrored;
      hide SplitAt;
      hide Carve;
      SplitElems(blocks, i, gap);
      Split(b, gap, i);
      AtBlock(i);
      MirroredOf();
      best := b + Next(b);
      CarveBlock(best, xlen, i + 1);
    }

    /** Cut the gap that the alignment needs off the front of free block `i` and take `xlen` bytes after it. */
    method CarveAligned(b: nat, xlen: nat, align: nat, ghost e: nat, ghost i: nat) returns (best: nat)
      requires Linked() && Tracked() && i < |blocks| && blocks[i].addr == b && !blocks[i].used && align == Pow2(e)
      requires FitsAligned(blocks[i], xlen, align) && CutsLegally(blocks[i], Gap(b, align), xlen)
      modifies this`ram, this`free, this`prev, this`next, this`used, this`nfree, this`pfree, this`blocks
      ensures Linked() && Tracked() && blocks == CarveAfter(old(blocks), i, Gap(b, align), xlen)
      ensures best == b + Gap(b, align)
      ensures (ram, free as int, best as int) == RawAligned(old(ram), old(free), end, b, Gap(b, align), xlen)
    {
      hide RawSplit;
      hide RawTake;
      hide RawAligned;
      hide Word;
      hide Linked;
      hide Tracked;
      hide Tiled;
      hide Carve;
      hide SplitAt;
      hide Gap;
      best := b;
      var gap := GapOf(best, align, e);
      AlignedIs(ram, free, end, b, gap, xlen);
      TilingOf();
      Near(blocks, base, end, i);
      if gap != 0 {
        best := CarveGap(b, gap, xlen, i);
      } else {
        CarveBlock(best, xlen, i);
      }
    }

    /**
      `aligned_alloc(len, align)` for a power of two: NULL exactly when no free block holds an
      aligned payload of the requested size, otherwise an aligned payload of a block of that size.
      When the gap in front or the piece taken is too small for a header, the same stores are made
      on overlapping headers.
     */
    method AlignedAlloc(len: nat, align: nat, ghost e: nat) returns (p: nat, intact: bool, ghost i: nat)
      requires Valid() && align == Pow2(e) && len + USED_HEADER + align <= U64
      modifies this`ram, this`free, this`prev, this`next, this`used, this`nfree, this`pfree, this`blocks, this`ram0, this`keep
      ensures p == 0 <==> NoneFitsAligned(old(blocks), len + USED_HEADER, align)
      ensures p == 0 ==> Valid() && ram == old(ram) && free == old(free) && blocks == old(blocks)
      ensures p != 0 ==> IsAlignedPick(old(blocks), i, len + USED_HEADER, align)
      ensures !intact ==> blocks == old(blocks)
      ensures intact <==> p == 0 || CutsLegally(old(blocks)[i], Gap(old(blocks)[i].addr, align), len + USED_HEADER)
      ensures p != 0 ==> var x := old(blocks)[i].addr;
                         (ram, free as int, p - USED_HEADER) == RawAligned(old(ram), old(free), end, x, Gap(x, align), len + USED_HEADER)
      ensures p != 0 ==> var x, gap := old(blocks)[i], Gap(old(blocks)[i].addr, align);
                         if CutsLegally(x, gap, len + USED_HEADER) then
                           && Valid() && p % align == 0 && p == x.Payload() + gap
                           && blocks == CarveAfter(old(blocks), i, gap, len + USED_HEADER)
                           && PayloadKept(old(blocks), old(ram), ram) && OutsideKept(base, end, old(ram), ram)
                         else
                           CutsOver(ram, free, base, end, old(blocks), i, gap, len + USED_HEADER)
    {
      hide Linked;
      hide Mirrored;
      hide FreeBlocks;
      hide CarveAfter;
      hide Coalesced;
      hide PayloadKept;
      hide OutsideKept;
      hide Survives;
      hide AlignedPick;
      hide IsAlignedPick;
      hide RawAligned;
      hide CutsLegally;
      hide CutsOver;
      var xlen := len + USED_HEADER;
      SurvivesItself(blocks);
      Begin(blocks);
      TilingOf();
      var best: nat;
      ghost var at: int;
      best, at := FindAligned(xlen, align, e);
      i := 0;
      if best == 0 {
        NoneAlignedOfList(blocks, xlen, align);
        return 0, true, 0;
      }
      i := FreeAt(at);
      PickOfList(blocks, i, xlen, align);
      MirroredOf();
      AtBlock(i);
      var gap := GapOf(best, align, e);
      assert gap == Gap(best, align) && blocks[i] == Block(best, Next(best), false);
      intact := CutsLegally(Block(best, Next(best), false), gap, xlen);
      if !intact {
        best := CutOverlapping(best, gap, xlen, i);
        p := best + USED_HEADER;
        return;
      }
      CarveAfterKeeps(blocks, base, end, i, gap, xlen);
      best := CarveAligned(best, xlen, align, e, i);
      p := best + USED_HEADER;
    }

    /** The end of `aligned_alloc` where headers overlap. */
    method CutOverlapping(b: nat, gap: nat, xlen: nat, ghost i: nat) returns (best: nat)
      requires Valid() && i < |blocks| && !blocks[i].used && blocks[i].addr == b
      requires gap + xlen <= blocks[i].size && !CutsLegally(blocks[i], gap, xlen)
      modifies this`ram, this`free
      ensures (ram, free as int, best as int) == RawAligned(old(ram), old(free), end, b, gap, xlen)
      ensures CutsOver(ram, free, base, end, blocks, i, gap, xlen)
    {
      hide Valid;
      hide Threaded;
      hide RawAligned;
      hide Carve;
      hide CarvesRight;
      hide CutsLegally;
      var r := RawAligned(ram, free, end, b, gap, xlen);
      RawBest(ram, free, end, b, gap, xlen);
      AlignedShort(i, gap, xlen);
      ram, free, best := r.0, r.1, r.2;
    }

    /** Without a gap, `aligned_alloc` cuts as `alloc` does. */
    lemma AlignedShort(i: nat, gap: nat, xlen: nat)
      requires Valid() && i < |blocks| && !blocks[i].used && gap + xlen <= blocks[i].size && !CutsLegally(blocks[i], gap, xlen)
      ensures var r := RawAligned(ram, free, end, blocks[i].addr, gap, xlen);
              gap == 0 ==> Cuts(blocks, i, xlen) && (Threaded(r.0, base, r.1, end, Carve(blocks, i, xlen)) <==> CarvesRight(blocks, i, xlen))
    {
      hide Linked;
      hide Lists;
      hide Threaded;
      hide Word;
      hide RawSplit;
      hide RawUse;
      hide Carve;
      hide CarvesRight;
      if gap == 0 {
        ListsOf();
        ArenaOf();
        AroundCut(ram, base, free, end, blocks, i, xlen);
        CarveExact(ram, base, free, end, blocks, i, xlen);
        SizeBelow(blocks[i].size, xlen);
      }
    }

    /** Bytes of live block `i`'s payload change; the header words there are read afresh. */
    method WriteBytes(x: nat, data: seq<byte>, ghost i: nat, ghost b: nat)
      requires InPayload(blocks, i, x, |data|) && AddrAt(blocks, i) == b && Linked()
      modifies this`ram, this`nfree, this`pfree
      ensures Mirrored() && ram == Written(old(ram), x, data)
      ensures nfree == old(nfree)[b := Word(ram, b + NFREE)] && pfree == old(pfree)[b := Word(ram, b + PFREE)]
    {
      hide Follows;
      hide FreeBlocks;
      hide Addrs;
      hide Mirrors;
      hide Spaced;
      hide Bounded;
      hide Word;
      AtBlock(i);
      EndInMemory();
      TilingOf();
      KeysOfLinked();
      WriteMissesHeaders(blocks, base, end, i, x, |data|);
      ghost var m := Written(ram, x, data);
      WriteHeads(ram, prev, next, used, b, x, data);
      WriteMirrors(ram, nfree, NFREE, b, x, data);
      WriteMirrors(ram, pfree, PFREE, b, x, data);
      nfree := nfree[b := Word(m, b + NFREE)];
      pfree := pfree[b := Word(m, b + PFREE)];
      SameKeys(old(nfree), b, Word(m, b + NFREE));
      SameKeys(old(pfree), b, Word(m, b + PFREE));
      ram := ram[..x] + data + ram[x + |data|..];
    }

    lemma KeysOfLinked()
      requires Linked()
      ensures prev.Keys == Addrs(blocks) + {end}
    {
    }

    /** A client (or `memcpy`) writes inside the payload of live block `i`: the lists are unaffected. */
    method WritePayload(x: nat, data: seq<byte>, ghost i: nat)
      requires InPayload(blocks, i, x, |data|) && Valid()
      modifies this`ram, this`nfree, this`pfree
      ensures Valid() && ram == Written(old(ram), x, data)
      ensures PayloadKept(Others(blocks, i), old(ram), ram) && OutsideKept(base, end, old(ram), ram)
    {
      hide Mirrored;
      hide Tiled;
      hide Sizes;
      hide Uses;
      hide Backs;
      hide Forwards;
      hide Backwards;
      hide FreeBlocks;
      hide Addrs;
      hide Word;
      hide PayloadKept;
      hide OutsideKept;
      hide Coalesced;
      hide Written;
      ghost var b := blocks[i].addr;
      AtBlock(i);
      EndInMemory();
      WriteKeepsOthers(blocks, base, end, i, ram, x, data);
      WriteBytes(x, data, i, b);
      KeysAgree();
      ReWord(old(nfree), old(pfree), blocks, base, end, i, Word(ram, b + NFREE), Word(ram, b + PFREE));
    }

    lemma EndInMemory()
      requires Linked()
      ensures end + FREE_HEADER <= |ram|
    {
      hide Tiled;
      hide FreeBlocks;
      hide Word;
      hide Spaced;
    }

    /** The last stores of an in-place `realloc`: used block `i` swallows the used block after it. */
    method SwallowStores(b: nat, n: nat, ghost i: nat)
      requires Linked() && Tracked() && i + 1 < |blocks| && blocks[i].used && blocks[i + 1].used
      requires blocks[i].addr == b && blocks[i + 1].addr == n
      modifies this`ram, this`prev, this`next, this`used, this`nfree, this`pfree, this`blocks
      ensures Linked() && blocks == MergeAt(old(blocks), i)
      ensures PayloadKept(keep, ram0, ram) && OutsideKept(base, end, ram0, ram)
      ensures ram == RawJoin(old(ram), end, b, n)
    {
      hide Put;
      hide Follows;
      hide Mirrored;
      hide FreeBlocks;
      hide AddrOr;
      hide SafeWord;
      hide Survives;
      hide PayloadKept;
      hide OutsideKept;
      hide Word;
      hide Wrap32;
      hide MergeAt;
      AtBlock(i);
      AtBlock(i + 1);
      BlockSafe(i);
      KeysAgree();
      if i + 2 < |blocks| {
        AtBlock(i + 2);
        BlockSafe(i + 2);
      }
      MergeUsedFollows(prev, next, used, nfree, pfree, blocks, base, end, i);
      var nn := n + Next(n);
      if nn != end {
        SetPrev(nn, Prev(nn) + Next(b));
      }
      SetNext(b, Next(b) + Next(n));
      Drop(n);
      blocks := MergeAt(blocks, i);
    }

    /**
      The in-place case of `realloc`: take `nlen` bytes of the free block `n` after used block `i`.
      The lists are correct afterwards if and only if `GrowsRight` says so.
     */
    method GrowInPlace(b: nat, n: nat, nlen: nat, ghost i: nat) returns (intact: bool)
      requires Valid() && i + 1 < |blocks| && blocks[i].addr == b && blocks[i].used
      requires blocks[i + 1].addr == n && !blocks[i + 1].used && nlen <= blocks[i + 1].size
      modifies this`ram, this`free, this`prev, this`next, this`used, this`nfree, this`pfree, this`blocks, this`ram0, this`keep
      ensures intact <==> (Splits(old(blocks), i, nlen) ==> GrowsRight(old(blocks), i, nlen))
      ensures var bs := old(blocks);
              if Splits(bs, i, nlen) ==> GrowsRight(bs, i, nlen) then
                && Valid() && blocks == Grow(bs, i, nlen)
                && PayloadKept(bs, old(ram), ram) && OutsideKept(base, end, old(ram), ram)
              else !Lists(ram, base, free, end, Grow(bs, i, nlen))
      ensures (ram, free as int) == RawExtend(old(ram), old(free), end, b, n, nlen)
    {
      hide Linked;
      hide Mirrored;
      hide Survives;
      hide PayloadKept;
      hide OutsideKept;
      hide Carve;
      hide MergeAt;
      hide Coalesced;
      hide Tiled;
      hide Lists;
      hide RawTake;
      hide RawJoin;
      hide GrowsRight;
      TilingOf();
      AtBlock(i + 1);
      MirroredOf();
      GrowKeeps(blocks, base, end, i, nlen);
      GrowElems(blocks, base, end, i, nlen);
      if nlen < FREE_HEADER && Next(n) - nlen >= MIN_SPLIT {
        intact := SmallGrow(b, n, nlen, i);
        return;
      }
      intact := true;
      WideGrows(blocks, i, nlen);
      SurvivesItself(blocks);
      Begin(blocks);
      CarveBlock(n, nlen, i + 1);
      SwallowStores(b, n, i);
    }

    /** The stores of an in-place `realloc` whose split makes headers overlap. */
    method SmallGrow(b: nat, n: nat, nlen: nat, ghost i: nat) returns (intact: bool)
      requires Linked() && Splits(blocks, i, nlen) && nlen < FREE_HEADER && blocks[i].addr == b && blocks[i + 1].addr == n
      modifies this`ram, this`free, this`prev, this`next, this`used, this`nfree, this`pfree, this`blocks
      ensures intact <==> GrowsRight(old(blocks), i, nlen)
      ensures (ram, free as int) == RawExtend(old(ram), old(free), end, b, n, nlen)
      ensures var bs := old(blocks);
              if GrowsRight(bs, i, nlen) then
                Linked() && blocks == Grow(bs, i, nlen) && PayloadKept(bs, old(ram), ram) && OutsideKept(base, end, old(ram), ram)
              else !Lists(ram, base, free, end, Grow(bs, i, nlen))
    {
      hide Linked;
      hide Lists;
      hide RawExtend;
      hide RawGrow;
      hide GrowsRight;
      hide PayloadKept;
      hide OutsideKept;
      hide Grow;
      hide Shifted;
      ListsOf();
      ArenaOf();
      GrowIsShifted(blocks, i, nlen);
      ExtendIs(ram, base, free, end, blocks, i, nlen);
      var r := RawGrow(ram, free, end, b, n, nlen);
      ghost var m, f, was, bs := ram, free, blocks, Grow(blocks, i, nlen);
      FreeForward(m, f, end, b, n, nlen);
      GrowthRead(m, base, f, end, was, i, nlen);
      intact := nlen >= 16 && (n == free || Overlay(PrevFree(n), nlen) == PrevFree(n));
      ram, free := r.0, r.1;
      if GrowsRight(was, i, nlen) {
        GrowthWorks(m, base, f, end, was, i, nlen);
        GrowthKeeps(m, base, f, end, was, i, nlen);
        blocks := bs;
        Reread();
      } else {
        GrowthBroken(m, base, f, end, was, i, nlen);
      }
    }

    lemma ArenaOf()
      requires Linked()
      ensures 0 < base && end - base + FREE_HEADER <= U32
    {
    }

    /** The ghost fields, read off memory that holds the lists. */
    ghost method Reread()
      requires Lists(ram, base, free, end, blocks) && 0 < base && end - base + FREE_HEADER <= U32
      modifies this`prev, this`next, this`used, this`nfree, this`pfree
      ensures Linked()
    {
      hide Lists;
      hide Follows;
      hide Mirrors;
      hide FreeBlocks;
      hide Spaced;
      hide Bounded;
      hide Addrs;
      hide Read;
      var keys := Addrs(blocks) + {end as int};
      prev, next, used := Read(ram, keys, PREV), Read(ram, keys, NEXT), Read(ram, keys, USED);
      nfree, pfree := Read(ram, keys, NFREE), Read(ram, keys, PFREE);
      ImageFromLists(ram, base, free, end, blocks);
      TilingIs(ram, base, free, end, blocks);
      TiledKeys(blocks, base, end);
      ReadKeys(ram, keys);
    }

    /** The first half of a moving `realloc`: allocate and copy the old payload. */
    method TakeAndCopy(p: nat, size: nat, blen: nat, ghost i: nat) returns (np: nat, ghost j: nat, ghost m1: seq<byte>)
      requires Valid() && i < |blocks| && blocks[i].used && blocks[i].Payload() == p && blocks[i].size == blen + USED_HEADER
      requires blen <= size && size + USED_HEADER < U64
      modifies this`ram, this`free, this`prev, this`next, this`used, this`nfree, this`pfree, this`blocks, this`ram0, this`keep
      ensures Valid() && (np == 0 <==> NoneFits(old(blocks), size + USED_HEADER))
      ensures np == 0 ==> ram == old(ram) && free == old(free) && blocks == old(blocks)
      ensures np != 0 ==> MovesTo(old(blocks), i, j, size + USED_HEADER) && PayloadOf(old(blocks), j, np)
      ensures np != 0 ==> (ram, free as int) == RawCopy(old(ram), old(free), end, p - USED_HEADER, np - USED_HEADER, size + USED_HEADER, blen)
      ensures np != 0 ==> var bs, n := old(blocks), size + USED_HEADER;
                          && j < |bs| && !bs[j].used && n <= bs[j].size && blocks == Carve(bs, j, n) && j < |blocks|
                          && SameBytes(old(ram), p, ram, np, blen) && np + blen <= |ram|
                          && PayloadKept(bs, old(ram), m1) && OutsideKept(base, end, old(ram), m1)
                          && PayloadKept(Marked(blocks, j, false), m1, ram) && OutsideKept(base, end, m1, ram)
    {
      hide Written;
      hide SameBytes;
      hide RawTake;
      hide RawCopy;
      hide Linked;
      hide Coalesced;
      hide IsBestFit;
      hide NoneFits;
      hide Carve;
      hide PayloadKept;
      hide OutsideKept;
      hide MovesTo;
      hide MoveLayout;
      ghost var bs, m0, f0, n := blocks, ram, free, size + USED_HEADER;
      AtBlock(i);
      EndInMemory();
      m1 := ram;
      assert bs[i].End() <= |m0|;
      np, j := TakeWhole(size);
      if np == 0 {
        return;
      }
      m1 := ram;
      assert MovesTo(bs, i, j, n) by { MovesToIs(bs, i, j, n); }
      MoveUnfolds(pfreeNull, bs, i, j, n);
      CarveMoves(bs, i, j, n);
      AtBlock(j);
      EndInMemory();
      SameLength(bs, m0, m1);
      CopyIs(m0, f0, end, p - USED_HEADER, np - USED_HEADER, n, blen);
      WritePayload(np, ram[p..p + blen], j);
      CopySame(bs, i, m0, m1, ram, np, blen);
    }

    /** The moving case of `realloc`: allocate, copy the old payload, free the old block. */
    method Move(p: nat, size: nat, blen: nat, ghost i: nat) returns (np: nat, intact: bool, ghost j: nat)
      requires Valid() && i < |blocks| && blocks[i].used && blocks[i].Payload() == p && blocks[i].size == blen + USED_HEADER
      requires blen <= size && size + USED_HEADER < U64
      modifies this`ram, this`free, this`prev, this`next, this`used, this`nfree, this`pfree, this`blocks, this`ram0, this`keep
      ensures np == 0 <==> NoneFits(old(blocks), size + USED_HEADER)
      ensures np == 0 ==> Valid() && ram == old(ram) && free == old(free) && blocks == old(blocks)
      ensures np != 0 ==> MovesTo(old(blocks), i, j, size + USED_HEADER) && PayloadOf(old(blocks), j, np)
      ensures intact <==> np == 0 || MoveSound(pfreeNull, old(blocks), i, j, size + USED_HEADER)
      ensures np != 0 ==> (ram, free as int) == RawMove(old(ram), old(free), end, p - USED_HEADER, np - USED_HEADER, size + USED_HEADER, blen, pfreeNull)
      ensures np != 0 && MoveSound(pfreeNull, old(blocks), i, j, size + USED_HEADER) ==>
                && Valid() && blocks == MoveLayout(old(blocks), i, j, size + USED_HEADER)
                && SameBytes(old(ram), p, ram, np, blen)
                && PayloadKept(Marked(old(blocks), i, false), old(ram), ram) && OutsideKept(base, end, old(ram), ram)
      ensures np != 0 && !MoveSound(pfreeNull, old(blocks), i, j, size + USED_HEADER) ==> !Representable(ram, base, free, end)
    {
      hide RawCopy;
      hide RawFree;
      hide Linked;
      hide Coalesced;
      hide IsBestFit;
      hide NoneFits;
      hide Carve;
      hide PayloadKept;
      hide OutsideKept;
      hide Representable;
      hide Release;
      hide FreeSound;
      hide MovesTo;
      hide MoveSound;
      hide MoveLayout;
      ghost var bs, m0, n, m1 := blocks, ram, size + USED_HEADER, ram;
      np, j, m1 := TakeAndCopy(p, size, blen, i);
      intact := true;
      if np == 0 {
        return;
      }
      MoveUnfolds(pfreeNull, bs, i, j, n);
      CarveMoves(bs, i, j, n);
      ghost var t := IndexAfterCarve(bs, i, j, n);
      ghost var m2 := ram;
      ReleaseCoalesced(blocks, t);
      intact := FreeBlock(p - USED_HEADER, t);
      if FreeSound(pfreeNull, Carve(bs, j, n), t) {
        MoveKeepsPayloads(bs, i, j, n, m0, m1, m2, ram);
        MoveKeepsCopy(bs, i, j, n, m2, ram, np, blen);
        OutsideTrans(base, end, m0, m1, m2, ram);
      }
    }

    /**
      `realloc(p, size)` growing the payload at `p`, or keeping its size.  The old payload survives
      both in place and when moved.  In place the lists are correct afterwards exactly when
      `GrowsFine` holds; a move frees the old block, so it is sound when that `free` is.
     */
    method Realloc(p: nat, size: nat, ghost i: nat) returns (q: nat, panic: bool, intact: bool, ghost j: nat)
      requires Valid() && size + USED_HEADER < U64
      requires base < p < end ==> PayloadOf(blocks, i, p)
      requires base < p < end && LiveAt(blocks, i) ==> PayloadSize(blocks, i) <= size
      modifies this`ram, this`free, this`prev, this`next, this`used, this`nfree, this`pfree, this`blocks, this`ram0, this`keep
      ensures panic <==> !(base < p < end && LiveAt(old(blocks), i))
      ensures panic ==> q == 0 && Valid() && ram == old(ram) && free == old(free) && blocks == old(blocks)
      ensures intact <==> panic || if InPlace(old(blocks), i, size) then GrowsFine(old(blocks), i, size)
                                   else q == 0 || MoveSound(pfreeNull, old(blocks), i, j, size + USED_HEADER)
      ensures !panic && InPlace(old(blocks), i, size) ==> q == p
      ensures !panic && InPlace(old(blocks), i, size) ==>
                (ram, free as int) == RawExtend(old(ram), old(free), end, p - USED_HEADER, old(blocks)[i + 1].addr, size - PayloadSize(old(blocks), i))
      ensures !panic && !InPlace(old(blocks), i, size) && q != 0 ==>
                (ram, free as int) == RawMove(old(ram), old(free), end, p - USED_HEADER, q - USED_HEADER, size + USED_HEADER, PayloadSize(old(blocks), i), pfreeNull)
      ensures !panic && InPlace(old(blocks), i, size) && GrowsFine(old(blocks), i, size) ==>
                && Valid() && blocks == GrowLayout(old(blocks), i, size)
                && PayloadKept(old(blocks), old(ram), ram) && OutsideKept(base, end, old(ram), ram)
      ensures !panic && InPlace(old(blocks), i, size) && !GrowsFine(old(blocks), i, size) ==>
                !Lists(ram, base, free, end, GrowLayout(old(blocks), i, size))
      ensures !panic && !InPlace(old(blocks), i, size) ==> (q == 0 <==> NoneFits(old(blocks), size + USED_HEADER))
      ensures !panic && !InPlace(old(blocks), i, size) && q == 0 ==> Valid() && ram == old(ram) && free == old(free) && blocks == old(blocks)
      ensures !panic && !InPlace(old(blocks), i, size) && q != 0 ==>
                MovesTo(old(blocks), i, j, size + USED_HEADER) && PayloadOf(old(blocks), j, q)
      ensures !panic && !InPlace(old(blocks), i, size) && q != 0 && MoveSound(pfreeNull, old(blocks), i, j, size + USED_HEADER) ==>
                && Valid() && blocks == MoveLayout(old(blocks), i, j, size + USED_HEADER)
                && SameBytes(old(ram), p, ram, q, PayloadSize(old(blocks), i))
                && PayloadKept(Marked(old(blocks), i, false), old(ram), ram) && OutsideKept(base, end, old(ram), ram)
      ensures !panic && !InPlace(old(blocks), i, size) && q != 0 && !MoveSound(pfreeNull, old(blocks), i, j, size + USED_HEADER) ==>
                !Representable(ram, base, free, end)
    {
      hide RawMove;
      hide RawExtend;
      hide Linked;
      hide Mirrored;
      hide Word;
      hide Coalesced;
      hide GrowsRight;
      hide Splits;
      hide Lists;
      hide IsBestFit;
      hide NoneFits;
      hide Carve;
      hide Grow;
      hide PayloadKept;
      hide OutsideKept;
      hide Representable;
      hide Release;
      hide FreeSound;
      hide MovesTo;
      hide MoveSound;
      hide MoveLayout;
      q, panic, intact, j := 0, true, true, 0;
      if !(p < end) {
        return;
      }
      if !(p > base) {
        return;
      }
      var b := p - USED_HEADER;
      AtBlock(i);
      MirroredOf();
      if Used(b) != 1 {
        return;
      }
      panic := false;
      var blen := Next(b) - USED_HEADER;
      var n := b + Next(b);
      if i + 1 < |blocks| {
        AtBlock(i + 1);
      }
      if n == end || Used(n) != 0 || blen + Next(n) < size {
        q, intact, j := Move(p, size, blen, i);
        return;
      }
      intact := GrowInPlace(b, n, size - blen, i);
      q := p;
    }

    /** `alloc_init`: the whole arena is one free block. */
    constructor (memory: seq<byte>, start: nat, size: nat, nullOnZero: bool)
      requires 0 < start && FREE_HEADER <= size && size + FREE_HEADER <= U32 && start + size + FREE_HEADER <= |memory|
      ensures Valid() && base == start && end == start + size && pfreeNull == nullOnZero
      ensures blocks == [Block(start, size, false)]
      ensures OutsideKept(base, end, memory, ram)
      ensures ram == RawInit(memory, start, size) && free == start
    {
      hide RawInit;
      hide Word;
      hide Wrap32;
      hide PayloadKept;
      hide OutsideKept;
      hide SafeWord;
      hide Survives;
      hide Mirrors;
      hide Spaced;
      hide Bounded;
      hide FreshField;
      hide Follows;
      hide FreeBlocks;
      pfreeNull := nullOnZero;
      ram := memory;
      base, free, end := start, start, start + size;
      blocks := [Block(start, size, false)];
      prev := FreshField(memory, start, start + size, PREV);
      next := FreshField(memory, start, start + size, NEXT);
      used := FreshField(memory, start, start + size, USED);
      nfree := FreshField(memory, start, start + size, NFREE);
      pfree := FreshField(memory, start, start + size, PFREE);
      ram0, keep := memory, [];
      new;
      FreshKeys(base, end);
      FreshMirrors(ram, base, end, PREV);
      FreshMirrors(ram, base, end, NEXT);
      FreshMirrors(ram, base, end, USED);
      FreshMirrors(ram, base, end, NFREE);
      FreshMirrors(ram, base, end, PFREE);
      NothingTouched([], base, end, ram);
      NothingSurvives(blocks);
      InitArena(size);
    }

    /** The header of the first block, in an arena whose headers are known. */
    method InitArena(size: nat)
      requires Mirrored() && Tracked() && keep == [] && prev.Keys == {base as int, end as int}
      requires 0 < base && end == base + size && FREE_HEADER <= size && size + FREE_HEADER <= U32
      requires free == base && blocks == [Block(base, size, false)]
      modifies this`ram, this`prev, this`next, this`used, this`nfree, this`pfree
      ensures Valid() && OutsideKept(base, end, ram0, ram)
      ensures ram == RawInit(old(ram), base, size)
    {
      hide RawInit;
      hide Mirrored;
      hide Follows;
      hide FreeBlocks;
      hide PayloadKept;
      hide OutsideKept;
      hide Survives;
      KeysAgree();
      InitHeader(base, size);
      KeysAgree();
      SingleFollows(prev, next, used, nfree, pfree, base, end);
    }

    method InitHeader(b: nat, size: nat)
      requires Mirrored() && Tracked() && b in prev && b != end && size < U32 && keep == []
      modifies this`ram, this`prev, this`next, this`used, this`nfree, this`pfree
      ensures Mirrored() && Tracked()
      ensures prev == old(prev)[b := 0] && next == old(next)[b := size] && used == old(used)[b := 0]
      ensures nfree == old(nfree)[b := size] && pfree == old(pfree)[b := 0]
      ensures ram == RawInit(old(ram), b, size)
    {
      hide Put;
      hide Mirrored;
      hide Tracked;
      hide SafeWord;
      hide Wrap32;
      hide Survives;
      NothingSurvives(blocks);
      SetPrev(b, 0);
      SetNext(b, size);
      SetUsed(b, 0);
      SetNextFree(b, size);
      SetPrevFree(b, 0);
    }
  }
}
