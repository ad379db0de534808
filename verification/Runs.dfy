/**
  Sequences of allocator calls: `alloc` then `free`, freeing everything, and any run of `alloc`,
  `aligned_alloc`, `free` and `realloc` over the pointers the run holds.  Each says exactly at which
  call the lists in memory stop being right, in the shipped form and with `pfree` returning NULL on 0.
 */
module Runs {
  import opened Ram
  import opened Blocks
  import opened Links
  import opened Layout
  import opened Soundness
  import opened Raw
  import opened Growth
  import opened Short
  import opened FreeStores
  import opened ShortFree
  import opened Alloc
  import opened Bits
  import opened Words

  lemma SoundAnyway(bs: seq<Block>, i: nat)
    requires i < |bs|
    ensures FreeSound(true, bs, i) && forall f :: FreeSound(f, bs, i) <==> f || FreeSound(false, bs, i)
  {
  }

  lemma ValidLegal(a: Allocator)
    requires a.Valid()
    ensures Legal(a.blocks, a.base, a.end) && 0 < a.base <= a.end && a.end - a.base + FREE_HEADER <= U32
  {
    hide Allocator.Linked;
    hide Tiled;
    a.TilingOf();
    a.ArenaOf();
    TiledEnds(a.blocks, a.base, a.end);
  }

  lemma TiledEnds(bs: seq<Block>, base: nat, end: nat)
    requires Tiled(bs, base, end)
    ensures base <= end
  {
    Near(bs, base, end, 0);
  }

  /** The payload of a block lies strictly inside the arena. */
  lemma ValidSpan(a: Allocator, i: nat)
    requires a.Valid() && i < |a.blocks|
    ensures a.base < a.blocks[i].Payload() < a.end
  {
    hide Allocator.Linked;
    hide Tiled;
    a.TilingOf();
    Near(a.blocks, a.base, a.end, i);
  }

  lemma ValidHeader(a: Allocator, i: nat)
    requires a.Valid() && i < |a.blocks|
    ensures a.Next(a.blocks[i].addr) == a.blocks[i].size
  {
    hide Allocator.Linked;
    hide Allocator.Mirrored;
    a.MirroredOf();
    a.AtBlock(i);
  }

  lemma ValidLists(a: Allocator)
    requires a.Valid()
    ensures Lists(a.ram, a.base, a.free, a.end, a.blocks) && a.end + FREE_HEADER <= |a.ram|
  {
    hide Allocator.Linked;
    hide Lists;
    a.ListsOf();
    a.EndInMemory();
  }

  // ---------------------------------------------------------- alloc, then free

  /** Freeing what `alloc` hands out keeps the lists: with NULL on 0, with a free block below, or with none left above. */
  ghost predicate Undone(pfreeNull: bool, bs: seq<Block>, i: nat, n: nat)
    requires i < |bs|
  {
    pfreeNull || FreeBelow(bs, i) || (bs[i].size - n < MIN_SPLIT && !FreeAbove(bs, i))
  }

  /** What `alloc(len)` adds to the request; `size_t` addition wraps. */
  function WithHeader(len: nat): nat {
    (len + USED_HEADER) % U64
  }

  /**
    `free(alloc(len))`, where the lists are right after the `alloc`: the arena is exactly as before, or
    no blocks fit the memory any more.
   */
  method AllocFree(a: Allocator, len: nat) returns (p: nat, right: bool, ghost sound: bool, ghost i: nat)
    requires a.Valid() && len < U64
    modifies a`ram, a`free, a`prev, a`next, a`used, a`nfree, a`pfree, a`blocks, a`ram0, a`keep
    ensures p == 0 <==> NoneFits(old(a.blocks), WithHeader(len))
    ensures p != 0 ==> IsBestFit(old(a.blocks), i, WithHeader(len))
    ensures right <==> p == 0 || TakesRight(old(a.blocks), i, WithHeader(len))
    ensures sound <==> p == 0 || Undone(a.pfreeNull, old(a.blocks), i, WithHeader(len))
    ensures p != 0 && right ==>
              var t := RawTake(old(a.ram), old(a.free), a.end, old(a.blocks)[i].addr, WithHeader(len));
              (a.ram, a.free as int) == RawFree(t.0, t.1, a.end, old(a.blocks)[i].addr, a.pfreeNull)
    ensures right && sound ==> a.Valid() && a.blocks == old(a.blocks)
    ensures right && !sound ==> !Representable(a.ram, a.base, a.free, a.end)
  {
    hide Allocator.Valid;
    hide Representable;
    hide PayloadKept;
    hide OutsideKept;
    hide NoneFits;
    hide IsBestFit;
    hide Carve;
    hide Release;
    hide FreeSound;
    hide Threaded;
    hide CarvesRight;
    hide RawTake;
    hide RawFree;
    hide Legal;
    ghost var bs, n := a.blocks, WithHeader(len);
    ValidLegal(a);
    LegalCoalesced(bs, a.base, a.end);
    ValidLists(a);
    var intact: bool;
    p, intact, right, i := a.Malloc(len);
    sound := true;
    if p == 0 {
      return;
    }
    BestIsSome(bs, i, n);
    sound := Undone(a.pfreeNull, bs, i, n);
    if !right {
      return;
    }
    if intact {
      CarveElems(bs, i, n);
      ReleaseUndoesCarve(bs, i, n);
      SoundAnyway(a.blocks, i);
      AllocThenFree(bs, i, n);
      ValidSpan(a, i);
      var panic, kept := a.Free(p, i);
    } else {
      RightIsLong(bs, i, n);
      SameLength(bs, old(a.ram), a.ram);
      FreeCut(a, p, bs, i, n);
    }
  }

  /** `free` of a short block that `alloc` just cut off. */
  method FreeCut(a: Allocator, p: nat, ghost bs: seq<Block>, ghost i: nat, ghost n: nat)
    requires Legal(bs, a.base, a.end) && Cuts(bs, i, n) && 16 <= n && p == bs[i].Payload()
    requires Threaded(a.ram, a.base, a.free, a.end, Carve(bs, i, n))
    requires 0 < a.base && a.end + FREE_HEADER <= |a.ram| && a.end - a.base + FREE_HEADER <= U32
    modifies a`ram, a`free, a`prev, a`next, a`used, a`nfree, a`pfree, a`blocks
    ensures (a.ram, a.free as int) == RawFree(old(a.ram), old(a.free), a.end, bs[i].addr, a.pfreeNull)
    ensures if a.pfreeNull || FreeBelow(bs, i) then a.Valid() && a.blocks == bs else !Representable(a.ram, a.base, a.free, a.end)
  {
    hide Allocator.Linked;
    hide Threaded;
    hide Snug;
    hide Carve;
    hide Release;
    hide RawFree;
    hide Representable;
    hide PayloadKept;
    hide OutsideKept;
    hide FreeSound;
    hide FreesRight;
    hide Tiled;
    hide Lists;
    ghost var c := Carve(bs, i, n);
    LegalTiled(bs, a.base, a.end);
    CarvedSnug(bs, a.base, a.end, i, n);
    CarvedShape(bs, i, n);
    ShortUndone(a.ram, a.base, a.free, a.end, bs, i, n, a.pfreeNull);
    var panic := a.FreeShort(p, c, i);
    if a.pfreeNull || FreeBelow(bs, i) {
      a.blocks := bs;
      ThreadedLists(a.ram, a.base, a.free, a.end, bs);
      a.Reread();
    }
  }

  lemma ThreadedLists(m: seq<byte>, base: nat, free: int, end: nat, bs: seq<Block>)
    requires Threaded(m, base, free, end, bs) && Tiled(bs, base, end) && end + FREE_HEADER <= |m|
    ensures Lists(m, base, free, end, bs)
  {
  }

  lemma LegalCoalesced(bs: seq<Block>, base: nat, end: nat)
    requires Legal(bs, base, end)
    ensures Coalesced(bs)
  {
  }

  /** The same for `free(aligned_alloc(len, align))`; a gap left free in front makes it sound. */
  method AlignedAllocFree(a: Allocator, len: nat, align: nat, ghost e: nat) returns (p: nat, intact: bool, sound: bool, ghost i: nat)
    requires a.Valid() && align == Pow2(e) && len + USED_HEADER + align <= U64
    modifies a`ram, a`free, a`prev, a`next, a`used, a`nfree, a`pfree, a`blocks, a`ram0, a`keep
    ensures p == 0 <==> NoneFitsAligned(old(a.blocks), len + USED_HEADER, align)
    ensures p != 0 ==> IsAlignedPick(old(a.blocks), i, len + USED_HEADER, align)
    ensures intact <==> p == 0 || CutsLegally(old(a.blocks)[i], Gap(old(a.blocks)[i].addr, align), len + USED_HEADER)
    ensures intact ==>
              (sound <==> p == 0 || Gap(old(a.blocks)[i].addr, align) > 0 || Undone(a.pfreeNull, old(a.blocks), i, len + USED_HEADER))
    ensures p != 0 && intact ==>
              var x := old(a.blocks)[i].addr;
              var t := RawAligned(old(a.ram), old(a.free), a.end, x, Gap(x, align), len + USED_HEADER);
              (a.ram, a.free as int) == RawFree(t.0, t.1, a.end, t.2, a.pfreeNull)
    ensures intact && sound ==> a.Valid() && a.blocks == old(a.blocks)
    ensures intact && !sound ==> !Representable(a.ram, a.base, a.free, a.end)
  {
    hide Allocator.Valid;
    hide Representable;
    hide PayloadKept;
    hide OutsideKept;
    hide NoneFitsAligned;
    hide CarveAfter;
    hide CutsLegally;
    hide CutsOver;
    hide Release;
    hide FreeSound;
    hide RawAligned;
    hide RawFree;
    hide AlignedPick;
    ghost var bs := a.blocks;
    ValidLegal(a);
    p, intact, i := a.AlignedAlloc(len, align, e);
    sound := intact;
    if p == 0 || !intact {
      return;
    }
    ghost var n, gap := len + USED_HEADER, Gap(bs[i].addr, align);
    ghost var t := if gap == 0 then i else i + 1;
    CarveAfterLive(bs, i, gap, n);
    ReleaseUndoesCarveAfter(bs, i, gap, n);
    SoundAnyway(a.blocks, t);
    AlignedThenFree(bs, i, gap, n);
    ValidSpan(a, t);
    var panic: bool;
    panic, sound := a.Free(p, t);
  }

  // ------------------------------------------------------------- fresh arenas

  /** `alloc_init` leaves both lists of a single free block. */
  lemma FreshLists(memory: seq<byte>, start: nat, size: nat)
    requires FREE_HEADER <= size < U32 && start + size + FREE_HEADER <= |memory|
    ensures Lists(RawInit(memory, start, size), start, start, start + size, [Block(start, size, false)])
  {
    hide Word;
    hide Put;
    hide Wrap32;
    var b, bs := start, [Block(start, size, false)];
    var m1 := Put(memory, b, 0);
    var m2 := Put(m1, b + 4, size);
    var m3 := Put(m2, b + 8, 0);
    var m4 := Put(m3, b + 12, size);
    var m := Put(m4, b + 16, 0);
    SmallWrap(0);
    SmallWrap(size);
    PutReads(memory, b, 0);
    PutApart(m1, b + 4, size, b);
    PutApart(m2, b + 8, 0, b);
    PutApart(m3, b + 12, size, b);
    PutApart(m4, b + 16, 0, b);
    PutReads(m1, b + 4, size);
    PutApart(m2, b + 8, 0, b + 4);
    PutApart(m3, b + 12, size, b + 4);
    PutApart(m4, b + 16, 0, b + 4);
    PutReads(m2, b + 8, 0);
    PutApart(m3, b + 12, size, b + 8);
    PutApart(m4, b + 16, 0, b + 8);
    PutReads(m3, b + 12, size);
    PutApart(m4, b + 16, 0, b + 12);
    PutReads(m4, b + 16, 0);
    assert FreeBlocks(bs) == bs;
  }

  /**
    In a fresh arena, `alloc` of fewer than 8 bytes that splits: with 4 bytes or more the lists are
    right, with a used block too short for a free header; with fewer, no blocks fit the memory.
   */
  lemma FreshShort(memory: seq<byte>, start: nat, size: nat, len: nat)
    requires size + FREE_HEADER <= U32 && start + size + FREE_HEADER <= |memory|
    requires len < 8 && len + USED_HEADER + MIN_SPLIT <= size
    ensures var n := len + USED_HEADER;
            var t := RawTake(RawInit(memory, start, size), start, start + size, start, n);
            if len >= 4
            then Threaded(t.0, start, t.1, start + size, [Block(start, n, true), Block(start + n, size - n, false)])
            else !Representable(t.0, start, t.1, start + size)
  {
    hide Lists;
    hide Threaded;
    hide Representable;
    hide RawInit;
    hide RawCarve;
    hide Word;
    hide Carve;
    var bs, m, n := [Block(start, size, false)], RawInit(memory, start, size), len + USED_HEADER;
    FreshLists(memory, start, size);
    AroundCut(m, start, start, start + size, bs, 0, n);
    SizeBelow(size, n);
    assert Coalesced(bs) && Cuts(bs, 0, n);
    CarveExact(m, start, start, start + size, bs, 0, n);
    CarvedShape(bs, 0, n);
    assert Carve(bs, 0, n) == [Block(start, n, true), Block(start + n, size - n, false)];
    if len < 4 {
      SmallCarveBroken(m, start, start + size, bs, 0, n);
    }
  }

  /** And after the `free` of such a block: the fresh arena with NULL on 0, memory that fits no blocks in the shipped form. */
  lemma FreshShortFreed(memory: seq<byte>, start: nat, size: nat, len: nat, pfreeNull: bool)
    requires 0 < start && size + FREE_HEADER <= U32 && start + size + FREE_HEADER <= |memory|
    requires 4 <= len < 8 && len + USED_HEADER + MIN_SPLIT <= size
    ensures var t := RawTake(RawInit(memory, start, size), start, start + size, start, len + USED_HEADER);
            var r := RawFree(t.0, t.1, start + size, start, pfreeNull);
            if pfreeNull then Threaded(r.0, start, r.1, start + size, [Block(start, size, false)])
            else !Representable(r.0, start, r.1, start + size)
  {
    hide Threaded;
    hide Representable;
    hide RawInit;
    hide RawTake;
    hide RawFree;
    hide Carve;
    hide PayloadKept;
    hide OutsideKept;
    var bs, n := [Block(start, size, false)], len + USED_HEADER;
    var t := RawTake(RawInit(memory, start, size), start, start + size, start, n);
    FreshShort(memory, start, size, len);
    assert Legal(bs, start, start + size) && Cuts(bs, 0, n);
    CarvedShape(bs, 0, n);
    assert Carve(bs, 0, n) == [Block(start, n, true), Block(start + n, size - n, false)];
    ShortUndone(t.0, start, t.1, start + size, bs, 0, n, pfreeNull);
  }

  /** In a fresh arena, `aligned_alloc` that leaves a gap of 4 bytes leaves memory that fits no blocks. */
  lemma FreshGapOfFour(memory: seq<byte>, start: nat, size: nat, len: nat)
    requires 64 <= size && size + FREE_HEADER <= U32 && start + size + FREE_HEADER <= |memory|
    requires 8 <= len && 4 + len + USED_HEADER <= size
    ensures var t := RawAligned(RawInit(memory, start, size), start, start + size, start, 4, len + USED_HEADER);
            t.2 == start + 4 && !Representable(t.0, start, t.1, start + size)
  {
    hide Lists;
    hide Representable;
    hide RawInit;
    hide RawAligned;
    hide Word;
    var m := RawInit(memory, start, size);
    FreshLists(memory, start, size);
    GapFourBroken(m, start, start + size, len + USED_HEADER, RawAligned(m, start, start + size, start, 4, len + USED_HEADER).1);
    FreshGapStart(m, start, start + size, len + USED_HEADER);
  }

  lemma FreshGapStart(m: seq<byte>, base: nat, end: nat, xlen: nat)
    requires base + 64 <= end && FREE_HEADER <= xlen < U32 && Lists(m, base, base, end, [Block(base, end - base, false)])
    ensures RawAligned(m, base, end, base, 4, xlen).2 == base + 4
  {
    hide Word;
    hide RawAligned;
    var bs := [Block(base, end - base, false)];
    assert FreeBlocks(bs) == bs;
    assert HeaderAt(m, bs, 0) && LinksAt(m, FreeBlocks(bs), end, 0);
    GapOfFour(m, base, end, xlen);
  }

  // ---------------------------------------------------------------- free all

  /**
    `free` of every live block in a given order, `ps` being their payloads.  With NULL on 0 the arena
    is one free block afterwards; in the shipped form exactly when `FreeAllSound` says so, and at the
    first unsound `free` no blocks fit the memory any more.
   */
  method FreeAll(a: Allocator, ps: seq<nat>, ghost order: seq<Block>) returns (n: nat, ok: bool)
    requires a.Valid() && FreesAll(a.blocks, order) && |ps| == |order| && forall i :: 0 <= i < |ps| ==> ps[i] == order[i].Payload()
    modifies a`ram, a`free, a`prev, a`next, a`used, a`nfree, a`pfree, a`blocks, a`ram0, a`keep
    ensures ok <==> a.pfreeNull || AllSound(old(a.blocks), order)
    ensures ok ==> n == |ps| && a.Valid() && a.blocks == [Block(a.base, a.end - a.base, false)]
    ensures !ok ==> n < |ps| && !Representable(a.ram, a.base, a.free, a.end)
  {
    hide Allocator.Valid;
    hide Representable;
    hide PayloadKept;
    hide OutsideKept;
    hide Release;
    hide FreeSound;
    hide FreesAll;
    hide Legal;
    hide RawFree;
    n, ok := 0, true;
    while n < |ps|
      invariant n <= |ps| && a.Valid() && FreesAll(a.blocks, order[n..])
      invariant a.pfreeNull || (AllSound(old(a.blocks), order) <==> AllSound(a.blocks, order[n..]))
    {
      ghost var rest := order[n..];
      ValidLegal(a);
      OneFreed(a.blocks, a.base, a.end, rest);
      ghost var i := IndexOf(a.blocks, rest[0]);
      SoundAnyway(a.blocks, i);
      ValidSpan(a, i);
      assert order[n + 1..] == rest[1..];
      var panic: bool;
      panic, ok := a.Free(ps[n], i);
      if !ok {
        return;
      }
      n := n + 1;
    }
    ValidLegal(a);
    assert order[n..] == [];
    NoneLeft(a.blocks, a.base, a.end);
  }

  lemma NoneLeft(bs: seq<Block>, base: nat, end: nat)
    requires Legal(bs, base, end) && FreesAll(bs, []) && base <= end
    ensures bs == [Block(base, end - base, false)] && AllSound(bs, [])
  {
    assert Live(bs) == {};
    AllFree(bs, base, end);
  }
}
