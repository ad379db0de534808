/**
  When the shipped `free`, whose `pfree` returns the block itself on 0, keeps the allocator's
  lists: for a block just allocated, and for freeing everything.  And that a legal layout is
  determined by its live blocks.
 */
module Soundness {
  import opened Blocks
  import opened Links
  import opened Layout

  /** Freeing what `alloc` just handed out is sound exactly when a free block lies below, or none is left above. */
  lemma AllocThenFree(bs: seq<Block>, i: nat, n: nat)
    requires i < |bs| && !bs[i].used && n <= bs[i].size
    ensures FreeSound(false, Carve(bs, i, n), i) <==> FreeBelow(bs, i) || (bs[i].size - n < MIN_SPLIT && !FreeAbove(bs, i))
  {
    hide Carve;
    CarveElems(bs, i, n);
    var c, split := Carve(bs, i, n), bs[i].size - n >= MIN_SPLIT;
    if split {
      assert !c[i + 1].used;
    } else {
      assert forall j :: 0 <= j < |bs| && j != i ==> c[j] == bs[j];
    }
  }

  /** With an alignment gap left free in front, freeing what `aligned_alloc` handed out is always sound. */
  lemma AlignedThenFree(bs: seq<Block>, i: nat, gap: nat, n: nat)
    requires i < |bs| && !bs[i].used && gap + n <= bs[i].size
    ensures gap > 0 ==> FreeSound(false, CarveAfter(bs, i, gap, n), i + 1)
    ensures gap == 0 ==>
            (FreeSound(false, CarveAfter(bs, i, gap, n), i) <==> FreeBelow(bs, i) || (bs[i].size - n < MIN_SPLIT && !FreeAbove(bs, i)))
  {
    if gap == 0 {
      AllocThenFree(bs, i, n);
    } else {
      hide Carve;
      SplitElems(bs, i, gap);
      var s := SplitAt(bs, i, gap);
      CarveElems(s, i + 1, n);
      assert !CarveAfter(bs, i, gap, n)[i].used;
    }
  }

  // ---------------------------------------------------------------- free all

  /** Every `free` of the given live blocks, one after another, is sound in the shipped form. */
  ghost predicate AllSound(bs: seq<Block>, order: seq<Block>)
    decreases |order|
  {
    order == [] ||
    (order[0] in bs && FreeSound(false, bs, IndexOf(bs, order[0])) && AllSound(Release(bs, IndexOf(bs, order[0])), order[1..]))
  }

  /** The blocks still to be freed: all live ones, each once. */
  ghost predicate FreesAll(bs: seq<Block>, order: seq<Block>) {
    (forall b :: b in order <==> b in Live(bs)) && (forall i, j :: 0 <= i < j < |order| ==> order[i] != order[j])
  }

  lemma OneFreed(bs: seq<Block>, base: nat, end: nat, order: seq<Block>)
    requires Legal(bs, base, end) && FreesAll(bs, order) && order != []
    ensures order[0] in bs
    ensures var i := IndexOf(bs, order[0]);
            bs[i].used && Legal(Release(bs, i), base, end) && FreesAll(Release(bs, i), order[1..])
  {
    hide Release;
    hide Legal;
    assert order[0] in order;
    assert order[0] in Live(bs);
    var i := IndexOf(bs, order[0]);
    ReleaseLegal(bs, base, end, i);
    ReleaseLive(bs, base, end, i);
    forall b ensures b in order[1..] <==> b in Live(Release(bs, i)) {
      assert order == [order[0]] + order[1..];
    }
  }

  /** With the lowest block free, every free is sound, and it stays free. */
  lemma {:induction false} LowestFree(bs: seq<Block>, base: nat, end: nat, order: seq<Block>)
    requires Legal(bs, base, end) && FreesAll(bs, order) && !bs[0].used
    ensures AllSound(bs, order)
    decreases |order|
  {
    hide Release;
    hide FreesAll;
    if order != [] {
      OneFreed(bs, base, end, order);
      var i := IndexOf(bs, order[0]);
      ReleaseElems(bs, i);
      assert FreeBelow(bs, i);
      LowestFree(Release(bs, i), base, end, order[1..]);
    }
  }

  /** With the lowest block used and a free one above it, some free to come is unsound. */
  lemma {:induction false} LowestUsed(bs: seq<Block>, base: nat, end: nat, order: seq<Block>)
    requires Legal(bs, base, end) && FreesAll(bs, order) && bs[0].used && FreeAbove(bs, 0)
    ensures !AllSound(bs, order)
    decreases |order|
  {
    hide Release;
    hide FreesAll;
    LowestListed(bs, order);
    OneFreed(bs, base, end, order);
    var i := IndexOf(bs, order[0]);
    if i == 0 {
      assert !FreeBelow(bs, 0);
    } else {
      ReleaseElems(bs, i);
      var r := Release(bs, i);
      var lo := if !bs[i - 1].used then i - 1 else i;
      assert lo > 0 && !r[lo].used;
      LowestUsed(r, base, end, order[1..]);
    }
  }

  lemma LowestListed(bs: seq<Block>, order: seq<Block>)
    requires |bs| > 0 && bs[0].used && FreesAll(bs, order)
    ensures order != []
  {
    UsedIsLive(bs, 0);
  }

  /**
    Freeing every live block, in some order, is sound throughout in the shipped form exactly when
    nothing is live, the lowest block is free, or all blocks are used and the lowest goes first.
   */
  lemma FreeAllSound(bs: seq<Block>, base: nat, end: nat, order: seq<Block>)
    requires Legal(bs, base, end) && FreesAll(bs, order)
    ensures AllSound(bs, order) <==>
            order == [] || !bs[0].used || ((forall j :: 0 <= j < |bs| ==> bs[j].used) && order[0] == bs[0])
  {
    hide Release;
    hide FreesAll;
    if order == [] {
    } else if !bs[0].used {
      LowestFree(bs, base, end, order);
    } else if FreeAbove(bs, 0) {
      LowestUsed(bs, base, end, order);
    } else {
      OneFreed(bs, base, end, order);
      var i := IndexOf(bs, order[0]);
      ReleaseElems(bs, i);
      var r := Release(bs, i);
      assert forall j :: 0 <= j < |bs| ==> bs[j].used;
      if order[0] == bs[0] {
        FirstIsLowest(bs, base, end, i);
        assert !FreeAbove(bs, i);
        LowestFree(r, base, end, order[1..]);
      } else {
        assert r[0].used && !r[i].used;
        LowestUsed(r, base, end, order[1..]);
      }
    }
  }

  lemma FirstIsLowest(bs: seq<Block>, base: nat, end: nat, i: nat)
    requires Legal(bs, base, end) && i < |bs| && bs[i] == bs[0]
    ensures i == 0
  {
    Near(bs, base, end, 0);
  }

  // ------------------------------------------------------------ canonical form

  /** Two legal layouts with the same live blocks agree block by block. */
  lemma {:induction false} SamePrefix(a: seq<Block>, b: seq<Block>, base: nat, end: nat, k: nat)
    requires Legal(a, base, end) && Legal(b, base, end) && Live(a) == Live(b) && k <= |a|
    ensures k <= |b| && a[..k] == b[..k]
    decreases k
  {
    hide Legal;
    hide Live;
    if k > 0 {
      SamePrefix(a, b, base, end, k - 1);
      SameNext(a, b, base, end, k - 1);
      assert a[..k] == a[..k - 1] + [a[k - 1]] && b[..k] == b[..k - 1] + [b[k - 1]];
    }
  }

  lemma SameNext(a: seq<Block>, b: seq<Block>, base: nat, end: nat, k: nat)
    requires Legal(a, base, end) && Legal(b, base, end) && Live(a) == Live(b) && k < |a| && k <= |b| && a[..k] == b[..k]
    ensures k < |b| && a[k] == b[k]
  {
    SameAddr(a, b, base, end, k);
    if a[k].used {
      UsedThere(a, b, base, end, k);
    } else if b[k].used {
      UsedThere(b, a, base, end, k);
    } else if a[k].End() < b[k].End() {
      FreeShorter(a, b, base, end, k);
    } else if b[k].End() < a[k].End() {
      FreeShorter(b, a, base, end, k);
    }
  }

  lemma SameAddr(a: seq<Block>, b: seq<Block>, base: nat, end: nat, k: nat)
    requires Legal(a, base, end) && Legal(b, base, end) && k < |a| && k <= |b| && a[..k] == b[..k]
    ensures k < |b| && a[k].addr == b[k].addr
  {
    hide Coalesced;
    Near(a, base, end, k);
    if k > 0 {
      assert a[k - 1] == a[..k][k - 1] && b[k - 1] == b[..k][k - 1];
      assert a[k - 1].End() == a[k].addr;
      Near(b, base, end, k - 1);
    }
  }

  /** A used block starting where a block of the other layout does is that block. */
  lemma UsedThere(a: seq<Block>, b: seq<Block>, base: nat, end: nat, k: nat)
    requires Legal(a, base, end) && Legal(b, base, end) && Live(a) == Live(b) && k < |a| && k < |b| && a[k].addr == b[k].addr && a[k].used
    ensures b[k] == a[k]
  {
    hide Coalesced;
    hide Tiled;
    UsedIsLive(a, k);
    assert a[k] in b;
    Disjoint(b, base, end);
    assert b[k] in b;
    Near(b, base, end, k);
  }

  /** A free block cannot end inside a free block of the other layout: the used block after it would overlap. */
  lemma FreeShorter(a: seq<Block>, b: seq<Block>, base: nat, end: nat, k: nat)
    requires Legal(a, base, end) && Legal(b, base, end) && Live(a) == Live(b) && k < |a| && k < |b|
    requires a[k].addr == b[k].addr && !a[k].used && !b[k].used
    ensures a[k].End() >= b[k].End()
  {
    hide Tiled;
    Near(a, base, end, k);
    Near(b, base, end, k);
    Disjoint(b, base, end);
    assert b[k] in b;
    if a[k].End() < b[k].End() {
      assert a[k + 1].used;
      UsedIsLive(a, k + 1);
      Near(a, base, end, k + 1);
    }
  }

  /** A legal layout is determined by its live blocks. */
  lemma LayoutByLive(a: seq<Block>, b: seq<Block>, base: nat, end: nat)
    requires Legal(a, base, end) && Legal(b, base, end) && Live(a) == Live(b)
    ensures a == b
  {
    SamePrefix(a, b, base, end, |a|);
    SamePrefix(b, a, base, end, |b|);
  }

  // ------------------------------------------------------------------ payloads

  /** The pointers that are live. */
  ghost function Payloads(bs: seq<Block>): set<nat> {
    set b | b in bs && b.used :: b.Payload()
  }

  lemma PayloadIn(bs: seq<Block>, i: nat)
    requires i < |bs| && bs[i].used
    ensures bs[i].Payload() in Payloads(bs)
  {
  }

  lemma PayloadBlock(bs: seq<Block>, p: nat) returns (i: nat)
    requires p in Payloads(bs)
    ensures i < |bs| && bs[i].used && bs[i].Payload() == p
  {
    var b :| b in bs && b.used && b.Payload() == p;
    i :| 0 <= i < |bs| && bs[i] == b;
  }

  /** Live pointers only depend on the live blocks. */
  lemma PayloadsOfLive(bs: seq<Block>)
    ensures Payloads(bs) == set b | b in Live(bs) :: b.Payload()
  {
  }

  /** Blocks of a tiling have different payloads. */
  lemma PayloadNames(bs: seq<Block>, base: nat, end: nat, i: nat, j: nat)
    requires Tiled(bs, base, end) && i < |bs| && j < |bs| && bs[i].Payload() == bs[j].Payload()
    ensures i == j
  {
    hide Tiled;
    Near(bs, base, end, i);
  }

  lemma PayloadsReleased(bs: seq<Block>, base: nat, end: nat, i: nat)
    requires Legal(bs, base, end) && i < |bs| && bs[i].used
    ensures Payloads(Release(bs, i)) == Payloads(bs) - {bs[i].Payload()}
  {
    hide Release;
    hide Legal;
    ReleaseLive(bs, base, end, i);
    PayloadsOfLive(bs);
    PayloadsOfLive(Release(bs, i));
    forall b | b in Live(bs) && b.Payload() == bs[i].Payload() ensures b == bs[i] {
      var j :| 0 <= j < |bs| && bs[j] == b;
      LegalTiled(bs, base, end);
      PayloadNames(bs, base, end, i, j);
    }
  }

  lemma LegalTiled(bs: seq<Block>, base: nat, end: nat)
    requires Legal(bs, base, end)
    ensures Tiled(bs, base, end)
  {
  }

  lemma PayloadsCarved(bs: seq<Block>, i: nat, n: nat)
    requires i < |bs| && !bs[i].used && n <= bs[i].size
    ensures Payloads(Carve(bs, i, n)) == Payloads(bs) + {bs[i].Payload()}
  {
    hide Carve;
    CarveLive(bs, i, n);
    CarveElems(bs, i, n);
    PayloadsOfLive(bs);
    PayloadsOfLive(Carve(bs, i, n));
  }

  lemma SplitLive(bs: seq<Block>, i: nat, n: nat)
    requires i < |bs| && !bs[i].used && n <= bs[i].size
    ensures Live(SplitAt(bs, i, n)) == Live(bs)
  {
    hide SplitAt;
    SplitElems(bs, i, n);
    var s := SplitAt(bs, i, n);
    forall b | b in Live(bs) ensures b in Live(s) {
      var j :| 0 <= j < |bs| && bs[j] == b;
      assert s[if j < i then j else j + 1] == b;
    }
    forall b | b in Live(s) ensures b in Live(bs) {
      var j :| 0 <= j < |s| && s[j] == b;
      assert bs[if j < i then j else j - 1] == b;
    }
  }

  lemma CarveAfterLive(bs: seq<Block>, i: nat, gap: nat, n: nat)
    requires i < |bs| && !bs[i].used && gap + n <= bs[i].size
    ensures var c, t := CarveAfter(bs, i, gap, n), if gap == 0 then i else i + 1;
            t < |c| && c[t].used && c[t].addr == bs[i].addr + gap && Live(c) == Live(bs) + {c[t]}
  {
    hide Carve;
    hide SplitAt;
    if gap == 0 {
      CarveLive(bs, i, n);
      CarveElems(bs, i, n);
    } else {
      SplitElems(bs, i, gap);
      SplitLive(bs, i, gap);
      CarveLive(SplitAt(bs, i, gap), i + 1, n);
      CarveElems(SplitAt(bs, i, gap), i + 1, n);
    }
  }

  lemma PayloadsCarvedAfter(bs: seq<Block>, i: nat, gap: nat, n: nat)
    requires i < |bs| && !bs[i].used && gap + n <= bs[i].size
    ensures Payloads(CarveAfter(bs, i, gap, n)) == Payloads(bs) + {bs[i].Payload() + gap}
  {
    hide CarveAfter;
    CarveAfterLive(bs, i, gap, n);
    PayloadsOfLive(bs);
    PayloadsOfLive(CarveAfter(bs, i, gap, n));
  }

  lemma PayloadsGrown(bs: seq<Block>, i: nat, n: nat)
    requires i + 1 < |bs| && bs[i].used && !bs[i + 1].used && n <= bs[i + 1].size
    ensures Payloads(Grow(bs, i, n)) == Payloads(bs)
  {
    hide Carve;
    hide MergeAt;
    var c := Carve(bs, i + 1, n);
    CarveElems(bs, i + 1, n);
    MergeElems(c, i);
    var r := MergeAt(c, i);
    var d := |bs| - |r|;
    forall p | p in Payloads(bs) ensures p in Payloads(r) {
      var j := PayloadBlock(bs, p);
      var l := if j <= i then j else j - d;
      assert r[l].used && r[l].Payload() == p;
      PayloadIn(r, l);
    }
    forall p | p in Payloads(r) ensures p in Payloads(bs) {
      var l := PayloadBlock(r, p);
      var j := if l <= i then l else l + d;
      assert bs[j].used && bs[j].Payload() == p;
      PayloadIn(bs, j);
    }
  }

  /** A free block's payload is not live. */
  lemma FreeNotLive(bs: seq<Block>, base: nat, end: nat, i: nat, gap: nat)
    requires Tiled(bs, base, end) && i < |bs| && !bs[i].used && gap < bs[i].size
    ensures bs[i].Payload() + gap !in Payloads(bs)
  {
    hide Tiled;
    if bs[i].Payload() + gap in Payloads(bs) {
      var j := PayloadBlock(bs, bs[i].Payload() + gap);
      Near(bs, base, end, i);
      Near(bs, base, end, j);
      assert false;
    }
  }

  // -------------------------------------------------- freeing pointer by pointer

  ghost function IndexAt(bs: seq<Block>, q: nat): (i: nat)
    requires q in Payloads(bs)
    ensures i < |bs| && bs[i].used && bs[i].Payload() == q
  {
    PayloadHas(bs, q);
    var i: nat :| i < |bs| && bs[i].used && bs[i].Payload() == q;
    i
  }

  lemma PayloadHas(bs: seq<Block>, q: nat)
    requires q in Payloads(bs)
    ensures exists i: nat :: i < |bs| && bs[i].used && bs[i].Payload() == q
  {
    var i := PayloadBlock(bs, q);
  }

  /** The layout once the pointers `ps` have been freed, in that order. */
  ghost function AfterFrees(bs: seq<Block>, ps: seq<nat>): seq<Block>
    decreases |ps|
  {
    if ps == [] then bs
    else
      var b, q := AfterFrees(bs, ps[..|ps| - 1]), ps[|ps| - 1];
      if q in Payloads(b) then Release(b, IndexAt(b, q)) else b
  }

  /** Each of these frees is of a live pointer and keeps the lists. */
  ghost predicate FreesSound(pfreeNull: bool, bs: seq<Block>, ps: seq<nat>)
    decreases |ps|
  {
    ps == [] ||
    (FreesSound(pfreeNull, bs, ps[..|ps| - 1]) &&
     var b, q := AfterFrees(bs, ps[..|ps| - 1]), ps[|ps| - 1];
     q in Payloads(b) && FreeSound(pfreeNull, b, IndexAt(b, q)))
  }

  /** One more. */
  lemma OneMoreFree(pfreeNull: bool, bs: seq<Block>, base: nat, end: nat, ps: seq<nat>, i: nat)
    requires var b := AfterFrees(bs, ps); Legal(b, base, end) && i < |b| && b[i].used
    ensures var b := AfterFrees(bs, ps);
            && AfterFrees(bs, ps + [b[i].Payload()]) == Release(b, i)
            && (FreesSound(pfreeNull, bs, ps + [b[i].Payload()]) <==> FreesSound(pfreeNull, bs, ps) && FreeSound(pfreeNull, b, i))
  {
    hide Release;
    hide FreeSound;
    hide Payloads;
    var b := AfterFrees(bs, ps);
    var q := b[i].Payload();
    PayloadIn(b, i);
    PayloadNames(b, base, end, i, IndexAt(b, q));
    assert (ps + [q])[..|ps|] == ps;
  }

  /** Once a free has gone wrong, no longer sequence is sound. */
  lemma {:induction false} SoundPrefix(pfreeNull: bool, bs: seq<Block>, ps: seq<nat>, qs: seq<nat>)
    requires FreesSound(pfreeNull, bs, ps + qs)
    ensures FreesSound(pfreeNull, bs, ps)
    decreases |qs|
  {
    if qs == [] {
      assert ps + qs == ps;
    } else {
      assert (ps + qs)[..|ps + qs| - 1] == ps + qs[..|qs| - 1];
      SoundPrefix(pfreeNull, bs, ps, qs[..|qs| - 1]);
    }
  }

  /** A layout whose live pointers are exactly those of `old`, and which still holds its live blocks, is `old`. */
  lemma SamePointers(old': seq<Block>, bs: seq<Block>, base: nat, end: nat)
    requires Legal(old', base, end) && Legal(bs, base, end) && Live(old') <= Live(bs) && Payloads(bs) == Payloads(old')
    ensures bs == old'
  {
    hide Tiled;
    hide Coalesced;
    forall b | b in Live(bs) ensures b in Live(old') {
      var i :| 0 <= i < |bs| && bs[i] == b;
      PayloadIn(bs, i);
      var j := PayloadBlock(old', b.Payload());
      UsedIsLive(old', j);
      var k :| 0 <= k < |bs| && bs[k] == old'[j];
      PayloadNames(bs, base, end, i, k);
    }
    LayoutByLive(old', bs, base, end);
  }
}
