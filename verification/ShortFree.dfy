/**
  `free` on layouts whose used blocks may be shorter than a free header (16 bytes or more): exactly
  when the lists are right afterwards.
 */
module ShortFree {
  import opened Ram
  import opened Words
  import opened Blocks
  import opened Links
  import opened Layout
  import opened Raw
  import opened FreeStores
  import opened Growth
  import opened Short

  /** Free blocks hold their headers; used blocks may lack the last word. */
  ghost predicate Snug(bs: seq<Block>, base: nat, end: nat) {
    Strung(bs, base, end) && forall j :: 0 <= j < |bs| ==> bs[j].size >= if bs[j].used then 16 else FREE_HEADER
  }

  /** The same, but for block `e`, which may be short and free. */
  ghost predicate Nearly(bs: seq<Block>, base: nat, end: nat, e: nat) {
    Strung(bs, base, end) && forall j :: 0 <= j < |bs| ==> bs[j].size >= if bs[j].used || j == e then 16 else FREE_HEADER
  }

  ghost predicate HeaderBut(m: seq<byte>, bs: seq<Block>, j: nat, q: nat, x: int)
    requires j < |bs|
  {
    && Word(m, bs[j].addr) == (if j == q then x else SizeBefore(bs, j)) && Word(m, bs[j].addr + 4) == bs[j].size
    && Word(m, bs[j].addr + 8) == (if bs[j].used then 1 else 0)
  }

  /** Memory holds both lists of the blocks `bs`, save that the `prev` word of block `q` reads `x`. */
  ghost predicate ThreadedBut(m: seq<byte>, base: nat, free: int, end: nat, bs: seq<Block>, q: nat, x: int) {
    && Strung(bs, base, end)
    && (forall j :: 0 <= j < |bs| ==> HeaderBut(m, bs, j, q, x))
    && (forall k :: 0 <= k < |FreeBlocks(bs)| ==> LinksAt(m, FreeBlocks(bs), end, k))
    && free == AddrOr(FreeBlocks(bs), 0, end)
  }

  lemma OneWordOff(m: seq<byte>, base: nat, free: int, end: nat, bs: seq<Block>, q: nat, x: int)
    requires ThreadedBut(m, base, free, end, bs, q, x)
    ensures Threaded(m, base, free, end, bs) <==> (q < |bs| ==> x == SizeBefore(bs, q))
  {
    hide FreeBlocks;
    hide Word;
    hide SizeBefore;
    hide Strung;
    forall j | 0 <= j < |bs| && (q < |bs| ==> x == SizeBefore(bs, q)) ensures HeaderAt(m, bs, j) {
      assert HeaderBut(m, bs, j, q, x);
    }
    if Threaded(m, base, free, end, bs) && q < |bs| {
      assert HeaderAt(m, bs, q) && HeaderBut(m, bs, q, q, x);
    }
  }

  /** The payload of a block lies strictly inside the arena. */
  lemma SnugSpan(bs: seq<Block>, base: nat, end: nat, t: nat)
    requires Snug(bs, base, end) && t < |bs|
    ensures base < bs[t].Payload() < end && base <= bs[t].addr
  {
    StrungNear(bs, base, end, t);
  }

  // ----------------------------------------------------------------- one round

  ghost predicate Merges(bs: seq<Block>, base: nat, end: nat, i: nat, k: nat, e: nat) {
    && Nearly(bs, base, end, e) && i + 1 < |bs| && !bs[i].used && !bs[i + 1].used && (e == i || e == i + 1)
    && k == |FreeBlocks(bs[..i])|
  }

  /** The two free blocks of a round, and the blocks after them. */
  lemma AroundMerge(m: seq<byte>, base: nat, free: int, end: nat, bs: seq<Block>, q: nat, x: int, i: nat, k: nat, e: nat)
    requires ThreadedBut(m, base, free, end, bs, q, x) && Merges(bs, base, end, i, k, e)
    ensures var b, n, fs := bs[i].addr, bs[i + 1].addr, FreeBlocks(bs);
            && k + 1 < |fs| && fs[k] == bs[i] && fs[k + 1] == bs[i + 1] && n == b + bs[i].size && n != end
            && b + 16 <= n && n + 16 <= n + bs[i + 1].size <= AddrOr(fs, k + 2, end) <= end
            && Word(m, b + 4) == bs[i].size && Word(m, b + 12) == n - b && Word(m, n + 4) == bs[i + 1].size
            && Word(m, n + 12) == AddrOr(fs, k + 2, end) - n
            && (k + 2 < |fs| ==> Word(m, fs[k + 2].addr + 16) == fs[k + 2].addr - n)
            && (i + 2 < |bs| <==> n + bs[i + 1].size != end) && (i + 2 < |bs| ==> bs[i + 2].addr == n + bs[i + 1].size)
            && (k + 2 < |fs| <==> AddrOr(fs, k + 2, end) != end)
  {
    hide FreeBlocks;
    hide Word;
    hide Strung;
    hide MergeAt;
    var fs := FreeBlocks(bs);
    MergeFree(bs, i, k);
    StrungNear(bs, base, end, i);
    StrungNear(bs, base, end, i + 1);
    StrungFree(bs, base, end, k + 1);
    assert HeaderBut(m, bs, i, q, x) && HeaderBut(m, bs, i + 1, q, x);
    assert LinksAt(m, fs, end, k) && LinksAt(m, fs, end, k + 1);
    if k + 2 < |fs| {
      assert LinksAt(m, fs, end, k + 2);
      StrungFree(bs, base, end, k + 2);
    }
  }

  /** A free block above the two lies clear of every other header. */
  lemma FreeClear(bs: seq<Block>, base: nat, end: nat, i: nat, k: nat, e: nat, l: nat, j: nat)
    requires Merges(bs, base, end, i, k, e) && l < |FreeBlocks(bs)| && l != k && l != k + 1 && j < |bs|
    ensures var f := FreeBlocks(bs)[l].addr;
            FreeBlocks(bs)[l].size >= FREE_HEADER && (f == bs[j].addr || f + 20 <= bs[j].addr || bs[j].addr + 16 <= f)
  {
    hide FreeBlocks;
    hide Strung;
    hide MergeAt;
    MergeFree(bs, i, k);
    var fs := FreeBlocks(bs);
    var g := FreeIndex(bs, l);
    StrungNear(bs, base, end, g);
    StrungNear(bs, base, end, j);
    StrungFree(bs, base, end, l);
    assert g != i && g != i + 1 by {
      assert l < k ==> fs[l].End() <= fs[k].addr;
      assert l > k ==> fs[k + 1].addr < fs[l].addr && fs[k].addr < fs[l].addr;
    }
  }

  /** Words of the headers that a round leaves alone. */
  lemma RoundKeeps(m: seq<byte>, base: nat, free: int, end: nat, bs: seq<Block>, q: nat, x: int, i: nat, k: nat, e: nat, j: nat, off: nat)
    requires ThreadedBut(m, base, free, end, bs, q, x) && Merges(bs, base, end, i, k, e)
    requires j < |bs| && j != i + 1 && (off == 0 || off == 4 || off == 8) && (j == i ==> off != 4) && (j == i + 2 ==> off > 0)
    ensures Word(Round(m, end, bs[i].addr, bs[i + 1].addr), bs[j].addr + off) == Word(m, bs[j].addr + off)
  {
    hide FreeBlocks;
    hide Word;
    hide Strung;
    hide Round;
    hide ThreadedBut;
    hide AddrOr;
    var b, n, fs := bs[i].addr, bs[i + 1].addr, FreeBlocks(bs);
    AroundMerge(m, base, free, end, bs, q, x, i, k, e);
    StrungNear(bs, base, end, j);
    StrungNear(bs, base, end, i);
    StrungNear(bs, base, end, i + 1);
    if k + 2 < |fs| {
      FreeClear(bs, base, end, i, k, e, k + 2, j);
      NthAddr(fs, end, k + 2);
    }
    RoundElsewhere(m, end, b, n, bs[j].addr + off);
  }

  lemma NthAddr(fs: seq<Block>, end: int, k: nat)
    requires k < |fs|
    ensures AddrOr(fs, k, end) == fs[k].addr
  {
  }

  /** Which `prev` word is off after a round, and what it reads. */
  ghost function StillOff(bs: seq<Block>, i: nat, q: nat): nat {
    if q == i + 2 then i + 1 else |bs|
  }

  lemma RoundHeader(m: seq<byte>, base: nat, free: int, end: nat, bs: seq<Block>, q: nat, x: int, i: nat, k: nat, e: nat, j: nat)
    requires ThreadedBut(m, base, free, end, bs, q, x) && Merges(bs, base, end, i, k, e) && (q == i + 1 || q == i + 2 || q >= |bs|)
    requires end + FREE_HEADER <= |m| && end - base + FREE_HEADER <= U32 && j < |bs| - 1
    ensures j < |MergeAt(bs, i)|
    ensures HeaderBut(Round(m, end, bs[i].addr, bs[i + 1].addr), MergeAt(bs, i), j, StillOff(bs, i, q), Wrap32(x + bs[i].size))
  {
    hide FreeBlocks;
    hide Word;
    hide Strung;
    hide Round;
    hide MergeAt;
    hide AddrOr;
    hide SizeBefore;
    var b, n := bs[i].addr, bs[i + 1].addr;
    MergeElems(bs, i);
    AroundMerge(m, base, free, end, bs, q, x, i, k, e);
    RoundWords(m, end, b, n);
    StrungNear(bs, base, end, i);
    StrungNear(bs, base, end, i + 1);
    var j' := if j <= i then j else j + 1;
    assert HeaderBut(m, bs, j', q, x);
    StrungNear(bs, base, end, j');
    if j != i + 1 {
      RoundKeeps(m, base, free, end, bs, q, x, i, k, e, j', 0);
    } else {
      BeforeIs(bs, i + 2);
    }
    if j != i {
      RoundKeeps(m, base, free, end, bs, q, x, i, k, e, j', 4);
    }
    RoundKeeps(m, base, free, end, bs, q, x, i, k, e, j', 8);
  }

  lemma BeforeIs(bs: seq<Block>, j: nat)
    requires 0 < j < |bs|
    ensures SizeBefore(bs, j) == bs[j - 1].size
  {
  }

  /** The links of a free block other than the two merged. */
  lemma RoundOther(m: seq<byte>, base: nat, free: int, end: nat, bs: seq<Block>, q: nat, x: int, i: nat, k: nat, e: nat, l: nat)
    requires ThreadedBut(m, base, free, end, bs, q, x) && Merges(bs, base, end, i, k, e)
    requires end + FREE_HEADER <= |m| && end - base + FREE_HEADER <= U32 && l < |FreeBlocks(bs)| && l != k && l != k + 1
    ensures var r, fs := Round(m, end, bs[i].addr, bs[i + 1].addr), FreeBlocks(bs);
            && Word(r, fs[l].addr + 12) == AddrOr(fs, l + 1, end) - fs[l].addr
            && Word(r, fs[l].addr + 16) == if l == k + 2 then fs[l].addr - bs[i].addr else DistBefore(fs, l)
  {
    hide FreeBlocks;
    hide Word;
    hide Strung;
    hide Round;
    hide AddrOr;
    hide DistBefore;
    hide HeaderBut;
    var b, n, fs, a := bs[i].addr, bs[i + 1].addr, FreeBlocks(bs), FreeBlocks(bs)[l].addr;
    AroundMerge(m, base, free, end, bs, q, x, i, k, e);
    RoundWords(m, end, b, n);
    StrungNear(bs, base, end, i);
    assert LinksAt(m, fs, end, l);
    StrungFree(bs, base, end, l);
    if k + 2 < |fs| {
      NthAddr(fs, end, k + 2);
      StrungFree(bs, base, end, k + 2);
      FreeClear(bs, base, end, i, k, e, k + 2, i);
    }
    FreeClear(bs, base, end, i, k, e, l, i);
    if i + 2 < |bs| {
      FreeClear(bs, base, end, i, k, e, l, i + 2);
    }
    RoundElsewhere(m, end, b, n, a + 12);
    if l != k + 2 {
      RoundElsewhere(m, end, b, n, a + 16);
    }
  }

  lemma RoundLink(m: seq<byte>, base: nat, free: int, end: nat, bs: seq<Block>, q: nat, x: int, i: nat, k: nat, e: nat, l: nat)
    requires ThreadedBut(m, base, free, end, bs, q, x) && Merges(bs, base, end, i, k, e)
    requires end + FREE_HEADER <= |m| && end - base + FREE_HEADER <= U32 && l + 1 < |FreeBlocks(bs)|
    ensures k + 1 < |FreeBlocks(bs)| && l < |MergeAt(FreeBlocks(bs), k)|
    ensures LinksAt(Round(m, end, bs[i].addr, bs[i + 1].addr), MergeAt(FreeBlocks(bs), k), end, l)
  {
    hide FreeBlocks;
    hide Word;
    hide Strung;
    hide Round;
    hide MergeAt;
    hide AddrOr;
    hide DistBefore;
    hide HeaderBut;
    hide Nearly;
    var b, n, fs := bs[i].addr, bs[i + 1].addr, FreeBlocks(bs);
    AroundMerge(m, base, free, end, bs, q, x, i, k, e);
    MergeElems(fs, k);
    MergeAddrs(fs, end, k);
    if l != k {
      RoundOther(m, base, free, end, bs, q, x, i, k, e, if l < k then l else l + 1);
      if l == k + 1 {
        DistIs(fs, k + 2);
      }
    } else {
      assert LinksAt(m, fs, end, k);
      RoundWords(m, end, b, n);
      StartInside(bs, base, end, i);
      RoundElsewhere(m, end, b, n, b + 16);
    }
  }

  lemma StartInside(bs: seq<Block>, base: nat, end: nat, i: nat)
    requires Strung(bs, base, end) && i < |bs|
    ensures base <= bs[i].addr
  {
    StrungNear(bs, base, end, i);
  }

  lemma DistIs(fs: seq<Block>, k: nat)
    requires 0 < k < |fs|
    ensures DistBefore(fs, k) == fs[k].addr - fs[k - 1].addr
  {
  }

  lemma MergedStrung(bs: seq<Block>, base: nat, end: nat, i: nat)
    requires Strung(bs, base, end) && i + 1 < |bs|
    ensures Strung(MergeAt(bs, i), base, end)
  {
    MergeElems(bs, i);
    var r := MergeAt(bs, i);
    assert bs[i].End() == bs[i + 1].addr;
    forall j, l | 0 <= j < l < |r| && l == j + 1 ensures r[j].End() == r[l].addr {
      if j < i {
        assert bs[j].End() == bs[l].addr;
      } else {
        assert bs[j + 1].End() == bs[l + 1].addr;
      }
    }
  }

  /** A round that merges blocks `i` and `i + 1`. */
  lemma RoundMerges(m: seq<byte>, base: nat, free: int, end: nat, bs: seq<Block>, q: nat, x: int, i: nat, k: nat, e: nat)
    requires ThreadedBut(m, base, free, end, bs, q, x) && Merges(bs, base, end, i, k, e) && (q == i + 1 || q == i + 2 || q >= |bs|)
    requires end + FREE_HEADER <= |m| && end - base + FREE_HEADER <= U32
    ensures ThreadedBut(Round(m, end, bs[i].addr, bs[i + 1].addr), base, free, end, MergeAt(bs, i), StillOff(bs, i, q), Wrap32(x + bs[i].size))
  {
    hide FreeBlocks;
    hide Word;
    hide Strung;
    hide Round;
    hide MergeAt;
    hide HeaderBut;
    hide LinksAt;
    hide StillOff;
    hide Wrap32;
    var r, bs', fs := Round(m, end, bs[i].addr, bs[i + 1].addr), MergeAt(bs, i), FreeBlocks(bs);
    MergedStrung(bs, base, end, i);
    MergeFree(bs, i, k);
    MergeElems(bs, i);
    MergeElems(fs, k);
    MergeAddrs(fs, end, k);
    var q', x' := StillOff(bs, i, q), Wrap32(x + bs[i].size);
    forall j | 0 <= j < |bs'| ensures HeaderBut(r, bs', j, q', x') {
      RoundHeader(m, base, free, end, bs, q, x, i, k, e, j);
    }
    forall l | 0 <= l < |FreeBlocks(bs')| ensures LinksAt(r, FreeBlocks(bs'), end, l) {
      RoundLink(m, base, free, end, bs, q, x, i, k, e, l);
    }
  }

  // -------------------------------------------------------------- the neighbours

  /** The free blocks around used block `t`. */
  lemma AroundFreed(bs: seq<Block>, base: nat, end: nat, t: nat, k: nat)
    requires Snug(bs, base, end) && t < |bs| && bs[t].used && k == |FreeBlocks(bs[..t])|
    ensures var fs, b := FreeBlocks(bs), bs[t].addr;
            && k <= |fs| && (forall l :: 0 <= l < k ==> fs[l].addr + 20 <= fs[l].End() <= b && base <= fs[l].addr)
            && (forall l :: k <= l < |fs| ==> bs[t].End() <= fs[l].addr && fs[l].addr + 20 <= end)
            && (k > 0 <==> FreeBelow(bs, t)) && (k < |fs| <==> FreeAbove(bs, t))
  {
    hide FreeBlocks;
    hide Strung;
    var fs, pre, post := FreeBlocks(bs), FreeBlocks(bs[..t]), FreeBlocks(bs[t + 1..]);
    FreeAround(bs, t);
    FreeMembers(bs[..t]);
    FreeMembers(bs[t + 1..]);
    CountBelow(bs, t);
    StrungNear(bs, base, end, t);
    forall l | 0 <= l < k ensures fs[l].addr + 20 <= fs[l].End() <= bs[t].addr && base <= fs[l].addr {
      assert fs[l] == pre[l] && pre[l] in pre;
      var j :| 0 <= j < t && bs[..t][j] == fs[l];
      StrungNear(bs, base, end, j);
      assert bs[j].size >= FREE_HEADER;
    }
    forall l | k <= l < |fs| ensures bs[t].End() <= fs[l].addr && fs[l].addr + 20 <= end {
      assert fs[l] == post[l - k] && post[l - k] in post;
      var j :| 0 <= j < |bs| - t - 1 && bs[t + 1..][j] == fs[l];
      StrungNear(bs, base, end, t + 1 + j);
      assert bs[t + 1 + j].size >= FREE_HEADER;
    }
    Above(bs, t);
  }

  lemma Above(bs: seq<Block>, t: nat)
    requires t < |bs|
    ensures |FreeBlocks(bs[t + 1..])| > 0 <==> FreeAbove(bs, t)
  {
    hide FreeBlocks;
    var post := FreeBlocks(bs[t + 1..]);
    FreeMembers(bs[t + 1..]);
    if |post| > 0 {
      assert post[0] in post;
      var j :| 0 <= j < |bs| - t - 1 && bs[t + 1..][j] == post[0];
      assert !bs[t + 1 + j].used;
    }
    if FreeAbove(bs, t) {
      var j :| t < j < |bs| && !bs[j].used;
      assert bs[t + 1..][j - t - 1] == bs[j];
    }
  }

  lemma {:induction false} ScanUpIs(m: seq<byte>, base: nat, end: nat, bs: seq<Block>, j: nat)
    requires Strung(bs, base, end) && j <= |bs|
    requires forall g :: j <= g < |bs| ==> Word(m, bs[g].addr + 4) == bs[g].size && Word(m, bs[g].addr + 8) == (if bs[g].used then 1 else 0)
    ensures ScanUp(m, end, if j < |bs| then bs[j].addr else end) == AddrOr(FreeBlocks(bs), |FreeBlocks(bs[..j])|, end)
    decreases |bs| - j
  {
    hide FreeBlocks;
    hide Strung;
    hide Word;
    if j == |bs| {
      assert bs[..j] == bs;
    } else {
      StrungNear(bs, base, end, j);
      FreeAround(bs, j);
      if bs[j].used {
        OneMoreUsed(bs, j);
        ScanUpIs(m, base, end, bs, j + 1);
      }
    }
  }

  lemma OneMoreUsed(bs: seq<Block>, j: nat)
    requires j < |bs|
    ensures |FreeBlocks(bs[..j + 1])| == |FreeBlocks(bs[..j])| + if bs[j].used then 0 else 1
  {
    assert bs[..j + 1] == bs[..j] + [bs[j]];
    assert FreeBlocks([bs[j]]) == if bs[j].used then [] else [bs[j]];
    FreeConcat(bs[..j], [bs[j]]);
  }

  /** The free block below block `j`, or 0. */
  ghost function LowerAt(bs: seq<Block>, j: nat): int
    requires j <= |bs|
  {
    var k, fs := |FreeBlocks(bs[..j])|, FreeBlocks(bs);
    if 0 < k <= |fs| then fs[k - 1].addr else 0
  }

  lemma {:induction false} ScanDownIs(m: seq<byte>, base: nat, end: nat, bs: seq<Block>, j: nat)
    requires Strung(bs, base, end) && 0 < base && j <= |bs|
    requires forall g :: 0 <= g < j ==> Word(m, bs[g].addr) == SizeBefore(bs, g) && Word(m, bs[g].addr + 8) == (if bs[g].used then 1 else 0)
    ensures ScanDown(m, if j > 0 then bs[j - 1].addr else 0) == LowerAt(bs, j)
    decreases j
  {
    hide FreeBlocks;
    hide Strung;
    hide Word;
    if j == 0 {
      assert bs[..0] == [];
      NoneFree([]);
    } else {
      StrungNear(bs, base, end, j - 1);
      OneMoreUsed(bs, j - 1);
      FreeAround(bs, j - 1);
      if bs[j - 1].used {
        ScanDownIs(m, base, end, bs, j - 1);
        if j > 1 {
          StrungNear(bs, base, end, j - 2);
        }
      }
    }
  }

  /** After `free`'s first stores, the words its scans read are as they were. */
  lemma ClearedKeeps(m: seq<byte>, base: nat, free: int, end: nat, bs: seq<Block>, t: nat, j: nat)
    requires Threaded(m, base, free, end, bs) && Snug(bs, base, end) && t < |bs| && bs[t].used && end + FREE_HEADER <= |m| && j < |bs|
    ensures var c, a := Cleared(m, bs[t].addr), bs[j].addr;
            && Word(c, a + 4) == bs[j].size && (j != t + 1 ==> Word(c, a) == SizeBefore(bs, j))
            && (j != t ==> Word(c, a + 8) == if bs[j].used then 1 else 0)
            && (j > t ==> Word(c, a + 16) == Word(m, a + 16))
  {
    hide FreeBlocks;
    hide Strung;
    hide Word;
    hide Cleared;
    hide LinksAt;
    var b, a := bs[t].addr, bs[j].addr;
    assert HeaderAt(m, bs, j);
    StrungNear(bs, base, end, t);
    StrungNear(bs, base, end, j);
    if j != t + 1 {
      if j > t + 1 {
        StrungNear(bs, base, end, t + 1);
      }
      ClearedWords(m, b, a);
    }
    ClearedWords(m, b, a + 4);
    ClearedWords(m, b, a + 8);
    ClearedWords(m, b, a + 16);
  }

  /** What `free` finds: the next free block, and the previous one unless the shipped form takes the next for it. */
  lemma FoundIs(m: seq<byte>, base: nat, free: int, end: nat, bs: seq<Block>, t: nat, k: nat, pfreeNull: bool)
    requires Threaded(m, base, free, end, bs) && Snug(bs, base, end) && t < |bs| && bs[t].used && 0 < base && end + FREE_HEADER <= |m|
    requires k == |FreeBlocks(bs[..t])|
    ensures var n := AddrOr(FreeBlocks(bs), k, end);
            Found(Cleared(m, bs[t].addr), end, bs[t].addr, pfreeNull) ==
            (n, if FreeSound(pfreeNull, bs, t) then LowerAt(bs, t) else n)
  {
    hide FreeBlocks;
    hide Strung;
    hide Word;
    hide Cleared;
    hide HeaderAt;
    hide ScanUp;
    hide ScanDown;
    hide SizeBefore;
    var c, fs, b := Cleared(m, bs[t].addr), FreeBlocks(bs), bs[t].addr;
    forall j | 0 <= j < |bs| ensures Word(c, bs[j].addr + 4) == bs[j].size && (j != t + 1 ==> Word(c, bs[j].addr) == SizeBefore(bs, j))
      ensures j != t ==> Word(c, bs[j].addr + 8) == if bs[j].used then 1 else 0
    {
      ClearedKeeps(m, base, free, end, bs, t, j);
    }
    OneMoreUsed(bs, t);
    StrungNear(bs, base, end, t);
    ScanUpIs(c, base, end, bs, t + 1);
    AroundFreed(bs, base, end, t, k);
    ScanDownIs(c, base, end, bs, t);
    BackIs(c, base, end, bs, t);
    if k < |fs| {
      assert LinksAt(m, fs, end, k);
      var j := FreeIndex(bs, k);
      assert j > t;
      ClearedKeeps(m, base, free, end, bs, t, j);
    }
  }

  lemma BackIs(m: seq<byte>, base: nat, end: nat, bs: seq<Block>, t: nat)
    requires Strung(bs, base, end) && t < |bs| && Word(m, bs[t].addr) == SizeBefore(bs, t)
    ensures Back(m, bs[t].addr) == if t > 0 then bs[t - 1].addr else 0
  {
    hide Word;
    if t > 0 {
      StrungNear(bs, base, end, t - 1);
    }
  }

  /** A tiling is snug, and its lists in memory are threaded. */
  lemma ListsAreSnug(m: seq<byte>, base: nat, free: int, end: nat, bs: seq<Block>)
    requires Lists(m, base, free, end, bs)
    ensures Threaded(m, base, free, end, bs) && Snug(bs, base, end) && end + FREE_HEADER <= |m|
  {
    hide FreeBlocks;
    hide Word;
  }

  // ------------------------------------------------------------------- relinking

  ghost function Linked(m: seq<byte>, end: nat, bs: seq<Block>, t: nat): seq<byte>
    requires t < |bs|
  {
    var b := bs[t].addr;
    Relinked(Cleared(m, b), end, b, AddrOr(FreeBlocks(bs), |FreeBlocks(bs[..t])|, end), LowerAt(bs, t))
  }

  /** What the freed block's `prev_free` word will be. */
  ghost function Distance(bs: seq<Block>, t: nat): nat
    requires t < |bs|
  {
    var p := LowerAt(bs, t);
    if p == 0 || p > bs[t].addr then 0 else bs[t].addr - p
  }

  ghost predicate Freeable(m: seq<byte>, base: nat, free: int, end: nat, bs: seq<Block>, t: nat, k: nat) {
    && Threaded(m, base, free, end, bs) && Snug(bs, base, end) && t < |bs| && bs[t].used && k == |FreeBlocks(bs[..t])|
    && 0 < base && end + FREE_HEADER <= |m| && end - base + FREE_HEADER <= U32
  }

  /** The words that linking the block in leaves alone. */
  lemma LinkKeeps(m: seq<byte>, base: nat, free: int, end: nat, bs: seq<Block>, t: nat, k: nat, y: int)
    requires Freeable(m, base, free, end, bs, t, k)
    requires var b := bs[t].addr; Clear(y, b + 8) && Clear(y, b + 12) && Clear(y, b + 16)
    requires var n := AddrOr(FreeBlocks(bs), k, end); n == end || Clear(y, n + 16)
    requires k == 0 || Clear(y, LowerAt(bs, t) + 12)
    ensures Word(Linked(m, end, bs, t), y) == Word(m, y)
  {
    hide FreeBlocks;
    hide Word;
    hide Cleared;
    hide Relinked;
    hide Threaded;
    hide Strung;
    var b := bs[t].addr;
    AroundFreed(bs, base, end, t, k);
    StrungNear(bs, base, end, t);
    ClearedWords(m, b, y);
    RelinkElsewhere(Cleared(m, b), end, b, AddrOr(FreeBlocks(bs), k, end), LowerAt(bs, t), y);
  }

  /** The words that linking the block in sets. */
  lemma LinkSets(m: seq<byte>, base: nat, free: int, end: nat, bs: seq<Block>, t: nat, k: nat)
    requires Freeable(m, base, free, end, bs, t, k)
    ensures var r, b, n, p := Linked(m, end, bs, t), bs[t].addr, AddrOr(FreeBlocks(bs), k, end), LowerAt(bs, t);
            && Word(r, b + 8) == 0 && Word(r, b + 12) == n - b && Word(r, b + 16) == Distance(bs, t)
            && (n != end ==> Word(r, n + 16) == n - b) && (p != 0 ==> Word(r, p + 12) == b - p)
            && (p != 0 <==> k > 0) && bs[t].End() <= n <= end
  {
    hide FreeBlocks;
    hide Word;
    hide Cleared;
    hide Relinked;
    hide Threaded;
    hide Strung;
    var b, n, p := bs[t].addr, AddrOr(FreeBlocks(bs), k, end), LowerAt(bs, t);
    var c := Cleared(m, b);
    AroundFreed(bs, base, end, t, k);
    StrungNear(bs, base, end, t);
    ClearedWords(m, b, 0);
    RelinkWords(c, end, b, n, p);
    RelinkElsewhere(c, end, b, n, p, b + 8);
    if p == 0 {
      RelinkElsewhere(c, end, b, n, p, b + 16);
    }
  }

  /** Free block `l` of the list lies clear of block `j`, or is it. */
  lemma FreeApart(bs: seq<Block>, base: nat, end: nat, l: nat, j: nat)
    requires Snug(bs, base, end) && l < |FreeBlocks(bs)| && j < |bs|
    ensures var f := FreeBlocks(bs)[l].addr; f == bs[j].addr || f + 20 <= bs[j].addr || bs[j].addr + 16 <= f
  {
    hide FreeBlocks;
    hide Strung;
    var g := FreeIndex(bs, l);
    StrungNear(bs, base, end, g);
    StrungNear(bs, base, end, j);
  }

  lemma LinkedHeader(m: seq<byte>, base: nat, free: int, end: nat, bs: seq<Block>, t: nat, k: nat, j: nat)
    requires Freeable(m, base, free, end, bs, t, k) && j < |bs|
    ensures var r := Linked(m, end, bs, t);
            HeaderBut(r, Marked(bs, t, false), j, t + 1, Word(r, bs[t].End()))
  {
    hide FreeBlocks;
    hide Word;
    hide Linked;
    hide Strung;
    hide SizeBefore;
    var b, a, fs := bs[t].addr, bs[j].addr, FreeBlocks(bs);
    assert HeaderAt(m, bs, j);
    LinkSets(m, base, free, end, bs, t, k);
    AroundFreed(bs, base, end, t, k);
    StrungNear(bs, base, end, t);
    StrungNear(bs, base, end, j);
    if k < |fs| {
      FreeApart(bs, base, end, k, j);
    }
    if k > 0 {
      FreeApart(bs, base, end, k - 1, j);
    }
    if j > t + 1 {
      StrungNear(bs, base, end, t + 1);
    }
    SizesMarked(bs, t, j);
    LinkKeeps(m, base, free, end, bs, t, k, a + 4);
    if j != t + 1 {
      LinkKeeps(m, base, free, end, bs, t, k, a);
    }
    if j != t {
      LinkKeeps(m, base, free, end, bs, t, k, a + 8);
    }
  }

  lemma SizesMarked(bs: seq<Block>, t: nat, j: nat)
    requires t < |bs| && j < |bs|
    ensures SizeBefore(Marked(bs, t, false), j) == SizeBefore(bs, j)
  {
  }

  /** The link words of another free block lie clear of those that are set. */
  lemma ListApart(bs: seq<Block>, base: nat, end: nat, t: nat, k: nat, l: nat)
    requires Snug(bs, base, end) && t < |bs| && bs[t].used && k == |FreeBlocks(bs[..t])| && l < |FreeBlocks(bs)|
    ensures var fs, a, b := FreeBlocks(bs), FreeBlocks(bs)[l].addr, bs[t].addr;
            && Clear(a + 12, b + 8) && Clear(a + 12, b + 12) && Clear(a + 12, b + 16)
            && Clear(a + 16, b + 8) && Clear(a + 16, b + 12) && Clear(a + 16, b + 16)
            && (k < |fs| ==> Clear(a + 12, fs[k].addr + 16) && (l != k ==> Clear(a + 16, fs[k].addr + 16)))
            && (0 < k <= |fs| ==> Clear(a + 16, fs[k - 1].addr + 12) && (l != k - 1 ==> Clear(a + 12, fs[k - 1].addr + 12)))
  {
    hide FreeBlocks;
    hide Strung;
    var fs := FreeBlocks(bs);
    AroundFreed(bs, base, end, t, k);
    StrungNear(bs, base, end, t);
    StrungFree(bs, base, end, l);
    var j := FreeIndex(bs, l);
    if k < |fs| {
      FreeApart(bs, base, end, k, j);
      StrungFree(bs, base, end, k);
    }
    if k > 0 {
      FreeApart(bs, base, end, k - 1, j);
    }
  }

  /** The link words of another free block. */
  lemma OtherLink(m: seq<byte>, base: nat, free: int, end: nat, bs: seq<Block>, t: nat, k: nat, l: nat)
    requires Freeable(m, base, free, end, bs, t, k) && l < |FreeBlocks(bs)|
    ensures var fs, a, r, b := FreeBlocks(bs), FreeBlocks(bs)[l].addr, Linked(m, end, bs, t), bs[t].addr;
            && Word(r, a + 12) == (if l + 1 == k then b - a else AddrOr(fs, l + 1, end) - a)
            && Word(r, a + 16) == (if l == k then a - b else DistBefore(fs, l))
  {
    hide FreeBlocks;
    hide Word;
    hide Linked;
    hide Strung;
    hide HeaderAt;
    hide AddrOr;
    hide DistBefore;
    hide Clear;
    hide Snug;
    var fs, a := FreeBlocks(bs), FreeBlocks(bs)[l].addr;
    AroundFreed(bs, base, end, t, k);
    LinkSets(m, base, free, end, bs, t, k);
    NthIs(fs, end, k);
    assert LinksAt(m, fs, end, l);
    ListApart(bs, base, end, t, k, l);
    if l + 1 != k {
      LinkKeeps(m, base, free, end, bs, t, k, a + 12);
    }
    if l != k {
      LinkKeeps(m, base, free, end, bs, t, k, a + 16);
    } else {
      ListInside(bs, base, end, k);
    }
  }

  lemma ListInside(bs: seq<Block>, base: nat, end: nat, k: nat)
    requires Snug(bs, base, end) && k < |FreeBlocks(bs)|
    ensures FreeBlocks(bs)[k].addr < end
  {
    hide FreeBlocks;
    hide Strung;
    StrungFree(bs, base, end, k);
  }

  lemma LinkedLink(m: seq<byte>, base: nat, free: int, end: nat, bs: seq<Block>, t: nat, k: nat, l: nat)
    requires Freeable(m, base, free, end, bs, t, k) && l <= |FreeBlocks(bs)|
    ensures k <= |FreeBlocks(bs)| && LinksAt(Linked(m, end, bs, t), InsertAt(FreeBlocks(bs), k, bs[t].(used := false)), end, l)
  {
    hide FreeBlocks;
    hide Word;
    hide Linked;
    hide Strung;
    hide InsertAt;
    hide HeaderAt;
    hide AddrOr;
    hide DistBefore;
    hide Snug;
    hide Threaded;
    var b, fs := bs[t].addr, FreeBlocks(bs);
    LinkSets(m, base, free, end, bs, t, k);
    AroundFreed(bs, base, end, t, k);
    InsertElems(fs, end, k, bs[t].(used := false));
    if l != k {
      OtherLink(m, base, free, end, bs, t, k, if l < k then l else l - 1);
    }
  }

  lemma NthIs(fs: seq<Block>, end: int, k: nat)
    requires k <= |fs|
    ensures AddrOr(fs, k, end) == if k < |fs| then fs[k].addr else end
    ensures 0 < k < |fs| ==> DistBefore(fs, k) == fs[k].addr - fs[k - 1].addr
  {
  }

  lemma MarkedStrung(bs: seq<Block>, base: nat, end: nat, t: nat)
    requires Snug(bs, base, end) && t < |bs|
    ensures Nearly(Marked(bs, t, false), base, end, t)
  {
    var r := Marked(bs, t, false);
    forall i, j | 0 <= i < j < |r| && j == i + 1 ensures r[i].End() == r[j].addr {
      assert bs[i].End() == bs[j].addr;
    }
  }

  /** Before the coalescing loop: both lists with the block freed, but perhaps for the word after it. */
  lemma LinkedBut(m: seq<byte>, base: nat, free: int, end: nat, bs: seq<Block>, t: nat, k: nat)
    requires Freeable(m, base, free, end, bs, t, k)
    ensures var r := Linked(m, end, bs, t);
            ThreadedBut(r, base, if bs[t].addr < free then bs[t].addr else free, end, Marked(bs, t, false), t + 1, Word(r, bs[t].End()))
  {
    hide FreeBlocks;
    hide Word;
    hide Linked;
    hide Strung;
    hide InsertAt;
    hide HeaderAt;
    hide LinksAt;
    hide HeaderBut;
    hide Marked;
    var r, bs', fs := Linked(m, end, bs, t), Marked(bs, t, false), FreeBlocks(bs);
    var x := Word(r, bs[t].End());
    MarkedStrung(bs, base, end, t);
    MarkedElems(bs, t, false);
    ReleaseFree(bs, t, k);
    AroundFreed(bs, base, end, t, k);
    StrungNear(bs, base, end, t);
    InsertElems(fs, end, k, bs[t].(used := false));
    var q := t + 1;
    forall j | 0 <= j < |bs'| ensures HeaderBut(r, bs', j, q, x) {
      LinkedHeader(m, base, free, end, bs, t, k, j);
    }
    forall l | 0 <= l < |FreeBlocks(bs')| ensures LinksAt(r, FreeBlocks(bs'), end, l) {
      LinkedLink(m, base, free, end, bs, t, k, l);
    }
  }

  /** What the next block's `prev` word reads once the block has been linked in. */
  lemma WordAfter(m: seq<byte>, base: nat, free: int, end: nat, bs: seq<Block>, t: nat, k: nat)
    requires Freeable(m, base, free, end, bs, t, k) && t + 1 < |bs|
    ensures Word(Linked(m, end, bs, t), bs[t].End()) ==
            if bs[t].size >= FREE_HEADER then bs[t].size else Clobber(Distance(bs, t), bs[t].size)
  {
    hide FreeBlocks;
    hide Word;
    hide Strung;
    hide Put;
    hide Wrap32;
    var b, s, n, p := bs[t].addr, bs[t].End(), AddrOr(FreeBlocks(bs), k, end), LowerAt(bs, t);
    assert HeaderAt(m, bs, t + 1);
    AroundFreed(bs, base, end, t, k);
    StrungNear(bs, base, end, t);
    if bs[t].size >= FREE_HEADER {
      LinkKeeps(m, base, free, end, bs, t, k, s);
    } else {
      var c1 := Put(m, b + 16, 0);
      ClobberedWord(m, b + 16, 0, bs[t].size);
      PutApart(c1, b + 8, 0, s);
      var c := Put(c1, b + 8, 0);
      var m1 := Put(c, b + 12, n - b);
      PutApart(c, b + 12, n - b, s);
      var v := Word(m1, b + 12);
      PutApart(m1, n + 16, v, s);
      var m2 := if n != end then Put(m1, n + 16, v) else m1;
      if p != 0 {
        ClobberedWord(m2, b + 16, b - p, bs[t].size);
        var m3 := Put(m2, b + 16, b - p);
        PutApart(m3, p + 12, Word(m3, b + 16), s);
      }
    }
  }

  // --------------------------------------------------------------- the whole free

  /** The first round merges the freed block with a free block right after it. */
  lemma RoundUp(m: seq<byte>, base: nat, free: int, end: nat, bs: seq<Block>, t: nat, k: nat, x: int)
    requires Snug(bs, base, end) && t + 1 < |bs| && bs[t].used && !bs[t + 1].used && k == |FreeBlocks(bs[..t])|
    requires ThreadedBut(m, base, free, end, Marked(bs, t, false), t + 1, x)
    requires end + FREE_HEADER <= |m| && end - base + FREE_HEADER <= U32
    ensures AddrOr(FreeBlocks(bs), k, end) == bs[t + 1].addr
    ensures ThreadedBut(Round(m, end, bs[t].addr, bs[t + 1].addr), base, free, end, MergeAt(Marked(bs, t, false), t), |bs|, 0)
  {
    hide FreeBlocks;
    hide Word;
    hide Strung;
    hide MergeAt;
    hide ThreadedBut;
    hide Marked;
    hide Round;
    hide Wrap32;
    var bs1 := Marked(bs, t, false);
    MarkedElems(bs, t, false);
    OneMoreUsed(bs, t);
    FreeAround(bs, t + 1);
    MarkedStrung(bs, base, end, t);
    assert bs1[..t] == bs[..t];
    RoundMerges(m, base, free, end, bs1, t + 1, x, t, k, t);
    MergeElems(bs1, t);
    NoneOff(Round(m, end, bs[t].addr, bs[t + 1].addr), base, free, end, MergeAt(bs1, t), |bs1|, Wrap32(x + bs[t].size), bs);
  }

  /** And does nothing when that one is used, or there is none. */
  lemma RoundIdle(m: seq<byte>, base: nat, free: int, end: nat, bs: seq<Block>, t: nat, k: nat, q: nat, x: int)
    requires Strung(bs, base, end) && t < |bs| && bs[t].used && (t + 1 < |bs| ==> bs[t + 1].used) && k == |FreeBlocks(bs[..t])|
    requires ThreadedBut(m, base, free, end, Marked(bs, t, false), q, x)
    ensures Round(m, end, bs[t].addr, AddrOr(FreeBlocks(bs), k, end)) == m
  {
    hide FreeBlocks;
    hide Word;
    hide Strung;
    hide ThreadedBut;
    LinkedSize(m, base, free, end, Marked(bs, t, false), q, x, t);
    StrungNear(bs, base, end, t);
    if t + 1 < |bs| {
      NotNext(bs, base, end, t, k);
    }
  }

  /** The first round of the coalescing loop. */
  lemma RoundOne(m: seq<byte>, base: nat, free: int, end: nat, bs: seq<Block>, t: nat, k: nat)
    requires Freeable(m, base, free, end, bs, t, k)
    ensures var b, n := bs[t].addr, AddrOr(FreeBlocks(bs), k, end);
            var r, bs1, f := Linked(m, end, bs, t), Marked(bs, t, false), if bs[t].addr < free then bs[t].addr else free;
            if t + 1 < |bs| && !bs[t + 1].used
            then ThreadedBut(Round(r, end, b, n), base, f, end, MergeAt(bs1, t), |bs|, 0)
            else Round(r, end, b, n) == r
  {
    hide FreeBlocks;
    hide Word;
    hide Strung;
    hide Linked;
    hide MergeAt;
    hide ThreadedBut;
    hide Marked;
    hide Round;
    hide Threaded;
    var r, f := Linked(m, end, bs, t), if bs[t].addr < free then bs[t].addr else free;
    LinkedBut(m, base, free, end, bs, t, k);
    LinkedLength(m, end, bs, t);
    if t + 1 < |bs| && !bs[t + 1].used {
      RoundUp(r, base, f, end, bs, t, k, Word(r, bs[t].End()));
    } else {
      RoundIdle(r, base, f, end, bs, t, k, t + 1, Word(r, bs[t].End()));
    }
  }

  lemma LinkedLength(m: seq<byte>, end: nat, bs: seq<Block>, t: nat)
    requires t < |bs|
    ensures |Linked(m, end, bs, t)| == |m|
  {
  }

  lemma LinkedSize(m: seq<byte>, base: nat, free: int, end: nat, bs: seq<Block>, q: nat, x: int, j: nat)
    requires ThreadedBut(m, base, free, end, bs, q, x) && j < |bs|
    ensures Word(m, bs[j].addr + 4) == bs[j].size
  {
    hide FreeBlocks;
    hide Word;
    hide Strung;
    assert HeaderBut(m, bs, j, q, x);
  }

  lemma NoneOff(m: seq<byte>, base: nat, free: int, end: nat, bs: seq<Block>, q: nat, x: int, cs: seq<Block>)
    requires ThreadedBut(m, base, free, end, bs, q, x) && q >= |bs| && |cs| >= |bs|
    ensures ThreadedBut(m, base, free, end, bs, |cs|, 0)
  {
    hide FreeBlocks;
    hide Word;
    hide Strung;
    forall j | 0 <= j < |bs| ensures HeaderBut(m, bs, j, |cs|, 0) {
      assert HeaderBut(m, bs, j, q, x);
    }
  }

  /** The next free block is not the next block when that one is used. */
  lemma NotNext(bs: seq<Block>, base: nat, end: nat, t: nat, k: nat)
    requires Strung(bs, base, end) && t + 1 < |bs| && bs[t].used && bs[t + 1].used && k == |FreeBlocks(bs[..t])|
    ensures AddrOr(FreeBlocks(bs), k, end) != bs[t + 1].addr
  {
    hide FreeBlocks;
    hide Strung;
    StrungNear(bs, base, end, t + 1);
    if k < |FreeBlocks(bs)| {
      var j := FreeIndex(bs, k);
      StrungNear(bs, base, end, j);
    }
  }

  /** The free block below, in a layout that agrees up to the freed block. */
  lemma LowerSame(bs: seq<Block>, cs: seq<Block>, base: nat, end: nat, t: nat, k: nat)
    requires Snug(bs, base, end) && t < |bs| && bs[t].used && k == |FreeBlocks(bs[..t])|
    requires t < |cs| && cs[..t] == bs[..t]
    ensures k > 0 ==> LowerAt(bs, t) != 0 || base == 0
    ensures t > 0 && !bs[t - 1].used ==> k > 0 && LowerAt(bs, t) == bs[t - 1].addr && |FreeBlocks(cs[..t - 1])| == k - 1
    ensures k > 0 && bs[t - 1].used ==> exists j :: 0 <= j < t - 1 && bs[j].addr == LowerAt(bs, t) && !bs[j].used
    ensures k > 0 ==> t > 0
  {
    hide FreeBlocks;
    hide Strung;
    AroundFreed(bs, base, end, t, k);
    if t > 0 {
      OneMoreUsed(bs, t - 1);
      FreeAround(bs, t - 1);
      assert cs[..t - 1] == cs[..t][..t - 1] && bs[..t - 1] == bs[..t][..t - 1];
    }
    if k > 0 {
      var j := FreeIndex(bs, k - 1);
      StrungNear(bs, base, end, t);
      assert j < t;
      if t - 1 == j {
        assert !bs[t - 1].used;
      }
    }
  }

  /** The second round merges the freed block into a free block right below it, and does nothing otherwise. */
  lemma RoundTwo(m: seq<byte>, base: nat, free: int, end: nat, bs: seq<Block>, cs: seq<Block>, q: nat, x: int, t: nat, k: nat)
    requires Snug(bs, base, end) && t < |bs| && bs[t].used && k == |FreeBlocks(bs[..t])|
    requires Nearly(cs, base, end, t) && t < |cs| && cs[..t] == bs[..t] && cs[t].addr == bs[t].addr && !cs[t].used
    requires ThreadedBut(m, base, free, end, cs, q, x) && (q == t + 1 || q >= |cs|)
    requires 0 < base && end + FREE_HEADER <= |m| && end - base + FREE_HEADER <= U32
    ensures var p := LowerAt(bs, t);
            var r := if p != 0 then Round(m, end, p, bs[t].addr) else m;
            if t > 0 && !bs[t - 1].used
            then ThreadedBut(r, base, free, end, MergeAt(cs, t - 1), StillOff(cs, t - 1, q), Wrap32(x + bs[t - 1].size))
            else r == m
  {
    hide FreeBlocks;
    hide Word;
    hide Strung;
    hide MergeAt;
    hide ThreadedBut;
    hide Wrap32;
    var p := LowerAt(bs, t);
    LowerSame(bs, cs, base, end, t, k);
    if t > 0 {
      assert cs[t - 1] == cs[..t][t - 1] == bs[t - 1];
    }
    if t > 0 && !bs[t - 1].used {
      StrungNear(bs, base, end, t - 1);
      RoundMerges(m, base, free, end, cs, q, x, t - 1, k - 1, t);
    } else if p != 0 {
      var j :| 0 <= j < t - 1 && bs[j].addr == p && !bs[j].used;
      assert cs[j] == cs[..t][j] == bs[j];
      LinkedSize(m, base, free, end, cs, q, x, j);
      StrungNear(bs, base, end, j);
      StrungNear(bs, base, end, j + 1);
    }
  }

  /** Freeing block `t` leaves the lists right: the next block is free, there is none, or its `prev` word survives. */
  ghost predicate FreesRight(bs: seq<Block>, t: nat)
    requires t < |bs|
  {
    bs[t].size >= FREE_HEADER || t + 1 == |bs| || !bs[t + 1].used || Clobber(Distance(bs, t), bs[t].size) == bs[t].size
  }

  lemma BothRounds(m: seq<byte>, base: nat, free: int, end: nat, bs: seq<Block>, t: nat, k: nat)
    requires Freeable(m, base, free, end, bs, t, k)
    ensures var b, n, p := bs[t].addr, AddrOr(FreeBlocks(bs), k, end), LowerAt(bs, t);
            var r1, f := Round(Linked(m, end, bs, t), end, b, n), if b < free then b else free;
            var r := if p != 0 then Round(r1, end, p, b) else r1;
            Threaded(r, base, f, end, Release(bs, t)) <==> FreesRight(bs, t)
  {
    hide FreeBlocks;
    hide Word;
    hide Strung;
    hide MergeAt;
    hide ThreadedBut;
    hide Threaded;
    hide Wrap32;
    hide Linked;
    hide Round;
    hide Clobber;
    hide LowerAt;
    var b, n, p := bs[t].addr, AddrOr(FreeBlocks(bs), k, end), LowerAt(bs, t);
    var m1, bs1, f := Linked(m, end, bs, t), Marked(bs, t, false), if b < free then b else free;
    var x := Word(m1, bs[t].End());
    var up, down := t + 1 < |bs| && !bs[t + 1].used, t > 0 && !bs[t - 1].used;
    LinkedBut(m, base, free, end, bs, t, k);
    RoundOne(m, base, free, end, bs, t, k);
    MarkedStrung(bs, base, end, t);
    var m2, cs, q, y := Round(m1, end, b, n), AbsorbNext(bs1, t), if up then |bs| else t + 1, if up then 0 else x;
    AbsorbedNearly(bs, base, end, t);
    LinkedLength(m, end, bs, t);
    assert cs == if up then MergeAt(bs1, t) else bs1;
    RoundTwo(m2, base, f, end, bs, cs, q, y, t, k);
    var r := if p != 0 then Round(m2, end, p, b) else m2;
    var ds := Release(bs, t);
    if t > 0 {
      assert cs[t - 1] == bs[t - 1];
    }
    assert ds == if down then MergeAt(cs, t - 1) else cs;
    if down {
      MergeElems(cs, t - 1);
      OneWordOff(r, base, f, end, ds, StillOff(cs, t - 1, q), Wrap32(y + bs[t - 1].size));
    } else {
      OneWordOff(r, base, f, end, ds, q, y);
    }
    if !up && t + 1 < |bs| {
      WordAfter(m, base, free, end, bs, t, k);
      StrungNear(bs, base, end, t);
      if down {
        StrungNear(bs, base, end, t - 1);
        WrapSum(x, bs[t - 1].size, bs[t].size);
      }
    }
  }

  lemma WrapSum(x: nat, y: nat, z: nat)
    requires x < U32 && y + z < U32
    ensures Wrap32(x + y) == y + z <==> x == z
  {
    assert Wrap32(x + y) == x + y || Wrap32(x + y) == x + y - U32;
  }

  lemma AbsorbedNearly(bs: seq<Block>, base: nat, end: nat, t: nat)
    requires Snug(bs, base, end) && t < |bs|
    ensures var cs := AbsorbNext(Marked(bs, t, false), t);
            && Nearly(cs, base, end, t) && t < |cs| && cs[..t] == bs[..t] && cs[t].addr == bs[t].addr && !cs[t].used
            && |cs| <= |bs| && (t + 1 < |bs| && !bs[t + 1].used ==> |cs| < |bs|)
  {
    MarkedStrung(bs, base, end, t);
    var b1 := Marked(bs, t, false);
    if t + 1 < |bs| && !bs[t + 1].used {
      MergedStrung(b1, base, end, t);
      MergeElems(b1, t);
    }
  }

  /** The shipped form takes the next free block for the previous one: the head of the free list then points back. */
  lemma PointsBack(m: seq<byte>, base: nat, free: int, end: nat, bs: seq<Block>, t: nat, pfreeNull: bool)
    requires Freeable(m, base, free, end, bs, t, 0) && !FreeSound(pfreeNull, bs, t)
    ensures var r := RawFree(m, free, end, bs[t].addr, pfreeNull); r.1 == bs[t].addr && Word(r.0, bs[t].addr + 16) != 0
  {
    hide FreeBlocks;
    hide Word;
    hide Strung;
    hide Cleared;
    hide Relinked;
    hide Found;
    hide Round;
    var b, n := bs[t].addr, AddrOr(FreeBlocks(bs), 0, end);
    var c := Cleared(m, b);
    FoundIs(m, base, free, end, bs, t, 0, pfreeNull);
    AroundFreed(bs, base, end, t, 0);
    StrungNear(bs, base, end, t);
    BackWord(c, end, b, n);
    var m1 := Relinked(c, end, b, n, n);
    var j := FreeIndex(bs, 0);
    ClearedKeeps(m, base, free, end, bs, t, j);
    StrungNear(bs, base, end, j);
    RelinkElsewhere(c, end, b, n, n, n + 4);
    RoundBack(m1, end, b, n);
    RoundDown(Round(m1, end, b, n), end, b, n);
  }

  lemma BackWord(m: seq<byte>, end: int, b: nat, n: int)
    requires b + 16 <= n < end && end + 20 <= |m| && n - b < U32
    ensures var r := Relinked(m, end, b, n, n); Word(r, b + 16) == Word(r, n + 12) == U32 - (n - b)
  {
    hide Word;
    hide Put;
    hide Wrap32;
    WrapBack(n - b);
    var m1 := Put(m, b + 12, n - b);
    var m2 := Put(m1, n + 16, Word(m1, b + 12));
    var m3 := Put(m2, b + 16, b - n);
    PutReads(m2, b + 16, b - n);
    SmallWrap(U32 - (n - b));
    PutReads(m3, n + 12, U32 - (n - b));
    PutApart(m3, n + 12, U32 - (n - b), b + 16);
  }

  lemma WrapBack(d: nat)
    requires 0 < d < U32
    ensures Wrap32(0 - d) == U32 - d
  {
  }

  lemma RoundBack(m: seq<byte>, end: int, b: nat, n: int)
    requires b + 16 <= n < end && Word(m, n + 12) == U32 - (n - b) && n - b < U32 && end - n < U32
    requires Word(m, b + 16) != 0 && Word(m, n + 4) >= 4
    ensures Word(Round(m, end, b, n), b + 16) != 0
  {
    hide Word;
    hide Put;
    var f, a := n + Word(m, n + 12), n + Word(m, n + 4);
    if n == b + Word(m, b + 4) {
      RoundElsewhere(m, end, b, n, b + 16);
    }
  }

  lemma RoundDown(m: seq<byte>, end: int, b: nat, n: int)
    requires b < n
    ensures Round(m, end, n, b) == m
  {
    hide Word;
    hide Put;
  }

  /**
    `free` of used block `t`, which may be short.  Where the previous free block is found right, the
    lists of the layout with the block released are there exactly when `FreesRight`; where it is not,
    no blocks fit the memory left behind.
   */
  lemma FreeExact(m: seq<byte>, base: nat, free: int, end: nat, bs: seq<Block>, t: nat, k: nat, pfreeNull: bool)
    requires Freeable(m, base, free, end, bs, t, k)
    ensures var r := RawFree(m, free, end, bs[t].addr, pfreeNull);
            if FreeSound(pfreeNull, bs, t) then Threaded(r.0, base, r.1, end, Release(bs, t)) <==> FreesRight(bs, t)
            else !Representable(r.0, base, r.1, end)
  {
    hide FreeBlocks;
    hide Word;
    hide Strung;
    hide Cleared;
    hide Relinked;
    hide Found;
    hide Round;
    hide Threaded;
    hide Release;
    hide FreesRight;
    hide Representable;
    FoundIs(m, base, free, end, bs, t, k, pfreeNull);
    AroundFreed(bs, base, end, t, k);
    if FreeSound(pfreeNull, bs, t) {
      BothRounds(m, base, free, end, bs, t, k);
    } else {
      PointsBack(m, base, free, end, bs, t, pfreeNull);
      var r := RawFree(m, free, end, bs[t].addr, pfreeNull);
      StrungNear(bs, base, end, t);
      HeadPointsBack(r.0, base, r.1, end);
    }
  }

  // ----------------------------------------------------------- cut, then freed

  lemma CarvedSnug(bs: seq<Block>, base: nat, end: nat, i: nat, size: nat)
    requires Tiled(bs, base, end) && Cuts(bs, i, size) && 16 <= size
    ensures Snug(Carve(bs, i, size), base, end)
  {
    hide Carve;
    hide Strung;
    CarvedStrung(bs, base, end, i, size);
    CarvedShape(bs, i, size);
  }

  /**
    A short block that `alloc` just cut off, freed: the arena is exactly as before when NULL on 0 is
    used or a free block lies below, and no blocks fit the memory otherwise.
   */
  lemma ShortUndone(m: seq<byte>, base: nat, free: int, end: nat, bs: seq<Block>, i: nat, size: nat, pfreeNull: bool)
    requires Legal(bs, base, end) && Cuts(bs, i, size) && 16 <= size && Threaded(m, base, free, end, Carve(bs, i, size))
    requires 0 < base && end + FREE_HEADER <= |m| && end - base + FREE_HEADER <= U32
    ensures var r := RawFree(m, free, end, bs[i].addr, pfreeNull);
            if pfreeNull || FreeBelow(bs, i) then
              && Threaded(r.0, base, r.1, end, bs)
              && PayloadKept(bs, m, r.0) && OutsideKept(base, end, m, r.0)
            else !Representable(r.0, base, r.1, end)
  {
    hide FreeBlocks;
    hide Carve;
    hide Release;
    hide Threaded;
    hide Snug;
    hide Tiled;
    hide RawFree;
    hide Representable;
    hide PayloadKept;
    hide OutsideKept;
    var c := Carve(bs, i, size);
    CarvedSnug(bs, base, end, i, size);
    CarvedShape(bs, i, size);
    ReleaseUndoesCarve(bs, i, size);
    var k := |FreeBlocks(c[..i])|;
    FreeExact(m, base, free, end, c, i, k, pfreeNull);
    BelowSame(bs, c, i);
    assert !c[i + 1].used;
    if FreeSound(pfreeNull, c, i) {
      FreeSpares(m, base, free, end, c, i, k, pfreeNull);
      SparedMore(bs, i, size, m, RawFree(m, free, end, bs[i].addr, pfreeNull).0);
    }
  }

  lemma BelowSame(bs: seq<Block>, cs: seq<Block>, i: nat)
    requires i <= |bs| && i <= |cs| && forall j :: 0 <= j < i ==> cs[j] == bs[j]
    ensures FreeBelow(bs, i) <==> FreeBelow(cs, i)
  {
    if FreeBelow(bs, i) {
      var j :| 0 <= j < i && j < |bs| && !bs[j].used;
      assert cs[j] == bs[j];
    }
    if FreeBelow(cs, i) {
      var j :| 0 <= j < i && j < |cs| && !cs[j].used;
      assert bs[j] == cs[j];
    }
  }

  lemma SparedMore(bs: seq<Block>, i: nat, size: nat, m: seq<byte>, r: seq<byte>)
    requires Cuts(bs, i, size)
    requires i < |Carve(bs, i, size)| && PayloadKept(Marked(Carve(bs, i, size), i, false), m, r)
    ensures PayloadKept(bs, m, r)
  {
    hide Carve;
    CarvedShape(bs, i, size);
    var keep := Marked(Carve(bs, i, size), i, false);
    forall j, x | 0 <= j < |bs| && bs[j].used && bs[j].Payload() <= x < bs[j].End() && x < |m| ensures r[x] == m[x] {
      assert keep[if j < i then j else j + 1] == bs[j];
    }
  }

  // ------------------------------------------------------------- what is touched

  /** A word of a header, or of a free block, overlaps no live payload. */
  lemma SafeAt(keep: seq<Block>, bs: seq<Block>, base: nat, end: nat, j: nat, off: nat)
    requires Strung(bs, base, end) && Survives(keep, bs) && j < |bs|
    requires off + 4 <= USED_HEADER || (!bs[j].used && off + 4 <= bs[j].size)
    ensures SafeWord(keep, bs[j].addr + off) && base <= bs[j].addr + off && bs[j].addr + off + 4 <= end
  {
    hide Strung;
    StrungNear(bs, base, end, j);
    forall i | 0 <= i < |keep| && keep[i].used ensures bs[j].addr + off + 4 <= keep[i].Payload() || keep[i].End() <= bs[j].addr + off {
      assert keep[i] in keep;
      var g :| 0 <= g < |bs| && bs[g] == keep[i];
    }
  }

  /** So does the last word of a short free header, which spills into the next header. */
  lemma SafeSpill(keep: seq<Block>, bs: seq<Block>, base: nat, end: nat, j: nat)
    requires Strung(bs, base, end) && Survives(keep, bs) && j + 1 < |bs| && !bs[j].used && bs[j].size >= 16
    ensures SafeWord(keep, bs[j].addr + 16) && base <= bs[j].addr + 16 && bs[j].addr + 20 <= end
  {
    hide Strung;
    StrungNear(bs, base, end, j);
    StrungNear(bs, base, end, j + 1);
    forall i | 0 <= i < |keep| && keep[i].used ensures bs[j].addr + 20 <= keep[i].Payload() || keep[i].End() <= bs[j].addr + 16 {
      assert keep[i] in keep;
      var g :| 0 <= g < |bs| && bs[g] == keep[i];
    }
  }

  ghost predicate Spared(keep: seq<Block>, base: int, end: int, m0: seq<byte>, m: seq<byte>) {
    PayloadKept(keep, m0, m) && OutsideKept(base, end, m0, m)
  }

  lemma PutSpares(keep: seq<Block>, base: int, end: int, m0: seq<byte>, m: seq<byte>, x: int, v: int)
    requires Spared(keep, base, end, m0, m) && base <= end && SafeWord(keep, x) && base <= x && x + 4 <= end
    ensures Spared(keep, base, end, m0, Put(m, x, v))
  {
    hide PayloadKept;
    hide OutsideKept;
    hide SafeWord;
    if 0 <= x && x + 4 <= |m| {
      StoredOneWord(m, x, Wrap32(v));
      TouchKeeps(keep, base, end, m0, m, Put(m, x, v), x);
    }
  }

  /** A merging round touches headers and free blocks only. */
  lemma RoundSpares(keep: seq<Block>, m0: seq<byte>, m: seq<byte>, base: nat, free: int, end: nat, bs: seq<Block>, q: nat, x: int, i: nat, k: nat, e: nat)
    requires ThreadedBut(m, base, free, end, bs, q, x) && Merges(bs, base, end, i, k, e) && end + FREE_HEADER <= |m|
    requires Survives(keep, bs) && Spared(keep, base, end, m0, m)
    ensures Spared(keep, base, end, m0, Round(m, end, bs[i].addr, bs[i + 1].addr))
  {
    hide FreeBlocks;
    hide Word;
    hide Strung;
    hide ThreadedBut;
    hide Put;
    hide Spared;
    hide SafeWord;
    hide Survives;
    hide AddrOr;
    var b, n, fs := bs[i].addr, bs[i + 1].addr, FreeBlocks(bs);
    AroundMerge(m, base, free, end, bs, q, x, i, k, e);
    StrungNear(bs, base, end, i);
    var f, a := n + Word(m, n + 12), n + Word(m, n + 4);
    var u := Word(m, f + 16) + Word(m, b + 12);
    var m1 := if f != end then Put(m, f + 16, u) else m;
    if f != end {
      NthAddr(fs, end, k + 2);
      FreeClear(bs, base, end, i, k, e, k + 2, i);
      var g := FreeIndex(bs, k + 2);
      SafeAt(keep, bs, base, end, g, 16);
      PutSpares(keep, base, end, m0, m, f + 16, u);
      PutApart(m, f + 16, u, n + 4);
    }
    var v := Word(m1, a) + Word(m1, b + 4);
    var m2 := if a != end then Put(m1, a, v) else m1;
    if a != end {
      SafeAt(keep, bs, base, end, i + 2, 0);
      PutSpares(keep, base, end, m0, m1, a, v);
    }
    var w := Word(m2, b + 12) + Word(m2, n + 12);
    SafeAt(keep, bs, base, end, i, 12);
    PutSpares(keep, base, end, m0, m2, b + 12, w);
    var m3 := Put(m2, b + 12, w);
    SafeAt(keep, bs, base, end, i, 4);
    PutSpares(keep, base, end, m0, m3, b + 4, Word(m3, b + 4) + Word(m3, n + 4));
  }

  /** Linking the block in touches headers, free blocks and the block itself only. */
  lemma LinkSpares(m: seq<byte>, base: nat, free: int, end: nat, bs: seq<Block>, t: nat, k: nat)
    requires Freeable(m, base, free, end, bs, t, k) && t + 1 < |bs|
    ensures Spared(Marked(bs, t, false), base, end, m, Linked(m, end, bs, t))
  {
    hide FreeBlocks;
    hide Word;
    hide Strung;
    hide Put;
    hide SafeWord;
    hide AddrOr;
    hide Spared;
    hide Survives;
    hide Marked;
    var bs1, fs, b, n, p := Marked(bs, t, false), FreeBlocks(bs), bs[t].addr, AddrOr(FreeBlocks(bs), k, end), LowerAt(bs, t);
    MarkedStrung(bs, base, end, t);
    MarkedElems(bs, t, false);
    SurvivesItself(bs1);
    NothingSpared(bs1, base, end, m);
    AroundFreed(bs, base, end, t, k);
    StrungNear(bs, base, end, t);
    NthIs(fs, end, k);
    SafeSpill(bs1, bs1, base, end, t);
    SafeAt(bs1, bs1, base, end, t, 8);
    SafeAt(bs1, bs1, base, end, t, 12);
    var c1 := Put(m, b + 16, 0);
    var c := Put(c1, b + 8, 0);
    var m1 := Put(c, b + 12, n - b);
    PutSpares(bs1, base, end, m, m, b + 16, 0);
    PutSpares(bs1, base, end, m, c1, b + 8, 0);
    PutSpares(bs1, base, end, m, c, b + 12, n - b);
    var v := Word(m1, b + 12);
    var m2 := if n != end then Put(m1, n + 16, v) else m1;
    if n != end {
      var g := FreeIndex(bs, k);
      SafeFree(bs, base, end, t, g, 16);
      PutSpares(bs1, base, end, m, m1, n + 16, v);
    }
    if p != 0 {
      var m3 := Put(m2, b + 16, b - p);
      PutSpares(bs1, base, end, m, m2, b + 16, b - p);
      var g := FreeIndex(bs, k - 1);
      SafeFree(bs, base, end, t, g, 12);
      PutSpares(bs1, base, end, m, m3, p + 12, Word(m3, b + 16));
    }
  }

  lemma SafeFree(bs: seq<Block>, base: nat, end: nat, t: nat, g: nat, off: nat)
    requires Snug(bs, base, end) && t < |bs| && g < |bs| && !bs[g].used && off + 4 <= FREE_HEADER
    ensures SafeWord(Marked(bs, t, false), bs[g].addr + off) && base <= bs[g].addr + off && bs[g].addr + off + 4 <= end
  {
    hide Strung;
    hide SafeWord;
    hide Survives;
    MarkedStrung(bs, base, end, t);
    SurvivesItself(Marked(bs, t, false));
    SafeAt(Marked(bs, t, false), Marked(bs, t, false), base, end, g, off);
  }

  lemma NothingSpared(keep: seq<Block>, base: int, end: int, m: seq<byte>)
    ensures Spared(keep, base, end, m, m)
  {
  }

  lemma MergeSurvive(keep: seq<Block>, bs: seq<Block>, i: nat)
    requires Survives(keep, bs) && i + 1 < |bs| && !bs[i].used && !bs[i + 1].used
    ensures Survives(keep, MergeAt(bs, i))
  {
    MergeElems(bs, i);
    var r := MergeAt(bs, i);
    forall x | x in keep && x.used ensures x in r {
      var j :| 0 <= j < |bs| && bs[j] == x;
      assert r[if j < i then j else j - 1] == x;
    }
  }

  /** `free` of a block, short or not, changes no other live payload and nothing outside the arena. */
  lemma FreeSpares(m: seq<byte>, base: nat, free: int, end: nat, bs: seq<Block>, t: nat, k: nat, pfreeNull: bool)
    requires Freeable(m, base, free, end, bs, t, k) && t + 1 < |bs| && FreeSound(pfreeNull, bs, t)
    ensures var r := RawFree(m, free, end, bs[t].addr, pfreeNull).0;
            PayloadKept(Marked(bs, t, false), m, r) && OutsideKept(base, end, m, r)
  {
    hide FreeBlocks;
    hide Word;
    hide Strung;
    hide Cleared;
    hide Relinked;
    hide Found;
    hide Round;
    hide Threaded;
    hide ThreadedBut;
    hide PayloadKept;
    hide OutsideKept;
    hide MergeAt;
    hide LowerAt;
    var b, n, p := bs[t].addr, AddrOr(FreeBlocks(bs), k, end), LowerAt(bs, t);
    var m1, bs1, f := Linked(m, end, bs, t), Marked(bs, t, false), if b < free then b else free;
    var up, x := !bs[t + 1].used, Word(m1, bs[t].End());
    FoundIs(m, base, free, end, bs, t, k, pfreeNull);
    LinkedBut(m, base, free, end, bs, t, k);
    LinkSpares(m, base, free, end, bs, t, k);
    LinkedLength(m, end, bs, t);
    RoundOne(m, base, free, end, bs, t, k);
    MarkedStrung(bs, base, end, t);
    SurvivesItself(bs1);
    assert bs1[..t] == bs[..t];
    var m2, cs, q, y := Round(m1, end, b, n), AbsorbNext(bs1, t), if up then |bs| else t + 1, if up then 0 else x;
    if up {
      RoundUp(m1, base, f, end, bs, t, k, x);
      RoundSpares(bs1, m, m1, base, f, end, bs1, t + 1, x, t, k, t);
      MergeSurvive(bs1, bs1, t);
    }
    AbsorbedNearly(bs, base, end, t);
    RoundTwo(m2, base, f, end, bs, cs, q, y, t, k);
    LowerSame(bs, cs, base, end, t, k);
    if t > 0 && !bs[t - 1].used && p != 0 {
      assert cs[t - 1] == cs[..t][t - 1] == bs[t - 1];
      RoundSpares(bs1, m, m2, base, f, end, cs, q, y, t - 1, k - 1, t);
    }
  }
}
