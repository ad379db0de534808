/**
  The stores of `split`, `use_block` and an in-place `realloc` (`rtprog/alloc.c`) on plain bytes,
  with nothing known about the headers: what they do when a piece is too small for its header,
  so that headers overlap.
 */
module Raw {
  import opened Ram
  import opened Words

  /** A store to the word at `x`; one outside the memory is lost. */
  function Put(m: seq<byte>, x: int, v: int): (r: seq<byte>)
    ensures |r| == |m|
  {
    if 0 <= x && x + 4 <= |m| then Stored(m, x, Wrap32(v)) else m
  }

  /** The header that `alloc_init` writes. */
  function RawInit(m: seq<byte>, b: int, size: int): (r: seq<byte>)
    ensures |r| == |m|
  {
    Put(Put(Put(Put(Put(m, b, 0), b + 4, size), b + 8, 0), b + 12, size), b + 16, 0)
  }

  /** `split(b, size)`. */
  function RawSplit(m0: seq<byte>, end: int, b: int, size: int): (r: seq<byte>)
    ensures |r| == |m0|
  {
    var s := b + size;
    var m7 := SplitHeads(m0, b, size);
    var n := s + Word(m7, s + 4);
    var m8 := if n != end then Put(m7, n, Word(m7, n) - size) else m7;
    var f := s + Word(m8, s + 12);
    if f != end then Put(m8, f + 16, Word(m8, f + 16) - size) else m8
  }

  /** The stores of `split` to the two pieces. */
  function SplitHeads(m0: seq<byte>, b: int, size: int): (r: seq<byte>)
    ensures |r| == |m0|
  {
    var s := b + size;
    var m1 := Put(m0, s + 4, Word(m0, b + 4) - size);
    var m2 := Put(m1, b + 4, size);
    var m3 := Put(m2, s, size);
    var m4 := Put(m3, s + 12, Word(m3, b + 12) - size);
    var m5 := Put(m4, b + 12, Word(m4, b + 4));
    var m6 := Put(m5, s + 16, Word(m5, s));
    Put(m6, s + 8, 0)
  }

  /** The stores of `split` to the block and the free block after the second piece `s`. */
  function SplitTail(m7: seq<byte>, end: int, s: int, size: int): (r: seq<byte>)
    ensures |r| == |m7|
  {
    var n := s + Word(m7, s + 4);
    var m8 := if n != end then Put(m7, n, Word(m7, n) - size) else m7;
    var f := s + Word(m8, s + 12);
    if f != end then Put(m8, f + 16, Word(m8, f + 16) - size) else m8
  }

  lemma SplitIs(m: seq<byte>, end: int, b: int, size: int)
    ensures RawSplit(m, end, b, size) == SplitTail(SplitHeads(m, b, size), end, b + size, size)
  {
    hide Put;
    hide Word;
    hide SplitHeads;
  }

  /** `use_block(b)`: memory and the list head. */
  function RawUse(m0: seq<byte>, free: int, end: int, b: int): (r: (seq<byte>, int))
    ensures |r.0| == |m0|
  {
    if b == free then
      var f := b + Word(m0, b + 12);
      var m1 := Put(m0, f + 16, 0);
      (Put(m1, b + 8, 1), f)
    else
      var pf := b - Word(m0, b + 16);
      var m1 := Put(m0, pf + 12, Word(m0, pf + 12) + Word(m0, b + 12));
      var nf := b + Word(m1, b + 12);
      var m2 := if nf != end then Put(m1, nf + 16, Word(m1, nf + 16) + Word(m1, b + 16)) else m1;
      (Put(m2, b + 8, 1), free)
  }

  /** The end of an in-place `realloc`: `b` takes in the block `n` after it. */
  function RawJoin(m0: seq<byte>, end: int, b: int, n: int): (r: seq<byte>)
    ensures |r| == |m0|
  {
    var nn := n + Word(m0, n + 4);
    var m1 := if nn != end then Put(m0, nn, Word(m0, nn) + Word(m0, b + 4)) else m0;
    Put(m1, b + 4, Word(m1, b + 4) + Word(m1, n + 4))
  }

  /** Cut `size` bytes off free block `b` and take them. */
  function RawCarve(m: seq<byte>, free: int, end: int, b: int, size: int): (r: (seq<byte>, int))
    ensures |r.0| == |m|
  {
    RawUse(RawSplit(m, end, b, size), free, end, b)
  }

  /** The end of `alloc`: take `size` bytes of free block `b`, or all of it when the rest is not worth keeping. */
  function RawTake(m: seq<byte>, free: int, end: int, b: int, size: int): (r: (seq<byte>, int))
    ensures |r.0| == |m|
  {
    if (Word(m, b + 4) - size) % U64 >= 40 then RawCarve(m, free, end, b, size) else RawUse(m, free, end, b)
  }

  /** The end of `aligned_alloc`: cut `gap` bytes off free block `b`, then take `xlen` of the rest. */
  function RawAligned(m: seq<byte>, free: int, end: int, b: int, gap: nat, xlen: nat): (r: (seq<byte>, int, int))
    ensures |r.0| == |m|
  {
    var m1 := if gap != 0 then RawSplit(m, end, b, gap) else m;
    var best := if gap != 0 then b + Word(m1, b + 4) else b;
    var m2 := if (Word(m1, best + 4) - xlen) % U64 >= 40 then RawSplit(m1, end, best, xlen % U32) else m1;
    var u := RawUse(m2, free, end, best);
    (u.0, u.1, best)
  }

  /** The in-place case of `realloc`: block `b` takes `size` bytes, or all, of the free block `n` after it. */
  function RawExtend(m: seq<byte>, free: int, end: int, b: int, n: int, size: int): (r: (seq<byte>, int))
    ensures |r.0| == |m|
  {
    var c := RawTake(m, free, end, n, size);
    (RawJoin(c.0, end, b, n), c.1)
  }

  /** The same when the block after it is split. */
  function RawGrow(m: seq<byte>, free: int, end: int, b: int, n: int, size: int): (r: (seq<byte>, int))
    ensures |r.0| == |m|
  {
    var c := RawCarve(m, free, end, n, size);
    (RawJoin(c.0, end, b, n), c.1)
  }

  // -------------------------------------------------------------------- bytes

  function Byte(m: seq<byte>, y: int): int {
    if 0 <= y < |m| then m[y] as int else 0
  }

  /** Byte `k` of a word. */
  function ByteOf(v: nat, k: int): int {
    if k == 0 then v % 0x100 else if k == 1 then v / 0x100 % 0x100 else if k == 2 then v / 0x1_0000 % 0x100 else v / 0x100_0000
  }

  lemma PutByte(m: seq<byte>, x: int, v: int, y: int)
    ensures Byte(Put(m, x, v), y) ==
            if 0 <= x && x + 4 <= |m| && x <= y < x + 4 then ByteOf(Wrap32(v), y - x) else Byte(m, y)
  {
    hide Wrap32;
  }

  lemma WordBytes(m: seq<byte>, x: int)
    requires 0 <= x && x + 4 <= |m|
    ensures Word(m, x) == Byte(m, x) + 0x100 * Byte(m, x + 1) + 0x1_0000 * Byte(m, x + 2) + 0x100_0000 * Byte(m, x + 3)
    ensures Word(m, x) % 0x100 == Byte(m, x)
  {
  }

  /** Two memories with the same bytes hold the same word. */
  lemma SameWord(m: seq<byte>, m': seq<byte>, x: int)
    requires |m| == |m'| && forall y :: x <= y < x + 4 ==> Byte(m', y) == Byte(m, y)
    ensures Word(m', x) == Word(m, x)
  {
    if 0 <= x && x + 4 <= |m| {
      WordBytes(m, x);
      WordBytes(m', x);
    }
  }

  /** A store leaves every word it does not overlap. */
  lemma PutApart(m: seq<byte>, x: int, v: int, y: int)
    requires y + 4 <= x || x + 4 <= y
    ensures Word(Put(m, x, v), y) == Word(m, y)
  {
    hide Wrap32;
    hide Word;
    forall z | y <= z < y + 4 ensures Byte(Put(m, x, v), z) == Byte(m, z) {
      PutByte(m, x, v, z);
    }
    SameWord(m, Put(m, x, v), y);
  }

  lemma PutReads(m: seq<byte>, x: int, v: int)
    requires 0 <= x && x + 4 <= |m|
    ensures Word(Put(m, x, v), x) == Wrap32(v)
  {
    hide Wrap32;
    StoredReadsBack(m, x, Wrap32(v));
  }

  // ----------------------------------------------------------- sizes after a split

  /** The size left in the first piece's header once both headers are written. */
  function Overwritten(size: nat): nat {
    if size < 4 then 0 else if size == 5 then 0x505 else if size == 6 then 0x6_0006 else if size == 7 then 0x700_0007 else size
  }

  /** With the pieces' headers apart, or the second from the fifth word of the first on, the size is there. */
  lemma HeadsFar(m: seq<byte>, b: nat, size: nat)
    requires 8 <= size < 0x1_0000 && b + size + 20 <= |m|
    ensures var r := SplitHeads(m, b, size); Word(r, b + 4) == size && Word(r, b + 12) == size
  {
    hide Word;
    hide Put;
    hide Wrap32;
    var s := b + size;
    var m1 := Put(m, s + 4, Word(m, b + 4) - size);
    var m2 := Put(m1, b + 4, size);
    var m3 := Put(m2, s, size);
    var m4 := Put(m3, s + 12, Word(m3, b + 12) - size);
    var m5 := Put(m4, b + 12, Word(m4, b + 4));
    var m6 := Put(m5, s + 16, Word(m5, s));
    SmallWrap(size);
    PutReads(m1, b + 4, size);
    PutApart(m2, s, size, b + 4);
    PutApart(m3, s + 12, Word(m3, b + 12) - size, b + 4);
    PutApart(m4, b + 12, Word(m4, b + 4), b + 4);
    PutReads(m4, b + 12, Word(m4, b + 4));
    PutApart(m5, s + 16, Word(m5, s), b + 4);
    PutApart(m5, s + 16, Word(m5, s), b + 12);
    PutApart(m6, s + 8, 0, b + 4);
    PutApart(m6, s + 8, 0, b + 12);
  }

  lemma SmallWrap(v: int)
    requires 0 <= v < 0x1_0000_0000
    ensures Wrap32(v) == v
  {
  }

  /** The first two stores to the pieces' headers that can meet, byte by byte. */
  lemma EarlyBytes(m: seq<byte>, b: nat, size: nat, y: int)
    requires 0 < size < 8 && b + size + 20 <= |m| && b <= y < b + 12
    ensures var s := b + size;
            var m3 := Put(Put(Put(m, s + 4, Word(m, b + 4) - size), b + 4, size), s, size);
            && (s <= y < s + 4 ==> Byte(m3, y) == if y == s then size else 0)
            && (!(s <= y < s + 4) && b + 4 <= y < b + 8 ==> Byte(m3, y) == if y == b + 4 then size else 0)
  {
    hide Wrap32;
    hide Put;
    hide Word;
    hide Byte;
    var s := b + size;
    var m1 := Put(m, s + 4, Word(m, b + 4) - size);
    var m2 := Put(m1, b + 4, size);
    SmallWrap(size);
    PutByte(m1, b + 4, size, y);
    PutByte(m2, s, size, y);
  }

  /** The later stores to the headers miss the first eleven bytes. */
  lemma LateBytes(m3: seq<byte>, b: nat, size: nat, y: int)
    requires 0 < size < 8 && b + size + 20 <= |m3| && b <= y < b + 12 && y < b + size + 8
    ensures var s := b + size;
            var m4 := Put(m3, s + 12, Word(m3, b + 12) - size);
            var m5 := Put(m4, b + 12, Word(m4, b + 4));
            var m6 := Put(m5, s + 16, Word(m5, s));
            Byte(Put(m6, s + 8, 0), y) == Byte(m3, y)
  {
    hide Wrap32;
    hide Put;
    hide Word;
    hide Byte;
    var s := b + size;
    var m4 := Put(m3, s + 12, Word(m3, b + 12) - size);
    var m5 := Put(m4, b + 12, Word(m4, b + 4));
    var m6 := Put(m5, s + 16, Word(m5, s));
    PutByte(m3, s + 12, Word(m3, b + 12) - size, y);
    PutByte(m4, b + 12, Word(m4, b + 4), y);
    PutByte(m5, s + 16, Word(m5, s), y);
    PutByte(m6, s + 8, 0, y);
  }

  /** Headers that meet, byte by byte. */
  lemma HeadBytes(m: seq<byte>, b: nat, size: nat, y: int)
    requires 0 < size < 8 && b + size + 20 <= |m| && b <= y < b + 12 && y < b + size + 8
    ensures var s, r := b + size, SplitHeads(m, b, size);
            && (s <= y < s + 4 ==> Byte(r, y) == if y == s then size else 0)
            && (!(s <= y < s + 4) && b + 4 <= y < b + 8 ==> Byte(r, y) == if y == b + 4 then size else 0)
  {
    hide Put;
    hide Word;
    hide Byte;
    var s := b + size;
    var m3 := Put(Put(Put(m, s + 4, Word(m, b + 4) - size), b + 4, size), s, size);
    EarlyBytes(m, b, size, y);
    LateBytes(m3, b, size, y);
  }

  lemma HeadsMeet(m: seq<byte>, b: nat, size: nat)
    requires 0 < size < 8 && b + size + 20 <= |m|
    ensures Word(SplitHeads(m, b, size), b + 4) == Overwritten(size)
    ensures Word(SplitHeads(m, b, size), b + size) == size
  {
    hide SplitHeads;
    hide Byte;
    hide Word;
    var r, s := SplitHeads(m, b, size), b + size;
    HeadBytes(m, b, size, b + 4);
    HeadBytes(m, b, size, b + 5);
    HeadBytes(m, b, size, b + 6);
    HeadBytes(m, b, size, b + 7);
    WordBytes(r, b + 4);
    HeadBytes(m, b, size, s);
    HeadBytes(m, b, size, s + 1);
    HeadBytes(m, b, size, s + 2);
    HeadBytes(m, b, size, s + 3);
    WordBytes(r, s);
  }

  lemma HeadsSame(m: seq<byte>, b: nat)
    requires b + 20 <= |m|
    ensures var r := SplitHeads(m, b, 0); Word(r, b + 4) == 0 && Word(r, b + 12) == 0
  {
    hide Word;
    hide Put;
    hide Wrap32;
    var m1 := Put(m, b + 4, Word(m, b + 4) - 0);
    var m2 := Put(m1, b + 4, 0);
    var m3 := Put(m2, b, 0);
    var m4 := Put(m3, b + 12, Word(m3, b + 12) - 0);
    var m5 := Put(m4, b + 12, Word(m4, b + 4));
    var m6 := Put(m5, b + 16, Word(m5, b));
    SmallWrap(0);
    PutReads(m1, b + 4, 0);
    PutApart(m2, b, 0, b + 4);
    PutApart(m3, b + 12, Word(m3, b + 12) - 0, b + 4);
    PutApart(m4, b + 12, Word(m4, b + 4), b + 4);
    PutReads(m4, b + 12, Word(m4, b + 4));
    PutApart(m5, b + 16, Word(m5, b), b + 4);
    PutApart(m5, b + 16, Word(m5, b), b + 12);
    PutApart(m6, b + 8, 0, b + 4);
    PutApart(m6, b + 8, 0, b + 12);
  }

  /** The second piece's size word, where it decides which block is taken for the next one. */
  lemma NextAfterFour(m: seq<byte>, b: nat)
    requires b + 24 <= |m| && 4 <= Word(m, b + 4)
    ensures Word(SplitHeads(m, b, 4), b + 8) == Word(m, b + 4) - 4
  {
    hide Word;
    hide Put;
    hide Wrap32;
    var z := Word(m, b + 4) - 4;
    var m1 := Put(m, b + 8, z);
    var m2 := Put(m1, b + 4, 4);
    var m3 := Put(m2, b + 4, 4);
    var m4 := Put(m3, b + 16, Word(m3, b + 12) - 4);
    var m5 := Put(m4, b + 12, Word(m4, b + 4));
    var m6 := Put(m5, b + 20, Word(m5, b + 4));
    SmallWrap(z);
    PutReads(m, b + 8, z);
    PutApart(m1, b + 4, 4, b + 8);
    PutApart(m2, b + 4, 4, b + 8);
    PutApart(m3, b + 16, Word(m3, b + 12) - 4, b + 8);
    PutApart(m4, b + 12, Word(m4, b + 4), b + 8);
    PutApart(m5, b + 20, Word(m5, b + 4), b + 8);
    PutApart(m6, b + 12, 0, b + 8);
  }

  lemma NextAfterFive(m: seq<byte>, b: nat, size: nat)
    requires 5 <= size < 8 && b + size + 20 <= |m|
    ensures Word(SplitHeads(m, b, size), b + size + 4) >= 0x100
  {
    hide Word;
    hide Put;
    hide Wrap32;
    hide Byte;
    var s := b + size;
    var m3 := Put(Put(Put(m, s + 4, Word(m, b + 4) - size), b + 4, size), s, size);
    var m4 := Put(m3, s + 12, Word(m3, b + 12) - size);
    var w := Word(m4, b + 4);
    var m5 := Put(m4, b + 12, w);
    var m6 := Put(m5, s + 16, Word(m5, s));
    var m7 := Put(m6, s + 8, 0);
    PutApart(m4, b + 12, w, b + 4);
    PutApart(m5, s + 16, Word(m5, s), b + 4);
    PutApart(m6, s + 8, 0, b + 4);
    HeadsMeet(m, b, size);
    assert w == Overwritten(size);
    SmallWrap(w);
    PutByte(m4, b + 12, w, b + 12);
    PutByte(m5, s + 16, Word(m5, s), b + 12);
    PutByte(m6, s + 8, 0, b + 12);
    assert Byte(m7, b + 12) == size;
    WordBytes(m7, s + 4);
    BytesUp(m7, s + 4, b + 12);
  }

  lemma BytesUp(m: seq<byte>, x: nat, y: int)
    requires x + 4 <= |m| && x < y < x + 4 && Byte(m, y) > 0
    ensures Word(m, x) >= 0x100
  {
  }

  lemma NextAfterThree(m: seq<byte>, b: nat, size: nat)
    requires 0 < size < 4 && b + size + 20 <= |m|
    ensures Word(SplitHeads(m, b, size), b + size + 4) % 0x100 == 0
  {
    hide Word;
    hide SplitHeads;
    hide Byte;
    HeadBytes(m, b, size, b + size + 4);
    WordBytes(SplitHeads(m, b, size), b + size + 4);
  }

  /** The neighbours' stores do not touch the first piece's size. */
  lemma SplitSize(m: seq<byte>, end: int, b: nat, size: nat)
    requires size < 0x1_0000 && b + size + 20 <= |m| && size + 8 <= Word(m, b + 4)
    ensures Word(RawSplit(m, end, b, size), b + 4) == Overwritten(size)
  {
    hide Word;
    hide Put;
    hide SplitHeads;
    hide Overwritten;
    var s, m7 := b + size, SplitHeads(m, b, size);
    HeadsOf(m, b, size);
    var n := s + Word(m7, s + 4);
    var v := Word(m7, n) - size;
    var m8 := if n != end then Put(m7, n, v) else m7;
    assert Word(m8, b + 4) == Overwritten(size) by {
      if 0 < size < 4 && n == s {
        PutOver(m7, b, size);
      } else {
        PutApart(m7, n, v, b + 4);
      }
    }
    var f := s + Word(m8, s + 12);
    PutApart(m8, f + 16, Word(m8, f + 16) - size, b + 4);
  }

  lemma HeadsOf(m: seq<byte>, b: nat, size: nat)
    requires size < 0x1_0000 && b + size + 20 <= |m| && size + 8 <= Word(m, b + 4)
    ensures var r, s := SplitHeads(m, b, size), b + size;
            && Word(r, b + 4) == Overwritten(size)
            && (size == 0 || size >= 4 || Word(r, s + 4) == 0 || Word(r, s + 4) >= 0x100)
            && (4 <= size < 8 ==> Word(r, s + 4) >= 4)
            && (size == 0 ==> Word(r, s + 4) == 0)
            && (0 < size < 4 ==> Word(r, b + 4) == 0 && Word(r, s) == size)
  {
    hide SplitHeads;
    hide Word;
    if size == 0 {
      HeadsSame(m, b);
    } else if size < 4 {
      HeadsMeet(m, b, size);
      NextAfterThree(m, b, size);
    } else if size == 4 {
      HeadsMeet(m, b, size);
      NextAfterFour(m, b);
    } else if size < 8 {
      HeadsMeet(m, b, size);
      NextAfterFive(m, b, size);
    } else {
      HeadsFar(m, b, size);
    }
  }

  /** The second piece taken for its own neighbour: its `prev` word becomes 0. */
  lemma PutOver(m: seq<byte>, b: nat, size: nat)
    requires 0 < size < 4 && b + size + 8 <= |m| && Word(m, b + 4) == 0 && Word(m, b + size) == size
    ensures Word(Put(m, b + size, Word(m, b + size) - size), b + 4) == 0
  {
    hide Wrap32;
    hide Put;
    hide Word;
    hide Byte;
    var s := b + size;
    SmallWrap(0);
    WordBytes(m, b + 4);
    var r := Put(m, s, 0);
    ZeroBytes(m, b + 4);
    PutByte(m, s, 0, b + 4);
    PutByte(m, s, 0, b + 5);
    PutByte(m, s, 0, b + 6);
    PutByte(m, s, 0, b + 7);
    WordBytes(r, b + 4);
  }

  lemma ZeroBytes(m: seq<byte>, x: nat)
    requires x + 4 <= |m| && Word(m, x) == 0
    ensures Byte(m, x) == Byte(m, x + 1) == Byte(m, x + 2) == Byte(m, x + 3) == 0
  {
  }

  // ---------------------------------------------------------- what is left alone

  /** Words below the block are untouched by its split, and so is its `prev` word when the piece holds one. */
  lemma SplitBelow(m: seq<byte>, end: int, b: nat, size: nat, y: int)
    requires y + 4 <= b || (y == b && size >= 4)
    ensures Word(RawSplit(m, end, b, size), y) == Word(m, y)
  {
    hide Word;
    hide Put;
    var s := b + size;
    var m1 := Put(m, s + 4, Word(m, b + 4) - size);
    var m2 := Put(m1, b + 4, size);
    var m3 := Put(m2, s, size);
    var m4 := Put(m3, s + 12, Word(m3, b + 12) - size);
    var m5 := Put(m4, b + 12, Word(m4, b + 4));
    var m6 := Put(m5, s + 16, Word(m5, s));
    var m7 := Put(m6, s + 8, 0);
    PutApart(m, s + 4, Word(m, b + 4) - size, y);
    PutApart(m1, b + 4, size, y);
    PutApart(m2, s, size, y);
    PutApart(m3, s + 12, Word(m3, b + 12) - size, y);
    PutApart(m4, b + 12, Word(m4, b + 4), y);
    PutApart(m5, s + 16, Word(m5, s), y);
    PutApart(m6, s + 8, 0, y);
    var n := s + Word(m7, s + 4);
    PutApart(m7, n, Word(m7, n) - size, y);
    var m8 := if n != end then Put(m7, n, Word(m7, n) - size) else m7;
    var f := s + Word(m8, s + 12);
    PutApart(m8, f + 16, Word(m8, f + 16) - size, y);
  }

  /** What `use_block` leaves alone: words at the block's start, and below it, save where the free list is patched. */
  lemma UseElsewhere(m: seq<byte>, free: int, end: int, b: nat, y: int)
    requires y + 4 <= b + 8 || (b + 12 <= y && y + 4 <= b + 16)
    requires b == free || y + 4 <= b - Word(m, b + 16) + 12 || b - Word(m, b + 16) + 16 <= y
    ensures Word(RawUse(m, free, end, b).0, y) == Word(m, y)
  {
    hide Word;
    hide Put;
    if b == free {
      var f := b + Word(m, b + 12);
      PutApart(m, f + 16, 0, y);
      PutApart(Put(m, f + 16, 0), b + 8, 1, y);
    } else {
      var pf := b - Word(m, b + 16);
      var v := Word(m, pf + 12) + Word(m, b + 12);
      PutApart(m, pf + 12, v, y);
      var m1 := Put(m, pf + 12, v);
      var nf := b + Word(m1, b + 12);
      var w := Word(m1, nf + 16) + Word(m1, b + 16);
      PutApart(m1, nf + 16, w, y);
      PutApart(if nf != end then Put(m1, nf + 16, w) else m1, b + 8, 1, y);
    }
  }

  /** A small piece cut off the first free block and taken: its size is there, and all below it is as before. */
  lemma CarvedHead(m: seq<byte>, end: int, b: nat, size: nat, y: int)
    requires 8 <= size < 0x1_0000 && b + size + 20 <= |m| && size + 8 <= Word(m, b + 4)
    ensures Word(RawCarve(m, b, end, b, size).0, b + 4) == size
    ensures y + 4 <= b || y == b ==> Word(RawCarve(m, b, end, b, size).0, y) == Word(m, y)
  {
    hide Word;
    hide RawSplit;
    hide RawUse;
    var m1 := RawSplit(m, end, b, size);
    SplitSize(m, end, b, size);
    UseElsewhere(m1, b, end, b, b + 4);
    if y + 4 <= b || y == b {
      SplitBelow(m, end, b, size, y);
      UseElsewhere(m1, b, end, b, y);
    }
  }

  // -------------------------------------------------- 12 to 15 bytes of the head

  /** The second piece's `prev` word is overwritten by the first's `next_free` word. */
  lemma BackByte(m: seq<byte>, b: nat, size: nat, y: int)
    requires 13 <= size < 16 && b + size + 20 <= |m| && b + size <= y < b + size + 4
    ensures Byte(SplitHeads(m, b, size), y) == 0
  {
    hide Word;
    hide Put;
    hide Wrap32;
    hide Byte;
    var s := b + size;
    var m1 := Put(m, s + 4, Word(m, b + 4) - size);
    var m2 := Put(m1, b + 4, size);
    var m3 := Put(m2, s, size);
    var v := Word(m3, b + 12) - size;
    var m4 := Put(m3, s + 12, v);
    var m5 := Put(m4, b + 12, Word(m4, b + 4));
    var m6 := Put(m5, s + 16, Word(m5, s));
    SmallWrap(size);
    PutReads(m1, b + 4, size);
    PutApart(m2, s, size, b + 4);
    PutApart(m3, s + 12, v, b + 4);
    PutByte(m2, s, size, y);
    PutByte(m3, s + 12, v, y);
    PutByte(m4, b + 12, size, y);
    PutByte(m5, s + 16, Word(m5, s), y);
    PutByte(m6, s + 8, 0, y);
  }

  lemma BackZero(m: seq<byte>, end: int, b: nat, size: nat)
    requires 13 <= size < 16 && b + size + 20 <= |m| && size + 40 <= Word(m, b + 4)
    ensures Word(RawSplit(m, end, b, size), b + size) == 0
  {
    hide Word;
    hide Put;
    hide SplitHeads;
    hide Byte;
    var s, m7 := b + size, SplitHeads(m, b, size);
    BackByte(m, b, size, s);
    BackByte(m, b, size, s + 1);
    BackByte(m, b, size, s + 2);
    BackByte(m, b, size, s + 3);
    WordBytes(m7, s);
    FarHeads(m, b, size);
    var n := s + Word(m7, s + 4);
    var v := Word(m7, n) - size;
    PutApart(m7, n, v, s);
    var m8 := if n != end then Put(m7, n, v) else m7;
    var f := s + Word(m8, s + 12);
    PutApart(m8, f + 16, Word(m8, f + 16) - size, s);
  }

  /** The head moves to a second piece that points back nowhere, or at no next free block. */
  lemma HeadLost(m: seq<byte>, end: int, b: nat, size: nat)
    requires 12 <= size < 16 && b + size + 20 <= |m| && size + 40 <= Word(m, b + 4)
    ensures var c, s := RawCarve(m, b, end, b, size), b + size;
            c.1 == s && if size == 12 then Word(c.0, s + 12) == 0 else Word(c.0, s) == 0
  {
    hide Word;
    hide Put;
    hide RawSplit;
    var m1, s := RawSplit(m, end, b, size), b + size;
    FarWords(m, end, b, size);
    if size == 12 {
      PutApart(m1, s + 16, 0, s + 12);
      PutApart(Put(m1, s + 16, 0), b + 8, 1, s + 12);
    } else {
      BackZero(m, end, b, size);
      PutApart(m1, s + 16, 0, s);
      PutApart(Put(m1, s + 16, 0), b + 8, 1, s);
    }
  }

  // ------------------------------------------------------------- failed growth

  /** Taking free block `n` patches no word from `b` on but those of blocks above. */
  ghost predicate PatchesLow(m: seq<byte>, free: int, n: int, b: int) {
    n == free || n - Word(m, n + 16) + 16 <= b
  }

  /** The store to the free block below misses the size words of `b` and `n`. */
  ghost predicate PatchesOff(m: seq<byte>, free: int, n: int, b: int) {
    var x := n - Word(m, n + 16) + 12;
    n == free || ((x + 4 <= b + 4 || b + 8 <= x) && (x + 4 <= n + 4 || n + 8 <= x))
  }

  lemma SameSizeBack(m: seq<byte>, end: int, b: nat)
    requires b + 20 <= |m|
    ensures Word(RawSplit(m, end, b, 0), b + 16) == 0
  {
    hide Word;
    hide Put;
    hide Wrap32;
    HeadsSame(m, b);
    var m1 := Put(m, b + 4, Word(m, b + 4) - 0);
    var m2 := Put(m1, b + 4, 0);
    var m3 := Put(m2, b, 0);
    var m4 := Put(m3, b + 12, Word(m3, b + 12) - 0);
    var m5 := Put(m4, b + 12, Word(m4, b + 4));
    var m6 := Put(m5, b + 16, Word(m5, b));
    var m7 := Put(m6, b + 8, 0);
    SmallWrap(0);
    PutReads(m2, b, 0);
    PutApart(m3, b + 12, Word(m3, b + 12) - 0, b);
    PutApart(m4, b + 12, Word(m4, b + 4), b);
    PutReads(m5, b + 16, Word(m5, b));
    PutApart(m6, b + 8, 0, b + 16);
    var v := Word(m7, b) - 0;
    PutApart(m7, b, v, b + 16);
    PutApart(m7, b, v, b + 12);
    var m8 := if b != end then Put(m7, b, v) else m7;
    PutReads(m8, b + 16, Word(m8, b + 16) - 0);
  }

  /** `b` grows into the free block `n` of `z` bytes right after it; its size word is right. */
  ghost predicate Adjacent(m: seq<byte>, b: nat, n: nat, size: nat, end: int) {
    0 < n - b < 0x1_0000_0000 && b + 12 <= n && Word(m, b + 4) == n - b && size + 40 <= Word(m, n + 4) && n + Word(m, n + 4) <= end
    && end <= |m|
  }

  lemma JoinSizes(m: seq<byte>, end: int, b: nat, n: nat)
    requires b + 8 <= n && n + 8 <= |m| && (Word(m, n + 4) == 0 || Word(m, n + 4) >= 8)
    ensures var r := RawJoin(m, end, b, n);
            Word(r, b + 4) == Wrap32(Word(m, b + 4) + Word(m, n + 4)) && Word(r, n + 4) == Word(m, n + 4)
  {
    hide Word;
    hide Put;
    hide Wrap32;
    var nn := n + Word(m, n + 4);
    var v := Word(m, nn) + Word(m, b + 4);
    PutApart(m, nn, v, n + 4);
    PutApart(m, nn, v, b + 4);
    var m1 := if nn != end then Put(m, nn, v) else m;
    PutReads(m1, b + 4, Word(m1, b + 4) + Word(m1, n + 4));
    PutApart(m1, b + 4, Word(m1, b + 4) + Word(m1, n + 4), n + 4);
  }

  /** The overlapping second header at distance 4 makes the first piece's size that of `b` as well. */
  lemma JoinFour(m: seq<byte>, end: int, b: nat, n: nat)
    requires b + 8 <= n && n + 8 <= |m| && Word(m, n + 4) == 4 && n + 4 != end
    ensures Word(RawJoin(m, end, b, n), b + 4) == Wrap32(Word(m, b + 4) + Wrap32(4 + Word(m, b + 4)))
  {
    hide Word;
    hide Put;
    hide Wrap32;
    var v := Word(m, n + 4) + Word(m, b + 4);
    PutReads(m, n + 4, v);
    PutApart(m, n + 4, v, b + 4);
    var m1 := Put(m, n + 4, v);
    PutReads(m1, b + 4, Word(m1, b + 4) + Word(m1, n + 4));
  }

  lemma TakenSizes(m: seq<byte>, free: int, end: int, b: nat, n: nat, size: nat)
    requires Adjacent(m, b, n, size, end) && size < 20 && PatchesOff(RawSplit(m, end, n, size), free, n, b)
    ensures var r := RawCarve(m, free, end, n, size).0; Word(r, b + 4) == n - b && Word(r, n + 4) == Overwritten(size)
  {
    hide Word;
    hide RawSplit;
    hide RawUse;
    hide Overwritten;
    var m1 := RawSplit(m, end, n, size);
    SplitSize(m, end, n, size);
    SplitBelow(m, end, n, size, b + 4);
    UseElsewhere(m1, free, end, n, b + 4);
    UseElsewhere(m1, free, end, n, n + 4);
  }

  /** Growth by 0 to 7 bytes: the sizes left are not those of the grown block and the rest. */
  lemma GrowSizesWrong(m: seq<byte>, free: int, end: int, b: nat, n: nat, size: nat)
    requires Adjacent(m, b, n, size, end) && size < 8 && PatchesOff(RawSplit(m, end, n, size), free, n, b)
    ensures var r := RawGrow(m, free, end, b, n, size).0;
            if size == 0 then Word(r, n + 4) == 0 else Word(r, b + 4) != n - b + size
  {
    hide Word;
    hide RawCarve;
    hide RawJoin;
    hide Wrap32;
    var r := RawCarve(m, free, end, n, size).0;
    TakenSizes(m, free, end, b, n, size);
    if size == 4 {
      JoinFour(r, end, b, n);
      WrapFour(n - b);
    } else {
      JoinSizes(r, end, b, n);
      if size > 0 {
        WrapApart(n - b, Overwritten(size), size);
      }
    }
  }

  lemma WrapFour(x: nat)
    requires 0 < x < 0x1_0000_0000
    ensures Wrap32(x + Wrap32(4 + x)) != x + 4
  {
    var w := Wrap32(4 + x);
    assert w == 4 + x || w == 4 + x - 0x1_0000_0000;
    assert Wrap32(x + w) == x + w || Wrap32(x + w) == x + w - 0x1_0000_0000;
  }

  lemma WrapApart(x: nat, v: nat, size: nat)
    requires x < 0x1_0000_0000 && v < 0x1_0000_0000 && v != size && size < 0x100
    ensures Wrap32(x + v) != x + size
  {
    assert Wrap32(x + v) == x + v || Wrap32(x + v) == x + v - 0x1_0000_0000;
  }

  /** The second piece's size, and the first's free distance, once the headers no longer meet there. */
  lemma FarWords(m: seq<byte>, end: int, b: nat, size: nat)
    requires 12 <= size < 20 && b + size + 20 <= |m| && size + 40 <= Word(m, b + 4)
    ensures var r, s := RawSplit(m, end, b, size), b + size;
            && Word(r, b + 12) == size && Word(r, s + 4) == Word(m, b + 4) - size
            && (size == 12 ==> Word(r, s + 12) == 0)
  {
    hide Word;
    hide Put;
    hide SplitHeads;
    var s, m7 := b + size, SplitHeads(m, b, size);
    HeadsFar(m, b, size);
    FarHeads(m, b, size);
    var n := s + Word(m7, s + 4);
    var v := Word(m7, n) - size;
    PutApart(m7, n, v, b + 12);
    PutApart(m7, n, v, s + 4);
    PutApart(m7, n, v, s + 12);
    var m8 := if n != end then Put(m7, n, v) else m7;
    var f := s + Word(m8, s + 12);
    var w := Word(m8, f + 16) - size;
    PutApart(m8, f + 16, w, b + 12);
    PutApart(m8, f + 16, w, s + 4);
    if size == 12 {
      PutApart(m8, f + 16, w, s + 12);
    }
  }

  lemma FarHeads(m: seq<byte>, b: nat, size: nat)
    requires 12 <= size < 20 && b + size + 20 <= |m| && size + 40 <= Word(m, b + 4)
    ensures var r, s := SplitHeads(m, b, size), b + size;
            Word(r, s + 4) == Word(m, b + 4) - size && (size == 12 ==> Word(r, s + 12) == 0)
  {
    hide Word;
    hide Put;
    hide Wrap32;
    var s := b + size;
    var z := Word(m, b + 4) - size;
    var m1 := Put(m, s + 4, z);
    var m2 := Put(m1, b + 4, size);
    var m3 := Put(m2, s, size);
    var v := Word(m3, b + 12) - size;
    var m4 := Put(m3, s + 12, v);
    var m5 := Put(m4, b + 12, Word(m4, b + 4));
    var m6 := Put(m5, s + 16, Word(m5, s));
    SmallWrap(z);
    PutReads(m, s + 4, z);
    PutApart(m1, b + 4, size, s + 4);
    PutApart(m2, s, size, s + 4);
    PutApart(m3, s + 12, v, s + 4);
    PutApart(m4, b + 12, Word(m4, b + 4), s + 4);
    PutApart(m5, s + 16, Word(m5, s), s + 4);
    PutApart(m6, s + 8, 0, s + 4);
    if size == 12 {
      SmallWrap(size);
      SmallWrap(0);
      PutReads(m2, s, size);
      PutReads(m3, s + 12, v);
      PutApart(m4, b + 12, Word(m4, b + 4), s + 12);
      PutApart(m5, s + 16, Word(m5, s), s + 12);
      PutApart(m6, s + 8, 0, s + 12);
    }
  }

  /** `use_block` ends with the store of the used flag. */
  lemma UsedByte(m: seq<byte>, free: int, end: int, b: nat, y: int)
    requires b + 12 <= |m| && b + 8 <= y < b + 12
    ensures Byte(RawUse(m, free, end, b).0, y) == if y == b + 8 then 1 else 0
  {
    hide Word;
    hide Put;
    hide Byte;
    hide Wrap32;
    SmallWrap(1);
    if b == free {
      var f := b + Word(m, b + 12);
      PutByte(Put(m, f + 16, 0), b + 8, 1, y);
    } else {
      var pf := b - Word(m, b + 16);
      var m1 := Put(m, pf + 12, Word(m, pf + 12) + Word(m, b + 12));
      var nf := b + Word(m1, b + 12);
      var m2 := if nf != end then Put(m1, nf + 16, Word(m1, nf + 16) + Word(m1, b + 16)) else m1;
      PutByte(m2, b + 8, 1, y);
    }
  }

  /** The low byte of the second piece's `prev` word has been overwritten. */
  lemma PrevByteLost(m: seq<byte>, free: int, end: int, b: nat, n: nat, size: nat)
    requires Adjacent(m, b, n, size, end) && 8 <= size < 16 && size != 12 && PatchesLow(RawSplit(m, end, n, size), free, n, b)
    ensures Word(RawCarve(m, free, end, n, size).0, n + size) % 0x100 != size
  {
    hide Word;
    hide RawSplit;
    hide RawUse;
    hide Byte;
    var m1 := RawSplit(m, end, n, size);
    var r := RawUse(m1, free, end, n).0;
    WordBytes(r, n + size);
    if size < 12 {
      UsedByte(m1, free, end, n, n + size);
    } else {
      FarWords(m, end, n, size);
      UseElsewhere(m1, free, end, n, n + 12);
      HighBytes(r, n + 12, size);
    }
  }

  lemma HighBytes(m: seq<byte>, x: nat, v: nat)
    requires x + 4 <= |m| && Word(m, x) == v < 0x100
    ensures Byte(m, x + 1) == Byte(m, x + 2) == Byte(m, x + 3) == 0
  {
  }

  /** Growth by 8 to 15 bytes, 12 aside: the rest's distance back to the grown block is wrong. */
  lemma GrowPrevWrong(m: seq<byte>, free: int, end: int, b: nat, n: nat, size: nat)
    requires Adjacent(m, b, n, size, end) && 8 <= size < 16 && size != 12 && PatchesLow(RawSplit(m, end, n, size), free, n, b)
    ensures Word(RawGrow(m, free, end, b, n, size).0, n + size) != n - b + size
  {
    hide Word;
    hide RawCarve;
    hide Put;
    hide Wrap32;
    var r, s := RawCarve(m, free, end, n, size).0, n + size;
    TakenSizes(m, free, end, b, n, size);
    PrevByteLost(m, free, end, b, n, size);
    var v := Word(r, s);
    var r1 := Put(r, s, v + (n - b));
    PutReads(r, s, v + (n - b));
    PutApart(r1, b + 4, Word(r1, b + 4) + Word(r1, n + 4), s);
    WrapApart(n - b, v, size);
  }

  /** Growth by 12 bytes: the rest's distance to the next free block is 0. */
  lemma GrowNextZero(m: seq<byte>, free: int, end: int, b: nat, n: nat)
    requires Adjacent(m, b, n, 12, end) && PatchesLow(RawSplit(m, end, n, 12), free, n, b)
    ensures Word(RawGrow(m, free, end, b, n, 12).0, n + 24) == 0
  {
    hide Word;
    hide RawSplit;
    hide Put;
    hide Wrap32;
    var m1 := RawSplit(m, end, n, 12);
    var c := RawCarve(m, free, end, n, 12).0;
    FarWords(m, end, n, 12);
    TakenSizes(m, free, end, b, n, 12);
    assert Word(c, n + 24) == 0 by {
      if n == free {
        PutApart(m1, n + 12 + 16, 0, n + 24);
        PutApart(Put(m1, n + 12 + 16, 0), n + 8, 1, n + 24);
      } else {
        var pf := n - Word(m1, n + 16);
        var v := Word(m1, pf + 12) + 12;
        PutApart(m1, pf + 12, v, n + 24);
        PutApart(m1, pf + 12, v, n + 12);
        var m2 := Put(m1, pf + 12, v);
        var w := Word(m2, n + 28) + Word(m2, n + 16);
        PutApart(m2, n + 28, w, n + 24);
        PutApart(if n + 12 != end then Put(m2, n + 28, w) else m2, n + 8, 1, n + 24);
      }
    }
    var v := Word(c, n + 12) + Word(c, b + 4);
    PutApart(c, n + 12, v, n + 24);
    var d := Put(c, n + 12, v);
    PutApart(d, b + 4, Word(d, b + 4) + Word(d, n + 4), n + 24);
  }

  /** When the free list is patched elsewhere, the word below that should have been stays as it was. */
  lemma GrowMisses(m: seq<byte>, free: int, end: int, b: nat, n: nat, size: nat, y: int)
    requires b + 8 <= n && y + 4 <= b && n != free
    requires var pf := n - Word(RawSplit(m, end, n, size), n + 16); y + 4 <= pf + 12 || pf + 16 <= y
    ensures Word(RawGrow(m, free, end, b, n, size).0, y) == Word(m, y)
  {
    hide Word;
    hide RawSplit;
    hide RawUse;
    hide Put;
    var m1 := RawSplit(m, end, n, size);
    SplitBelow(m, end, n, size, y);
    UseElsewhere(m1, free, end, n, y);
    var c := RawUse(m1, free, end, n).0;
    var nn := n + Word(c, n + 4);
    PutApart(c, nn, Word(c, nn) + Word(c, b + 4), y);
    var d := if nn != end then Put(c, nn, Word(c, nn) + Word(c, b + 4)) else c;
    PutApart(d, b + 4, Word(d, b + 4) + Word(d, n + 4), y);
  }

  // --------------------------------------------------------- growth that works

  /** The first piece's `prev_free` word once the second piece's `prev` word lies over it. */
  function Overlay(d: int, size: nat): int {
    if size == 16 then 16 else if size == 17 then d % 0x100 + 0x1100 else if size == 18 then d % 0x1_0000 + 0x12_0000
    else d % 0x100_0000 + 0x1300_0000
  }

  predicate Within(y: int, x: int, len: nat) {
    x <= y < x + len
  }

  lemma PutMisses(m: seq<byte>, x: int, v: int, y: int)
    requires !Within(y, x, 4)
    ensures Byte(Put(m, x, v), y) == Byte(m, y)
  {
    hide Wrap32;
    PutByte(m, x, v, y);
  }

  /** Both headers, when the second starts in the last word of the first. */
  lemma LastWordHeads(m: seq<byte>, b: nat, size: nat)
    requires 16 <= size < 20 && b + size + 20 <= |m| && size + 40 <= Word(m, b + 4) <= Word(m, b + 12)
    ensures var r, s := SplitHeads(m, b, size), b + size;
            && Word(r, b + 4) == Word(r, b + 12) == Word(r, s) == Word(r, s + 16) == size
            && Word(r, s + 4) == Word(m, b + 4) - size && Word(r, s + 8) == 0 && Word(r, s + 12) == Word(m, b + 12) - size
  {
    hide Word;
    hide Put;
    hide Wrap32;
    var s := b + size;
    HeadsFar(m, b, size);
    FarHeads(m, b, size);
    var z := Word(m, b + 4) - size;
    var m1 := Put(m, s + 4, z);
    var m2 := Put(m1, b + 4, size);
    var m3 := Put(m2, s, size);
    var v := Word(m3, b + 12) - size;
    var m4 := Put(m3, s + 12, v);
    var m5 := Put(m4, b + 12, Word(m4, b + 4));
    var m6 := Put(m5, s + 16, Word(m5, s));
    PutApart(m, s + 4, z, b + 12);
    PutApart(m1, b + 4, size, b + 12);
    PutApart(m2, s, size, b + 12);
    SmallWrap(v);
    SmallWrap(size);
    SmallWrap(0);
    PutReads(m3, s + 12, v);
    PutApart(m4, b + 12, Word(m4, b + 4), s + 12);
    PutApart(m5, s + 16, Word(m5, s), s + 12);
    PutApart(m6, s + 8, 0, s + 12);
    PutReads(m2, s, size);
    PutApart(m3, s + 12, v, s);
    PutApart(m4, b + 12, Word(m4, b + 4), s);
    PutReads(m5, s + 16, Word(m5, s));
    PutApart(m5, s + 16, Word(m5, s), s);
    PutApart(m6, s + 8, 0, s);
    PutApart(m6, s + 8, 0, s + 16);
    PutReads(m6, s + 8, 0);
  }

  lemma HeadsElsewhere(m: seq<byte>, b: nat, size: nat, y: int)
    requires 16 <= size < 20 && b + size + 20 <= |m|
    ensures !Within(y, b, size + 20) ==> Byte(SplitHeads(m, b, size), y) == Byte(m, y)
    ensures b + 16 <= y < b + 20 ==>
            Byte(SplitHeads(m, b, size), y) == if y < b + size then Byte(m, y) else if y == b + size then size else 0
  {
    hide Word;
    hide Put;
    hide Byte;
    hide Wrap32;
    var s := b + size;
    var m1 := Put(m, s + 4, Word(m, b + 4) - size);
    var m2 := Put(m1, b + 4, size);
    var m3 := Put(m2, s, size);
    var m4 := Put(m3, s + 12, Word(m3, b + 12) - size);
    var m5 := Put(m4, b + 12, Word(m4, b + 4));
    var m6 := Put(m5, s + 16, Word(m5, s));
    if !Within(y, b, size + 20) || b + 16 <= y < b + 20 {
      SmallWrap(size);
      PutMisses(m, s + 4, Word(m, b + 4) - size, y);
      PutMisses(m1, b + 4, size, y);
      PutByte(m2, s, size, y);
      PutMisses(m3, s + 12, Word(m3, b + 12) - size, y);
      PutMisses(m4, b + 12, Word(m4, b + 4), y);
      PutMisses(m5, s + 16, Word(m5, s), y);
      PutMisses(m6, s + 8, 0, y);
    }
  }

  /** Which bytes a split of block `b` into `size` and the rest may change; `z` and `nf` are its size and free distance. */
  ghost predicate SplitTouches(y: int, end: int, b: int, size: nat, z: int, nf: int) {
    Within(y, b, size + 20) || (b + z != end && Within(y, b + z, 4)) || (b + nf != end && Within(y, b + nf + 16, 4))
  }

  lemma LastWordSplit(m: seq<byte>, end: int, b: nat, size: nat)
    requires 16 <= size < 20 && size + 40 <= Word(m, b + 4) <= Word(m, b + 12)
    requires b + Word(m, b + 12) <= end && end + 20 <= |m|
    ensures var r, s, z, nf := RawSplit(m, end, b, size), b + size, Word(m, b + 4), Word(m, b + 12);
            && Word(r, b + 4) == Word(r, b + 12) == Word(r, s) == Word(r, s + 16) == size
            && Word(r, s + 4) == z - size && Word(r, s + 8) == 0 && Word(r, s + 12) == nf - size
            && (b + z != end ==> Word(r, b + z) == Wrap32(Word(m, b + z) - size))
            && (b + nf != end ==> Word(r, b + nf + 16) == Wrap32(Word(m, b + nf + 16) - size))
  {
    hide Word;
    hide Put;
    hide Wrap32;
    hide SplitHeads;
    var s, z, nf := b + size, Word(m, b + 4), Word(m, b + 12);
    var m7 := SplitHeads(m, b, size);
    LastWordHeads(m, b, size);
    OutsideHeads(m, b, size, b + z);
    OutsideHeads(m, b, size, b + nf + 16);
    var n := b + z;
    assert s + Word(m7, s + 4) == n;
    var v := Word(m7, n) - size;
    PutReads(m7, n, v);
    PutFar(m7, n, v, b, s);
    PutApart(m7, n, v, b + nf + 16);
    var m8 := if n != end then Put(m7, n, v) else m7;
    var f := b + nf;
    assert s + Word(m8, s + 12) == f;
    var w := Word(m8, f + 16) - size;
    PutReads(m8, f + 16, w);
    PutFar(m8, f + 16, w, b, s);
    PutApart(m8, f + 16, w, n);
  }

  lemma OutsideHeads(m: seq<byte>, b: nat, size: nat, y: int)
    requires 16 <= size < 20 && b + size + 20 <= |m| && b + size + 20 <= y
    ensures Word(SplitHeads(m, b, size), y) == Word(m, y)
  {
    hide SplitHeads;
    hide Word;
    hide Byte;
    var r := SplitHeads(m, b, size);
    forall x | y <= x < y + 4 ensures Byte(r, x) == Byte(m, x) {
      HeadsElsewhere(m, b, size, x);
    }
    SameWord(m, r, y);
  }

  /** A store above both headers leaves all their words. */
  lemma PutFar(m: seq<byte>, x: int, v: int, b: int, s: int)
    requires s + 20 <= x && b <= s
    ensures var r := Put(m, x, v);
            && Word(r, b + 4) == Word(m, b + 4) && Word(r, b + 12) == Word(m, b + 12) && Word(r, s) == Word(m, s)
            && Word(r, s + 4) == Word(m, s + 4) && Word(r, s + 8) == Word(m, s + 8)
            && Word(r, s + 12) == Word(m, s + 12) && Word(r, s + 16) == Word(m, s + 16)
  {
    hide Word;
    hide Put;
    PutApart(m, x, v, b + 4);
    PutApart(m, x, v, b + 12);
    PutApart(m, x, v, s);
    PutApart(m, x, v, s + 4);
    PutApart(m, x, v, s + 8);
    PutApart(m, x, v, s + 12);
    PutApart(m, x, v, s + 16);
  }

  lemma SplitElsewhere(m: seq<byte>, end: int, b: nat, size: nat, y: int)
    requires 16 <= size < 20 && size + 40 <= Word(m, b + 4) <= Word(m, b + 12)
    requires b + Word(m, b + 12) <= end && end + 20 <= |m|
    ensures !SplitTouches(y, end, b, size, Word(m, b + 4), Word(m, b + 12)) ==> Byte(RawSplit(m, end, b, size), y) == Byte(m, y)
    ensures Word(RawSplit(m, end, b, size), b + 16) == Overlay(Word(m, b + 16), size)
  {
    hide Word;
    hide Put;
    hide Wrap32;
    hide SplitHeads;
    hide Byte;
    var s, z, nf := b + size, Word(m, b + 4), Word(m, b + 12);
    var m7 := SplitHeads(m, b, size);
    LastWordHeads(m, b, size);
    HeadsElsewhere(m, b, size, y);
    var n, f := b + z, b + nf;
    var v := Word(m7, n) - size;
    PutFar(m7, n, v, b, s);
    PutApart(m7, n, v, b + 16);
    var m8 := if n != end then Put(m7, n, v) else m7;
    assert s + Word(m8, s + 12) == f;
    var w := Word(m8, f + 16) - size;
    PutApart(m8, f + 16, w, b + 16);
    if !SplitTouches(y, end, b, size, z, nf) {
      if n != end {
        PutMisses(m7, n, v, y);
      }
      if f != end {
        PutMisses(m8, f + 16, w, y);
      }
    }
    OverlaidWord(m, b, size);
  }

  lemma OverlaidWord(m: seq<byte>, b: nat, size: nat)
    requires 16 <= size < 20 && b + size + 20 <= |m|
    ensures Word(SplitHeads(m, b, size), b + 16) == Overlay(Word(m, b + 16), size)
  {
    hide Word;
    hide SplitHeads;
    hide Byte;
    var r := SplitHeads(m, b, size);
    HeadsElsewhere(m, b, size, b + 16);
    HeadsElsewhere(m, b, size, b + 17);
    HeadsElsewhere(m, b, size, b + 18);
    HeadsElsewhere(m, b, size, b + 19);
    WordBytes(r, b + 16);
    WordBytes(m, b + 16);
    LowBytes(m, b + 16);
  }

  lemma LowBytes(m: seq<byte>, x: nat)
    requires x + 4 <= |m|
    ensures Word(m, x) % 0x100 == Byte(m, x) && Word(m, x) % 0x1_0000 == Byte(m, x) + 0x100 * Byte(m, x + 1)
    ensures Word(m, x) % 0x100_0000 == Byte(m, x) + 0x100 * Byte(m, x + 1) + 0x1_0000 * Byte(m, x + 2)
  {
  }

  /** What cutting 16 to 19 bytes off free block `n` needs of the words around it; `pf` is the free block below. */
  ghost predicate Carvable(m: seq<byte>, free: int, end: int, n: nat, size: nat, pf: int) {
    && 16 <= size < 20 && size + 40 <= Word(m, n + 4) <= Word(m, n + 12) && n + Word(m, n + 12) <= end && end + 20 <= |m|
    && (n == free || (0 <= pf && pf + 20 <= n && n - pf == Overlay(Word(m, n + 16), size)))
  }

  /** After the split, `use_block` moves the head, or patches the free block at `pf`, to the second piece. */
  lemma LastWordUse(m: seq<byte>, free: int, end: int, n: nat, size: nat, pf: int)
    requires Carvable(m, free, end, n, size, pf)
    ensures var c, s := RawCarve(m, free, end, n, size), n + size;
            && c.1 == (if n == free then s else free)
            && Word(c.0, n + 4) == size && Word(c.0, s + 16) == (if n == free then 0 else Wrap32(size + (n - pf)))
            && (n != free ==> Word(c.0, pf + 12) == Wrap32(Word(m, pf + 12) + size))
  {
    hide Word;
    hide Put;
    hide Wrap32;
    hide RawSplit;
    hide Overlay;
    var m1, s := RawSplit(m, end, n, size), n + size;
    LastWordSplit(m, end, n, size);
    SplitElsewhere(m, end, n, size, 0);
    SmallWrap(0);
    if n == free {
      PutReads(m1, s + 16, 0);
      PutApart(m1, s + 16, 0, n + 4);
      var m2 := Put(m1, s + 16, 0);
      PutApart(m2, n + 8, 1, s + 16);
      PutApart(m2, n + 8, 1, n + 4);
    } else {
      SplitBelow(m, end, n, size, pf + 12);
      var v := Word(m1, pf + 12) + size;
      PutReads(m1, pf + 12, v);
      PutApart(m1, pf + 12, v, n + 4);
      PutApart(m1, pf + 12, v, n + 12);
      PutApart(m1, pf + 12, v, n + 16);
      PutApart(m1, pf + 12, v, s + 16);
      var m2 := Put(m1, pf + 12, v);
      var w := Word(m2, s + 16) + Word(m2, n + 16);
      PutReads(m2, s + 16, w);
      PutApart(m2, s + 16, w, pf + 12);
      PutApart(m2, s + 16, w, n + 4);
      var m3 := Put(m2, s + 16, w);
      PutApart(m3, n + 8, 1, s + 16);
      PutApart(m3, n + 8, 1, pf + 12);
      PutApart(m3, n + 8, 1, n + 4);
    }
  }

  /** `use_block` changes only its own words, the second piece's `prev_free` and the lower free block's `next_free`. */
  lemma LastWordUseElsewhere(m: seq<byte>, free: int, end: int, n: nat, size: nat, pf: int, y: int)
    requires Carvable(m, free, end, n, size, pf)
    requires !Within(y, n + 8, 4) && !Within(y, n + size + 16, 4) && (n == free || !Within(y, pf + 12, 4))
    ensures Byte(RawCarve(m, free, end, n, size).0, y) == Byte(RawSplit(m, end, n, size), y)
  {
    hide Word;
    hide Put;
    hide Byte;
    hide RawSplit;
    hide Overlay;
    var m1, s := RawSplit(m, end, n, size), n + size;
    LastWordSplit(m, end, n, size);
    SplitElsewhere(m, end, n, size, 0);
    if n == free {
      PutMisses(m1, s + 16, 0, y);
      PutMisses(Put(m1, s + 16, 0), n + 8, 1, y);
    } else {
      var v := Word(m1, pf + 12) + size;
      PutMisses(m1, pf + 12, v, y);
      PutApart(m1, pf + 12, v, n + 12);
      var m2 := Put(m1, pf + 12, v);
      var w := Word(m2, s + 16) + Word(m2, n + 16);
      PutMisses(m2, s + 16, w, y);
      PutMisses(Put(m2, s + 16, w), n + 8, 1, y);
    }
  }

  lemma LastWordUseKeeps(m: seq<byte>, free: int, end: int, n: nat, size: nat, pf: int, x: int)
    requires Carvable(m, free, end, n, size, pf)
    requires (x + 4 <= n + 8 || n + 12 <= x) && (x + 4 <= n + size + 16 || n + size + 20 <= x)
    requires n == free || x + 4 <= pf + 12 || pf + 16 <= x
    ensures Word(RawCarve(m, free, end, n, size).0, x) == Word(RawSplit(m, end, n, size), x)
  {
    hide Word;
    hide Byte;
    hide RawSplit;
    hide RawCarve;
    var m1, c := RawSplit(m, end, n, size), RawCarve(m, free, end, n, size).0;
    forall y | x <= y < x + 4 ensures Byte(c, y) == Byte(m1, y) {
      LastWordUseElsewhere(m, free, end, n, size, pf, y);
    }
    SameWord(m1, c, x);
  }

  /** All words of such a cut that the lists depend on. */
  lemma CarveWords(m: seq<byte>, free: int, end: int, n: nat, size: nat, pf: int)
    requires Carvable(m, free, end, n, size, pf)
    ensures var c, s, z, nf := RawCarve(m, free, end, n, size), n + size, Word(m, n + 4), Word(m, n + 12);
            && c.1 == (if n == free then s else free)
            && Word(c.0, n) == Word(m, n) && Word(c.0, n + 4) == size && Word(c.0, n + 8) == 1 && Word(c.0, s) == size
            && Word(c.0, s + 4) == z - size && Word(c.0, s + 8) == 0 && Word(c.0, s + 12) == nf - size
            && Word(c.0, s + 16) == (if n == free then 0 else Wrap32(s - pf))
            && (n + z != end ==> Word(c.0, n + z) == Wrap32(Word(m, n + z) - size))
            && (n + nf != end ==> Word(c.0, n + nf + 16) == Wrap32(Word(m, n + nf + 16) - size))
            && (n != free ==> Word(c.0, pf + 12) == Wrap32(Word(m, pf + 12) + size))
  {
    hide Word;
    hide Put;
    hide Wrap32;
    hide RawSplit;
    hide RawCarve;
    hide Overlay;
    var s, z, nf := n + size, Word(m, n + 4), Word(m, n + 12);
    LastWordSplit(m, end, n, size);
    LastWordUse(m, free, end, n, size, pf);
    SplitBelow(m, end, n, size, n);
    LastWordUseKeeps(m, free, end, n, size, pf, n);
    LastWordUseKeeps(m, free, end, n, size, pf, s);
    LastWordUseKeeps(m, free, end, n, size, pf, s + 4);
    LastWordUseKeeps(m, free, end, n, size, pf, s + 8);
    LastWordUseKeeps(m, free, end, n, size, pf, s + 12);
    LastWordUseKeeps(m, free, end, n, size, pf, n + z);
    LastWordUseKeeps(m, free, end, n, size, pf, n + nf + 16);
    CarvedFlag(m, free, end, n, size);
  }

  lemma CarvedFlag(m: seq<byte>, free: int, end: int, n: nat, size: nat)
    requires n + 12 <= |m|
    ensures Word(RawCarve(m, free, end, n, size).0, n + 8) == 1
  {
    hide RawUse;
    hide RawSplit;
    UsedFlag(RawSplit(m, end, n, size), free, end, n);
  }

  lemma UsedFlag(m: seq<byte>, free: int, end: int, b: nat)
    requires b + 12 <= |m|
    ensures Word(RawUse(m, free, end, b).0, b + 8) == 1
  {
    hide Word;
    hide Put;
    if b == free {
      PutReads(Put(m, b + Word(m, b + 12) + 16, 0), b + 8, 1);
    } else {
      var pf := b - Word(m, b + 16);
      var m1 := Put(m, pf + 12, Word(m, pf + 12) + Word(m, b + 12));
      var nf := b + Word(m1, b + 12);
      PutReads(if nf != end then Put(m1, nf + 16, Word(m1, nf + 16) + Word(m1, b + 16)) else m1, b + 8, 1);
    }
  }

  /** Which bytes such a cut may change. */
  ghost predicate CutTouches(y: int, free: int, end: int, n: int, size: nat, z: int, nf: int, pf: int) {
    SplitTouches(y, end, n, size, z, nf) || (n != free && Within(y, pf + 12, 4))
  }

  lemma CarveElsewhere(m: seq<byte>, free: int, end: int, n: nat, size: nat, pf: int, y: int)
    requires Carvable(m, free, end, n, size, pf)
    requires !CutTouches(y, free, end, n, size, Word(m, n + 4), Word(m, n + 12), pf)
    ensures Byte(RawCarve(m, free, end, n, size).0, y) == Byte(m, y)
  {
    hide Word;
    hide Byte;
    hide RawSplit;
    hide RawCarve;
    hide Overlay;
    SplitElsewhere(m, end, n, size, y);
    LastWordUseElsewhere(m, free, end, n, size, pf, y);
  }

  /** The two words an in-place `realloc` changes last. */
  lemma JoinWords(c: seq<byte>, end: int, b: nat, n: nat, y: int)
    requires var s := n + Word(c, n + 4); b + 12 <= n && n + 12 <= s != end && s + 4 <= |c|
    ensures var r, s := RawJoin(c, end, b, n), n + Word(c, n + 4);
            && Word(r, s) == Wrap32(Word(c, s) + Word(c, b + 4)) && Word(r, b + 4) == Wrap32(Word(c, b + 4) + Word(c, n + 4))
            && ((y + 4 <= b + 4 || b + 8 <= y) && (y + 4 <= s || s + 4 <= y) ==> Word(r, y) == Word(c, y))
  {
    hide Word;
    hide Put;
    hide Wrap32;
    var s := n + Word(c, n + 4);
    var v := Word(c, s) + Word(c, b + 4);
    PutReads(c, s, v);
    PutApart(c, s, v, b + 4);
    PutApart(c, s, v, n + 4);
    var d := Put(c, s, v);
    var w := Word(d, b + 4) + Word(d, n + 4);
    PutReads(d, b + 4, w);
    PutApart(d, b + 4, w, s);
    if (y + 4 <= b + 4 || b + 8 <= y) && (y + 4 <= s || s + 4 <= y) {
      PutApart(c, s, v, y);
      PutApart(d, b + 4, w, y);
    }
  }

  lemma JoinElsewhere(c: seq<byte>, end: int, b: nat, n: nat, y: int)
    requires !Within(y, b + 4, 4) && !Within(y, n + Word(c, n + 4), 4)
    ensures Byte(RawJoin(c, end, b, n), y) == Byte(c, y)
  {
    hide Word;
    hide Put;
    hide Byte;
    var s := n + Word(c, n + 4);
    var v := Word(c, s) + Word(c, b + 4);
    PutMisses(c, s, v, y);
    var d := if s != end then Put(c, s, v) else c;
    PutMisses(d, b + 4, Word(d, b + 4) + Word(d, n + 4), y);
  }

  // ------------------------------------------------------------- a gap of four

  lemma FourHeads(m: seq<byte>, b: nat)
    requires b + 24 <= |m| && 4 <= Word(m, b + 12)
    ensures var r := SplitHeads(m, b, 4); Word(r, b + 20) == 4 && Word(r, b + 16) == Word(m, b + 12) - 4
  {
    hide Word;
    hide Put;
    hide Wrap32;
    var m1 := Put(m, b + 8, Word(m, b + 4) - 4);
    var m2 := Put(m1, b + 4, 4);
    var m3 := Put(m2, b + 4, 4);
    var v := Word(m3, b + 12) - 4;
    var m4 := Put(m3, b + 16, v);
    var m5 := Put(m4, b + 12, Word(m4, b + 4));
    var m6 := Put(m5, b + 20, Word(m5, b + 4));
    PutApart(m, b + 8, Word(m, b + 4) - 4, b + 12);
    PutApart(m1, b + 4, 4, b + 12);
    PutApart(m2, b + 4, 4, b + 12);
    SmallWrap(v);
    SmallWrap(4);
    PutReads(m2, b + 4, 4);
    PutReads(m3, b + 16, v);
    PutApart(m3, b + 16, v, b + 4);
    PutApart(m4, b + 12, Word(m4, b + 4), b + 4);
    PutApart(m4, b + 12, Word(m4, b + 4), b + 16);
    PutReads(m5, b + 20, Word(m5, b + 4));
    PutApart(m5, b + 20, Word(m5, b + 4), b + 16);
    PutApart(m6, b + 12, 0, b + 16);
    PutApart(m6, b + 12, 0, b + 20);
  }

  /** In an arena of one free block, a gap of 4 bytes leaves 4 in the gap's size word. */
  lemma GapOfFour(m: seq<byte>, base: nat, end: nat, xlen: nat)
    requires Word(m, base + 4) == Word(m, base + 12) == end - base && base + 64 <= end && end <= |m| && 20 <= xlen < U32
    ensures Word(RawAligned(m, base, end, base, 4, xlen).0, base + 4) == 4
    ensures RawAligned(m, base, end, base, 4, xlen).2 == base + 4
  {
    hide Word;
    hide Put;
    hide RawUse;
    hide SplitHeads;
    var m7, m1, best := SplitHeads(m, base, 4), RawSplit(m, end, base, 4), base + 4;
    SplitSize(m, end, base, 4);
    NextAfterFour(m, base);
    FourHeads(m, base);
    assert m1 == m7;
    var m2 := if (Word(m1, best + 4) - xlen) % U64 >= 40 then RawSplit(m1, end, best, xlen) else m1;
    SplitBelow(m1, end, best, xlen, best);
    SplitLast(m1, end, best, xlen);
    assert Word(m2, best) == 4 && Word(m2, best + 16) == 4;
    UseElsewhere(m2, base, end, best, best);
  }

  /** A split with headers apart leaves the first piece's last word. */
  lemma SplitLast(m: seq<byte>, end: int, b: nat, size: nat)
    requires 20 <= size
    ensures Word(RawSplit(m, end, b, size), b + 16) == Word(m, b + 16)
  {
    hide Word;
    hide Put;
    var s, y := b + size, b + 16;
    var m1 := Put(m, s + 4, Word(m, b + 4) - size);
    var m2 := Put(m1, b + 4, size);
    var m3 := Put(m2, s, size);
    var m4 := Put(m3, s + 12, Word(m3, b + 12) - size);
    var m5 := Put(m4, b + 12, Word(m4, b + 4));
    var m6 := Put(m5, s + 16, Word(m5, s));
    var m7 := Put(m6, s + 8, 0);
    PutApart(m, s + 4, Word(m, b + 4) - size, y);
    PutApart(m1, b + 4, size, y);
    PutApart(m2, s, size, y);
    PutApart(m3, s + 12, Word(m3, b + 12) - size, y);
    PutApart(m4, b + 12, Word(m4, b + 4), y);
    PutApart(m5, s + 16, Word(m5, s), y);
    PutApart(m6, s + 8, 0, y);
    var n := s + Word(m7, s + 4);
    PutApart(m7, n, Word(m7, n) - size, y);
    var m8 := if n != end then Put(m7, n, Word(m7, n) - size) else m7;
    var f := s + Word(m8, s + 12);
    PutApart(m8, f + 16, Word(m8, f + 16) - size, y);
  }
}
