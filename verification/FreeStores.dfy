/**
  The stores of `free` (`rtprog/alloc.c`) on plain bytes, for blocks that may be too short for a free
  header: its `prev_free` word then lies over the header of the next block.
 */
module FreeStores {
  import opened Ram
  import opened Words
  import opened Raw

  /** The scan for the next free block, from block `n` on. */
  function ScanUp(m: seq<byte>, end: int, n: int): int
    decreases end - n
  {
    if n >= end || Word(m, n + 8) == 0 || Word(m, n + 4) == 0 then n else ScanUp(m, end, n + Word(m, n + 4))
  }

  /** `prev(b)`, with 0 for NULL. */
  function Back(m: seq<byte>, b: int): int {
    if Word(m, b) == 0 then 0 else b - Word(m, b)
  }

  /** The scan for the previous free block, from block `p` down. */
  function ScanDown(m: seq<byte>, p: int): int
    decreases p
  {
    if p <= 0 || Word(m, p + 8) == 0 then p else ScanDown(m, Back(m, p))
  }

  /** `pfree(n)`, in the shipped form or with NULL on 0. */
  function PrevFreeOf(m: seq<byte>, n: int, pfreeNull: bool): int {
    if pfreeNull && Word(m, n + 16) == 0 then 0 else n - Word(m, n + 16)
  }

  /** The block's own words as `free` first sets them. */
  function Cleared(m: seq<byte>, b: int): (r: seq<byte>)
    ensures |r| == |m|
  {
    Put(Put(m, b + 16, 0), b + 8, 0)
  }

  /** Linking block `b` between its free neighbours `p` (0 for none) and `n`. */
  function Relinked(m: seq<byte>, end: int, b: int, n: int, p: int): (r: seq<byte>)
    ensures |r| == |m|
  {
    var m1 := Put(m, b + 12, n - b);
    var m2 := if n != end then Put(m1, n + 16, Word(m1, b + 12)) else m1;
    if p == 0 then m2
    else
      var m3 := Put(m2, b + 16, b - p);
      Put(m3, p + 12, Word(m3, b + 16))
  }

  /** One round of the coalescing loop: `b` takes in `n` if that is the next block. */
  function Round(m: seq<byte>, end: int, b: int, n: int): (r: seq<byte>)
    ensures |r| == |m|
  {
    if n == end || n != b + Word(m, b + 4) then m
    else
      var f := n + Word(m, n + 12);
      var m1 := if f != end then Put(m, f + 16, Word(m, f + 16) + Word(m, b + 12)) else m;
      var a := n + Word(m1, n + 4);
      var m2 := if a != end then Put(m1, a, Word(m1, a) + Word(m1, b + 4)) else m1;
      var m3 := Put(m2, b + 12, Word(m2, b + 12) + Word(m2, n + 12));
      Put(m3, b + 4, Word(m3, b + 4) + Word(m3, n + 4))
  }

  /** The neighbours that `free` finds. */
  function Found(m: seq<byte>, end: int, b: int, pfreeNull: bool): (int, int) {
    var n := ScanUp(m, end, b + Word(m, b + 4));
    (n, if n != end then PrevFreeOf(m, n, pfreeNull) else ScanDown(m, Back(m, b)))
  }

  /** `free` of block `b`, from its first store on. */
  function RawFree(m: seq<byte>, free: int, end: int, b: int, pfreeNull: bool): (r: (seq<byte>, int))
    ensures |r.0| == |m|
  {
    var m1 := Cleared(m, b);
    var np := Found(m1, end, b, pfreeNull);
    var m2 := Round(Relinked(m1, end, b, np.0, np.1), end, b, np.0);
    (if np.1 != 0 then Round(m2, end, np.1, b) else m2, if b < free then b else free)
  }

  lemma NoRound(m: seq<byte>, end: int, b: int, n: int)
    requires n == end || n != b + Word(m, b + 4)
    ensures Round(m, end, b, n) == m
  {
  }

  // -------------------------------------------------------------------- words

  predicate Clear(y: int, x: int) {
    y + 4 <= x || x + 4 <= y
  }

  lemma ClearedWords(m: seq<byte>, b: nat, y: int)
    requires b + 20 <= |m|
    ensures Word(Cleared(m, b), b + 8) == 0 && Word(Cleared(m, b), b + 16) == 0
    ensures Clear(y, b + 8) && Clear(y, b + 16) ==> Word(Cleared(m, b), y) == Word(m, y)
  {
    hide Word;
    hide Put;
    SmallWrap(0);
    var m1 := Put(m, b + 16, 0);
    PutReads(m, b + 16, 0);
    PutReads(m1, b + 8, 0);
    PutApart(m1, b + 8, 0, b + 16);
    if Clear(y, b + 8) && Clear(y, b + 16) {
      PutApart(m, b + 16, 0, y);
      PutApart(m1, b + 8, 0, y);
    }
  }

  /** The words of the links, for neighbours clear of the block. */
  lemma RelinkWords(m: seq<byte>, end: int, b: nat, n: int, p: int)
    requires b + 16 <= n <= end && end + 20 <= |m| && n - b < U32 && (p == 0 || (0 < p <= b - 20 && b - p < U32))
    ensures var r := Relinked(m, end, b, n, p);
            && Word(r, b + 12) == n - b && (n != end ==> Word(r, n + 16) == n - b)
            && (p != 0 ==> Word(r, b + 16) == b - p && Word(r, p + 12) == b - p)
  {
    hide Word;
    hide Put;
    hide Wrap32;
    SmallWrap(n - b);
    var m1 := Put(m, b + 12, n - b);
    PutReads(m, b + 12, n - b);
    PutReads(m1, n + 16, n - b);
    PutApart(m1, n + 16, n - b, b + 12);
    var m2 := if n != end then Put(m1, n + 16, n - b) else m1;
    if p != 0 {
      SmallWrap(b - p);
      var m3 := Put(m2, b + 16, b - p);
      PutReads(m2, b + 16, b - p);
      PutApart(m2, b + 16, b - p, b + 12);
      PutApart(m2, b + 16, b - p, n + 16);
      PutReads(m3, p + 12, b - p);
      PutApart(m3, p + 12, b - p, b + 12);
      PutApart(m3, p + 12, b - p, b + 16);
      PutApart(m3, p + 12, b - p, n + 16);
    }
  }

  lemma RelinkElsewhere(m: seq<byte>, end: int, b: int, n: int, p: int, y: int)
    requires Clear(y, b + 12) && (n == end || Clear(y, n + 16)) && (p == 0 || (Clear(y, b + 16) && Clear(y, p + 12)))
    ensures Word(Relinked(m, end, b, n, p), y) == Word(m, y)
  {
    hide Word;
    hide Put;
    var m1 := Put(m, b + 12, n - b);
    PutApart(m, b + 12, n - b, y);
    var v := Word(m1, b + 12);
    if n != end {
      PutApart(m1, n + 16, v, y);
    }
    var m2 := if n != end then Put(m1, n + 16, v) else m1;
    if p != 0 {
      PutApart(m2, b + 16, b - p, y);
      var m3 := Put(m2, b + 16, b - p);
      PutApart(m3, p + 12, Word(m3, b + 16), y);
    }
  }

  /** What a round that merges leaves in the words it changes. */
  lemma RoundWords(m: seq<byte>, end: int, b: nat, n: int)
    requires n != end && n == b + Word(m, b + 4) && b + 16 <= n && n + 16 <= n + Word(m, n + 4) <= n + Word(m, n + 12) <= end
    requires end + 20 <= |m|
    ensures var r, f, a := Round(m, end, b, n), n + Word(m, n + 12), n + Word(m, n + 4);
            && (f != end ==> Word(r, f + 16) == Wrap32(Word(m, f + 16) + Word(m, b + 12)))
            && (a != end ==> Word(r, a) == Wrap32(Word(m, a) + Word(m, b + 4)))
            && Word(r, b + 12) == Wrap32(Word(m, b + 12) + Word(m, n + 12)) && Word(r, b + 4) == Wrap32(Word(m, b + 4) + Word(m, n + 4))
  {
    hide Word;
    hide Put;
    hide Wrap32;
    var f, a := n + Word(m, n + 12), n + Word(m, n + 4);
    var u := Word(m, f + 16) + Word(m, b + 12);
    PutReads(m, f + 16, u);
    PutApart(m, f + 16, u, n + 4);
    PutApart(m, f + 16, u, n + 12);
    PutApart(m, f + 16, u, b + 4);
    PutApart(m, f + 16, u, b + 12);
    PutApart(m, f + 16, u, a);
    var m1 := if f != end then Put(m, f + 16, u) else m;
    var v := Word(m1, a) + Word(m1, b + 4);
    PutReads(m1, a, v);
    PutApart(m1, a, v, n + 4);
    PutApart(m1, a, v, n + 12);
    PutApart(m1, a, v, b + 4);
    PutApart(m1, a, v, b + 12);
    PutApart(m1, a, v, f + 16);
    var m2 := if a != end then Put(m1, a, v) else m1;
    var w := Word(m2, b + 12) + Word(m2, n + 12);
    PutReads(m2, b + 12, w);
    PutApart(m2, b + 12, w, b + 4);
    PutApart(m2, b + 12, w, n + 4);
    PutApart(m2, b + 12, w, a);
    PutApart(m2, b + 12, w, f + 16);
    var m3 := Put(m2, b + 12, w);
    var z := Word(m3, b + 4) + Word(m3, n + 4);
    PutReads(m3, b + 4, z);
    PutApart(m3, b + 4, z, b + 12);
    PutApart(m3, b + 4, z, a);
    PutApart(m3, b + 4, z, f + 16);
  }

  lemma RoundElsewhere(m: seq<byte>, end: int, b: nat, n: int, y: int)
    requires n + Word(m, n + 12) == end || Clear(n + 4, n + Word(m, n + 12) + 16)
    requires n + Word(m, n + 12) == end || Clear(y, n + Word(m, n + 12) + 16)
    requires n + Word(m, n + 4) == end || Clear(y, n + Word(m, n + 4))
    requires Clear(y, b + 12) && Clear(y, b + 4)
    ensures Word(Round(m, end, b, n), y) == Word(m, y)
  {
    hide Word;
    hide Put;
    var f, a := n + Word(m, n + 12), n + Word(m, n + 4);
    var u := Word(m, f + 16) + Word(m, b + 12);
    var m1 := if f != end then Put(m, f + 16, u) else m;
    if f != end {
      PutApart(m, f + 16, u, n + 4);
      PutApart(m, f + 16, u, y);
    }
    var v := Word(m1, a) + Word(m1, b + 4);
    if a != end {
      PutApart(m1, a, v, y);
    }
    var m2 := if a != end then Put(m1, a, v) else m1;
    var w := Word(m2, b + 12) + Word(m2, n + 12);
    PutApart(m2, b + 12, w, y);
    var m3 := Put(m2, b + 12, w);
    PutApart(m3, b + 4, Word(m3, b + 4) + Word(m3, n + 4), y);
  }

  // ----------------------------------------------- the word over the next header

  /** A store of `w` to the word 16 bytes into a block of 16 to 19 bytes, seen as the next block's `prev` word. */
  function Clobber(w: nat, size: nat): nat {
    if size == 16 then w else if size == 17 then w / 0x100 else if size == 18 then w / 0x1_0000 else w / 0x100_0000
  }

  lemma ClobberedWord(m: seq<byte>, x: nat, w: nat, size: nat)
    requires 16 <= size < 20 && x + 8 <= |m| && w < U32 && Word(m, x + (size - 16)) < 0x100
    ensures Word(Put(m, x, w), x + (size - 16)) == Clobber(w, size)
  {
    hide Word;
    hide Put;
    hide Byte;
    hide Wrap32;
    var r, y := Put(m, x, w), x + (size - 16);
    SmallWrap(w);
    HighBytes(m, y, Word(m, y));
    PutByte(m, x, w, y);
    PutByte(m, x, w, y + 1);
    PutByte(m, x, w, y + 2);
    PutByte(m, x, w, y + 3);
    WordBytes(r, y);
    WordBytes(m, y);
    WordSum(w);
  }

  lemma WordSum(w: nat)
    requires w < U32
    ensures ByteOf(w, 0) + 0x100 * ByteOf(w, 1) + 0x1_0000 * ByteOf(w, 2) + 0x100_0000 * ByteOf(w, 3) == w
    ensures ByteOf(w, 1) + 0x100 * ByteOf(w, 2) + 0x1_0000 * ByteOf(w, 3) == w / 0x100
    ensures ByteOf(w, 2) + 0x100 * ByteOf(w, 3) == w / 0x1_0000
  {
  }
}
