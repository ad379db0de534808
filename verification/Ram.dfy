/**
  Byte-addressed memory with little-endian 32-bit words, the store that the
  allocator's headers and payloads share.  Words may start at any byte.
 */
module Ram {
  import opened Words

  type byte = x: int | 0 <= x < 0x100


  /** Unsigned 32-bit arithmetic: the value that a word holds after computing `v`. */
  function Wrap32(v: int): (r: nat)
    ensures r < U32
    ensures 0 <= v < U32 ==> r == v
    ensures -0x1_0000_0000 < v < 0 ==> r == v + 0x1_0000_0000
  {
    v % 0x1_0000_0000
  }

  /** The word at `x`; addresses outside the memory read as 0. */
  function Word(m: seq<byte>, x: int): (w: nat)
    ensures w < U32
  {
    if 0 <= x && x + 4 <= |m|
    then (m[x] as int) + 0x100 * (m[x + 1] as int) + 0x1_0000 * (m[x + 2] as int) + 0x100_0000 * (m[x + 3] as int)
    else 0
  }

  function Stored(m: seq<byte>, x: nat, v: nat): (r: seq<byte>)
    requires x + 4 <= |m| && v < U32
    ensures |r| == |m|
  {
    m[x := v % 0x100][x + 1 := v / 0x100 % 0x100][x + 2 := v / 0x1_0000 % 0x100][x + 3 := v / 0x100_0000]
  }

  lemma StoredReadsBack(m: seq<byte>, x: nat, v: nat)
    requires x + 4 <= |m| && v < U32
    ensures Word(Stored(m, x, v), x) == v
  {
    var q := v / 0x100;
    assert v == 0x100 * q + v % 0x100;
    assert q / 0x100 == v / 0x1_0000;
    assert q == 0x100 * (v / 0x1_0000) + q % 0x100;
    assert v / 0x1_0000 == 0x100 * (v / 0x100_0000) + v / 0x1_0000 % 0x100;
  }
}
