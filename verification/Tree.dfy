/**
  The four-level translation tables of `rtprog/mmu.c` as a tree: `at` says which table page
  sits at which path of indices from the root, and memory holds 512 descriptors per page.
 */
module Tree {
  import opened PageFormat

  type Memory = map<nat, seq<nat>>
  type Path = seq<nat>
  type Shape = map<Path, nat>

  // ---------------------------------------------------------------- memory

  function Load(m: Memory, t: nat, i: nat): nat {
    if t in m && i < |m[t]| then m[t][i] else 0
  }

  function Store(m: Memory, t: nat, i: nat, d: nat): Memory {
    if t in m && i < |m[t]| then var row: seq<nat> := m[t][i := d]; m[t := row] else m
  }

  function Zeros(): (s: seq<nat>)
    ensures |s| == 512 && forall i :: 0 <= i < 512 ==> s[i] == 0
  {
    seq(512, _ => 0)
  }

  lemma LoadStored(m: Memory, t: nat, i: nat, d: nat, u: nat, j: nat)
    requires t in m && i < |m[t]|
    ensures Load(Store(m, t, i, d), u, j) == if u == t && i == j then d else Load(m, u, j)
  {
  }

  // ------------------------------------------------------------------ paths

  function Up(p: Path): Path {
    if p == [] then [] else p[..|p| - 1]
  }

  function Down(p: Path, i: nat): Path {
    p + [i]
  }

  ghost predicate Digits(p: Path) {
    |p| <= 3 && forall k :: 0 <= k < |p| ==> p[k] < 512
  }

  lemma UpDown(p: Path, i: nat)
    ensures Up(Down(p, i)) == p && |Down(p, i)| == |p| + 1 && Down(p, i)[|p|] == i && Down(p, i) != []
    ensures Digits(p) && |p| < 3 && i < 512 ==> Digits(Down(p, i))
  {
  }

  // ------------------------------------------------------------------- tree

  ghost predicate Paths(at: Shape) {
    [] in at && forall p :: p in at ==> Digits(p) && Up(p) in at
  }

  ghost predicate Distinct(at: Shape) {
    forall p, q :: p in at && q in at && at[p] == at[q] ==> p == q
  }

  /** A zero-initialised or written table page that the allocator handed out. */
  ghost predicate PageOk(m: Memory, live: set<nat>, t: nat) {
    t in live && t in m && |m[t]| == 512 && t % PAGE_SIZE == 0 && 0 < t < PA_LIMIT
  }

  ghost predicate Backed(m: Memory, at: Shape, live: set<nat>) {
    forall p :: p in at ==> PageOk(m, live, at[p])
  }

  ghost function Slot(m: Memory, at: Shape, p: Path, i: nat): nat {
    if p in at then Load(m, at[p], i) else 0
  }

  ghost function Link(at: Shape, p: Path, i: nat): nat {
    if Down(p, i) in at then DescTable(at[Down(p, i)]) else 0
  }

  /** Upper levels hold exactly the links of the tree. */
  ghost predicate Linked(m: Memory, at: Shape) {
    forall p, i {:trigger Slot(m, at, p, i)} :: p in at && |p| < 3 && i < 512 ==> Slot(m, at, p, i) == Link(at, p, i)
  }

  /** The last level holds page descriptors or nothing. */
  ghost predicate Leaves(m: Memory, at: Shape) {
    forall p, i {:trigger Slot(m, at, p, i)} :: p in at && |p| == 3 && i < 512 ==> Slot(m, at, p, i) == 0 || Slot(m, at, p, i) % 4 == 3
  }

  ghost predicate IsTree(m: Memory, at: Shape, live: set<nat>) {
    Paths(at) && Distinct(at) && Backed(m, at, live) && Linked(m, at) && Leaves(m, at)
  }

  ghost function Owned(at: Shape): set<nat> {
    at.Values
  }

  /** The leaf descriptor of a page, whose four indices are `k`. */
  ghost function Entry(m: Memory, at: Shape, k: Path): nat {
    if |k| == 4 then Slot(m, at, k[..3], k[3]) else 0
  }

  // -------------------------------------------------------------- extending

  /** Nothing sits below a path that is not in the tree. */
  lemma NothingBelow(at: Shape, c: Path, j: nat)
    requires Paths(at) && c !in at
    ensures Down(c, j) !in at
  {
    UpDown(c, j);
    assert Down(c, j) in at ==> Up(Down(c, j)) in at;
  }

  ghost function Grown(m: Memory, at: Shape, p: Path, i: nat, q: nat): Memory {
    Store(m[q := Zeros()], if p in at then at[p] else 0, i, DescTable(q))
  }

  ghost predicate CanGrow(m: Memory, at: Shape, live: set<nat>, p: Path, i: nat, q: nat) {
    p in at && |p| < 3 && i < 512 && Down(p, i) !in at && q !in live && q % PAGE_SIZE == 0 && 0 < q < PA_LIMIT
  }

  lemma NotOwned(m: Memory, at: Shape, live: set<nat>, q: nat)
    requires Backed(m, at, live) && q !in live
    ensures forall x :: x in at ==> at[x] != q
  {
    hide Load;
  }

  lemma GrowPaths(at: Shape, p: Path, i: nat, q: nat)
    requires Paths(at) && p in at && |p| < 3 && i < 512
    ensures Paths(at[Down(p, i) := q])
  {
    UpDown(p, i);
  }

  lemma GrowDistinct(at: Shape, c: Path, q: nat)
    requires Distinct(at) && forall x :: x in at ==> at[x] != q
    ensures Distinct(at[c := q])
  {
  }

  lemma GrowBacked(m: Memory, at: Shape, live: set<nat>, p: Path, i: nat, q: nat)
    requires Backed(m, at, live) && CanGrow(m, at, live, p, i, q)
    ensures Backed(Grown(m, at, p, i, q), at[Down(p, i) := q], live + {q})
  {
    NotOwned(m, at, live, q);
    var m', at' := Grown(m, at, p, i, q), at[Down(p, i) := q];
    forall x | x in at' ensures PageOk(m', live + {q}, at'[x]) {
      if x != Down(p, i) {
        assert PageOk(m, live, at[x]);
      }
    }
  }

  /** What a slot holds once a table has been added below slot `i` of `p`. */
  lemma GrownSlot(m: Memory, at: Shape, live: set<nat>, p: Path, i: nat, q: nat, x: Path, j: nat)
    requires Distinct(at) && Backed(m, at, live) && CanGrow(m, at, live, p, i, q) && j < 512
    ensures Slot(Grown(m, at, p, i, q), at[Down(p, i) := q], x, j) ==
            (if x == Down(p, i) then 0 else if x == p && j == i then DescTable(q) else Slot(m, at, x, j))
  {
    hide DescTable;
    hide Distinct;
    hide Backed;
    NotOwned(m, at, live, q);
    assert PageOk(m, live, at[p]) by {
      BackedAt(m, at, live, p);
    }
    var m1 := m[q := Zeros()];
    if x == Down(p, i) {
      UpDown(p, i);
      LoadStored(m1, at[p], i, DescTable(q), q, j);
    } else if x in at {
      LoadStored(m1, at[p], i, DescTable(q), at[x], j);
      if x != p {
        DistinctAt(at, x, p);
      }
    }
  }

  lemma BackedAt(m: Memory, at: Shape, live: set<nat>, p: Path)
    requires Backed(m, at, live) && p in at
    ensures PageOk(m, live, at[p])
  {
  }

  lemma DistinctAt(at: Shape, p: Path, q: Path)
    requires Distinct(at) && p in at && q in at && p != q
    ensures at[p] != at[q]
  {
  }

  lemma GrowLinked(m: Memory, at: Shape, live: set<nat>, p: Path, i: nat, q: nat)
    requires IsTree(m, at, live) && CanGrow(m, at, live, p, i, q)
    ensures Linked(Grown(m, at, p, i, q), at[Down(p, i) := q])
  {
    hide Paths;
    hide Slot;
    hide Grown;
    hide DescTable;
    hide Down;
    hide Distinct;
    hide Backed;
    var c := Down(p, i);
    var m', at' := Grown(m, at, p, i, q), at[c := q];
    UpDown(p, i);
    forall x, j | x in at' && |x| < 3 && j < 512 ensures Slot(m', at', x, j) == Link(at', x, j) {
      GrownSlot(m, at, live, p, i, q, x, j);
      UpDown(x, j);
      if x == c {
        NothingBelow(at, c, j);
      }
    }
  }

  lemma GrowLeaves(m: Memory, at: Shape, live: set<nat>, p: Path, i: nat, q: nat)
    requires IsTree(m, at, live) && CanGrow(m, at, live, p, i, q)
    ensures Leaves(Grown(m, at, p, i, q), at[Down(p, i) := q])
  {
    hide Paths;
    hide Slot;
    hide Grown;
    hide DescTable;
    hide Down;
    hide Distinct;
    hide Backed;
    hide Linked;
    var c := Down(p, i);
    var m', at' := Grown(m, at, p, i, q), at[c := q];
    UpDown(p, i);
    forall x, j | x in at' && |x| == 3 && j < 512 ensures Slot(m', at', x, j) == 0 || Slot(m', at', x, j) % 4 == 3 {
      GrownSlot(m, at, live, p, i, q, x, j);
    }
  }

  /** Adding an empty table below an empty slot keeps the tree and every leaf descriptor. */
  lemma GrowTree(m: Memory, at: Shape, live: set<nat>, p: Path, i: nat, q: nat)
    requires IsTree(m, at, live) && CanGrow(m, at, live, p, i, q)
    ensures IsTree(Grown(m, at, p, i, q), at[Down(p, i) := q], live + {q})
  {
    hide Paths;
    hide Slot;
    hide Grown;
    hide DescTable;
    hide Down;
    hide Distinct;
    hide Backed;
    hide Linked;
    hide Leaves;
    NotOwned(m, at, live, q);
    GrowPaths(at, p, i, q);
    GrowDistinct(at, Down(p, i), q);
    GrowBacked(m, at, live, p, i, q);
    GrowLinked(m, at, live, p, i, q);
    GrowLeaves(m, at, live, p, i, q);
  }

  lemma GrowEntry(m: Memory, at: Shape, live: set<nat>, p: Path, i: nat, q: nat, k: Path)
    requires IsTree(m, at, live) && CanGrow(m, at, live, p, i, q) && |k| == 4 && k[3] < 512
    ensures Entry(Grown(m, at, p, i, q), at[Down(p, i) := q], k) == Entry(m, at, k)
  {
    hide Paths;
    hide Slot;
    hide Grown;
    hide DescTable;
    hide Down;
    hide Distinct;
    hide Backed;
    hide Linked;
    hide Leaves;
    GrownSlot(m, at, live, p, i, q, k[..3], k[3]);
    SlotAbsent(m, at, Down(p, i), k[3]);
  }

  lemma SlotAbsent(m: Memory, at: Shape, p: Path, i: nat)
    requires p !in at
    ensures Slot(m, at, p, i) == 0
  {
  }

  // ------------------------------------------------------------------ leaves

  lemma WrittenSlot(m: Memory, at: Shape, live: set<nat>, p: Path, i: nat, d: nat, x: Path, j: nat)
    requires Distinct(at) && Backed(m, at, live) && p in at && i < 512 && j < 512
    ensures Slot(Store(m, at[p], i, d), at, x, j) == if x == p && j == i then d else Slot(m, at, x, j)
  {
    hide Distinct;
    hide Backed;
    BackedAt(m, at, live, p);
    if x in at {
      LoadStored(m, at[p], i, d, at[x], j);
      if x != p {
        DistinctAt(at, x, p);
      }
    }
  }

  lemma StoreBacked(m: Memory, at: Shape, live: set<nat>, t: nat, i: nat, d: nat)
    requires Backed(m, at, live)
    ensures Backed(Store(m, t, i, d), at, live)
  {
    var m' := Store(m, t, i, d);
    forall x | x in at ensures PageOk(m', live, at[x]) {
      assert PageOk(m, live, at[x]);
    }
  }

  /** Writing a page descriptor into a last-level table keeps the tree. */
  lemma WriteLeaf(m: Memory, at: Shape, live: set<nat>, p: Path, i: nat, d: nat)
    requires IsTree(m, at, live) && p in at && |p| == 3 && i < 512 && d % 4 == 3
    ensures IsTree(Store(m, at[p], i, d), at, live)
  {
    hide Paths;
    hide Slot;
    hide Store;
    hide Distinct;
    hide Backed;
    hide Link;
    var m' := Store(m, at[p], i, d);
    StoreBacked(m, at, live, at[p], i, d);
    forall x, j | x in at && |x| < 3 && j < 512 ensures Slot(m', at, x, j) == Link(at, x, j) {
      WrittenSlot(m, at, live, p, i, d, x, j);
    }
    forall x, j | x in at && |x| == 3 && j < 512 ensures Slot(m', at, x, j) == 0 || Slot(m', at, x, j) % 4 == 3 {
      WrittenSlot(m, at, live, p, i, d, x, j);
    }
  }

  lemma WriteEntry(m: Memory, at: Shape, live: set<nat>, p: Path, i: nat, d: nat, k: Path)
    requires IsTree(m, at, live) && p in at && |p| == 3 && i < 512 && |k| == 4 && k[3] < 512
    ensures Entry(Store(m, at[p], i, d), at, k) == if k == Down(p, i) then d else Entry(m, at, k)
  {
    hide Paths;
    hide Slot;
    hide Store;
    hide Distinct;
    hide Backed;
    hide Linked;
    hide Leaves;
    WrittenSlot(m, at, live, p, i, d, k[..3], k[3]);
    assert k == k[..3] + [k[3]];
  }

  // -------------------------------------------------------------- addresses

  /** The four indices of an address. */
  function Key(va: nat): (k: Path)
    ensures |k| == 4
  {
    [Idx(0, va), Idx(1, va), Idx(2, va), Idx(3, va)]
  }

  lemma KeyIs(va: nat)
    ensures Key(va) == [va / 0x80_0000_0000 % 512, va / 0x4000_0000 % 512, va / 0x20_0000 % 512, va / 0x1000 % 512]
    ensures forall i :: 0 <= i < 4 ==> Key(va)[i] < 512
  {
    hide Idx;
    IdxIs(0, va);
    IdxIs(1, va);
    IdxIs(2, va);
    IdxIs(3, va);
  }

  /** In the 48-bit address space the indices name the page. */
  lemma KeyNamesPage(x: nat, y: nat)
    requires x < VA_LIMIT && y < VA_LIMIT
    ensures Key(x) == Key(y) <==> x / PAGE_SIZE == y / PAGE_SIZE
  {
    hide Key;
    KeyIs(x);
    KeyIs(y);
    DigitsOf(x);
    DigitsOf(y);
    if Key(x) == Key(y) {
      assert Key(x)[0] == Key(y)[0] && Key(x)[1] == Key(y)[1] && Key(x)[2] == Key(y)[2] && Key(x)[3] == Key(y)[3];
    }
    if x / PAGE_SIZE == y / PAGE_SIZE {
      SamePageSameDigits(x);
      SamePageSameDigits(y);
    }
  }

  lemma DigitsOf(x: nat)
    requires x < VA_LIMIT
    ensures x / 0x1000 == ((x / 0x80_0000_0000 % 512 * 512 + x / 0x4000_0000 % 512) * 512 + x / 0x20_0000 % 512) * 512 + x / 0x1000 % 512
  {
  }

  lemma SamePageSameDigits(x: nat)
    ensures x / 0x80_0000_0000 == x / 0x1000 / 0x800_0000 && x / 0x4000_0000 == x / 0x1000 / 0x4_0000 && x / 0x20_0000 == x / 0x1000 / 0x200
  {
  }

  // ------------------------------------------------------------- translation

  /** Where an address leads, and with which attribute bits. */
  datatype Frame = Unmapped | To(pa: nat, attrs: int)

  ghost predicate Leads(f: Frame, pa: nat) {
    f.To? && f.pa == pa
  }

  /** The table walk for one address, from table `t` at a level. */
  ghost function Walk(m: Memory, t: nat, level: nat, va: nat): Frame
    decreases 4 - level
  {
    var d := Load(m, t, Idx(level, va));
    match KindOf(d, level)
    case Invalid => Unmapped
    case Leaf => To(OutAddr(d) + va % Span(level), AttrBits(d))
    case Table => if level < 3 then Walk(m, OutAddr(d), level + 1, va) else Unmapped
  }

  ghost function FrameOf(d: nat, va: nat): Frame {
    if d == 0 then Unmapped else To(OutAddr(d) + va % PAGE_SIZE, AttrBits(d))
  }

  /** Walking the tables finds the leaf descriptor of the page. */
  lemma {:induction false} WalkFrom(m: Memory, at: Shape, live: set<nat>, level: nat, va: nat)
    requires IsTree(m, at, live) && level <= 3 && Key(va)[..level] in at
    ensures Walk(m, at[Key(va)[..level]], level, va) == FrameOf(Entry(m, at, Key(va)), va)
    decreases 4 - level
  {
    hide Paths;
    hide Distinct;
    hide Backed;
    hide Linked;
    hide Leaves;
    hide OutAddr;
    hide KindOf;
    hide DescTable;
    KeyIs(va);
    var k := Key(va);
    var p, i := k[..level], k[level];
    if level < 3 {
      LinkedAt(m, at, p, i);
      assert Down(p, i) == k[..level + 1];
      if Down(p, i) in at {
        BackedAt(m, at, live, Down(p, i));
        TableRoundTrip(at[Down(p, i)]);
        WalkFrom(m, at, live, level + 1, va);
      } else {
        KindIs(0, level);
        MissingEntry(m, at, k, level + 1);
      }
    } else {
      LeafAt(m, at, p, i);
      KindIs(Slot(m, at, p, i), 3);
    }
  }

  lemma LinkedAt(m: Memory, at: Shape, p: Path, i: nat)
    requires Linked(m, at) && p in at && |p| < 3 && i < 512
    ensures Load(m, at[p], i) == Link(at, p, i)
  {
    assert Slot(m, at, p, i) == Load(m, at[p], i);
  }

  lemma LeafAt(m: Memory, at: Shape, p: Path, i: nat)
    requires Leaves(m, at) && p in at && |p| == 3 && i < 512
    ensures Slot(m, at, p, i) == 0 || Slot(m, at, p, i) % 4 == 3
  {
  }

  lemma MissingEntry(m: Memory, at: Shape, k: Path, n: nat)
    requires Paths(at) && |k| == 4 && n <= 3 && k[..n] !in at
    ensures Entry(m, at, k) == 0
    decreases 3 - n
  {
    if n < 3 {
      NothingBelow(at, k[..n], k[n]);
      assert Down(k[..n], k[n]) == k[..n + 1];
      MissingEntry(m, at, k, n + 1);
    }
  }

  /** What the hardware makes of an address under the map rooted at `l0`. */
  ghost function Translate(m: Memory, l0: nat, va: nat): Frame {
    Walk(m, l0, 0, va)
  }

  lemma TranslateIs(m: Memory, at: Shape, live: set<nat>, va: nat)
    requires IsTree(m, at, live)
    ensures [] in at && Translate(m, at[[]], va) == FrameOf(Entry(m, at, Key(va)), va)
  {
    assert Key(va)[..0] == [];
    WalkFrom(m, at, live, 0, va);
  }
}
