/**
  The 4-ary min-heap of `rtprog/heap.c`: an array of nodes ordered by key, each
  node recording its own position in `idx`.  The pure part states heap order and
  the multiset of entries on sequences; the class carries the in-place algorithms.
 */
module Heap {

  const HEAP_D: nat := 4
  const SIZE_MAX: nat := 0xFFFF_FFFF_FFFF_FFFF

  /** One slot: sort key, payload handle and position (SIZE_MAX when not in the heap). */
  datatype Node = Node(key: nat, val: nat, idx: nat)

  datatype Option<T> = None | Some(value: T)

  type Entry = (nat, nat)

  function Parent(i: nat): nat
    requires i > 0
  {
    (i - 1) / HEAP_D
  }

  function Child(i: nat, k: nat): nat {
    HEAP_D * i + 1 + k
  }

  // ---------------------------------------------------------------- sequences

  ghost function Pairs(s: seq<Node>): (r: seq<Entry>)
    ensures |r| == |s|
  {
    seq(|s|, i requires 0 <= i < |s| => (s[i].key, s[i].val))
  }

  /** What the heap holds, forgetting the order of the slots. */
  ghost function Entries(s: seq<Node>): multiset<Entry> {
    multiset(Pairs(s))
  }

  ghost predicate Ordered(s: seq<Node>) {
    forall j :: 0 < j < |s| ==> s[Parent(j)].key <= s[j].key
  }

  ghost predicate Indexed(s: seq<Node>) {
    forall j :: 0 <= j < |s| ==> s[j].idx == j
  }

  /** Every node's position is a slot of the storage or SIZE_MAX. */
  ghost predicate Stored(s: seq<Node>) {
    forall j :: 0 <= j < |s| ==> s[j].idx < |s| || s[j].idx == SIZE_MAX
  }

  ghost function Swapped(s: seq<Node>, i: nat, j: nat): (r: seq<Node>)
    requires i < |s| && j < |s|
    ensures |r| == |s|
  {
    s[i := s[j].(idx := i)][j := s[i].(idx := j)]
  }

  lemma StoredKept(s: seq<Node>, i: nat, j: nat, x: Node)
    requires Stored(s) && i < |s| && j < |s|
    ensures Stored(Swapped(s, i, j))
    ensures x.idx < |s| || x.idx == SIZE_MAX ==> Stored(s[i := x])
  {
  }

  /** Ordered everywhere except possibly between slot `i` and its parent. */
  ghost predicate OrderedAbove(s: seq<Node>, i: nat) {
    && (forall j :: 0 < j < |s| && j != i ==> s[Parent(j)].key <= s[j].key)
    && (forall j :: 0 < j < |s| && Parent(j) == i && 0 < i < |s| ==> s[Parent(i)].key <= s[j].key)
  }

  /** Ordered everywhere except possibly between slot `i` and its children. */
  ghost predicate OrderedBelow(s: seq<Node>, i: nat) {
    && (forall j :: 0 < j < |s| && Parent(j) != i ==> s[Parent(j)].key <= s[j].key)
    && (forall j :: 0 < j < |s| && Parent(j) == i && 0 < i < |s| ==> s[Parent(i)].key <= s[j].key)
  }

  /** Heap order makes the root a least key of the whole heap. */
  lemma {:induction false} RootIsLeast(s: seq<Node>, i: nat)
    requires Ordered(s) && i < |s|
    ensures s[0].key <= s[i].key
    decreases i
  {
    if i > 0 {
      RootIsLeast(s, Parent(i));
    }
  }

  lemma RootBoundsEntries(s: seq<Node>)
    requires Ordered(s) && |s| > 0
    ensures (s[0].key, s[0].val) in Entries(s)
    ensures forall e :: e in Entries(s) ==> s[0].key <= e.0
  {
    assert Pairs(s)[0] == (s[0].key, s[0].val);
    forall e | e in Entries(s) ensures s[0].key <= e.0 {
      assert e in Pairs(s);
      var i :| 0 <= i < |s| && Pairs(s)[i] == e;
      RootIsLeast(s, i);
    }
  }

  lemma SwapKeepsEntries(s: seq<Node>, i: nat, j: nat)
    requires i < |s| && j < |s|
    ensures Entries(Swapped(s, i, j)) == Entries(s)
  {
    var p := Pairs(s);
    assert Pairs(Swapped(s, i, j)) == p[i := p[j]][j := p[i]];
  }

  lemma EntriesOfAppend(s: seq<Node>, x: Node)
    ensures Entries(s + [x]) == Entries(s) + multiset{(x.key, x.val)}
  {
    assert Pairs(s + [x]) == Pairs(s) + [(x.key, x.val)];
  }

  lemma EntriesOfUpdate(s: seq<Node>, i: nat, x: Node)
    requires i < |s|
    ensures Entries(s[i := x]) == Entries(s) - multiset{(s[i].key, s[i].val)} + multiset{(x.key, x.val)}
  {
    var p := Pairs(s);
    assert Pairs(s[i := x]) == p[i := (x.key, x.val)];
    assert p[i] in p;
  }

  /** Removing the root by moving the last slot over it removes exactly its entry. */
  lemma EntriesOfReplaceRoot(s: seq<Node>)
    requires |s| > 1
    ensures Entries(s[..|s| - 1][0 := s[|s| - 1].(idx := 0)]) == Entries(s) - multiset{(s[0].key, s[0].val)}
  {
    var t, x := s[..|s| - 1], s[|s| - 1];
    assert s == t + [x];
    EntriesOfAppend(t, x);
    EntriesOfUpdate(t, 0, x.(idx := 0));
    assert Pairs(t)[0] == (s[0].key, s[0].val);
  }

  lemma SiftUpStep(s: seq<Node>, i: nat)
    requires 0 < i < |s| && OrderedAbove(s, i) && Indexed(s)
    requires s[Parent(i)].key > s[i].key
    ensures OrderedAbove(Swapped(s, Parent(i), i), Parent(i))
    ensures Indexed(Swapped(s, Parent(i), i))
  {
    var p := Parent(i);
    var t := Swapped(s, p, i);
    forall j | 0 < j < |t| && j != p ensures t[Parent(j)].key <= t[j].key {
      if j == i {
      } else if Parent(j) == i {
      } else if Parent(j) == p {
      } else {
        assert s[Parent(j)].key <= s[j].key;
      }
    }
    forall j | 0 < j < |t| && Parent(j) == p && 0 < p < |t| ensures t[Parent(p)].key <= t[j].key {
      assert s[Parent(p)].key <= s[p].key;
      if j != i {
        assert s[p].key <= s[j].key;
      }
    }
  }

  lemma SiftDownStep(s: seq<Node>, i: nat, best: nat)
    requires i < |s| && 0 < best < |s| && Parent(best) == i
    requires OrderedBelow(s, i) && Indexed(s)
    requires s[best].key < s[i].key
    requires forall c :: 0 < c < |s| && Parent(c) == i ==> s[best].key <= s[c].key
    ensures OrderedBelow(Swapped(s, i, best), best)
    ensures Indexed(Swapped(s, i, best))
  {
    var t := Swapped(s, i, best);
    forall j | 0 < j < |t| && Parent(j) != best ensures t[Parent(j)].key <= t[j].key {
      if j == i {
        assert s[Parent(best)].key == s[i].key;
      } else if Parent(j) == i {
      } else {
        assert s[Parent(j)].key <= s[j].key;
      }
    }
    forall j | 0 < j < |t| && Parent(j) == best ensures t[Parent(best)].key <= t[j].key {
      assert s[Parent(j)].key <= s[j].key;
    }
  }

  // ------------------------------------------------------ slots off the heap

  /** Where a key climbing from slot `i` off the heap of `len` slots first displaces a heap slot, if anywhere. */
  ghost function Hits(s: seq<Node>, len: nat, i: nat, key: nat): Option<nat>
    requires i < |s|
  {
    if i == 0 || s[Parent(i)].key <= key then None
    else if Parent(i) < len then Some(Parent(i))
    else Hits(s, len, Parent(i), key)
  }

  lemma {:induction false} HitsBelow(s: seq<Node>, t: seq<Node>, len: nat, i: nat, key: nat)
    requires i < |s| && i < |t| && forall j :: 0 <= j < i ==> s[j].key == t[j].key
    ensures Hits(s, len, i, key) == Hits(t, len, i, key)
  {
    if i > 0 {
      HitsBelow(s, t, len, Parent(i), key);
    }
  }

  /** What the first `len` slots hold after `sift_up` from slot `i`: off the heap, the climbing entry may evict another. */
  ghost function Climbed(s: seq<Node>, len: nat, i: nat): multiset<Entry>
    requires i < |s| && len <= |s|
  {
    var hit: Option<nat> := if i < len then None else Hits(s, len, i, s[i].key);
    if hit.None? || hit.value >= len then Entries(s[..len])
    else Entries(s[..len]) - multiset{(s[hit.value].key, s[hit.value].val)} + multiset{(s[i].key, s[i].val)}
  }

  /** One swap off the heap does not change where the entry ends up. */
  lemma ClimbOff(s: seq<Node>, len: nat, i: nat)
    requires 0 < i < |s| && len <= Parent(i) && s[Parent(i)].key > s[i].key
    ensures Climbed(Swapped(s, Parent(i), i), len, Parent(i)) == Climbed(s, len, i)
  {
    hide Entries;
    var p, t := Parent(i), Swapped(s, Parent(i), i);
    SwapAt(s, p, i);
    HitsBelow(s, t, len, p, s[i].key);
    HitsInHeap(s, len, p, s[i].key);
    assert t[..len] == s[..len];
    assert Hits(s, len, i, s[i].key) == Hits(t, len, p, t[p].key);
  }

  lemma SwapAt(s: seq<Node>, p: nat, i: nat)
    requires p < i < |s|
    ensures var t := Swapped(s, p, i);
            t[p] == s[i].(idx := p) && t[i] == s[p].(idx := i) && forall j :: 0 <= j < |s| && j != p && j != i ==> t[j] == s[j]
  {
  }

  lemma {:induction false} HitsInHeap(s: seq<Node>, len: nat, i: nat, key: nat)
    requires i < |s|
    ensures var h := Hits(s, len, i, key); h.Some? ==> h.value < len && h.value < i && s[h.value].key > key
  {
    if i > 0 {
      HitsInHeap(s, len, Parent(i), key);
    }
  }

  lemma ClimbedIn(s: seq<Node>, len: nat, i: nat)
    requires i < |s| && len <= |s|
    ensures i < len ==> Climbed(s, len, i) == Entries(s[..len])
  {
  }

  lemma ClimbStops(s: seq<Node>, len: nat, i: nat)
    requires i < |s| && len <= |s| && (i == 0 || s[Parent(i)].key <= s[i].key)
    ensures Climbed(s, len, i) == Entries(s[..len])
  {
  }

  lemma SwapPrefix(s: seq<Node>, p: nat, i: nat, len: nat)
    requires p < i < |s| && len <= |s|
    ensures i < len ==> Swapped(s, p, i)[..len] == Swapped(s[..len], p, i)
    ensures i < len ==> Swapped(s, p, i)[len..] == s[len..]
    ensures len <= p ==> Swapped(s, p, i)[..len] == s[..len]
  {
  }

  lemma NotOrdered(s: seq<Node>, i: nat)
    requires 0 < i < |s| && s[Parent(i)].key > s[i].key
    ensures !Ordered(s)
  {
  }

  lemma AboveDone(s: seq<Node>, i: nat)
    requires i < |s| && OrderedAbove(s, i) && (i == 0 || s[Parent(i)].key <= s[i].key)
    ensures Ordered(s)
  {
  }

  lemma BelowDone(s: seq<Node>, i: nat)
    requires i < |s| && OrderedBelow(s, i) && forall c :: 0 < c < |s| && Parent(c) == i ==> s[i].key <= s[c].key
    ensures Ordered(s)
  {
  }

  /** The swap that enters the heap evicts the entry there and leaves only its parent's order in doubt. */
  lemma ClimbIn(s: seq<Node>, len: nat, i: nat)
    requires len <= i < |s| && 0 < i && Parent(i) < len && s[Parent(i)].key > s[i].key
    requires Ordered(s[..len]) && Indexed(s[..len])
    ensures var t := Swapped(s, Parent(i), i);
            OrderedAbove(t[..len], Parent(i)) && Indexed(t[..len]) && Entries(t[..len]) == Climbed(s, len, i)
  {
    var p, t, h := Parent(i), Swapped(s, Parent(i), i), s[..len];
    assert t[..len] == h[p := s[i].(idx := p)];
    EntriesOfUpdate(h, p, s[i].(idx := p));
    var u := t[..len];
    forall j | 0 < j < |u| && j != p ensures u[Parent(j)].key <= u[j].key {
      assert h[Parent(j)].key <= h[j].key;
    }
    forall j | 0 < j < |u| && Parent(j) == p && 0 < p < |u| ensures u[Parent(p)].key <= u[j].key {
      assert h[Parent(p)].key <= h[p].key && h[Parent(j)].key <= h[j].key;
    }
  }

  // ---------------------------------------------------------------- the heap

  class MinHeap {
    const a: array<Node>
    var len: nat

    /** Positions are recorded, and no node of the storage points outside it. */
    ghost predicate Shape()
      reads this, a
    {
      && len <= a.Length < SIZE_MAX
      && Indexed(a[..len])
      && Stored(a[..])
    }

    /** The invariant of every operation: heap order, and `idx` equal to position. */
    ghost predicate Valid()
      reads this, a
    {
      Shape() && Ordered(a[..len])
    }

    /** The abstract priority queue this heap refines. */
    ghost function Items(): multiset<Entry>
      reads this, a
    {
      Entries(if len <= a.Length then a[..len] else [])
    }

    lemma WithinCapacity()
      requires Valid()
      ensures len <= a.Length
      ensures len == 0 <==> Items() == multiset{}
      ensures |Items()| == len
    {
      assert |Items()| == len;
    }

    /** `heap_init`: the storage is taken as it is. */
    constructor (storage: array<Node>)
      requires storage.Length < SIZE_MAX && Stored(storage[..])
      ensures Valid() && a == storage && len == 0
      ensures Items() == multiset{}
    {
      a := storage;
      len := 0;
    }

    method SwapNodes(i: nat, j: nat)
      requires i < a.Length && j < a.Length
      modifies a
      ensures a[..] == Swapped(old(a[..]), i, j)
    {
      var tmp := a[i];
      a[i] := a[j];
      a[j] := tmp;
      a[i] := a[i].(idx := i);
      a[j] := a[j].(idx := j);
    }

    /** In the heap, restores order upwards; from a slot off the heap, climbs and may evict an entry. */
    method SiftUp(start: nat)
      requires Shape() && start < a.Length
      requires if start < len then OrderedAbove(a[..len], start) else Ordered(a[..len])
      modifies a
      ensures Valid() && Items() == Climbed(old(a[..]), len, start)
      ensures start < len && old(Ordered(a[..len])) ==> a[..] == old(a[..])
    {
      hide Stored;
      hide Ordered;
      hide OrderedAbove;
      hide Indexed;
      hide Entries;
      hide Climbed;
      hide Swapped;
      var i: nat := start;
      ClimbedIn(a[..], len, start);
      assert a[..][..len] == a[..len];
      while i > 0
        invariant i < a.Length && Shape()
        invariant if i < len then OrderedAbove(a[..len], i) else Ordered(a[..len])
        invariant i < len ==> Items() == Climbed(old(a[..]), len, start)
        invariant i >= len ==> Climbed(a[..], len, i) == Climbed(old(a[..]), len, start)
        invariant start < len && old(Ordered(a[..len])) ==> i == start && a[..] == old(a[..])
      {
        var p := Parent(i);
        ghost var s := a[..];
        assert s[..len] == a[..len];
        if a[p].key <= a[i].key {
          break;
        }
        if i < len {
          NotOrdered(s[..len], i);
          SiftUpStep(s[..len], i);
          SwapKeepsEntries(s[..len], p, i);
        } else if p < len {
          ClimbIn(s, len, i);
        } else {
          ClimbOff(s, len, i);
        }
        SwapPrefix(s, p, i, len);
        StoredKept(s, p, i, s[i]);
        SwapNodes(p, i);
        assert a[..len] == a[..][..len];
        i := p;
      }
      assert a[..][..len] == a[..len];
      if i < len {
        AboveDone(a[..len], i);
      } else {
        ClimbStops(a[..], len, i);
      }
    }

    /** The child scan of one sift-down round: the least key among `i` and its children. */
    method LeastOfFamily(i: nat) returns (best: nat)
      requires len <= a.Length && i < a.Length
      ensures best == i || (0 < best < len && Parent(best) == i)
      ensures a[best].key <= a[i].key
      ensures best != i ==> a[best].key < a[i].key
      ensures forall c :: 0 < c < len && Parent(c) == i ==> a[best].key <= a[c].key
    {
      best := i;
      var first := Child(i, 0);
      if first >= len {
        return;
      }
      var last := first + HEAP_D;
      if last > len {
        last := len;
      }
      for c := first to last
        invariant best == i || (first <= best < c && a[best].key < a[i].key)
        invariant a[best].key <= a[i].key
        invariant forall d :: first <= d < c ==> a[best].key <= a[d].key
      {
        if a[c].key < a[best].key {
          best := c;
        }
      }
    }

    method SiftDown(start: nat)
      requires Shape() && start < a.Length
      requires if start < len then OrderedBelow(a[..len], start) else Ordered(a[..len])
      modifies a
      ensures Valid() && Items() == old(Items()) && a[len..] == old(a[len..])
      ensures old(Ordered(a[..len])) ==> a[..] == old(a[..])
    {
      hide Stored;
      hide Ordered;
      hide OrderedBelow;
      hide Indexed;
      hide Entries;
      hide Swapped;
      var i := start;
      while true
        invariant i < a.Length && Shape() && (start >= len ==> i == start)
        invariant if i < len then OrderedBelow(a[..len], i) else Ordered(a[..len])
        invariant Items() == old(Items()) && a[len..] == old(a[len..])
        invariant old(Ordered(a[..len])) ==> i == start && a[..] == old(a[..])
        decreases a.Length - i
      {
        ghost var s := a[..len];
        var best := LeastOfFamily(i);
        assert forall c :: 0 < c < |s| && Parent(c) == i ==> a[best].key <= s[c].key;
        if best == i {
          break;
        }
        NotOrdered(s, best);
        SiftDownStep(s, i, best);
        SwapKeepsEntries(s, i, best);
        SwapPrefix(a[..], i, best, len);
        StoredKept(a[..], i, best, a[i]);
        assert a[..][..len] == s && a[..][len..] == a[len..];
        SwapNodes(i, best);
        assert a[..len] == a[..][..len] && a[len..] == a[..][len..];
        i := best;
      }
      if i < len {
        BelowDone(a[..len], i);
      }
    }

    /** Insert; false exactly when the heap is full, and then nothing changes. */
    method Push(key: nat, val: nat) returns (ok: bool)
      requires Valid()
      modifies this`len, a
      ensures Valid()
      ensures ok <==> old(len) < a.Length
      ensures !ok ==> len == old(len) && a[..] == old(a[..])
      ensures ok ==> len == old(len) + 1 && Items() == old(Items()) + multiset{(key, val)}
      ensures ok && Ordered(old(a[..len]) + [Node(key, val, old(len))]) ==> a[..len] == old(a[..len]) + [Node(key, val, old(len))]
    {
      hide Stored;
      if len == a.Length {
        return false;
      }
      ghost var s, all := a[..len], a[..];
      var i := len;
      len := len + 1;
      StoredKept(all, i, i, Node(key, val, i));
      a[i] := Node(key, val, i);
      assert a[..] == all[i := Node(key, val, i)];
      assert a[..len] == s + [Node(key, val, i)];
      EntriesOfAppend(s, Node(key, val, i));
      SiftUp(i);
      return true;
    }

    /** Remove a least entry; None exactly when the heap is empty. */
    method Pop() returns (r: Option<Entry>)
      requires Valid()
      modifies this`len, a
      ensures Valid()
      ensures r.None? <==> old(len) == 0
      ensures r.None? ==> len == 0 && Items() == old(Items())
      ensures r.Some? ==> len == old(len) - 1
      ensures r.Some? ==> r.value in old(Items()) && Items() == old(Items()) - multiset{r.value}
      ensures r.Some? ==> forall e :: e in old(Items()) ==> r.value.0 <= e.0
      ensures r.Some? && len > 0 ==> a[len] == old(a[len - 1])
      ensures r.Some? && len > 0 ==>
                var t := old(a[..len - 1])[0 := old(a[len - 1]).(idx := 0)];
                Ordered(t) ==> a[..len] == t
    {
      hide Stored;
      if len == 0 {
        return None;
      }
      ghost var s, all := a[..len], a[..];
      RootBoundsEntries(s);
      r := Some((a[0].key, a[0].val));
      StoredKept(all, 0, 0, a[0].(idx := SIZE_MAX));
      a[0] := a[0].(idx := SIZE_MAX);
      len := len - 1;
      if len > 0 {
        StoredKept(all, 0, 0, a[len].(idx := 0));
        a[0] := a[len];
        a[0] := a[0].(idx := 0);
        assert a[..] == all[0 := all[len].(idx := 0)];
        assert a[..len] == s[..|s| - 1][0 := s[|s| - 1].(idx := 0)];
        EntriesOfReplaceRoot(s);
        SiftDown(0);
      } else {
        assert a[..] == all[0 := all[0].(idx := SIZE_MAX)];
        assert Pairs(s) == [r.value];
        assert a[..len] == [];
      }
    }

    /** Read a least entry without removing it. */
    method Peek() returns (r: Option<Entry>)
      requires Valid()
      ensures r.None? <==> len == 0
      ensures r.Some? ==> r.value in Items() && forall e :: e in Items() ==> r.value.0 <= e.0
    {
      if len == 0 {
        return None;
      }
      RootBoundsEntries(a[..len]);
      return Some((a[0].key, a[0].val));
    }

    /**
      Lower the key of the node in slot `n`; no effect when not lower or marked as not in the heap.
      A slot that a pop has left behind keeps its position: lowering its key below that of a slot
      it hangs from evicts that slot's entry.
     */
    method DecreaseKey(n: nat, newKey: nat)
      requires Valid() && n < a.Length
      modifies a
      ensures Valid()
      ensures var was, s := old(a[n]), old(a[..]);
              Items() == if was.idx == SIZE_MAX || newKey >= was.key then old(Items())
                         else if n < len then old(Items()) - multiset{(was.key, was.val)} + multiset{(newKey, was.val)}
                         else Climbed(s[n := was.(key := newKey)], len, was.idx)
    {
      var i := a[n].idx;
      if i == SIZE_MAX || newKey >= a[n].key {
        return;
      }
      ghost var s := a[..];
      ghost var t := s[n := s[n].(key := newKey)];
      StoredKept(s, n, n, t[n]);
      assert s[n].idx == i && s[..len] == a[..len];
      a[n] := a[n].(key := newKey);
      assert a[..] == t && a[..len] == t[..len];
      if n < len {
        assert s[..len][n].idx == n;
        LoweredAbove(s[..len], n, newKey);
        assert t[..len] == s[..len][n := s[n].(key := newKey)];
      } else {
        assert t[..len] == s[..len];
      }
      SiftUp(i);
    }

    /** Raise the key of the node in slot `n`; no effect when not higher, or for a slot off the heap. */
    method IncreaseKey(n: nat, newKey: nat)
      requires Valid() && n < a.Length
      modifies a
      ensures Valid()
      ensures var was := old(a[n]);
              Items() == if n >= len || newKey <= was.key then old(Items())
                         else old(Items()) - multiset{(was.key, was.val)} + multiset{(newKey, was.val)}
    {
      var i := a[n].idx;
      ghost var s := a[..];
      ghost var t := s[n := s[n].(key := newKey)];
      StoredKept(s, n, n, t[n]);
      assert s[n].idx == i && s[..len] == a[..len];
      if n < len {
        assert s[..len][n].idx == n;
      }
      if i == SIZE_MAX || newKey <= a[n].key {
        return;
      }
      a[n] := a[n].(key := newKey);
      assert a[..] == t && a[..len] == t[..len];
      if n < len {
        RaisedBelow(s[..len], n, newKey);
        assert t[..len] == s[..len][n := s[n].(key := newKey)];
      } else {
        assert t[..len] == s[..len];
      }
      SiftDown(i);
    }

    /** Pop until empty: everything comes out, in order of key. */
    method Drain() returns (out: seq<Entry>)
      requires Valid()
      modifies this`len, a
      ensures Valid() && len == 0 && multiset(out) == old(Items())
      ensures forall i, j :: 0 <= i < j < |out| ==> out[i].0 <= out[j].0
    {
      out := [];
      while len > 0
        invariant Valid() && PopRun(old(Items()), out, Items())
        decreases len
      {
        ghost var left := Items();
        var r := Pop();
        PopRunNext(old(Items()), out, left, r.value);
        out := out + [r.value];
      }
      WithinCapacity();
      DrainConserves(old(Items()), out, Items());
      forall i, j | 0 <= i < j < |out| ensures out[i].0 <= out[j].0 {
        DrainIsSorted(old(Items()), out, Items(), i);
      }
    }
  }

  lemma LoweredAbove(h: seq<Node>, n: nat, key: nat)
    requires Ordered(h) && Indexed(h) && n < |h| && key < h[n].key
    ensures var t := h[n := h[n].(key := key)];
            && OrderedAbove(t, n) && Indexed(t)
            && Entries(t) == Entries(h) - multiset{(h[n].key, h[n].val)} + multiset{(key, h[n].val)}
  {
    var t := h[n := h[n].(key := key)];
    EntriesOfUpdate(h, n, h[n].(key := key));
    forall j | 0 < j < |t| && j != n ensures t[Parent(j)].key <= t[j].key {
      assert h[Parent(j)].key <= h[j].key;
    }
    forall j | 0 < j < |t| && Parent(j) == n && 0 < n ensures t[Parent(n)].key <= t[j].key {
      assert h[Parent(n)].key <= h[n].key && h[Parent(j)].key <= h[j].key;
    }
  }

  lemma RaisedBelow(h: seq<Node>, n: nat, key: nat)
    requires Ordered(h) && Indexed(h) && n < |h| && key > h[n].key
    ensures var t := h[n := h[n].(key := key)];
            && OrderedBelow(t, n) && Indexed(t)
            && Entries(t) == Entries(h) - multiset{(h[n].key, h[n].val)} + multiset{(key, h[n].val)}
  {
    var t := h[n := h[n].(key := key)];
    EntriesOfUpdate(h, n, h[n].(key := key));
    forall j | 0 < j < |t| && Parent(j) != n ensures t[Parent(j)].key <= t[j].key {
      assert h[Parent(j)].key <= h[j].key;
    }
    forall j | 0 < j < |t| && Parent(j) == n && 0 < n ensures t[Parent(n)].key <= t[j].key {
      assert h[Parent(n)].key <= h[n].key && h[Parent(j)].key <= h[j].key;
    }
  }

  /** Lowering a slot that a pop left behind changes the queue exactly when the new key reaches a heap slot. */
  lemma StaleChange(s: seq<Node>, len: nat, n: nat, key: nat)
    requires len <= n < |s| && s[n].idx < |s|
    ensures var t := s[n := s[n].(key := key)];
            Climbed(t, len, s[n].idx) != Entries(s[..len]) <==> s[n].idx >= len && Hits(t, len, s[n].idx, t[s[n].idx].key).Some?
  {
    var t, i := s[n := s[n].(key := key)], s[n].idx;
    assert t[..len] == s[..len];
    HitsInHeap(t, len, i, t[i].key);
    if i >= len && Hits(t, len, i, t[i].key).Some? {
      var h := Hits(t, len, i, t[i].key).value;
      var x, y := (t[h].key, t[h].val), (t[i].key, t[i].val);
      assert Pairs(s[..len])[h] == x;
      assert x in Entries(s[..len]);
      assert (Entries(s[..len]) - multiset{x} + multiset{y})[x] == Entries(s[..len])[x] - 1;
    }
  }

  /** The first `n` of six pushes: key 1, then key 3 five times, with values from 1 on. */
  ghost function Filled(n: nat): (s: seq<Node>)
    ensures |s| == n && forall i :: 0 <= i < n ==> s[i] == Node(if i == 0 then 1 else 3, i + 1, i)
  {
    seq(n, i requires 0 <= i => Node(if i == 0 then 1 else 3, i + 1, i))
  }

  lemma FilledNext(n: nat)
    ensures Filled(n) + [Node(if n == 0 then 1 else 3, n + 1, n)] == Filled(n + 1) && Ordered(Filled(n + 1))
  {
  }

  /** After the pop the last entry sits at the root and, still, in the slot behind the heap. */
  lemma PoppedFilled(all: seq<Node>)
    requires |all| == 8 && all[..5] == Filled(6)[..5][0 := Filled(6)[5].(idx := 0)] && all[5] == Filled(6)[5]
    ensures Climbed(all[5 := all[5].(key := 0)], 5, 5) == multiset{(3, 6), (0, 6), (3, 3), (3, 4), (3, 5)}
  {
    var t := all[5 := all[5].(key := 0)];
    assert t[..5] == all[..5];
    assert all[..5][1] == Node(3, 2, 1);
    assert t[1] == Node(3, 2, 1) && t[5] == Node(0, 6, 5);
    assert Hits(t, 5, 5, 0) == Some(1);
    assert Pairs(t[..5]) == [(3, 6), (3, 2), (3, 3), (3, 4), (3, 5)];
  }

  lemma PoppedOrdered()
    ensures Ordered(Filled(6)[..5][0 := Filled(6)[5].(idx := 0)])
  {
  }

  /**
    Six entries pushed, one popped, and the slot left behind lowered to 0: the entry with value 2
    is lost and the one with value 6 is there twice.
   */
  method StaleSlotEvicts() returns (h: MinHeap)
    ensures h.Items() == multiset{(3, 6), (0, 6), (3, 3), (3, 4), (3, 5)}
  {
    hide Ordered;
    hide Climbed;
    hide Filled;
    hide Entries;
    var storage := new Node[8](_ => Node(0, 0, 0));
    h := new MinHeap(storage);
    assert h.a[..h.len] == Filled(0);
    for i := 0 to 6
      invariant h.Valid() && h.len == i && h.a == storage && h.a[..h.len] == Filled(i)
    {
      FilledNext(i);
      var ok := h.Push(if i == 0 then 1 else 3, i + 1);
    }
    ghost var full := h.a[..6];
    assert full == Filled(6) && h.a[5] == full[5] && h.a[..5] == full[..5];
    PoppedOrdered();
    var r := h.Pop();
    ghost var all := h.a[..];
    assert all[..5] == h.a[..5];
    PoppedFilled(all);
    h.DecreaseKey(5, 0);
  }

  // ------------------------------------------------------- draining a queue

  /** `out` is what some run of pops on a queue holding `items` returned, with `rest` left over. */
  ghost predicate PopRun(items: multiset<Entry>, out: seq<Entry>, rest: multiset<Entry>) {
    if out == [] then rest == items
    else
      && out[0] in items
      && (forall e :: e in items ==> out[0].0 <= e.0)
      && PopRun(items - multiset{out[0]}, out[1..], rest)
  }

  /** A run of pops neither loses nor invents an entry. */
  lemma {:induction false} DrainConserves(items: multiset<Entry>, out: seq<Entry>, rest: multiset<Entry>)
    requires PopRun(items, out, rest)
    ensures multiset(out) + rest == items
  {
    if out != [] {
      DrainConserves(items - multiset{out[0]}, out[1..], rest);
      assert out == [out[0]] + out[1..];
    }
  }

  /** Every run of pops returns keys in order and leaves only keys at least as large. */
  lemma {:induction false} DrainIsSorted(items: multiset<Entry>, out: seq<Entry>, rest: multiset<Entry>, i: nat)
    requires PopRun(items, out, rest) && i < |out|
    ensures forall j :: i < j < |out| ==> out[i].0 <= out[j].0
    ensures forall e :: e in rest ==> out[i].0 <= e.0
  {
    var left := items - multiset{out[0]};
    if i > 0 {
      DrainIsSorted(left, out[1..], rest, i - 1);
      forall j | i < j < |out| ensures out[i].0 <= out[j].0 {
        assert out[j] == out[1..][j - 1];
      }
    } else {
      DrainConserves(left, out[1..], rest);
      forall j | 0 < j < |out| ensures out[0].0 <= out[j].0 {
        assert out[1..][j - 1] in multiset(out[1..]);
        assert out[j] in left;
      }
      forall e | e in rest ensures out[0].0 <= e.0 {
        assert e in left;
      }
    }
  }

  lemma {:induction false} PopRunNext(items: multiset<Entry>, out: seq<Entry>, rest: multiset<Entry>, e: Entry)
    requires PopRun(items, out, rest) && e in rest && forall d :: d in rest ==> e.0 <= d.0
    ensures PopRun(items, out + [e], rest - multiset{e})
    decreases |out|
  {
    if out == [] {
      assert [e][1..] == [];
    } else {
      PopRunNext(items - multiset{out[0]}, out[1..], rest, e);
      assert (out + [e])[1..] == out[1..] + [e];
    }
  }
}
