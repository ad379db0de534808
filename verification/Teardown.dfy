/** Pure facts about freeing a translation table tree page by page. */
module Teardown {
  import opened PageFormat
  import opened Tree

  /** The table pages at or below `p`. */
  ghost function Below(at: Shape, p: Path): set<nat> {
    set x | x in at && p <= x :: at[x]
  }

  /** The table pages strictly below `p`, through slots before `i`. */
  ghost function BelowFirst(at: Shape, p: Path, i: nat): set<nat> {
    set x | x in at && p < x && x[|p|] < i :: at[x]
  }

  lemma InBelow(at: Shape, p: Path, x: Path)
    requires x in at && p <= x
    ensures at[x] in Below(at, p)
  {
  }

  lemma PrefixSplit(p: Path, x: Path, i: nat)
    ensures Down(p, i) <= x <==> p < x && x[|p|] == i
  {
    if p < x && x[|p|] == i {
      assert x[..|p| + 1] == Down(p, i);
    }
    if Down(p, i) <= x {
      assert p == x[..|p|];
    }
  }

  /** Freeing below slot `i` extends what is freed by one slot. */
  lemma NextSlot(at: Shape, p: Path, i: nat)
    ensures BelowFirst(at, p, i + 1) == BelowFirst(at, p, i) + Below(at, Down(p, i))
  {
    hide Down;
    forall t | t in BelowFirst(at, p, i + 1) ensures t in BelowFirst(at, p, i) + Below(at, Down(p, i)) {
      var x :| x in at && p < x && x[|p|] < i + 1 && at[x] == t;
      PrefixSplit(p, x, i);
    }
    forall t | t in Below(at, Down(p, i)) ensures t in BelowFirst(at, p, i + 1) {
      var x :| x in at && Down(p, i) <= x && at[x] == t;
      PrefixSplit(p, x, i);
    }
  }

  lemma NoneFirst(at: Shape, p: Path)
    ensures BelowFirst(at, p, 0) == {}
  {
  }

  /** The page itself comes last. */
  lemma AllSlots(at: Shape, p: Path)
    requires Paths(at) && p in at
    ensures Below(at, p) == BelowFirst(at, p, 512) + {at[p]}
  {
    forall t | t in Below(at, p) ensures t in BelowFirst(at, p, 512) + {at[p]} {
      var x :| x in at && p <= x && at[x] == t;
      assert Digits(x);
      if x != p {
        assert |p| < |x|;
      }
    }
  }

  lemma LeafHasNone(at: Shape, p: Path, i: nat)
    requires Paths(at) && |p| == 3
    ensures BelowFirst(at, p, i) == {}
  {
    forall x | x in at ensures !(p < x) {
      assert Digits(x);
    }
  }

  lemma {:induction false} NoneUnder(at: Shape, c: Path, x: Path)
    requires Paths(at) && c !in at && c <= x
    ensures x !in at
    decreases |x|
  {
    if x in at && x != c {
      assert c <= Up(x);
      NoneUnder(at, c, Up(x));
    }
  }

  lemma NoneBelow(at: Shape, c: Path)
    requires Paths(at) && c !in at
    ensures Below(at, c) == {}
  {
    forall x | x in at && c <= x ensures false {
      NoneUnder(at, c, x);
    }
  }

  /** The page of one path is not among those freed below another branch. */
  lemma NotFreed(at: Shape, p: Path, i: nat, x: Path)
    requires Distinct(at) && x in at && (x == p || (p < x && x[|p|] >= i))
    ensures at[x] !in BelowFirst(at, p, i)
  {
  }

  // ---------------------------------------------------------------- subtrees

  /** The tables at or below `p` are intact. */
  ghost predicate Subtree(m: Memory, at: Shape, live: set<nat>, p: Path) {
    && Paths(at) && Distinct(at) && p in at
    && (forall x :: x in at && p <= x ==> PageOk(m, live, at[x]))
    && (forall x, i {:trigger Slot(m, at, x, i)} :: x in at && p <= x && |x| < 3 && i < 512 ==> Slot(m, at, x, i) == Link(at, x, i))
  }

  lemma WholeTree(m: Memory, at: Shape, live: set<nat>)
    requires IsTree(m, at, live)
    ensures Subtree(m, at, live, []) && Below(at, []) == at.Values
  {
    forall t | t in at.Values ensures t in Below(at, []) {
      var x :| x in at && at[x] == t;
      InBelow(at, [], x);
    }
  }

  /** Slots before `i` of table `p` have been emptied and what hung below them freed; all else is as in `m0`. */
  ghost predicate Trimmed(m0: Memory, m: Memory, at: Shape, p: Path, i: nat) {
    && p in at && at[p] in m && |m[at[p]]| == 512 && at[p] in m0 && |m0[at[p]]| == 512
    && (forall j :: i <= j < 512 ==> m[at[p]][j] == m0[at[p]][j])
    && (forall u :: u in BelowFirst(at, p, i) ==> u !in m)
    && (forall u :: u != at[p] && u !in BelowFirst(at, p, i) ==> (u in m <==> u in m0) && (u in m0 ==> m[u] == m0[u]))
  }

  /** The subtree below the next slot is still intact. */
  lemma ChildIntact(m0: Memory, live0: set<nat>, m: Memory, at: Shape, p: Path, i: nat)
    requires Subtree(m0, at, live0, p) && Trimmed(m0, m, at, p, i) && Down(p, i) in at
    ensures Subtree(m, at, live0 - BelowFirst(at, p, i), Down(p, i))
  {
    hide Down;
    hide Link;
    var c, live := Down(p, i), live0 - BelowFirst(at, p, i);
    forall x | x in at && c <= x ensures PageOk(m, live, at[x]) && m[at[x]] == m0[at[x]] && p <= x {
      SameBelow(m0, m, at, p, i, x);
      assert PageOk(m0, live0, at[x]);
    }
    forall x, j | x in at && c <= x && |x| < 3 && j < 512 ensures Slot(m, at, x, j) == Link(at, x, j) {
      assert Slot(m0, at, x, j) == Link(at, x, j);
    }
  }

  lemma SameBelow(m0: Memory, m: Memory, at: Shape, p: Path, i: nat, x: Path)
    requires Distinct(at) && Trimmed(m0, m, at, p, i) && x in at && Down(p, i) <= x
    ensures p < x && at[x] !in BelowFirst(at, p, i) && at[x] != at[p]
    ensures (at[x] in m <==> at[x] in m0) && (at[x] in m0 ==> m[at[x]] == m0[at[x]])
  {
    PrefixSplit(p, x, i);
    NotFreed(at, p, i, x);
    DistinctAt(at, x, p);
  }

  /** Once the subtree below slot `i` is gone and the slot emptied, the next slot is up. */
  lemma TrimNext(m0: Memory, live0: set<nat>, m: Memory, at: Shape, p: Path, i: nat)
    requires Subtree(m0, at, live0, p) && Trimmed(m0, m, at, p, i) && i < 512
    ensures Trimmed(m0, Store(m - Below(at, Down(p, i)), at[p], i, 0), at, p, i + 1)
    ensures Below(at, Down(p, i)) == {} ==> Trimmed(m0, m, at, p, i + 1)
  {
    hide Below;
    hide BelowFirst;
    hide Down;
    NextSlot(at, p, i);
    ParentNotBelow(at, p, i);
  }

  lemma ParentNotBelow(at: Shape, p: Path, i: nat)
    requires Distinct(at) && p in at
    ensures at[p] !in Below(at, Down(p, i))
  {
    forall x | x in at && Down(p, i) <= x ensures at[x] != at[p] {
      PrefixSplit(p, x, i);
      DistinctAt(at, x, p);
    }
  }

  lemma TrimFirst(m: Memory, live: set<nat>, at: Shape, p: Path)
    requires Subtree(m, at, live, p)
    ensures Trimmed(m, m, at, p, 0)
  {
    assert PageOk(m, live, at[p]);
  }

  /** With every slot done and the page itself freed, exactly the subtree is gone. */
  lemma TrimLast(m0: Memory, live0: set<nat>, m: Memory, at: Shape, p: Path)
    requires Subtree(m0, at, live0, p) && Trimmed(m0, m, at, p, 512)
    ensures m - {at[p]} == m0 - Below(at, p)
  {
    AllSlots(at, p);
    var f := BelowFirst(at, p, 512);
    forall u: nat ensures u in m - {at[p]} <==> u in m0 - Below(at, p) {
    }
  }

  /** An upper-level slot of an intact subtree. */
  lemma SubtreeSlot(m: Memory, at: Shape, live: set<nat>, p: Path, i: nat)
    requires Subtree(m, at, live, p) && |p| < 3 && i < 512
    ensures var d := Load(m, at[p], i);
            && (Valid(d) <==> Down(p, i) in at) && (Valid(d) ==> d % 4 == 3)
            && (Down(p, i) in at ==> NextTable(d) == at[Down(p, i)])
  {
    hide DescTable;
    hide Valid;
    hide NextTable;
    assert Slot(m, at, p, i) == Link(at, p, i);
    if Down(p, i) in at {
      assert p <= Down(p, i);
      assert PageOk(m, live, at[Down(p, i)]);
      TableRoundTrip(at[Down(p, i)]);
    } else {
      KindIs(0, 0);
    }
  }

  // ------------------------------------------------------- the order of freeing

  ghost function Height(p: Path): nat {
    if |p| < 3 then 3 - |p| else 0
  }

  /** The tables at or below `p` in the order they are freed: slot by slot, each table after those below it. */
  ghost function Order(at: Shape, p: Path): seq<nat>
    decreases Height(p), 513
  {
    if p in at then OrderFirst(at, p, 512) + [at[p]] else []
  }

  ghost function OrderFirst(at: Shape, p: Path, i: nat): seq<nat>
    requires i <= 512
    decreases Height(p), i
  {
    if i == 0 || |p| >= 3 then [] else OrderFirst(at, p, i - 1) + Order(at, Down(p, i - 1))
  }

  /** They are the tables at or below `p`. */
  lemma {:induction false} OrderPages(at: Shape, p: Path, u: nat)
    requires Paths(at) && p in at
    ensures u in Order(at, p) <==> u in Below(at, p)
    decreases Height(p), 513
  {
    hide Below;
    hide BelowFirst;
    AllSlots(at, p);
    assert Digits(p);
    OrderFirstPages(at, p, 512, u);
  }

  lemma {:induction false} OrderFirstPages(at: Shape, p: Path, i: nat, u: nat)
    requires Paths(at) && p in at && i <= 512 && |p| <= 3
    ensures u in OrderFirst(at, p, i) <==> u in BelowFirst(at, p, i)
    decreases Height(p), i
  {
    hide Below;
    hide BelowFirst;
    if |p| == 3 {
      LeafHasNone(at, p, i);
    } else if i == 0 {
      NoneFirst(at, p);
    } else {
      var c := Down(p, i - 1);
      assert OrderFirst(at, p, i) == OrderFirst(at, p, i - 1) + Order(at, c);
      OrderFirstPages(at, p, i - 1, u);
      NextSlot(at, p, i - 1);
      if c in at {
        OrderPages(at, c, u);
      } else {
        NoneBelow(at, c);
      }
    }
  }

  /** The tables below the slots before `i` come first. */
  lemma {:induction false} OrderStarts(at: Shape, p: Path, i: nat) returns (rest: seq<nat>)
    requires p in at && i <= 512
    ensures Order(at, p) == OrderFirst(at, p, i) + rest
  {
    var n := 512;
    rest := [at[p]];
    while n > i
      invariant i <= n <= 512 && Order(at, p) == OrderFirst(at, p, n) + rest
    {
      n := n - 1;
      if |p| < 3 {
        rest := Order(at, Down(p, n)) + rest;
      }
    }
  }
}
