/**
  Where every process is: in the stack of free slots, the ready heap, the waiting
  heap, running, or in the hands of the kernel code that is moving it.  Pure facts
  about how the scheduler's moves keep every process in exactly one place.
 */
module Places {
  import opened Heap

  const MAX_PROC: nat := 0x1000

  datatype State = READY | RUNNING | WAITING | UNUSED

  datatype Proc = Proc(pid: nat, state: State, waitUntil: nat, absDeadline: nat, effDeadline: nat, mem: nat)

  /** The scheduler's data, forgetting the order inside the stack and the heaps. */
  datatype View = View(procs: seq<Proc>, free: multiset<nat>, ready: multiset<Entry>, waiting: multiset<Entry>, curr: nat)

  predicate IsPid(p: nat) {
    1 <= p <= MAX_PROC
  }

  ghost function ReadyEntry(v: View, p: nat): Entry {
    (if 1 <= p <= |v.procs| then v.procs[p - 1].effDeadline else 0, p)
  }

  ghost function WaitEntry(v: View, p: nat): Entry {
    (if 1 <= p <= |v.procs| then v.procs[p - 1].waitUntil else 0, p)
  }

  /** How many places process `p` is in; `hand` is the process being moved, 0 for none. */
  ghost function Count(v: View, hand: nat, p: nat): nat {
    v.free[p] + v.ready[ReadyEntry(v, p)] + v.waiting[WaitEntry(v, p)]
    + (if v.curr == p then 1 else 0) + (if hand == p then 1 else 0)
  }

  /** Heap entries carry the key their process records, and everything named is a process. */
  ghost predicate Keyed(v: View) {
    && |v.procs| == MAX_PROC && v.curr <= MAX_PROC
    && (forall i :: 0 <= i < |v.procs| ==> v.procs[i].pid == i + 1)
    && (forall p :: p in v.free ==> IsPid(p))
    && (forall e :: e in v.ready ==> IsPid(e.1) && e == ReadyEntry(v, e.1))
    && (forall e :: e in v.waiting ==> IsPid(e.1) && e == WaitEntry(v, e.1))
  }

  /** Every process is in exactly one place. */
  ghost predicate Placed(v: View, hand: nat) {
    && Keyed(v) && hand <= MAX_PROC
    && (forall p :: IsPid(p) ==> Count(v, hand, p) == 1)
  }

  /** Exactly the free slots are marked unused. */
  ghost predicate Flagged(v: View, hand: nat) {
    |v.procs| == MAX_PROC && forall p :: IsPid(p) && p != hand ==> (v.procs[p - 1].state == UNUSED <==> p in v.free)
  }

  ghost predicate Inv(v: View, hand: nat) {
    Placed(v, hand) && Flagged(v, hand)
  }

  /** The running process is due no later than any ready one; the kernel runs only when none is ready. */
  ghost predicate EarliestFirst(v: View) {
    && (v.curr == 0 ==> v.ready == multiset{})
    && (forall e :: e in v.ready ==> ReadyEntry(v, v.curr).0 <= e.0)
  }

  // ------------------------------------------------------------------- moves

  /** The process in hand is nowhere else. */
  lemma HandIsNowhere(v: View, p: nat)
    requires Placed(v, p) && IsPid(p)
    ensures p !in v.free && v.curr != p
    ensures forall e :: e in v.ready || e in v.waiting ==> e.1 != p
  {
    assert Count(v, p, p) == 1;
  }

  lemma FlaggedOnce(v: View, w: View, p: nat)
    requires Flagged(v, p) && IsPid(p) && w.procs == v.procs && w.free == v.free
    requires v.procs[p - 1].state != UNUSED && p !in v.free
    ensures Flagged(w, 0)
  {
  }

  /** Same counts, different place. */
  lemma Replaced(v: View, hand: nat, w: View, hand': nat)
    requires Placed(v, hand) && Keyed(w) && hand' <= MAX_PROC
    requires forall q :: IsPid(q) ==> Count(w, hand', q) == Count(v, hand, q)
    ensures Placed(w, hand')
  {
    hide Count;
    hide Keyed;
    forall q | IsPid(q) ensures Count(w, hand', q) == 1 {
      assert Count(v, hand, q) == 1;
    }
  }

  ghost function PushReady(v: View, p: nat): View {
    v.(ready := v.ready + multiset{ReadyEntry(v, p)})
  }

  ghost function PushWaiting(v: View, p: nat): View {
    v.(waiting := v.waiting + multiset{WaitEntry(v, p)})
  }

  ghost function PopReady(v: View, e: Entry): View {
    v.(ready := v.ready - multiset{e})
  }

  ghost function PopWaiting(v: View, e: Entry): View {
    v.(waiting := v.waiting - multiset{e})
  }

  lemma PushKeyed(v: View, p: nat)
    requires Keyed(v) && IsPid(p)
    ensures Keyed(PushReady(v, p)) && Keyed(PushWaiting(v, p))
  {
    hide ReadyEntry;
    hide WaitEntry;
    SameEntries(v, PushReady(v, p));
    SameEntries(v, PushWaiting(v, p));
    PushedEntry(v, p);
  }

  lemma PushedEntry(v: View, p: nat)
    ensures ReadyEntry(v, p).1 == p == WaitEntry(v, p).1
  {
  }

  lemma PopKeyed(v: View, e: Entry)
    requires Keyed(v)
    ensures Keyed(PopReady(v, e)) && Keyed(PopWaiting(v, e))
  {
    PopReadyKeyed(v, e);
    PopWaitingKeyed(v, e);
  }

  lemma PopReadyKeyed(v: View, e: Entry)
    requires Keyed(v)
    ensures Keyed(PopReady(v, e))
  {
    hide WaitEntry;
    var w := PopReady(v, e);
    SameEntries(v, w);
    forall d | d in w.ready ensures IsPid(d.1) && d == ReadyEntry(w, d.1) {
      assert d in v.ready;
    }
  }

  lemma PopWaitingKeyed(v: View, e: Entry)
    requires Keyed(v)
    ensures Keyed(PopWaiting(v, e))
  {
    hide ReadyEntry;
    var w := PopWaiting(v, e);
    SameEntries(v, w);
    forall d | d in w.waiting ensures IsPid(d.1) && d == WaitEntry(w, d.1) {
      assert d in v.waiting;
    }
  }

  lemma SameEntries(v: View, w: View)
    requires v.procs == w.procs
    ensures forall p: nat :: ReadyEntry(w, p) == ReadyEntry(v, p) && WaitEntry(w, p) == WaitEntry(v, p)
  {
  }

  lemma PushCount(v: View, p: nat, q: nat)
    requires IsPid(p) && IsPid(q)
    ensures Count(PushReady(v, p), 0, q) == Count(v, p, q) == Count(PushWaiting(v, p), 0, q)
  {
  }

  lemma PopCount(v: View, e: Entry, q: nat)
    requires IsPid(e.1) && IsPid(q)
    ensures e in v.ready && e == ReadyEntry(v, e.1) ==> Count(PopReady(v, e), e.1, q) == Count(v, 0, q)
    ensures e in v.waiting && e == WaitEntry(v, e.1) ==> Count(PopWaiting(v, e), e.1, q) == Count(v, 0, q)
  {
  }

  lemma MoveToReady(v: View, p: nat)
    requires Inv(v, p) && IsPid(p) && v.procs[p - 1].state != UNUSED
    ensures Inv(PushReady(v, p), 0)
  {
    hide Flagged;
    hide Count;
    hide Keyed;
    HandIsNowhere(v, p);
    FlaggedOnce(v, PushReady(v, p), p);
    PushKeyed(v, p);
    forall q | IsPid(q) ensures Count(PushReady(v, p), 0, q) == Count(v, p, q) {
      PushCount(v, p, q);
    }
    Replaced(v, p, PushReady(v, p), 0);
  }

  lemma MoveToWaiting(v: View, p: nat)
    requires Inv(v, p) && IsPid(p) && v.procs[p - 1].state != UNUSED
    ensures Inv(PushWaiting(v, p), 0)
  {
    hide Flagged;
    hide Count;
    hide Keyed;
    HandIsNowhere(v, p);
    FlaggedOnce(v, PushWaiting(v, p), p);
    PushKeyed(v, p);
    forall q | IsPid(q) ensures Count(PushWaiting(v, p), 0, q) == Count(v, p, q) {
      PushCount(v, p, q);
    }
    Replaced(v, p, PushWaiting(v, p), 0);
  }

  lemma FlaggedWithout(v: View, w: View, p: nat)
    requires Flagged(v, 0) && w.procs == v.procs && w.free == v.free
    ensures Flagged(w, p)
    ensures IsPid(p) && p !in v.free ==> v.procs[p - 1].state != UNUSED
  {
  }

  /** A process in a heap is a process, under its own key, and not free. */
  lemma HeapEntry(v: View, e: Entry)
    requires Placed(v, 0) && (e in v.ready || e in v.waiting)
    ensures IsPid(e.1) && e.1 !in v.free && |v.procs| == MAX_PROC
    ensures e in v.ready ==> e == ReadyEntry(v, e.1)
    ensures e in v.waiting ==> e == WaitEntry(v, e.1)
  {
    assert Count(v, 0, e.1) == 1;
  }

  lemma TakeFromWaiting(v: View, e: Entry)
    requires Inv(v, 0) && e in v.waiting
    ensures IsPid(e.1) && |v.procs| == MAX_PROC && e == WaitEntry(v, e.1) && v.procs[e.1 - 1].state != UNUSED
    ensures Inv(PopWaiting(v, e), e.1)
  {
    hide Flagged;
    hide Count;
    hide Keyed;
    HeapEntry(v, e);
    FlaggedWithout(v, PopWaiting(v, e), e.1);
    PopKeyed(v, e);
    forall q | IsPid(q) ensures Count(PopWaiting(v, e), e.1, q) == Count(v, 0, q) {
      PopCount(v, e, q);
    }
    Replaced(v, 0, PopWaiting(v, e), e.1);
  }

  lemma TakeFromReady(v: View, e: Entry)
    requires Inv(v, 0) && e in v.ready
    ensures IsPid(e.1) && |v.procs| == MAX_PROC && e == ReadyEntry(v, e.1) && v.procs[e.1 - 1].state != UNUSED
    ensures Inv(PopReady(v, e), e.1)
  {
    hide Flagged;
    hide Count;
    hide Keyed;
    HeapEntry(v, e);
    FlaggedWithout(v, PopReady(v, e), e.1);
    PopKeyed(v, e);
    forall q | IsPid(q) ensures Count(PopReady(v, e), e.1, q) == Count(v, 0, q) {
      PopCount(v, e, q);
    }
    Replaced(v, 0, PopReady(v, e), e.1);
  }

  lemma FreeCount(v: View, p: nat, q: nat)
    requires IsPid(p) && IsPid(q)
    ensures p in v.free ==> Count(v.(free := v.free - multiset{p}), p, q) == Count(v, 0, q)
    ensures Count(v.(free := v.free + multiset{p}), 0, q) == Count(v, p, q)
  {
  }

  lemma FreeKeyed(v: View, p: nat)
    requires Keyed(v)
    ensures Keyed(v.(free := v.free - multiset{p}))
    ensures IsPid(p) ==> Keyed(v.(free := v.free + multiset{p}))
  {
  }

  lemma TakeFromFree(v: View, p: nat)
    requires Inv(v, 0) && p in v.free
    ensures IsPid(p) && Inv(v.(free := v.free - multiset{p}), p)
  {
    hide Flagged;
    hide Count;
    var w := v.(free := v.free - multiset{p});
    FlaggedFree(v, w, 0, p);
    FreeKeyed(v, p);
    forall q | IsPid(q) ensures Count(w, p, q) == Count(v, 0, q) {
      FreeCount(v, p, q);
    }
    Replaced(v, 0, w, p);
  }

  lemma FlaggedFree(v: View, w: View, hand: nat, p: nat)
    requires Flagged(v, hand) && w.procs == v.procs && IsPid(p)
    requires forall q :: q != p ==> (q in w.free <==> q in v.free)
    requires hand == 0 || hand == p
    ensures Flagged(w, p)
    ensures v.procs[p - 1].state == UNUSED && p in w.free ==> Flagged(w, 0)
  {
  }

  lemma MoveToFree(v: View, p: nat)
    requires Inv(v, p) && IsPid(p) && v.procs[p - 1].state == UNUSED
    ensures Inv(v.(free := v.free + multiset{p}), 0)
  {
    hide Flagged;
    hide Count;
    hide Keyed;
    var w := v.(free := v.free + multiset{p});
    FlaggedFree(v, w, p, p);
    FreeKeyed(v, p);
    forall q | IsPid(q) ensures Count(w, 0, q) == Count(v, p, q) {
      FreeCount(v, p, q);
    }
    Replaced(v, p, w, 0);
  }

  lemma SwitchCount(v: View, n: nat, q: nat)
    requires IsPid(q)
    ensures Count(v.(curr := n), v.curr, q) == Count(v, n, q)
  {
  }

  lemma SwitchKeyed(v: View, n: nat)
    requires Keyed(v) && n <= MAX_PROC
    ensures Keyed(v.(curr := n)) && v.curr <= MAX_PROC
  {
  }

  lemma RunningNotFree(v: View, hand: nat)
    requires Placed(v, hand) && v.curr != 0
    ensures IsPid(v.curr) && v.curr !in v.free && v.curr != hand
  {
    assert Count(v, hand, v.curr) == 1;
  }

  /** Switching from `v.curr` to the process in hand leaves the old one in hand. */
  lemma Switch(v: View, n: nat)
    requires Inv(v, n) && (n == 0 || v.procs[n - 1].state != UNUSED)
    ensures Inv(v.(curr := n), v.curr)
    ensures v.curr != 0 ==> v.curr <= |v.procs| && v.procs[v.curr - 1].state != UNUSED
  {
    hide Flagged;
    hide Count;
    hide Keyed;
    var w := v.(curr := n);
    SwitchKeyed(v, n);
    if n != 0 {
      HandIsNowhere(v, n);
    }
    if v.curr != 0 {
      RunningNotFree(v, n);
    }
    FlaggedSwitch(v, w, n);
    forall q | IsPid(q) ensures Count(w, v.curr, q) == Count(v, n, q) {
      SwitchCount(v, n, q);
    }
    Replaced(v, n, w, v.curr);
  }

  lemma FlaggedSwitch(v: View, w: View, n: nat)
    requires Flagged(v, n) && w.procs == v.procs && w.free == v.free && n <= MAX_PROC && v.curr <= MAX_PROC
    requires n != 0 ==> v.procs[n - 1].state != UNUSED && n !in v.free
    requires v.curr != 0 ==> v.curr !in v.free && v.curr != n
    ensures Flagged(w, v.curr)
    ensures v.curr != 0 ==> v.procs[v.curr - 1].state != UNUSED
  {
  }

  ghost function Rewritten(v: View, p: nat, r: Proc): View {
    if 1 <= p <= |v.procs| then v.(procs := v.procs[p - 1 := r]) else v
  }

  lemma FlaggedRewrite(v: View, w: View, hand: nat, p: nat)
    requires Flagged(v, hand) && |w.procs| == MAX_PROC && w.free == v.free && IsPid(p)
    requires forall q :: IsPid(q) && q != p ==> w.procs[q - 1] == v.procs[q - 1]
    requires p == hand || (w.procs[p - 1].state == UNUSED <==> v.procs[p - 1].state == UNUSED)
    ensures Flagged(w, hand)
  {
  }

  lemma RewriteKeyed(v: View, p: nat, r: Proc)
    requires Keyed(v) && IsPid(p) && r.pid == p
    requires forall e :: e in v.ready && e.1 == p ==> e.0 == r.effDeadline
    requires forall e :: e in v.waiting && e.1 == p ==> e.0 == r.waitUntil
    ensures Keyed(Rewritten(v, p, r))
  {
  }

  lemma RewriteCount(v: View, hand: nat, p: nat, r: Proc, q: nat)
    requires |v.procs| == MAX_PROC && IsPid(p) && IsPid(q)
    requires forall e :: e in v.ready && e.1 == p ==> e.0 == r.effDeadline == ReadyEntry(v, p).0
    requires forall e :: e in v.waiting && e.1 == p ==> e.0 == r.waitUntil == WaitEntry(v, p).0
    ensures Count(Rewritten(v, p, r), hand, q) == Count(v, hand, q)
  {
    if p == q {
      assert (r.effDeadline, p) in v.ready ==> ReadyEntry(v, p) == (r.effDeadline, p);
      assert ReadyEntry(v, p) in v.ready ==> ReadyEntry(v, p) == (r.effDeadline, p);
      assert (r.waitUntil, p) in v.waiting ==> WaitEntry(v, p) == (r.waitUntil, p);
      assert WaitEntry(v, p) in v.waiting ==> WaitEntry(v, p) == (r.waitUntil, p);
    }
  }

  /** Rewriting the record of the process in hand. */
  lemma RewriteHand(v: View, p: nat, r: Proc)
    requires Inv(v, p) && IsPid(p) && r.pid == p
    ensures Inv(Rewritten(v, p, r), p)
  {
    hide Flagged;
    hide Count;
    SizeOf(v, p);
    var w := Rewritten(v, p, r);
    HandIsNowhere(v, p);
    FlaggedRewrite(v, w, p, p);
    RewriteKeyed(v, p, r);
    forall q | IsPid(q) ensures Count(w, p, q) == Count(v, p, q) {
      RewriteCount(v, p, p, r, q);
    }
    Replaced(v, p, w, p);
  }

  lemma SizeOf(v: View, hand: nat)
    requires Placed(v, hand)
    ensures |v.procs| == MAX_PROC && v.curr <= MAX_PROC
    ensures forall p :: IsPid(p) ==> v.procs[p - 1].pid == p
  {
  }

  /** Rewriting any live record without touching its keys. */
  lemma RewriteState(v: View, hand: nat, p: nat, s: State)
    requires Inv(v, hand) && IsPid(p) && s != UNUSED && |v.procs| == MAX_PROC && (p == hand || v.procs[p - 1].state != UNUSED)
    ensures Inv(Rewritten(v, p, v.procs[p - 1].(state := s)), hand)
  {
    hide Flagged;
    hide Count;
    var r := v.procs[p - 1].(state := s);
    var w := Rewritten(v, p, r);
    FlaggedRewrite(v, w, hand, p);
    RewriteKeyed(v, p, r);
    forall q | IsPid(q) ensures Count(w, hand, q) == Count(v, hand, q) {
      RewriteCount(v, hand, p, r, q);
    }
    Replaced(v, hand, w, hand);
  }

  // ------------------------------------------------------------- consequences

  /** `k` is the least key of a heap. */
  ghost predicate Least(items: multiset<Entry>, k: nat) {
    (exists e :: e in items && e.0 == k) && (forall e :: e in items ==> k <= e.0)
  }

  lemma {:induction false} DistinctBound(s: seq<nat>, bound: set<nat>)
    requires forall x :: x in s ==> x in bound
    requires forall x :: multiset(s)[x] <= 1
    ensures |s| <= |bound|
    decreases |s|
  {
    if s != [] {
      var x, t := s[|s| - 1], s[..|s| - 1];
      assert s == t + [x];
      assert multiset(s) == multiset(t) + multiset{x};
      forall y | y in t ensures y in bound - {x} {
        assert y in multiset(t);
        assert multiset(s)[x] <= 1;
      }
      assert forall y :: multiset(t)[y] <= multiset(s)[y];
      DistinctBound(t, bound - {x});
    }
  }

  ghost function Pids(n: nat): (s: set<nat>)
    ensures forall p :: p in s <==> 1 <= p <= n
    ensures |s| == n
  {
    if n == 0 then {} else Pids(n - 1) + {n}
  }

  /** While a process is in hand, the stack of free slots has room for it. */
  lemma StackHasRoom(v: View, p: nat, s: seq<nat>)
    requires Placed(v, p) && IsPid(p) && multiset(s) == v.free
    ensures |s| < MAX_PROC
  {
    hide Placed;
    hide Pids;
    var bound := Pids(MAX_PROC) - {p};
    forall x: nat ensures multiset(s)[x] <= 1 && (x in s ==> x in bound) {
      FreeOnce(v, p, x);
      assert x in s ==> x in multiset(s);
    }
    DistinctBound(s, bound);
    assert |bound| == MAX_PROC - 1;
  }

  lemma FreeOnce(v: View, hand: nat, p: nat)
    requires Placed(v, hand)
    ensures v.free[p] <= 1 && (p in v.free ==> IsPid(p) && p != hand)
  {
    if p in v.free {
      assert Count(v, hand, p) == 1;
    }
  }

  lemma InitPlaced(v: View)
    requires |v.procs| == MAX_PROC && v.ready == v.waiting == multiset{} && v.curr == 0
    requires forall j :: 0 <= j < MAX_PROC ==> v.procs[j].pid == j + 1 && v.procs[j].state == UNUSED
    requires forall p: nat :: v.free[p] == if 1 <= p <= MAX_PROC then 1 else 0
    ensures Inv(v, 0) && EarliestFirst(v)
  {
    assert forall p: nat :: p in v.free <==> v.free[p] > 0;
  }

  // ------------------------------------------------------- dispatching, purely

  /** Take the ready entry `e` and run its process; the process that ran is left in hand. */
  ghost function Dispatch(v: View, e: Entry): View {
    if 1 <= e.1 <= |v.procs|
    then Rewritten(PopReady(v, e), e.1, v.procs[e.1 - 1].(state := RUNNING)).(curr := e.1)
    else v
  }

  lemma DispatchInv(v: View, e: Entry)
    requires Inv(v, 0) && e in v.ready
    ensures Inv(Dispatch(v, e), v.curr) && IsPid(e.1) && |v.procs| == MAX_PROC
    ensures v.curr != 0 ==> v.curr != e.1 && v.curr <= MAX_PROC && Dispatch(v, e).procs[v.curr - 1].state != UNUSED
    ensures v.curr != 0 ==> Dispatch(v, e).procs[v.curr - 1] == v.procs[v.curr - 1]
  {
    hide Inv;
    TakeFromReady(v, e);
    var v1 := PopReady(v, e);
    assert v1.procs == v.procs;
    RewriteState(v1, e.1, e.1, RUNNING);
    var v2 := Rewritten(v1, e.1, v.procs[e.1 - 1].(state := RUNNING));
    Switch(v2, e.1);
    CurrNotTaken(v, e);
  }

  lemma CurrNotTaken(v: View, e: Entry)
    requires Inv(v, 0) && e in v.ready
    ensures v.curr != e.1 && v.curr <= MAX_PROC
  {
    assert IsPid(e.1);
    assert Count(v, 0, e.1) == 1;
  }

  /** Running a least ready entry puts the earliest deadline first. */
  lemma DispatchEarliest(v: View, e: Entry)
    requires Inv(v, 0) && e in v.ready && forall d :: d in v.ready ==> e.0 <= d.0
    ensures EarliestFirst(Dispatch(v, e))
  {
    var w := Dispatch(v, e);
    forall d | d in w.ready ensures ReadyEntry(w, w.curr).0 <= d.0 {
      assert d in v.ready;
    }
  }

  /** Preempt: run `e`, and put the process that ran back among the ready. */
  ghost function Preempt(v: View, e: Entry): View {
    if v.curr == 0 then Dispatch(v, e)
    else if v.curr <= |v.procs|
    then PushReady(Rewritten(Dispatch(v, e), v.curr, v.procs[v.curr - 1].(state := READY)), v.curr)
    else v
  }

  lemma PreemptInv(v: View, e: Entry)
    requires Inv(v, 0) && e in v.ready
    ensures Inv(Preempt(v, e), 0)
  {
    hide Inv;
    hide Dispatch;
    DispatchInv(v, e);
    if v.curr != 0 {
      var w := Dispatch(v, e);
      HandSize(w, v.curr);
      RewriteState(w, v.curr, v.curr, READY);
      var x := Rewritten(w, v.curr, w.procs[v.curr - 1].(state := READY));
      MoveToReady(x, v.curr);
    }
  }

  lemma HandSize(v: View, hand: nat)
    requires Inv(v, hand)
    ensures |v.procs| == MAX_PROC && hand <= MAX_PROC && v.curr <= MAX_PROC
    ensures forall p :: IsPid(p) ==> v.procs[p - 1].pid == p
  {
  }

  /** Preempting when the running process is due later than a least ready entry keeps the earliest first. */
  lemma PreemptEarliest(v: View, e: Entry)
    requires Inv(v, 0) && e in v.ready && forall d :: d in v.ready ==> e.0 <= d.0
    requires v.curr == 0 || ReadyEntry(v, v.curr).0 > e.0
    ensures EarliestFirst(Preempt(v, e))
  {
    hide Inv;
    TakeFromReady(v, e);
    CurrNotTaken(v, e);
    var w := Preempt(v, e);
    forall d | d in w.ready ensures ReadyEntry(w, w.curr).0 <= d.0 {
      if d !in v.ready {
        assert d == ReadyEntry(v, v.curr);
      }
    }
  }

  lemma NoneReady(v: View)
    requires v.ready == multiset{}
    ensures EarliestFirst(v)
  {
  }

  lemma StayEarliest(v: View, e: Entry)
    requires v.curr != 0 && ReadyEntry(v, v.curr).0 <= e.0 && forall d :: d in v.ready ==> e.0 <= d.0
    ensures EarliestFirst(v)
  {
  }

  /** Preemption in the order of the source's stores. */
  lemma PreemptSteps(v: View, e: Entry)
    requires |v.procs| == MAX_PROC && IsPid(e.1) && v.curr <= MAX_PROC && v.curr != e.1
    ensures var v1 := Rewritten(PopReady(v, e), e.1, v.procs[e.1 - 1].(state := RUNNING));
            && v1.free == v.free && v1.waiting == v.waiting && |v1.procs| == MAX_PROC
            && (v.curr == 0 ==> Preempt(v, e) == v1.(curr := e.1))
            && (v.curr != 0 ==>
                  && v1.procs[v.curr - 1] == v.procs[v.curr - 1]
                  && Preempt(v, e) == PushReady(Rewritten(v1, v.curr, v.procs[v.curr - 1].(state := READY)), v.curr).(curr := e.1))
            && Preempt(v, e).free == v.free && Preempt(v, e).waiting == v.waiting
  {
  }

  /** Only the ready heap and the running process's deadline matter for the order. */
  lemma EarliestKept(v: View, w: View)
    requires EarliestFirst(v) && w.ready == v.ready && w.curr == v.curr && ReadyEntry(w, w.curr).0 == ReadyEntry(v, v.curr).0
    ensures EarliestFirst(w)
  {
  }

  lemma NotEmpty(v: View)
    requires Inv(v, 0)
    ensures 0 !in v.free
  {
  }

  lemma InvParts(v: View, hand: nat)
    requires Inv(v, hand)
    ensures Placed(v, hand) && |v.procs| == MAX_PROC && v.curr <= MAX_PROC
    ensures forall p :: IsPid(p) ==> v.procs[p - 1].pid == p
  {
  }

  /** Rewriting the record in hand leaves the running process's deadline alone. */
  lemma RunningKept(v: View, p: nat, r: Proc)
    requires Placed(v, p) && IsPid(p)
    ensures var w := Rewritten(v, p, r);
            w.ready == v.ready && w.curr == v.curr && ReadyEntry(w, w.curr).0 == ReadyEntry(v, v.curr).0
  {
    HandIsNowhere(v, p);
  }

  /** The least key after a push. */
  lemma LeastAfterPush(items: multiset<Entry>, e: Entry, k: nat)
    ensures items == multiset{} ==> Least(items + multiset{e}, e.0)
    ensures Least(items, k) ==> Least(items + multiset{e}, if e.0 < k then e.0 else k)
    ensures items + multiset{e} != multiset{}
  {
    assert e in items + multiset{e};
    if Least(items, k) {
      var d :| d in items && d.0 == k;
      assert d in items + multiset{e};
    }
  }

  lemma LeastUnique(items: multiset<Entry>, j: nat, k: nat)
    requires Least(items, j) && Least(items, k)
    ensures j == k
  {
  }

  /** The process in hand gets its wake-up time and moves to the waiting heap. */
  ghost function Parked(v: View, c: nat, r: Proc): View {
    PushWaiting(Rewritten(v, c, r), c)
  }

  lemma ParkedInv(v: View, c: nat, r: Proc)
    requires Inv(v, c) && IsPid(c) && r.pid == c && r.state != UNUSED && EarliestFirst(v)
    ensures Inv(Parked(v, c, r), 0) && EarliestFirst(Parked(v, c, r)) && |v.procs| == MAX_PROC
    ensures Parked(v, c, r).free == v.free && Parked(v, c, r).waiting == v.waiting + multiset{(r.waitUntil, c)}
  {
    hide Inv;
    hide Placed;
    hide EarliestFirst;
    InvParts(v, c);
    RewriteHand(v, c, r);
    RunningKept(v, c, r);
    MoveToWaiting(Rewritten(v, c, r), c);
    EarliestKept(v, Parked(v, c, r));
  }

  lemma ParkedSteps(v: View, c: nat, r: Proc)
    ensures PushWaiting(Rewritten(v, c, r), c) == Parked(v, c, r)
    ensures Rewritten(v, c, r).waiting == v.waiting
  {
  }

  /** Two tables that differ in the record of `p` at most. */
  ghost predicate SameElse(s: seq<Proc>, t: seq<Proc>, p: nat) {
    |s| == |t| && forall i :: 0 <= i < |s| && i != p - 1 ==> t[i] == s[i]
  }

  lemma RewrittenParts(v: View, p: nat, r: Proc)
    requires 1 <= p <= |v.procs|
    ensures var w := Rewritten(v, p, r);
            && w.free == v.free && w.ready == v.ready && w.waiting == v.waiting && w.curr == v.curr
            && SameElse(v.procs, w.procs, p) && |w.procs| == |v.procs| && w.procs[p - 1] == r
  {
  }

  /** A process leaves the hand for good: the running process stays the earliest. */
  lemma ReleasedEarliest(v: View, w: View, p: nat)
    requires Placed(v, p) && IsPid(p) && EarliestFirst(v) && w.ready == v.ready && w.curr == v.curr
    requires SameElse(v.procs, w.procs, p)
    ensures EarliestFirst(w)
  {
    HandIsNowhere(v, p);
    assert IsPid(v.curr) ==> w.procs[v.curr - 1] == v.procs[v.curr - 1];
    EarliestKept(v, w);
  }

  /** Dispatching in the order of the source's stores. */
  lemma DispatchSteps(v: View, e: Entry)
    requires 1 <= e.1 <= |v.procs|
    ensures var v1 := Rewritten(PopReady(v, e), e.1, v.procs[e.1 - 1].(state := RUNNING));
            && Dispatch(v, e) == v1.(curr := e.1)
            && v1.free == v.free && v1.waiting == v.waiting && |v1.procs| == |v.procs|
  {
  }

  // ------------------------------------------------------------------- waking

  /** From `was`, only entries due by `now` have gone. */
  ghost predicate Sifted(was: multiset<Entry>, items: multiset<Entry>, now: nat) {
    forall e: Entry :: items[e] <= was[e] && (e.0 > now ==> items[e] == was[e])
  }

  /** `items` is exactly what of `was` is not due by `now`. */
  ghost predicate NotDue(was: multiset<Entry>, items: multiset<Entry>, now: nat) {
    forall e: Entry :: items[e] == if e.0 > now then was[e] else 0
  }

  lemma SiftStart(was: multiset<Entry>)
    ensures Sifted(was, was, 0)
  {
  }

  lemma SiftNext(was: multiset<Entry>, items: multiset<Entry>, now: nat, e: Entry, later: nat)
    requires Sifted(was, items, now) && now <= later && e.0 <= later
    ensures Sifted(was, items - multiset{e}, later)
  {
  }

  lemma SiftDone(was: multiset<Entry>, items: multiset<Entry>, now: nat, later: nat)
    requires Sifted(was, items, now) && now <= later && forall e :: e in items ==> later < e.0
    ensures NotDue(was, items, later)
  {
    forall e: Entry ensures items[e] == if e.0 > later then was[e] else 0 {
      if e.0 <= later {
        assert e !in items;
      }
    }
  }

  /** More than `room` of the entries are due by `now`. */
  ghost predicate TooMany(items: multiset<Entry>, now: nat, room: int) {
    exists due: multiset<Entry> :: due <= items && |due| > room && forall e :: e in due ==> e.0 <= now
  }

  lemma RoomLeft(was: multiset<Entry>, items: multiset<Entry>, now: nat, room: int)
    requires NotDue(was, items, now) && |was| - |items| <= room
    ensures !TooMany(was, now, room)
  {
    assert items <= was;
    assert was == items + (was - items);
    forall due: multiset<Entry> | due <= was && forall e :: e in due ==> e.0 <= now ensures |due| <= room {
      assert due <= was - items;
      assert was - items == due + (was - items - due);
    }
  }

  lemma NoRoom(was: multiset<Entry>, items: multiset<Entry>, now: nat, e: Entry, later: nat, room: int)
    requires Sifted(was, items, now) && now <= later && e in items && e.0 <= later && |was| - |items| >= room
    ensures TooMany(was, later, room)
  {
    assert items <= was;
    assert was == items + (was - items);
    var due := was - items + multiset{e};
    assert due <= was;
  }

  lemma OneGone(items: multiset<Entry>, e: Entry)
    requires e in items
    ensures |items - multiset{e}| == |items| - 1
  {
  }

  lemma PutBack(v: View, e: Entry)
    requires e in v.waiting && e == WaitEntry(v, e.1)
    ensures PushWaiting(PopWaiting(v, e), e.1) == v
  {
    assert v.waiting - multiset{e} + multiset{e} == v.waiting;
  }

  lemma LeastBounds(items: multiset<Entry>, k: nat)
    requires Least(items, k)
    ensures forall e :: e in items ==> k <= e.0
  {
  }
}
