/**
  The scheduler of `rtprog/sched.c` with its callers in `rtprog/syscall.c` and
  `rtprog/rtprog.c`, and the one-shot timer of `rtprog/timer.c`: a process table, a
  stack of free slots, a heap of ready processes by deadline, a heap of waiting
  processes by wake-up time, and the running process.  A process pointer is its pid;
  pid 0 is the kernel process.  A context switch only changes `curr` and `pid`.
 */
module Sched {
  import opened Heap
  import opened Places
  import opened Records
  import opened Timer
  import opened Words

  const READY_MAX: nat := 0xFF

  /** A scheduling request; `mem` is what `alloc` returned for it, 0 for NULL. */
  datatype Request = Request(mem: nat)

  /** How many of the requests one interrupt serves. */
  function Served(requests: seq<Request>): nat {
    if |requests| < 3 then |requests| else 3
  }

  /** The `k`-th request of an interrupt cannot be served, given the slots, running process and ready heap before. */
  ghost predicate Refused(r: Request, k: nat, nfree: nat, curr: nat, ready: nat) {
    r.mem == 0 || nfree <= k || (curr != 0 && ready + k >= READY_MAX)
  }

  /** None of the first `n` requests is refused. */
  ghost predicate NoneRefused(requests: seq<Request>, n: nat, nfree: nat, curr: nat, ready: nat)
    requires n <= |requests|
  {
    forall k :: 0 <= k < n ==> !Refused(requests[k], k, nfree, curr, ready)
  }

  lemma OneMore(requests: seq<Request>, n: nat, nfree: nat, curr: nat, ready: nat)
    requires n <= |requests|
    ensures n < |requests| && NoneRefused(requests, n, nfree, curr, ready) ==>
              (NoneRefused(requests, n + 1, nfree, curr, ready) <==> !Refused(requests[n], n, nfree, curr, ready))
    ensures n < Served(requests) && Refused(requests[n], n, nfree, curr, ready) ==>
              !NoneRefused(requests, Served(requests), nfree, curr, ready)
    ensures NoneRefused(requests, 0, nfree, curr, ready)
  {
  }

  lemma RefusedIs(r: Request, k: nat, nfree: nat, curr: nat, ready: nat)
    requires k < 3 && k <= nfree && (curr == 0 ==> ready == 0) && ready + k <= READY_MAX + (if curr == 0 then 1 else 0)
    ensures Refused(r, k, nfree, curr, ready) <==>
            r.mem == 0 || nfree - k == 0 || ready + k - (if curr == 0 && k > 0 then 1 else 0) == READY_MAX
  {
  }

  /** Table `made` is `s` with slot `pids[k]` set up for `requests[k]`: deadline 0 and the memory it came with. */
  ghost predicate Serve(s: seq<Proc>, made: seq<Proc>, requests: seq<Request>, pids: seq<nat>) {
    && |made| == |s| && |pids| <= |requests|
    && (forall k :: 0 <= k < |pids| ==> 1 <= pids[k] <= |s| && made[pids[k] - 1] == Made(s, pids[k], 0, requests[k].mem)[pids[k] - 1])
    && (forall i :: 0 <= i < |s| && i + 1 !in pids ==> made[i] == s[i])
  }

  lemma ServeNone(s: seq<Proc>, requests: seq<Request>)
    ensures Serve(s, s, requests, [])
  {
  }

  /** Serving one more does not disturb those served before. */
  lemma ServeNext(s: seq<Proc>, made: seq<Proc>, requests: seq<Request>, pids: seq<nat>, p: nat)
    requires Serve(s, made, requests, pids) && |pids| < |requests| && 1 <= p <= |s| && p !in pids
    ensures Serve(s, Made(made, p, 0, requests[|pids|].mem), requests, pids + [p])
  {
    var made', more := Made(made, p, 0, requests[|pids|].mem), pids + [p];
    assert made[p - 1] == s[p - 1];
    assert forall x :: x in more <==> x in pids || x == p;
    forall k | 0 <= k < |more| ensures made'[more[k] - 1] == Made(s, more[k], 0, requests[k].mem)[more[k] - 1] {
      assert k < |pids| ==> pids[k] in pids;
    }
  }

  /** A slot that is still free was not among those taken, and nobody runs in it. */
  lemma StillFree(v0: View, v: View, pids: seq<nat>, p: nat)
    requires Inv(v0, 0) && Inv(v, 0) && v.free + multiset(pids) == v0.free && p in v.free
    ensures p !in pids && p != v0.curr && p != v.curr && 1 <= p <= |v.procs|
  {
    hide Inv;
    hide Placed;
    InvParts(v0, 0);
    InvParts(v, 0);
    FreeOnce(v0, 0, p);
    FreeOnce(v, 0, p);
    assert p in pids ==> p in multiset(pids);
    assert p in v0.free;
    NotRunning(v0, p);
    NotRunning(v, p);
  }

  lemma NotRunning(v: View, p: nat)
    requires Placed(v, 0) && p in v.free
    ensures p != v.curr
  {
    if v.curr != 0 {
      RunningNotFree(v, 0);
    }
  }

  lemma TakenNext(all: multiset<nat>, free: multiset<nat>, pids: seq<nat>, p: nat)
    requires free + multiset(pids) == all && p in free
    ensures free - multiset{p} + multiset(pids + [p]) == all
  {
  }

  lemma KernelAlone(v: View)
    requires EarliestFirst(v) && v.curr == 0
    ensures v.ready == multiset{}
  {
  }

  /** What can enter the kernel. */
  datatype Event =
    | SysWaitUntil(until: nat)
    | SysExit
    | SysSpawn(deadline: nat, mem: nat)
    | IpcInterrupt(requests: seq<Request>)
    | TimerInterrupt
    | SysUnknown

  /** When an entry panics; `now` is the timer interrupt's last reading of the counter. */
  ghost predicate Panics(v: View, event: Event, now: nat) {
    match event
    case SysWaitUntil(_) => v.curr == 0 || |v.waiting| == READY_MAX
    case SysExit => v.curr == 0 || (v.curr <= |v.procs| && v.procs[v.curr - 1].mem == 0)
    case SysSpawn(_, _) => |v.free| == 0 || |v.ready| == READY_MAX
    case IpcInterrupt(requests) => !NoneRefused(requests, Served(requests), |v.free|, v.curr, |v.ready|)
    case TimerInterrupt => TooMany(v.waiting, now, READY_MAX - |v.ready| + if v.curr == 0 then 1 else 0)
    case SysUnknown => false
  }

  /** Free slot `p` became a process with the given deadline and memory, which may run at once. */
  ghost predicate Took(v: View, v': View, p: nat, deadline: nat, mem: nat) {
    && p in v.free && v'.free == v.free - multiset{p} && 1 <= p <= |v.procs|
    && Overtaken(Made(v.procs, p, deadline, mem), v'.procs, v.curr, v'.curr)
  }

  /** Free slots `pids` became the processes for the first requests, any of which may run. */
  ghost predicate TookAll(v: View, v': View, requests: seq<Request>, pids: seq<nat>, made: seq<Proc>) {
    && |pids| == Served(requests) && v'.free + multiset(pids) == v.free
    && Serve(v.procs, made, requests, pids) && Ran(made, v'.procs, v.curr, v'.curr)
  }

  /** The table with the wake-up time of process `c` set. */
  ghost function Asleep(s: seq<Proc>, c: nat, until: nat): seq<Proc> {
    if 1 <= c <= |s| then s[c - 1 := s[c - 1].(waitUntil := until)] else s
  }

  /** What an entry that does not panic does to the processes: where they are and what is in their records. */
  ghost predicate Entered(v: View, event: Event, v': View, now: nat) {
    match event
    case SysWaitUntil(until) =>
      && v'.free == v.free && v'.waiting == v.waiting + multiset{(until, v.curr)}
      && Handed(Asleep(v.procs, v.curr, until), v'.procs, v.curr, v'.curr, WAITING)
    case SysExit =>
      && v'.free == v.free + multiset{v.curr} && v'.waiting == v.waiting
      && Handed(v.procs, v'.procs, v.curr, v'.curr, UNUSED)
    case SysSpawn(deadline, mem) => v'.waiting == v.waiting && exists p :: Took(v, v', p, deadline, mem)
    case IpcInterrupt(requests) => v'.waiting == v.waiting && exists pids, made :: TookAll(v, v', requests, pids, made)
    case TimerInterrupt =>
      && v'.free == v.free && NotDue(v.waiting, v'.waiting, now)
      && Ran(v.procs, v'.procs, v.curr, v'.curr)
    case SysUnknown => v' == v
  }

  /** Each process in one place, its tag right, and the earliest deadline running. */
  ghost predicate Sound(v: View) {
    Inv(v, 0) && Tagged(v) && EarliestFirst(v)
  }

  /**
    A run of kernel entries: `vs` are the views before each entry and, unless the last panicked, after
    it; the first entry to panic is the first that `Panics`.
   */
  ghost predicate Went(vs: seq<View>, events: seq<Event>, nows: seq<nat>, panicked: bool) {
    && |nows| <= |events| && |vs| == (if panicked then |nows| else |nows| + 1) && |vs| > 0
    && (forall k :: 0 <= k < |vs| ==> Sound(vs[k]))
    && (forall k :: 0 <= k < |nows| ==> (Panics(vs[k], events[k], nows[k]) <==> panicked && k == |nows| - 1))
    && (forall j, k :: 0 <= j < k < |vs| && k == j + 1 ==> Entered(vs[j], events[j], vs[k], nows[j]))
  }

  lemma WentOn(vs: seq<View>, events: seq<Event>, nows: seq<nat>, v: View, now: nat)
    requires Went(vs, events, nows, false) && |nows| < |events|
    requires !Panics(vs[|nows|], events[|nows|], now) && Entered(vs[|nows|], events[|nows|], v, now) && Sound(v)
    ensures Went(vs + [v], events, nows + [now], false)
  {
    hide Sound;
    hide Panics;
    hide Entered;
  }

  lemma WentDown(vs: seq<View>, events: seq<Event>, nows: seq<nat>, now: nat)
    requires Went(vs, events, nows, false) && |nows| < |events| && Panics(vs[|nows|], events[|nows|], now)
    ensures Went(vs, events, nows + [now], true)
  {
    hide Sound;
    hide Panics;
    hide Entered;
  }

  lemma NothingEntered(v: View, now: nat)
    ensures !Panics(v, SysUnknown, now) && Entered(v, SysUnknown, v, now)
  {
  }

  /** The timer runs exactly while a process waits, armed for the least wake-up time. */
  ghost predicate Covers(enabled: bool, cval: nat, armKey: nat, armNow: nat, clock: nat, items: multiset<Entry>) {
    && (enabled <==> items != multiset{})
    && (enabled ==> Least(items, armKey) && cval == Arm(armKey, armNow) && armNow <= clock)
  }

  class Scheduler {
    const pb: array<Proc>
    const freeProc: array<nat>
    const ready: MinHeap
    const waiting: MinHeap
    var p0: Proc
    var nfree: nat
    var curr: nat
    var pid: nat

    // The one-shot timer and the counter it compares with.
    var enabled: bool
    var cval: nat
    var clock: nat

    // A kernel panic halts the core.
    var panicked: bool

    // When the timer was last armed, and for which wake-up time.
    ghost var armNow: nat
    ghost var armKey: nat

    /** The parts are distinct objects, and both heaps and the stack are within bounds. */
    ghost predicate Shape()
      reads this, pb, freeProc, ready, ready.a, waiting, waiting.a
    {
      && pb.Length == freeProc.Length == MAX_PROC && nfree <= MAX_PROC
      && ready != waiting && ready.a != waiting.a
      && ready.a.Length == waiting.a.Length == READY_MAX
      && ready.Valid() && waiting.Valid()
      && pid == curr && clock < U64
    }

    ghost function Abs(): View
      reads this, pb, freeProc, ready, ready.a, waiting, waiting.a
      requires Shape()
    {
      View(pb[..], multiset(freeProc[..nfree]), ready.Items(), waiting.Items(), curr)
    }

    /** Every process but the one in hand is in exactly one place. */
    ghost predicate Ok(hand: nat)
      reads this, pb, freeProc, ready, ready.a, waiting, waiting.a
    {
      Shape() && Inv(Abs(), hand) && Tagged(Abs())
    }

    ghost predicate TimerOk()
      reads this, pb, freeProc, ready, ready.a, waiting, waiting.a
      requires Shape()
    {
      Covers(enabled, cval, armKey, armNow, clock, waiting.Items())
    }

    /** What holds between kernel entries. */
    ghost predicate Valid()
      reads this, pb, freeProc, ready, ready.a, waiting, waiting.a
    {
      Ok(0) && EarliestFirst(Abs()) && TimerOk()
    }

    /** `sched_init`: every slot is free and the kernel process runs. */
    constructor ()
      ensures Valid() && !panicked && curr == 0 && nfree == MAX_PROC
      ensures (forall p :: IsPid(p) ==> p in Abs().free) && Abs().ready == Abs().waiting == multiset{}
      ensures fresh({pb, freeProc, ready, ready.a, waiting, waiting.a})
    {
      hide Inv;
      pb := new Proc[MAX_PROC](_ => Proc(0, UNUSED, 0, 0, 0, 0));
      freeProc := new nat[MAX_PROC](_ => 0);
      var rn := new Node[READY_MAX](_ => Node(0, 0, 0));
      var wn := new Node[READY_MAX](_ => Node(0, 0, 0));
      ready := new MinHeap(rn);
      waiting := new MinHeap(wn);
      p0 := Proc(0, READY, 0, 0, 0, 0);
      nfree, curr, pid := MAX_PROC, 0, 0;
      enabled, cval, clock, panicked := false, 0, 0, false;
      new;
      FillTable();
      assert freeProc[..nfree] == freeProc[..];
      assert pb[..] == Abs().procs;
      InitPlaced(Abs());
      InitTagged(Abs());
    }

    method FillTable()
      requires pb.Length == freeProc.Length == MAX_PROC
      modifies pb, freeProc
      ensures forall j :: 0 <= j < MAX_PROC ==> pb[j].pid == j + 1 && pb[j].state == UNUSED
      ensures forall p: nat :: multiset(freeProc[..])[p] == if 1 <= p <= MAX_PROC then 1 else 0
    {
      for i := 0 to MAX_PROC
        invariant forall j :: 0 <= j < i ==> pb[j].pid == j + 1 && pb[j].state == UNUSED
        invariant forall p: nat :: multiset(freeProc[..i])[p] == if 1 <= p <= i then 1 else 0
      {
        pb[i] := pb[i].(pid := i + 1, state := UNUSED);
        freeProc[i] := i + 1;
        assert freeProc[..i + 1] == freeProc[..i] + [i + 1];
      }
      assert freeProc[..] == freeProc[..MAX_PROC];
    }

    // ------------------------------------------------------------ primitives

    /** `sched_alloc_proc`: a free slot, or 0. */
    method AllocProc() returns (r: nat)
      requires Shape()
      modifies this`nfree
      ensures Shape()
      ensures old(nfree) == 0 ==> r == 0 && Abs() == old(Abs())
      ensures old(nfree) > 0 ==> nfree == old(nfree) - 1 && r in old(Abs()).free && Abs() == old(Abs()).(free := old(Abs()).free - multiset{r})
    {
      if nfree <= 0 {
        return 0;
      }
      nfree := nfree - 1;
      r := freeProc[nfree];
      assert old(freeProc[..nfree]) == freeProc[..nfree] + [r];
      assert multiset(freeProc[..nfree]) == old(Abs()).free - multiset{r};
    }

    /** `sched_ready_proc`: into the ready heap by deadline, or panic. */
    method ReadyProc(p: nat)
      requires Shape() && !panicked
      modifies this`panicked, ready, ready.a
      ensures Shape()
      ensures panicked <==> !IsPid(p) || old(ready.len) == READY_MAX
      ensures panicked ==> ready.len == old(ready.len)
      ensures !panicked ==> Abs() == PushReady(old(Abs()), p) && ready.len == old(ready.len) + 1
    {
      if !IsPid(p) {
        panicked := true;
        return;
      }
      var ok := ready.Push(pb[p - 1].effDeadline, p);
      if !ok {
        panicked := true;
      }
    }

    /** `sched_wait_proc`: into the waiting heap by wake-up time, or panic. */
    method WaitProc(p: nat)
      requires Shape() && !panicked
      modifies this`panicked, waiting, waiting.a
      ensures Shape()
      ensures panicked <==> !IsPid(p) || old(waiting.len) == READY_MAX
      ensures !panicked ==> Abs() == PushWaiting(old(Abs()), p)
    {
      if !IsPid(p) {
        panicked := true;
        return;
      }
      var ok := waiting.Push(pb[p - 1].waitUntil, p);
      if !ok {
        panicked := true;
      }
    }

    /** `p->state = s`, for the kernel process or a slot of the table. */
    method SetState(p: nat, s: State)
      requires Shape() && p <= MAX_PROC
      modifies this`p0, pb
      ensures Shape()
      ensures p0 == if p == 0 then old(p0).(state := s) else old(p0)
      ensures p == 0 ==> Abs() == old(Abs())
      ensures p != 0 ==> Abs() == Rewritten(old(Abs()), p, old(pb[p - 1]).(state := s))
    {
      if p == 0 {
        p0 := p0.(state := s);
      } else {
        pb[p - 1] := pb[p - 1].(state := s);
      }
    }

    /** `sched_switch_irq`. */
    method SwitchTo(n: nat)
      requires Shape()
      modifies this`curr, this`pid
      ensures Shape() && Abs() == old(Abs()).(curr := n)
    {
      pid := n;
      curr := n;
    }

    /** Remove a least ready entry and mark its process running; the source's `heap_pop` and what follows it. */
    method PopReadyProc() returns (r: Option<Entry>)
      requires Shape()
      modifies this`p0, pb, ready, ready.a
      ensures Shape() && curr == old(curr)
      ensures r.None? <==> old(ready.len) == 0
      ensures r.None? ==> Abs() == old(Abs()) && Abs().ready == multiset{}
      ensures r.Some? ==> r.value in old(Abs()).ready && forall d :: d in old(Abs()).ready ==> r.value.0 <= d.0
      ensures r.Some? && 1 <= r.value.1 <= MAX_PROC ==>
                Abs() == Rewritten(PopReady(old(Abs()), r.value), r.value.1, old(pb[r.value.1 - 1]).(state := RUNNING))
      ensures r.Some? ==> ready.len == old(ready.len) - 1
    {
      hide MinHeap.Valid;
      hide MinHeap.Items;
      hide Rewritten;
      ready.WithinCapacity();
      r := ready.Pop();
      var p := if r.None? then 0 else r.value.1;
      if p <= MAX_PROC {
        SetState(p, RUNNING);
      }
    }

    /** `sched_yield`: give the core to the earliest ready process, or to the kernel. */
    method Yield() returns (c: nat)
      requires Ok(0)
      modifies this`p0, this`curr, this`pid, pb, ready, ready.a
      ensures Ok(c) && c == old(curr) && EarliestFirst(Abs())
      ensures c != 0 ==> pb[c - 1] == old(pb[c - 1]) && pb[c - 1].state != UNUSED && c != curr
      ensures Abs().free == old(Abs()).free && Abs().waiting == old(Abs()).waiting && RunsNow(old(Abs()).procs, Abs().procs, curr)
    {
      hide Inv;
      hide EarliestFirst;
      hide Tagged;
      hide RunsNow;
      hide MinHeap.Valid;
      hide MinHeap.Items;
      hide Dispatch;
      hide Rewritten;
      hide PopReady;
      ghost var v := Abs();
      HandSize(v, 0);
      c := if pid == 0 then 0 else pid;
      var r := PopReadyProc();
      if r.Some? {
        DispatchInv(v, r.value);
        DispatchEarliest(v, r.value);
        DispatchRecords(v, r.value);
        DispatchTagged(v, r.value);
        DispatchSteps(v, r.value);
        SwitchTo(r.value.1);
      } else {
        NoneRuns(v.procs);
        SwitchTagged(v, 0);
        Switch(v, 0);
        SwitchTo(0);
        NoneReady(Abs());
      }
    }

    /** The process that ran goes back among the ready, unless it is the kernel; `n` runs. */
    method SwitchOut(c: nat, n: nat)
      requires Shape() && !panicked && c == curr <= MAX_PROC && ready.len < READY_MAX
      modifies this`p0, this`curr, this`pid, this`panicked, pb, ready, ready.a
      ensures !panicked && Shape()
      ensures ready.len == old(ready.len) + (if c == 0 then 0 else 1)
      ensures c == 0 ==> Abs() == old(Abs()).(curr := n)
      ensures c != 0 ==> Abs() == PushReady(Rewritten(old(Abs()), c, old(pb[c - 1]).(state := READY)), c).(curr := n)
    {
      hide MinHeap.Valid;
      hide MinHeap.Items;
      hide PushReady;
      hide Rewritten;
      SetState(c, READY);
      if curr != 0 {
        ReadyProc(c);
      }
      SwitchTo(n);
    }

    /**
      `sched`, called with a process ready: switch if the kernel runs or the running process is
      due later than the earliest ready one.
     */
    method Reschedule()
      requires Ok(0) && !panicked && ready.len > 0
      modifies this`p0, this`curr, this`pid, this`panicked, pb, ready, ready.a
      ensures !panicked && Ok(0) && EarliestFirst(Abs())
      ensures curr != 0 && ready.len == old(ready.len) - (if old(curr) == 0 then 1 else 0)
      ensures Abs().free == old(Abs()).free && Abs().waiting == old(Abs()).waiting
      ensures Overtaken(old(Abs()).procs, Abs().procs, old(curr), curr)
    {
      hide Overtaken;
      hide Tagged;
      hide Preempt;
      hide Dispatch;
      hide PushReady;
      hide PopReady;
      hide Rewritten;
      hide Inv;
      hide EarliestFirst;
      hide MinHeap.Valid;
      hide MinHeap.Items;
      ghost var v := Abs();
      HandSize(v, 0);
      ready.WithinCapacity();
      StayRecords(v.procs, curr);
      var top := ready.Peek();
      var c := if curr == 0 then 0 else pid;
      var eff := if c == 0 then p0.effDeadline else pb[c - 1].effDeadline;
      if curr == 0 || eff > top.value.0 {
        var r := PopReadyProc();
        DispatchInv(v, r.value);
        PreemptInv(v, r.value);
        PreemptEarliest(v, r.value);
        PreemptSteps(v, r.value);
        CurrNotTaken(v, r.value);
        PreemptRecords(v, r.value);
        PreemptTagged(v, r.value);
        SwitchOut(c, r.value.1);
      } else {
        StayEarliest(v, top.value);
      }
    }

    method SetRecord(p: nat, r: Proc)
      requires Shape() && IsPid(p)
      modifies pb
      ensures Shape() && Abs() == Rewritten(old(Abs()), p, r) && pb[p - 1] == r
      ensures forall q :: 0 <= q < pb.Length && q != p - 1 ==> pb[q] == old(pb[q])
    {
      hide MinHeap.Valid;
      hide MinHeap.Items;
      pb[p - 1] := r;
    }

    method PushFree(p: nat)
      requires Shape() && nfree < MAX_PROC
      modifies this`nfree, freeProc
      ensures Shape() && Abs() == old(Abs()).(free := old(Abs()).free + multiset{p}) && nfree == old(nfree) + 1
    {
      hide MinHeap.Valid;
      hide MinHeap.Items;
      freeProc[nfree] := p;
      nfree := nfree + 1;
      assert freeProc[..nfree] == old(freeProc[..nfree]) + [p];
    }

    /** `sched_new_proc`: a slot set up with its deadline and memory, in hand; panic when none is free. */
    method NewProc(deadline: nat, mem: nat) returns (p: nat)
      requires Ok(0) && !panicked
      modifies this`nfree, this`panicked, pb
      ensures panicked <==> old(nfree) == 0
      ensures !panicked ==> Ok(p) && IsPid(p) && pb[p - 1].state == READY && pb[p - 1].effDeadline == deadline
      ensures !panicked ==> Abs().procs == Made(old(Abs()).procs, p, deadline, mem)
      ensures !panicked ==> p in old(Abs()).free && Abs().free == old(Abs()).free - multiset{p} && nfree == old(nfree) - 1
      ensures !panicked ==> Abs().ready == old(Abs()).ready && Abs().waiting == old(Abs()).waiting && curr == old(curr)
    {
      hide Inv;
      hide MinHeap.Valid;
      hide MinHeap.Items;
      hide Tagged;
      hide Rewritten;
      hide SameElse;
      hide Made;
      ghost var v := Abs();
      NotEmpty(v);
      p := AllocProc();
      if p == 0 {
        panicked := true;
        return;
      }
      TakeFromFree(v, p);
      ghost var w := v.(free := v.free - multiset{p});
      HandSize(w, p);
      var r := pb[p - 1].(absDeadline := deadline, effDeadline := deadline, state := READY, mem := mem);
      RewriteHand(w, p, r);
      FewerTagged(v, w);
      HandTagged(w, p, r);
      RewrittenParts(w, p, r);
      MadeIs(w, p, deadline, mem);
      SetRecord(p, r);
    }

    /** `sched_free_proc`: the slot in hand goes back on the stack and its memory is freed. */
    method FreeProc(p: nat)
      requires Ok(p) && !panicked
      modifies this`nfree, this`panicked, pb, freeProc
      ensures panicked <==> !IsPid(p) || old(pb[p - 1]).mem == 0
      ensures !panicked ==> Ok(0) && pb[p - 1].state == UNUSED && Abs().free == old(Abs()).free + multiset{p}
      ensures !panicked ==> Abs().ready == old(Abs()).ready && Abs().waiting == old(Abs()).waiting && curr == old(curr)
      ensures !panicked ==> pb[p - 1] == old(pb[p - 1]).(state := UNUSED) && SameElse(old(Abs()).procs, Abs().procs, p)
    {
      hide Inv;
      hide Tagged;
      hide Placed;
      hide MinHeap.Valid;
      hide MinHeap.Items;
      if !IsPid(p) {
        panicked := true;
        return;
      }
      ghost var v := Abs();
      InvParts(v, p);
      StackHasRoom(v, p, freeProc[..nfree]);
      if nfree >= MAX_PROC {
        assert false;  // the panic the source has here cannot happen
      }
      RewriteHand(v, p, v.procs[p - 1].(state := UNUSED));
      HandTagged(v, p, v.procs[p - 1].(state := UNUSED));
      SetRecord(p, pb[p - 1].(state := UNUSED));
      MoveToFree(Abs(), p);
      ghost var w := Abs();
      PushFree(p);
      FewerTagged(w, Abs());
      // free(p->mem): its assertion fails on NULL.
      if pb[p - 1].mem == 0 {
        panicked := true;
      }
    }

    // ----------------------------------------------------------------- timer

    /** The counter never goes back. */
    method ReadClock() returns (now: nat)
      requires clock < U64
      modifies this`clock
      ensures now == clock && old(clock) <= clock < U64
    {
      var d: int := *;
      if 0 <= d && clock + d < U64 {
        clock := clock + d;
      }
      return clock;
    }

    /** `timer_schedule_at_ticks`. */
    method TimerSchedule(deadline: nat)
      requires clock < U64
      modifies this`clock, this`enabled, this`cval, this`armNow, this`armKey
      ensures enabled && armKey == deadline && armNow == clock && cval == Arm(deadline, armNow)
      ensures old(clock) <= clock < U64
    {
      var now := ReadClock();
      var due := deadline;
      var diff := (deadline - now) % 0x1_0000_0000_0000_0000;
      if diff == 0 || diff >= 0x8000_0000_0000_0000 {
        due := (now + 1) % 0x1_0000_0000_0000_0000;
      }
      cval, enabled := due, true;
      armNow, armKey := now, deadline;
    }

    method TimerCancel()
      modifies this`enabled
      ensures !enabled
    {
      enabled := false;
    }

    // -------------------------------------------------------------- handlers

    /** `wait_until` up to the timer: the running process moves to the waiting heap; `w` was least there before. */
    method Park(until: nat) returns (w: Option<Entry>)
      requires Ok(0) && !panicked
      modifies this`p0, this`curr, this`pid, this`panicked, pb, ready, ready.a, waiting, waiting.a
      ensures panicked <==> old(curr) == 0 || old(waiting.len) == READY_MAX
      ensures !panicked ==> Ok(0) && EarliestFirst(Abs()) && Abs().free == old(Abs()).free
      ensures !panicked ==> Abs().waiting == old(Abs()).waiting + multiset{(until, old(curr))}
      ensures !panicked ==> Handed(Asleep(old(Abs()).procs, old(curr), until), Abs().procs, old(curr), curr, WAITING)
      ensures w.None? <==> old(Abs()).waiting == multiset{}
      ensures w.Some? ==> Least(old(Abs()).waiting, w.value.0)
    {
      hide Tagged;
      hide Handed;
      hide Inv;
      hide Placed;
      hide EarliestFirst;
      hide MinHeap.Valid;
      hide MinHeap.Items;
      hide Parked;
      hide PushWaiting;
      hide Rewritten;
      waiting.WithinCapacity();
      var c := Yield();
      ghost var v := Abs();
      HandSize(v, c);
      if c == 0 {
        p0 := p0.(waitUntil := until, state := WAITING);
      } else {
        var r := pb[c - 1].(waitUntil := until, state := WAITING);
        ParkedInv(v, c, r);
        ParkedTagged(v, c, r);
        ParkedSteps(v, c, r);
        RewrittenParts(v, c, r);
        HandedOver(old(Abs()).procs, v.procs, Rewritten(v, c, r).procs, c, curr, old(pb[c - 1]).(waitUntil := until), WAITING);
        SetRecord(c, r);
      }
      w := waiting.Peek();
      WaitProc(c);
    }

    /** `wait_until(until)`: the running process waits, the earliest ready one runs, the timer covers the wait. */
    method WaitUntil(until: nat)
      requires Valid() && !panicked
      modifies this, pb, ready, ready.a, waiting, waiting.a
      ensures panicked <==> old(curr) == 0 || old(waiting.len) == READY_MAX
      ensures !panicked ==> Valid() && Abs().free == old(Abs()).free
      ensures !panicked ==> Abs().waiting == old(Abs()).waiting + multiset{(until, old(curr))}
      ensures !panicked ==> Handed(Asleep(old(Abs()).procs, old(curr), until), Abs().procs, old(curr), curr, WAITING)
    {
      hide Inv;
      hide Tagged;
      hide Handed;
      hide EarliestFirst;
      hide Least;
      hide Arm;
      hide MinHeap.Valid;
      hide MinHeap.Items;
      ghost var items, e := waiting.Items(), (until, curr);
      var w := Park(until);
      if panicked {
        return;
      }
      if w.Some? {
        LeastUnique(items, w.value.0, armKey);
      }
      LeastAfterPush(items, e, armKey);
      if w.None? || w.value.0 > until {
        if w.Some? {
          TimerCancel();
        }
        TimerSchedule(until);
      }
    }

    /** `exit`: the earliest ready process runs and the slot of the one that exits is free again. */
    method Exit()
      requires Valid() && !panicked
      modifies this`p0, this`curr, this`pid, this`nfree, this`panicked, pb, freeProc, ready, ready.a
      ensures panicked <==> old(curr) == 0 || old(pb[curr - 1]).mem == 0
      ensures !panicked ==> Valid() && Abs().waiting == old(Abs()).waiting
      ensures !panicked ==> Abs().free == old(Abs()).free + multiset{old(curr)}
      ensures !panicked ==> Handed(old(Abs()).procs, Abs().procs, old(curr), curr, UNUSED)
    {
      hide Inv;
      hide Tagged;
      hide Placed;
      hide EarliestFirst;
      hide Covers;
      hide RunsNow;
      hide Handed;
      hide SameElse;
      hide MinHeap.Valid;
      hide MinHeap.Items;
      var c := Yield();
      ghost var v := Abs();
      InvParts(v, c);
      FreeProc(c);
      if !panicked {
        ReleasedEarliest(v, Abs(), c);
        ExitRecords(old(Abs()).procs, v.procs, Abs().procs, c, curr);
      }
    }

    /** The process in hand becomes ready and runs at once if it is the earliest: `sched_ready_proc`, then `sched`. */
    method Admit(p: nat)
      requires Ok(p) && IsPid(p) && Abs().procs[p - 1].state in {READY, WAITING} && !panicked
      modifies this`p0, this`curr, this`pid, this`panicked, pb, ready, ready.a
      ensures panicked <==> old(ready.len) == READY_MAX
      ensures panicked ==> ready.len == READY_MAX
      ensures !panicked ==> Ok(0) && EarliestFirst(Abs())
      ensures !panicked ==> curr != 0 && ready.len == old(ready.len) + (if old(curr) == 0 then 0 else 1)
      ensures !panicked ==> Abs().free == old(Abs()).free && Abs().waiting == old(Abs()).waiting
      ensures !panicked ==> Overtaken(old(Abs()).procs, Abs().procs, old(curr), curr)
    {
      hide Inv;
      hide Tagged;
      hide EarliestFirst;
      hide Overtaken;
      hide MinHeap.Valid;
      hide MinHeap.Items;
      HandSize(Abs(), p);
      MoveToReady(Abs(), p);
      ReadyTagged(Abs(), p);
      ReadyProc(p);
      if !panicked {
        Reschedule();
      }
    }

    /** `spawn`: a new process with the given deadline; `mem` is 0 when the allocation failed, which is not checked. */
    method Spawn(deadline: nat, mem: nat) returns (p: nat)
      requires Valid() && !panicked
      modifies this`p0, this`curr, this`pid, this`nfree, this`panicked, pb, ready, ready.a
      ensures panicked <==> old(nfree) == 0 || old(ready.len) == READY_MAX
      ensures !panicked ==> Valid() && Abs().waiting == old(Abs()).waiting
      ensures !panicked ==> curr != 0 && ready.len == old(ready.len) + (if old(curr) == 0 then 0 else 1)
      ensures !panicked ==> p in old(Abs()).free && Abs().free == old(Abs()).free - multiset{p} && nfree == old(nfree) - 1
      ensures !panicked ==> IsPid(p) && Overtaken(Made(old(Abs()).procs, p, deadline, mem), Abs().procs, old(curr), curr)
    {
      hide Inv;
      hide Tagged;
      hide EarliestFirst;
      hide Covers;
      hide MinHeap.Valid;
      hide MinHeap.Items;
      hide Made;
      hide Overtaken;
      p := NewProc(deadline, mem);
      if panicked {
        return;
      }
      ghost var v := Abs();
      HandSize(v, p);
      Admit(p);
      if panicked {
        return;
      }
      assert waiting.Items() == old(waiting.Items());
    }

    /** `schedule_req`: a process with deadline 0 for a request, or a panic when its memory could not be allocated. */
    method ScheduleReq(mem: nat) returns (p: nat)
      requires Valid() && !panicked
      modifies this`p0, this`curr, this`pid, this`nfree, this`panicked, pb, ready, ready.a
      ensures panicked <==> mem == 0 || old(nfree) == 0 || old(ready.len) == READY_MAX
      ensures !panicked ==> Valid() && Abs().waiting == old(Abs()).waiting && nfree == old(nfree) - 1
      ensures !panicked ==> curr != 0 && ready.len == old(ready.len) + (if old(curr) == 0 then 0 else 1)
      ensures !panicked ==> p in old(Abs()).free && Abs().free == old(Abs()).free - multiset{p}
      ensures !panicked ==> IsPid(p) && Overtaken(Made(old(Abs()).procs, p, 0, mem), Abs().procs, old(curr), curr)
    {
      hide Made;
      hide Overtaken;
      hide Tagged;
      hide EarliestFirst;
      hide Inv;
      hide Covers;
      hide MinHeap.Valid;
      hide MinHeap.Items;
      p := 0;
      if mem == 0 {
        panicked := true;
        return;
      }
      p := Spawn(0, mem);
    }

    /**
      `ipc_sched`: serve the requests that have arrived, in order and three at most.  Process
      `pids[k]` is for `requests[k]`.  A request is refused, with a panic, when its memory could
      not be allocated, no slot is left, or the ready heap is full.
     */
    method IpcSched(requests: seq<Request>) returns (n: nat, ghost pids: seq<nat>, ghost made: seq<Proc>)
      requires Valid() && !panicked
      modifies this`p0, this`curr, this`pid, this`nfree, this`panicked, pb, ready, ready.a
      ensures panicked <==> !NoneRefused(requests, Served(requests), old(nfree), old(curr), old(ready.len))
      ensures !panicked ==> n == |pids| == Served(requests)
      ensures !panicked ==> Valid() && Abs().waiting == old(Abs()).waiting && nfree == old(nfree) - n
      ensures !panicked ==> Abs().free + multiset(pids) == old(Abs()).free
      ensures !panicked ==> Serve(old(Abs()).procs, made, requests, pids) && Ran(made, Abs().procs, old(curr), curr)
    {
      hide Tagged;
      hide Made;
      hide Overtaken;
      hide Ran;
      hide EarliestFirst;
      hide Inv;
      hide Covers;
      hide MinHeap.Valid;
      hide MinHeap.Items;
      hide Serve;
      hide Refused;
      hide NoneRefused;
      n, pids, made := 0, [], Abs().procs;
      StayRecords(made, curr);
      OneMore(requests, 0, nfree, curr, ready.len);
      ServeNone(Abs().procs, requests);
      ghost var v0 := Abs();
      ready.WithinCapacity();
      if curr == 0 {
        KernelAlone(v0);
      }
      ghost var f0, c0, r0 := nfree, curr, ready.len;
      assert c0 == 0 ==> r0 == 0;
      while n < 3 && n < |requests|
        invariant n == |pids| <= Served(requests) && !panicked && Valid()
        invariant Abs().waiting == old(Abs()).waiting && nfree == old(nfree) - n
        invariant ready.len == r0 + n - (if c0 == 0 && n > 0 then 1 else 0) && (if n > 0 then curr != 0 else curr == c0)
        invariant Abs().free + multiset(pids) == old(Abs()).free
        invariant Serve(v0.procs, made, requests, pids) && Ran(made, Abs().procs, c0, curr)
        invariant NoneRefused(requests, n, f0, c0, r0)
      {
        ghost var v := Abs();
        ready.WithinCapacity();
        RefusedIs(requests[n], n, f0, c0, r0);
        ghost var bad := Refused(requests[n], n, f0, c0, r0);
        assert bad <==> requests[n].mem == 0 || nfree == 0 || ready.len == READY_MAX;
        var p := ScheduleReq(requests[n].mem);
        OneMore(requests, n, f0, c0, r0);
        if panicked {
          return;
        }
        StillFree(v0, v, pids, p);
        ServeNext(v0.procs, made, requests, pids, p);
        RanMade(made, v.procs, c0, v.curr, p, 0, requests[n].mem);
        made := Made(made, p, 0, requests[n].mem);
        RanNext(made, Made(v.procs, p, 0, requests[n].mem), Abs().procs, c0, v.curr, curr);
        TakenNext(v0.free, v.free, pids, p);
        n, pids := n + 1, pids + [p];
      }
    }

    /** Remove a least waiting entry. */
    method PopWaitingProc() returns (e: Entry)
      requires Shape() && waiting.len > 0
      modifies waiting, waiting.a
      ensures Shape() && waiting.len == old(waiting.len) - 1
      ensures e in old(Abs()).waiting && Abs() == PopWaiting(old(Abs()), e)
      ensures Least(old(Abs()).waiting, e.0)
    {
      hide MinHeap.Valid;
      hide MinHeap.Items;
      waiting.WithinCapacity();
      var r := waiting.Pop();
      e := r.value;
    }

    /** Put back the entry just taken from the waiting heap: there is always room. */
    method PutBackProc(e: Entry, ghost v: View)
      requires Shape() && !panicked && Inv(v, 0) && e in v.waiting && waiting.len < READY_MAX && Abs() == PopWaiting(v, e)
      modifies this`panicked, waiting, waiting.a
      ensures Shape() && !panicked && Abs() == v
    {
      hide Inv;
      hide PushWaiting;
      hide PopWaiting;
      hide MinHeap.Valid;
      hide MinHeap.Items;
      TakeFromWaiting(v, e);
      PutBack(v, e);
      WaitProc(e.1);
    }

    /** Make the process just taken from the waiting heap ready. */
    method WakeProc(e: Entry, ghost v: View)
      requires Shape() && !panicked && Inv(v, 0) && Tagged(v) && e in v.waiting && Abs() == PopWaiting(v, e)
      modifies this`p0, this`curr, this`pid, this`panicked, pb, ready, ready.a
      ensures panicked <==> old(ready.len) == READY_MAX
      ensures !panicked ==> Ok(0) && EarliestFirst(Abs()) && Overtaken(v.procs, Abs().procs, v.curr, curr)
      ensures !panicked ==> curr != 0 && ready.len == old(ready.len) + (if v.curr == 0 then 0 else 1)
      ensures !panicked ==> Abs().free == v.free && Abs().waiting == v.waiting - multiset{e}
    {
      hide Inv;
      hide Tagged;
      hide EarliestFirst;
      hide Overtaken;
      hide MinHeap.Valid;
      hide MinHeap.Items;
      TakeFromWaiting(v, e);
      WokenTagged(v, e);
      Admit(e.1);
    }

    /**
      One turn of the loop in `timer_fn`: take the process with the least wake-up time; if it is
      not yet due, put it back, arm the timer for it and stop; otherwise make it ready.
     */
    method WakeOne() returns (e: Entry, now: nat, stop: bool)
      requires Ok(0) && EarliestFirst(Abs()) && waiting.len > 0 && !panicked
      modifies this, pb, ready, ready.a, waiting, waiting.a
      ensures old(clock) <= now <= clock && e in old(Abs()).waiting && Least(old(Abs()).waiting, e.0)
      ensures panicked <==> e.0 <= now && old(ready.len) == READY_MAX
      ensures !panicked && stop ==> ready.len == old(ready.len) && curr == old(curr)
      ensures !panicked && !stop ==> curr != 0 && ready.len == old(ready.len) + (if old(curr) == 0 then 0 else 1)
      ensures !panicked ==> Ok(0) && EarliestFirst(Abs()) && Abs().free == old(Abs()).free
      ensures !panicked ==> (stop <==> e.0 > now)
      ensures !panicked && stop ==> TimerOk() && Abs().waiting == old(Abs()).waiting
      ensures !panicked && !stop ==> Abs().waiting == old(Abs()).waiting - multiset{e} && waiting.len == old(waiting.len) - 1
      ensures !panicked ==> Overtaken(old(Abs()).procs, Abs().procs, old(curr), curr)
    {
      hide Inv;
      hide Tagged;
      hide EarliestFirst;
      hide Overtaken;
      hide PopWaiting;
      hide Least;
      hide Arm;
      hide MinHeap.Valid;
      hide MinHeap.Items;
      ghost var v := Abs();
      waiting.WithinCapacity();
      e := PopWaitingProc();
      now := ReadClock();
      stop := e.0 > now;
      if stop {
        StayRecords(v.procs, curr);
        PutBackProc(e, v);
        TimerSchedule(e.0);
      } else {
        WakeProc(e, v);
      }
    }

    /** How many processes can be made ready: the ready heap's free places, and the core when the kernel has it. */
    ghost function Room(): int
      reads this`curr, ready
    {
      READY_MAX - ready.len + if curr == 0 then 1 else 0
    }

    lemma RoomInvariant()
      requires Ok(0) && EarliestFirst(Abs())
      ensures ready.len <= READY_MAX && (curr == 0 ==> ready.len == 0) && |Abs().waiting| == waiting.len
    {
      hide Inv;
      hide MinHeap.Valid;
      hide MinHeap.Items;
      ready.WithinCapacity();
      waiting.WithinCapacity();
      if curr == 0 {
        KernelAlone(Abs());
      }
    }

    /**
      `timer_fn`: exactly the processes due at `now`, the last reading of the counter in its loop,
      leave the waiting heap, and the timer covers the rest.  It panics exactly when more are due than
      there is room for.
     */
    method TimerFn() returns (now: nat)
      requires Valid() && !panicked
      modifies this, pb, ready, ready.a, waiting, waiting.a
      ensures now <= clock && (old(waiting.len) > 0 ==> old(clock) <= now)
      ensures panicked <==> TooMany(old(Abs()).waiting, now, old(Room()))
      ensures !panicked ==> Valid() && Abs().free == old(Abs()).free
      ensures !panicked ==> NotDue(old(Abs()).waiting, Abs().waiting, now) && Ran(old(Abs()).procs, Abs().procs, old(curr), curr)
    {
      hide Inv;
      hide Tagged;
      hide Ran;
      hide Overtaken;
      hide EarliestFirst;
      hide Least;
      hide Arm;
      hide MinHeap.Valid;
      hide MinHeap.Items;
      hide Sifted;
      hide NotDue;
      hide TooMany;
      now := 0;
      waiting.WithinCapacity();
      var more := waiting.len > 0;
      ghost var was, room := Abs().waiting, Room();
      ghost var s, c := Abs().procs, curr;
      StayRecords(s, c);
      SiftStart(was);
      while more
        invariant Ok(0) && EarliestFirst(Abs()) && !panicked && now <= clock && Abs().free == old(Abs()).free
        invariant Sifted(was, Abs().waiting, now) && Ran(s, Abs().procs, c, curr)
        invariant old(clock) <= clock && (now == 0 || old(clock) <= now)
        invariant more <==> waiting.len > 0
        invariant old(waiting.len) > 0 && !more ==> old(clock) <= now
        invariant |was| - |Abs().waiting| + Room() == room && 0 <= |was| - |Abs().waiting|
        decreases waiting.len
      {
        ghost var items, v := Abs().waiting, Abs();
        RoomInvariant();
        var e, t, stop := WakeOne();
        if panicked {
          NoRoom(was, items, now, e, t, room);
          now := t;
          return;
        }
        RanNext(s, v.procs, Abs().procs, c, v.curr, curr);
        if stop {
          LeastBounds(items, e.0);
          SiftDone(was, items, now, t);
          now := t;
          RoomInvariant();
          RoomLeft(was, items, now, room);
          return;
        }
        OneGone(items, e);
        SiftNext(was, items, now, e, t);
        now := t;
        more := waiting.len > 0;
      }
      waiting.WithinCapacity();
      RoomInvariant();
      SiftDone(was, Abs().waiting, now, now);
      RoomLeft(was, Abs().waiting, now, room);
      TimerCancel();
    }

    // ------------------------------------------------------------------ runs

    /** What the machine's counters say of the view. */
    lemma Counts()
      requires Valid()
      ensures Shape() && curr <= MAX_PROC && nfree == |Abs().free| && ready.len == |Abs().ready| && waiting.len == |Abs().waiting|
      ensures Abs().procs == pb[..] && Abs().curr == curr
    {
      hide Inv;
      hide EarliestFirst;
      hide Covers;
      hide MinHeap.Valid;
      hide MinHeap.Items;
      ready.WithinCapacity();
      waiting.WithinCapacity();
      CurrIn();
    }

    lemma SoundOf()
      requires Valid()
      ensures Shape() && Sound(Abs())
    {
      hide Inv;
      hide Tagged;
      hide EarliestFirst;
    }

    lemma CurrIn()
      requires Valid()
      ensures curr <= MAX_PROC
    {
    }

    method EnterWait(until: nat)
      requires Valid() && !panicked
      modifies this, pb, freeProc, ready, ready.a, waiting, waiting.a
      ensures panicked <==> Panics(old(Abs()), SysWaitUntil(until), 0)
      ensures !panicked ==> Valid() && Entered(old(Abs()), SysWaitUntil(until), Abs(), 0)
    {
      hide Inv;
      hide EarliestFirst;
      hide Covers;
      hide MinHeap.Valid;
      hide MinHeap.Items;
      hide Tagged;
      hide Handed;
      hide Ran;
      hide Overtaken;
      hide NoneRefused;
      hide Serve;
      hide NotDue;
      hide TooMany;
      Counts();
      WaitUntil(until);
    }

    method EnterExit()
      requires Valid() && !panicked
      modifies this, pb, freeProc, ready, ready.a, waiting, waiting.a
      ensures panicked <==> Panics(old(Abs()), SysExit, 0)
      ensures !panicked ==> Valid() && Entered(old(Abs()), SysExit, Abs(), 0)
    {
      hide Inv;
      hide EarliestFirst;
      hide Covers;
      hide MinHeap.Valid;
      hide MinHeap.Items;
      hide Tagged;
      hide Handed;
      hide Ran;
      hide Overtaken;
      hide NoneRefused;
      hide Serve;
      hide NotDue;
      hide TooMany;
      Counts();
      Exit();
    }

    method EnterSpawn(deadline: nat, mem: nat)
      requires Valid() && !panicked
      modifies this, pb, freeProc, ready, ready.a, waiting, waiting.a
      ensures panicked <==> Panics(old(Abs()), SysSpawn(deadline, mem), 0)
      ensures !panicked ==> Valid() && Entered(old(Abs()), SysSpawn(deadline, mem), Abs(), 0)
    {
      hide Inv;
      hide EarliestFirst;
      hide Covers;
      hide MinHeap.Valid;
      hide MinHeap.Items;
      hide Tagged;
      hide Handed;
      hide Ran;
      hide Overtaken;
      hide NoneRefused;
      hide Serve;
      hide NotDue;
      hide TooMany;
      Counts();
      var p := Spawn(deadline, mem);
      if !panicked {
        assert Took(old(Abs()), Abs(), p, deadline, mem);
      }
    }

    method EnterIpc(requests: seq<Request>)
      requires Valid() && !panicked
      modifies this, pb, freeProc, ready, ready.a, waiting, waiting.a
      ensures panicked <==> Panics(old(Abs()), IpcInterrupt(requests), 0)
      ensures !panicked ==> Valid() && Entered(old(Abs()), IpcInterrupt(requests), Abs(), 0)
    {
      hide Inv;
      hide EarliestFirst;
      hide Covers;
      hide MinHeap.Valid;
      hide MinHeap.Items;
      hide Tagged;
      hide Handed;
      hide Ran;
      hide Overtaken;
      hide NoneRefused;
      hide Serve;
      hide NotDue;
      hide TooMany;
      Counts();
      var n, pids, made := IpcSched(requests);
      if !panicked {
        assert TookAll(old(Abs()), Abs(), requests, pids, made);
      }
    }

    method EnterTimer() returns (now: nat)
      requires Valid() && !panicked
      modifies this, pb, freeProc, ready, ready.a, waiting, waiting.a
      ensures panicked <==> Panics(old(Abs()), TimerInterrupt, now)
      ensures !panicked ==> Valid() && Entered(old(Abs()), TimerInterrupt, Abs(), now)
      ensures now <= clock && (old(waiting.len) > 0 ==> old(clock) <= now)
    {
      hide Inv;
      hide EarliestFirst;
      hide Covers;
      hide MinHeap.Valid;
      hide MinHeap.Items;
      hide Tagged;
      hide Handed;
      hide Ran;
      hide Overtaken;
      hide NoneRefused;
      hide Serve;
      hide NotDue;
      hide TooMany;
      Counts();
      now := TimerFn();
    }

    /** One entry into the kernel: it panics exactly when `Panics`, and otherwise does what it is for. */
    method Step(event: Event) returns (ghost now: nat)
      requires Valid() && !panicked
      modifies this, pb, freeProc, ready, ready.a, waiting, waiting.a
      ensures panicked <==> Panics(old(Abs()), event, now)
      ensures !panicked ==> Valid() && Entered(old(Abs()), event, Abs(), now)
      ensures event.TimerInterrupt? && old(waiting.len) > 0 ==> old(clock) <= now
      ensures event.TimerInterrupt? ==> now <= clock
    {
      hide Valid;
      hide Panics;
      hide Entered;
      now := 0;
      match event
      case SysWaitUntil(until) => EnterWait(until);
      case SysExit => EnterExit();
      case SysSpawn(deadline, mem) => EnterSpawn(deadline, mem);
      case IpcInterrupt(requests) => EnterIpc(requests);
      case TimerInterrupt =>
        var last := EnterTimer();
        now := last;
      case SysUnknown =>
        Counts();
        NothingEntered(Abs(), now);
    }

    /**
      Every run of kernel entries keeps the whole invariant, up to a panic, which halts the core, and
      goes through views related entry by entry.
     */
    method Run(events: seq<Event>) returns (n: nat, ghost vs: seq<View>, ghost nows: seq<nat>)
      requires Valid() && !panicked
      modifies this, pb, freeProc, ready, ready.a, waiting, waiting.a
      ensures n == |nows| && Went(vs, events, nows, panicked) && vs[0] == old(Abs())
      ensures !panicked ==> n == |events| && Valid() && vs[n] == Abs()
    {
      hide Valid;
      hide Sound;
      hide Panics;
      hide Entered;
      Counts();
      SoundOf();
      n, vs, nows := 0, [Abs()], [];
      while n < |events| && !panicked
        invariant n == |nows| && Went(vs, events, nows, panicked) && vs[0] == old(Abs())
        invariant !panicked ==> Valid() && Shape() && vs[n] == Abs()
        decreases |events| - n
      {
        ghost var now := Step(events[n]);
        if panicked {
          WentDown(vs, events, nows, now);
        } else {
          Counts();
          SoundOf();
          WentOn(vs, events, nows, Abs(), now);
          vs := vs + [Abs()];
        }
        nows := nows + [now];
        n := n + 1;
      }
    }
  }
}
