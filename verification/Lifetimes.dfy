/**
  Processes over whole runs of kernel entries: a live process keeps the deadline and memory it was
  created with, it waits as long as it asked to, and the one that runs was created with the least
  deadline of those that are ready.
 */
module Lifetimes {
  import opened Heap
  import opened Places
  import opened Records
  import opened Sched

  /** The entry creates a process with this deadline and memory. */
  ghost predicate Creates(event: Event, deadline: nat, mem: nat) {
    match event
    case SysSpawn(d, m) => d == deadline && m == mem
    case IpcInterrupt(requests) => deadline == 0 && exists k :: 0 <= k < Served(requests) && requests[k].mem == mem
    case _ => false
  }

  /** The same process, which may have changed its tag and its wake-up time. */
  ghost predicate SameProcess(r: Proc, r': Proc) {
    r' == r.(state := r'.state, waitUntil := r'.waitUntil)
  }

  /** What entry `event` does to the record of a process that is live after it. */
  ghost predicate Carries(v: View, event: Event, v': View, p: nat) {
    && 1 <= p <= |v.procs| == |v'.procs|
    && var r, r' := v.procs[p - 1], v'.procs[p - 1];
       if p in v.free then Creates(event, r'.effDeadline, r'.mem)
       else SameProcess(r, r') && r'.waitUntil == if event.SysWaitUntil? && p == v.curr then event.until else r.waitUntil
  }

  lemma SpawnCarries(v: View, v': View, deadline: nat, mem: nat, p0: nat, p: nat)
    requires |v.procs| == MAX_PROC && Took(v, v', p0, deadline, mem) && IsPid(p) && p !in v'.free
    ensures Carries(v, SysSpawn(deadline, mem), v', p)
  {
    assert p != p0 ==> v'.free[p] == v.free[p];
  }

  lemma IpcCarries(v: View, v': View, requests: seq<Request>, pids: seq<nat>, made: seq<Proc>, p: nat)
    requires |v.procs| == MAX_PROC && TookAll(v, v', requests, pids, made) && IsPid(p) && p !in v'.free
    ensures Carries(v, IpcInterrupt(requests), v', p)
  {
    assert v.free[p] == v'.free[p] + multiset(pids)[p];
    assert p in multiset(pids) <==> p in pids;
    if p in v.free {
      var k :| 0 <= k < |pids| && pids[k] == p;
      assert requests[k].mem == v'.procs[p - 1].mem;
    }
  }

  /** Every entry leaves deadline and memory of a live process alone, or creates it with the ones it was given. */
  lemma StepCarries(v: View, event: Event, v': View, now: nat, p: nat)
    requires Sound(v) && Entered(v, event, v', now) && IsPid(p) && p !in v'.free
    ensures Carries(v, event, v', p)
  {
    hide Inv;
    hide Tagged;
    hide EarliestFirst;
    hide NotDue;
    HandSize(v, 0);
    match event
    case SysSpawn(deadline, mem) =>
      hide Overtaken;
      var p0 :| Took(v, v', p0, deadline, mem);
      SpawnCarries(v, v', deadline, mem, p0, p);
    case IpcInterrupt(requests) =>
      hide Ran;
      hide Serve;
      var pids, made :| TookAll(v, v', requests, pids, made);
      IpcCarries(v, v', requests, pids, made, p);
    case SysExit =>
      assert v'.free[p] == v.free[p] + if p == v.curr then 1 else 0;
    case _ =>
  }

  /** Whatever happens, a process that stays live keeps its deadline and its memory. */
  lemma {:induction false} Lives(vs: seq<View>, events: seq<Event>, nows: seq<nat>, panicked: bool, j: nat, k: nat, p: nat)
    requires Went(vs, events, nows, panicked) && j <= k < |vs| && IsPid(p)
    requires forall i :: j <= i <= k ==> p !in vs[i].free
    ensures p <= |vs[j].procs| == |vs[k].procs| && SameProcess(vs[j].procs[p - 1], vs[k].procs[p - 1])
    decreases k
  {
    hide Entered;
    hide Panics;
    hide Sound;
    SizeAt(vs, events, nows, panicked, k);
    if j < k {
      Lives(vs, events, nows, panicked, j, k - 1, p);
      StepAt(vs, events, nows, panicked, k - 1);
      StepCarries(vs[k - 1], events[k - 1], vs[k], nows[k - 1], p);
    }
  }

  lemma SizeAt(vs: seq<View>, events: seq<Event>, nows: seq<nat>, panicked: bool, k: nat)
    requires Went(vs, events, nows, panicked) && k < |vs|
    ensures |vs[k].procs| == MAX_PROC && Sound(vs[k])
  {
    hide Entered;
    hide Panics;
  }

  lemma StepAt(vs: seq<View>, events: seq<Event>, nows: seq<nat>, panicked: bool, k: nat)
    requires Went(vs, events, nows, panicked) && k + 1 < |vs|
    ensures k < |nows| <= |events| && Entered(vs[k], events[k], vs[k + 1], nows[k])
    ensures Sound(vs[k]) && Sound(vs[k + 1])
  {
    hide Entered;
    hide Panics;
    hide Sound;
  }

  /** A process live after `k` entries whose slot was free at first: the entry that created it, and with what. */
  lemma {:induction false} CreatedBy(vs: seq<View>, events: seq<Event>, nows: seq<nat>, panicked: bool, k: nat, p: nat) returns (j: nat)
    requires Went(vs, events, nows, panicked) && k < |vs| && IsPid(p) && p in vs[0].free && p !in vs[k].free
    ensures j < k <= |events| && p in vs[j].free && (forall i :: j < i <= k ==> p !in vs[i].free)
    ensures p <= |vs[k].procs| && Creates(events[j], vs[k].procs[p - 1].effDeadline, vs[k].procs[p - 1].mem)
    decreases k
  {
    hide Entered;
    hide Panics;
    hide Sound;
    hide Creates;
    StepAt(vs, events, nows, panicked, k - 1);
    StepCarries(vs[k - 1], events[k - 1], vs[k], nows[k - 1], p);
    if p in vs[k - 1].free {
      j := k - 1;
    } else {
      j := CreatedBy(vs, events, nows, panicked, k - 1, p);
    }
  }

  /** A waiting process: the call with which it began to wait, for this wake-up time. */
  lemma {:induction false} WaitsSince(vs: seq<View>, events: seq<Event>, nows: seq<nat>, panicked: bool, k: nat, e: Entry) returns (j: nat)
    requires Went(vs, events, nows, panicked) && k < |vs| && vs[0].waiting == multiset{} && e in vs[k].waiting
    ensures j < k <= |events| && events[j] == SysWaitUntil(e.0) && vs[j].curr == e.1 && (forall i :: j < i <= k ==> e in vs[i].waiting)
    decreases k
  {
    hide Entered;
    hide Panics;
    hide Sound;
    StepAt(vs, events, nows, panicked, k - 1);
    if e in vs[k - 1].waiting {
      j := WaitsSince(vs, events, nows, panicked, k - 1, e);
    } else {
      j := k - 1;
      BeganToWait(vs[k - 1], events[k - 1], vs[k], nows[k - 1], e);
    }
  }

  lemma BeganToWait(v: View, event: Event, v': View, now: nat, e: Entry)
    requires Entered(v, event, v', now) && e in v'.waiting && e !in v.waiting
    ensures event == SysWaitUntil(e.0) && v.curr == e.1
  {
    assert event.TimerInterrupt? ==> v'.waiting[e] <= v.waiting[e];
  }

  /** A process stops waiting only in a timer interrupt that read a counter at or past its wake-up time. */
  lemma NotWokenEarly(vs: seq<View>, events: seq<Event>, nows: seq<nat>, panicked: bool, k: nat, e: Entry)
    requires Went(vs, events, nows, panicked) && k + 1 < |vs| && e in vs[k].waiting && e !in vs[k + 1].waiting
    ensures k < |nows| <= |events| && events[k].TimerInterrupt? && e.0 <= nows[k]
  {
    hide Panics;
    hide Sound;
    StepAt(vs, events, nows, panicked, k);
    var v, v' := vs[k], vs[k + 1];
    assert events[k].TimerInterrupt? ==> v'.waiting[e] == if e.0 > nows[k] then v.waiting[e] else 0;
  }

  /**
    From a state with every slot free: after any number of entries, the running process was created
    with a deadline no later than that of any ready one, and nothing is ready while the kernel runs.
   */
  lemma EarliestCreatedRuns(vs: seq<View>, events: seq<Event>, nows: seq<nat>, panicked: bool, k: nat, e: Entry)
    returns (i: nat, j: nat, d: nat)
    requires Went(vs, events, nows, panicked) && k < |vs| && e in vs[k].ready
    requires forall p :: IsPid(p) ==> p in vs[0].free
    ensures IsPid(vs[k].curr) && IsPid(e.1) && vs[k].curr != e.1 && i < k <= |events| && j < k && d <= e.0
    ensures vs[k].curr in vs[i].free && (forall l :: i < l <= k ==> vs[k].curr !in vs[l].free)
    ensures e.1 in vs[j].free && (forall l :: j < l <= k ==> e.1 !in vs[l].free)
    ensures (exists mem :: Creates(events[i], d, mem)) && (exists mem :: Creates(events[j], e.0, mem))
  {
    hide Entered;
    hide Panics;
    hide Creates;
    hide Sound;
    SizeAt(vs, events, nows, panicked, k);
    var v := vs[k];
    ReadyIs(v, e);
    i := CreatedBy(vs, events, nows, panicked, k, v.curr);
    j := CreatedBy(vs, events, nows, panicked, k, e.1);
    d := v.procs[v.curr - 1].effDeadline;
  }

  lemma ReadyIs(v: View, e: Entry)
    requires Sound(v) && e in v.ready
    ensures IsPid(e.1) && e.1 !in v.free && |v.procs| == MAX_PROC && e.0 == v.procs[e.1 - 1].effDeadline
    ensures IsPid(v.curr) && v.curr !in v.free && v.curr != e.1 && v.procs[v.curr - 1].effDeadline <= e.0
  {
    hide Placed;
    hide Tagged;
    HeapEntry(v, e);
    CurrNotTaken(v, e);
    RunningNotFree(v, 0);
  }
}
