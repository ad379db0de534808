/**
  The process records: what a switch, a wake-up or a new process does to the table, and that the
  state tags go with the places.
 */
module Records {
  import opened Heap
  import opened Places

  // -------------------------------------------------------------------- tags

  /** The running process is marked so, a waiting one waiting, a ready one ready or, after a wake-up, still waiting. */
  ghost predicate Tagged(v: View) {
    && (1 <= v.curr <= |v.procs| ==> v.procs[v.curr - 1].state == RUNNING)
    && (forall e :: e in v.waiting && 1 <= e.1 <= |v.procs| ==> v.procs[e.1 - 1].state == WAITING)
    && (forall e :: e in v.ready && 1 <= e.1 <= |v.procs| ==> v.procs[e.1 - 1].state in {READY, WAITING})
  }

  lemma InitTagged(v: View)
    requires v.ready == v.waiting == multiset{} && v.curr == 0
    ensures Tagged(v)
  {
  }

  /** The record in hand may be rewritten. */
  lemma HandTagged(v: View, p: nat, r: Proc)
    requires Inv(v, p) && IsPid(p) && Tagged(v)
    ensures Tagged(Rewritten(v, p, r))
  {
    hide Inv;
    hide Placed;
    InvParts(v, p);
    HandIsNowhere(v, p);
  }

  lemma FewerTagged(v: View, w: View)
    requires Tagged(v) && w.procs == v.procs && w.curr == v.curr && w.ready <= v.ready && w.waiting <= v.waiting
    ensures Tagged(w)
  {
    assert forall e :: e in w.ready ==> e in v.ready;
    assert forall e :: e in w.waiting ==> e in v.waiting;
  }

  lemma SwitchTagged(v: View, n: nat)
    requires Tagged(v) && (1 <= n <= |v.procs| ==> v.procs[n - 1].state == RUNNING)
    ensures Tagged(v.(curr := n))
  {
  }

  lemma ReadyTagged(v: View, p: nat)
    requires Tagged(v) && 1 <= p <= |v.procs| && v.procs[p - 1].state in {READY, WAITING}
    ensures Tagged(PushReady(v, p))
  {
  }

  lemma WokenTagged(v: View, e: Entry)
    requires Inv(v, 0) && Tagged(v) && e in v.waiting
    ensures Tagged(PopWaiting(v, e)) && IsPid(e.1) && |v.procs| == MAX_PROC && v.procs[e.1 - 1].state == WAITING
  {
    hide Inv;
    TakeFromWaiting(v, e);
    FewerTagged(v, PopWaiting(v, e));
  }

  lemma DispatchTagged(v: View, e: Entry)
    requires Inv(v, 0) && Tagged(v) && e in v.ready
    ensures Tagged(Dispatch(v, e))
  {
    hide Inv;
    hide Tagged;
    TakeFromReady(v, e);
    var w := PopReady(v, e);
    FewerTagged(v, w);
    HandTagged(w, e.1, v.procs[e.1 - 1].(state := RUNNING));
    SwitchTagged(Rewritten(w, e.1, v.procs[e.1 - 1].(state := RUNNING)), e.1);
  }

  lemma PreemptTagged(v: View, e: Entry)
    requires Inv(v, 0) && Tagged(v) && e in v.ready
    ensures Tagged(Preempt(v, e))
  {
    hide Inv;
    hide Tagged;
    hide Dispatch;
    DispatchInv(v, e);
    DispatchTagged(v, e);
    if v.curr != 0 {
      var d := Dispatch(v, e);
      HandSize(d, v.curr);
      var r := v.procs[v.curr - 1].(state := READY);
      HandTagged(d, v.curr, r);
      ReadyTagged(Rewritten(d, v.curr, r), v.curr);
    }
  }

  lemma ParkedTagged(v: View, c: nat, r: Proc)
    requires Inv(v, c) && IsPid(c) && Tagged(v) && r.state == WAITING
    ensures Tagged(Parked(v, c, r))
  {
    hide Inv;
    HandTagged(v, c, r);
    HandSize(v, c);
  }

  // ----------------------------------------------------------------- records

  /** Process `n` has come to run and is marked so; no other record has changed. */
  ghost predicate RunsNow(s: seq<Proc>, t: seq<Proc>, n: nat) {
    |s| == |t| && forall i :: 0 <= i < |s| ==> t[i] == if i == n - 1 then s[i].(state := RUNNING) else s[i]
  }

  /** Process `n` has come to run in place of `c`, which is marked `leave`; no other record has changed. */
  ghost predicate Handed(s: seq<Proc>, t: seq<Proc>, c: nat, n: nat, leave: State) {
    && |s| == |t|
    && forall i :: 0 <= i < |s| ==>
         t[i] == if c == n then s[i]
                 else if i == c - 1 then s[i].(state := leave)
                 else if i == n - 1 then s[i].(state := RUNNING)
                 else s[i]
  }

  /** If `n` runs in place of process `c`, it is due strictly earlier. */
  ghost predicate Earlier(t: seq<Proc>, c: nat, n: nat) {
    c == n || c == 0 || (1 <= n <= |t| && c <= |t| && t[n - 1].effDeadline < t[c - 1].effDeadline)
  }

  /** Nothing has happened, or `n` has come to run in place of `c`, which is due later and is ready again. */
  ghost predicate Overtaken(s: seq<Proc>, t: seq<Proc>, c: nat, n: nat) {
    Handed(s, t, c, n, READY) && Earlier(t, c, n)
  }

  /**
    After any number of such switches, from `c` running to `n` running: every record is the same but
    for its tag; the process that ran is marked ready, the one that runs running, and of the others
    those that have run in between ready.
   */
  ghost predicate Ran(s: seq<Proc>, t: seq<Proc>, c: nat, n: nat) {
    && |s| == |t| && Earlier(t, c, n)
    && forall i :: 0 <= i < |s| ==>
         && t[i] == s[i].(state := t[i].state)
         && (if i == n - 1 then (if c == n then t[i] == s[i] else t[i].state == RUNNING)
             else if i == c - 1 then t[i].state == READY
             else t[i].state in {s[i].state, READY})
  }

  /** The table with slot `p` set up as a new process. */
  ghost function Made(s: seq<Proc>, p: nat, deadline: nat, mem: nat): seq<Proc> {
    if 1 <= p <= |s| then
      s[p - 1 := s[p - 1].(absDeadline := deadline, effDeadline := deadline, mem := mem, state := READY)]
    else s
  }

  lemma MadeIs(w: View, p: nat, deadline: nat, mem: nat)
    requires 1 <= p <= |w.procs|
    ensures var r := w.procs[p - 1].(absDeadline := deadline, effDeadline := deadline, mem := mem, state := READY);
            Rewritten(w, p, r).procs == Made(w.procs, p, deadline, mem)
  {
  }

  lemma DispatchRecords(v: View, e: Entry)
    requires 1 <= e.1 <= |v.procs|
    ensures RunsNow(v.procs, Dispatch(v, e).procs, e.1)
  {
  }

  lemma NoneRuns(s: seq<Proc>)
    ensures RunsNow(s, s, 0)
  {
  }

  lemma PreemptRecords(v: View, e: Entry)
    requires Inv(v, 0) && e in v.ready && (v.curr == 0 || ReadyEntry(v, v.curr).0 > e.0)
    ensures Overtaken(v.procs, Preempt(v, e).procs, v.curr, e.1)
  {
    hide Inv;
    TakeFromReady(v, e);
    CurrNotTaken(v, e);
  }

  lemma StayRecords(s: seq<Proc>, c: nat)
    ensures Overtaken(s, s, c, c) && Ran(s, s, c, c)
  {
  }

  /** The process that left the core gets a new record. */
  lemma HandedOver(s: seq<Proc>, t: seq<Proc>, u: seq<Proc>, c: nat, n: nat, r: Proc, leave: State)
    requires RunsNow(s, t, n) && SameElse(t, u, c) && 1 <= c <= |s| && c != n && u[c - 1] == r.(state := leave)
    ensures Handed(s[c - 1 := r], u, c, n, leave)
  {
  }

  lemma ExitRecords(s: seq<Proc>, t: seq<Proc>, u: seq<Proc>, c: nat, n: nat)
    requires RunsNow(s, t, n) && SameElse(t, u, c) && 1 <= c <= |s| && c != n && u[c - 1] == t[c - 1].(state := UNUSED)
    ensures Handed(s, u, c, n, UNUSED)
  {
  }

  lemma RanNext(s: seq<Proc>, t: seq<Proc>, u: seq<Proc>, c: nat, m: nat, n: nat)
    requires Ran(s, t, c, m) && Overtaken(t, u, m, n) && (m != 0 ==> n != 0)
    ensures Ran(s, u, c, n)
  {
  }

  /** A new process is set up in a slot that has not been touched. */
  lemma RanMade(s: seq<Proc>, t: seq<Proc>, c: nat, n: nat, p: nat, deadline: nat, mem: nat)
    requires Ran(s, t, c, n) && p != c && p != n
    ensures Ran(Made(s, p, deadline, mem), Made(t, p, deadline, mem), c, n)
  {
  }
}
