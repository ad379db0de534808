/**
  The Linux-to-RT mailbox ring (`shared/mailbox.h`): `mpsc_push` of `kernelmod/rtmain.c`, run
  under `sched_lock`, and `mpsc_pop` of `rtprog/rtprog.c`, as a state machine whose steps are
  single shared-memory accesses of any number of producers and the one consumer, in any order.
 */
module Mailbox {
  import opened Words

  const SLOTS: nat := 4096
  const WORDS: nat := 4

  /** A request record as the words the copies move. */
  type Rec = seq<nat>

  /** Where a caller of `rtcore_sched_prog` stands; `t` is its ticket. */
  datatype Producer =
    | Idle
    | Blocked(rec: Rec)
    | Claim(rec: Rec)
    | Spin(rec: Rec, t: nat)
    | Copy(rec: Rec, t: nat, n: nat)
    | Publish(rec: Rec, t: nat)
    | Unlock

  /** Where `mpsc_pop` stands; `t` is the tail it read. */
  datatype Consumer =
    | Poll
    | Fetch(t: nat, got: Rec)
    | Clear(t: nat, got: Rec)
    | Advance(t: nat, got: Rec)

  datatype Owner = Free | By(id: nat)

  /** The shared ring, the mutex, everyone's position, and two histories: records by ticket, and records popped. */
  datatype State = State(
    head: nat, tail: nat, flags: seq<bool>, data: seq<Rec>,
    owner: Owner, producers: map<nat, Producer>, consumer: Consumer,
    claimed: seq<Rec>, popped: seq<Rec>)

  datatype Action =
    | Call(id: nat, rec: Rec)
    | Lock(id: nat)
    | FetchAdd(id: nat)
    | TestFlag(id: nat)
    | CopyWord(id: nat)
    | SetFlag(id: nat)
    | Release(id: nat)
    | TakeFlag
    | ReadWord
    | ClearFlag
    | BumpTail

  function Slot(t: nat): (i: nat)
    ensures i < SLOTS
  {
    t % SLOTS
  }

  function At(s: State, id: nat): Producer {
    if id in s.producers then s.producers[id] else Idle
  }

  function Moved(s: State, id: nat, p: Producer): State {
    s.(producers := s.producers[id := p])
  }

  function Flag(s: State, i: nat): bool {
    i < |s.flags| && s.flags[i]
  }

  function Data(s: State, i: nat): Rec {
    if i < |s.data| then s.data[i] else []
  }

  function WithFlag(s: State, i: nat, b: bool): State {
    if i < |s.flags| then s.(flags := s.flags[i := b]) else s
  }

  function WithWord(s: State, i: nat, n: nat, w: nat): State {
    if i < |s.data| && n < |s.data[i]| then
      var r: Rec := s.data[i][n := w];
      s.(data := s.data[i := r])
    else s
  }

  /** `ipc_init`. */
  function Init(data: seq<Rec>): State {
    State(0, 0, seq(SLOTS, _ => false), data, Free, map[], Poll, [], [])
  }

  /** One step; a step its process is not ready for changes nothing. */
  function Step(s: State, a: Action): State {
    match a
    case Call(id, rec) => if At(s, id).Idle? && |rec| == WORDS then Moved(s, id, Blocked(rec)) else s
    case Lock(id) => LockStep(s, id)
    case FetchAdd(id) => FetchAddStep(s, id)
    case TestFlag(id) => TestFlagStep(s, id)
    case CopyWord(id) => CopyWordStep(s, id)
    case SetFlag(id) => SetFlagStep(s, id)
    case Release(id) => if At(s, id).Unlock? then Moved(s, id, Idle).(owner := Free) else s
    case TakeFlag => TakeFlagStep(s)
    case ReadWord => ReadWordStep(s)
    case ClearFlag => ClearFlagStep(s)
    case BumpTail => BumpTailStep(s)
  }

  function LockStep(s: State, id: nat): State {
    if At(s, id).Blocked? && s.owner.Free? then Moved(s, id, Claim(At(s, id).rec)).(owner := By(id)) else s
  }

  function FetchAddStep(s: State, id: nat): State {
    if At(s, id).Claim? then
      Moved(s, id, Spin(At(s, id).rec, s.head)).(head := (s.head + 1) % U32, claimed := s.claimed + [At(s, id).rec])
    else s
  }

  function TestFlagStep(s: State, id: nat): State {
    match At(s, id)
    case Spin(rec, t) => if Flag(s, Slot(t)) then s else Moved(s, id, Copy(rec, t, 0))
    case _ => s
  }

  function CopyWordStep(s: State, id: nat): State {
    match At(s, id)
    case Copy(rec, t, n) =>
      if n < |rec| then WithWord(Moved(s, id, Copy(rec, t, n + 1)), Slot(t), n, rec[n]) else Moved(s, id, Publish(rec, t))
    case _ => s
  }

  function SetFlagStep(s: State, id: nat): State {
    match At(s, id)
    case Publish(_, t) => WithFlag(Moved(s, id, Unlock), Slot(t), true)
    case _ => s
  }

  function TakeFlagStep(s: State): State {
    if s.consumer.Poll? && Flag(s, Slot(s.tail)) then s.(consumer := Fetch(s.tail, [])) else s
  }

  function ReadWordStep(s: State): State {
    match s.consumer
    case Fetch(t, got) =>
      var r := Data(s, Slot(t));
      if |got| < |r| then s.(consumer := Fetch(t, got + [r[|got|]])) else s.(consumer := Clear(t, got))
    case _ => s
  }

  function ClearFlagStep(s: State): State {
    match s.consumer
    case Clear(t, got) => WithFlag(s.(consumer := Advance(t, got)), Slot(t), false)
    case _ => s
  }

  function BumpTailStep(s: State): State {
    match s.consumer
    case Advance(t, got) => s.(consumer := Poll, tail := (t + 1) % U32, popped := s.popped + [got])
    case _ => s
  }

  function Run(s: State, actions: seq<Action>): State
    decreases |actions|
  {
    if actions == [] then s else Run(Step(s, actions[0]), actions[1..])
  }

  // -------------------------------------------------------------- invariant

  predicate Critical(p: Producer) {
    !p.Idle? && !p.Blocked?
  }

  predicate InFlight(p: Producer) {
    p.Spin? || p.Copy? || p.Publish?
  }

  function Holder(s: State): Producer {
    if s.owner.By? then At(s, s.owner.id) else Idle
  }

  /** Tickets published so far. */
  function Published(s: State): int {
    |s.claimed| - (if InFlight(Holder(s)) then 1 else 0)
  }

  /** Tickets whose slot the consumer has released. */
  function Cleared(s: State): nat {
    |s.popped| + (if s.consumer.Advance? then 1 else 0)
  }

  ghost predicate Sized(s: State) {
    && |s.flags| == |s.data| == SLOTS
    && (forall i :: 0 <= i < SLOTS ==> |s.data[i]| == WORDS)
    && s.head == |s.claimed| % U32 && s.tail == |s.popped| % U32
    && (forall u :: 0 <= u < |s.claimed| ==> |s.claimed[u]| == WORDS)
  }

  /** Exactly the holder of the mutex is inside `mpsc_push`. */
  ghost predicate Exclusive(s: State) {
    && (forall id :: Critical(At(s, id)) ==> s.owner == By(id))
    && (s.owner.By? ==> Critical(Holder(s)))
    && (forall id :: At(s, id).Blocked? ==> |At(s, id).rec| == WORDS)
  }

  /** A slot is flagged exactly for a published ticket that has not been cleared. */
  ghost predicate Flagged(s: State) {
    && Cleared(s) <= Published(s) <= Cleared(s) + SLOTS && |s.popped| <= |s.claimed|
    && (forall u: nat {:trigger Slot(u)} :: Cleared(s) <= u < Cleared(s) + SLOTS ==> (Flag(s, Slot(u)) <==> u < Published(s)))
  }

  /** The slot of such a ticket holds its record, and what was popped is what was claimed first. */
  ghost predicate Faithful(s: State) {
    && (forall u: nat {:trigger Slot(u)} :: Cleared(s) <= u < Published(s) ==> u < |s.claimed| && Data(s, Slot(u)) == s.claimed[u])
    && |s.popped| <= |s.claimed| && s.popped == s.claimed[..|s.popped|]
  }

  ghost predicate ProducerOk(s: State) {
    var p, u := Holder(s), |s.claimed| - 1;
    && (p.Claim? ==> |p.rec| == WORDS)
    && (InFlight(p) ==> u >= 0 && p.rec == s.claimed[u] && |p.rec| == WORDS && p.t == u % U32)
    && (p.Copy? || p.Publish? ==> u < Cleared(s) + SLOTS)
    && (p.Copy? ==> p.n <= WORDS == |Data(s, Slot(u))| && Data(s, Slot(u))[..p.n] == p.rec[..p.n])
    && (p.Publish? ==> Data(s, Slot(u)) == p.rec)
  }

  ghost predicate ConsumerOk(s: State) {
    var u := |s.popped|;
    && (!s.consumer.Poll? ==> u < Published(s) && u < |s.claimed| && s.consumer.t == u % U32)
    && (s.consumer.Fetch? ==> s.consumer.got <= s.claimed[u])
    && (s.consumer.Clear? || s.consumer.Advance? ==> s.consumer.got == s.claimed[u])
  }

  ghost predicate Inv(s: State) {
    Sized(s) && Exclusive(s) && Flagged(s) && Faithful(s) && ProducerOk(s) && ConsumerOk(s)
  }

  // -------------------------------------------------------------- arithmetic

  lemma SlotOfTicket(u: nat)
    ensures Slot(u % U32) == Slot(u)
  {
    assert u == U32 * (u / U32) + u % U32;
  }

  lemma SlotsApart(u: nat, v: nat)
    requires u != v && u < v + SLOTS && v < u + SLOTS
    ensures Slot(u) != Slot(v)
  {
  }

  lemma SlotWraps(u: nat)
    ensures Slot(u + SLOTS) == Slot(u)
  {
  }

  lemma NextTicket(u: nat)
    ensures (u % U32 + 1) % U32 == (u + 1) % U32
  {
  }

  // ------------------------------------------------------------------- steps

  lemma InitInv(data: seq<Rec>)
    requires |data| == SLOTS && forall i :: 0 <= i < SLOTS ==> |data[i]| == WORDS
    ensures Inv(Init(data))
  {
  }

  /** Only producer `id` has moved. */
  lemma OthersStay(s: State, s': State, id: nat, p: Producer)
    requires s'.producers == s.producers[id := p]
    ensures forall x: nat :: At(s', x) == if x == id then p else At(s, x)
  {
  }

  lemma NobodyMoved(s: State, s': State)
    requires s'.producers == s.producers
    ensures forall x: nat :: At(s', x) == At(s, x)
  {
  }

  lemma StillExclusive(s: State, s': State, id: nat)
    requires Exclusive(s) && s'.producers == s.producers[id := At(s', id)]
    requires At(s', id).Blocked? ==> |At(s', id).rec| == WORDS
    requires if Critical(At(s', id)) then s'.owner == By(id) && (s.owner == Free || s.owner == By(id))
             else s'.owner == (if s.owner == By(id) then Free else s.owner)
    ensures Exclusive(s')
  {
    OthersStay(s, s', id, At(s', id));
    forall x: nat ensures Critical(At(s', x)) ==> s'.owner == By(x) {
      assert Critical(At(s, x)) ==> s.owner == By(x);
    }
    forall x: nat ensures At(s', x).Blocked? ==> |At(s', x).rec| == WORDS {
      assert At(s, x).Blocked? ==> |At(s, x).rec| == WORDS;
    }
    if s'.owner.By? && s'.owner != By(id) {
      assert Holder(s') == Holder(s);
    }
  }

  /** A producer without a ticket does not matter to the ring. */
  lemma SameRing(s: State, s': State)
    requires Inv(s) && s' == s.(producers := s'.producers, owner := s'.owner)
    requires Holder(s') == Holder(s) || (!InFlight(Holder(s)) && !InFlight(Holder(s')))
    requires Holder(s').Claim? ==> |Holder(s').rec| == WORDS
    ensures Sized(s') && Flagged(s') && Faithful(s') && ProducerOk(s') && ConsumerOk(s')
  {
    hide Slot;
    hide Exclusive;
    hide Holder;
    assert Published(s') == Published(s) && Cleared(s') == Cleared(s);
  }

  lemma HolderClaim(s: State)
    requires ProducerOk(s)
    ensures Holder(s).Claim? ==> |Holder(s).rec| == WORDS
  {
  }

  lemma CallInv(s: State, id: nat, rec: Rec)
    requires Inv(s) && At(s, id).Idle? && |rec| == WORDS
    ensures Inv(Moved(s, id, Blocked(rec)))
  {
    hide Sized;
    hide Flagged;
    hide Faithful;
    hide ProducerOk;
    hide ConsumerOk;
    var s' := Moved(s, id, Blocked(rec));
    OthersStay(s, s', id, Blocked(rec));
    assert Holder(s') == Holder(s);
    HolderClaim(s);
    StillExclusive(s, s', id);
    SameRing(s, s');
  }

  lemma LockInv(s: State, id: nat)
    requires Inv(s)
    ensures Inv(LockStep(s, id))
  {
    hide Sized;
    hide Flagged;
    hide Faithful;
    hide ProducerOk;
    hide ConsumerOk;
    var s' := LockStep(s, id);
    if At(s, id).Blocked? && s.owner.Free? {
      OthersStay(s, s', id, At(s', id));
      assert Holder(s) == Idle && Holder(s') == Claim(At(s, id).rec);
      StillExclusive(s, s', id);
      SameRing(s, s');
    }
  }

  lemma FetchAddInv(s: State, id: nat)
    requires Inv(s)
    ensures Inv(FetchAddStep(s, id))
  {
    hide Slot;
    var s' := FetchAddStep(s, id);
    if At(s, id).Claim? {
      OthersStay(s, s', id, At(s', id));
      assert Holder(s) == At(s, id) && Holder(s') == At(s', id);
      NextTicket(|s.claimed|);
      assert Published(s') == Published(s);
      assert s'.claimed[..|s.popped|] == s.claimed[..|s.popped|];
    }
  }

  lemma TestFlagInv(s: State, id: nat)
    requires Inv(s)
    ensures Inv(TestFlagStep(s, id))
  {
    hide Slot;
    var s' := TestFlagStep(s, id);
    if At(s, id).Spin? {
      if Flag(s, Slot(At(s, id).t)) {
        return;
      }
      OthersStay(s, s', id, At(s', id));
      assert Holder(s) == At(s, id) && Holder(s') == At(s', id);
      assert Published(s') == Published(s);
      var u := |s.claimed| - 1;
      SlotOfTicket(u);
      if u == Cleared(s) + SLOTS {
        SlotWraps(Cleared(s));
      }
    }
  }

  lemma CopyWordInv(s: State, id: nat)
    requires Inv(s)
    ensures Inv(CopyWordStep(s, id))
  {
    hide Slot;
    var s' := CopyWordStep(s, id);
    if At(s, id).Copy? {
      OthersStay(s, s', id, At(s', id));
      assert Holder(s) == At(s, id) && Holder(s') == At(s', id);
      assert Published(s') == Published(s);
      var u := |s.claimed| - 1;
      SlotOfTicket(u);
      forall v: nat | Cleared(s) <= v < Published(s) ensures Slot(v) != Slot(u) {
        SlotsApart(v, u);
      }
    }
  }

  lemma SetFlagInv(s: State, id: nat)
    requires Inv(s)
    ensures Inv(SetFlagStep(s, id))
  {
    hide Slot;
    var s' := SetFlagStep(s, id);
    if At(s, id).Publish? {
      OthersStay(s, s', id, At(s', id));
      assert Holder(s) == At(s, id) && Holder(s') == At(s', id);
      assert Published(s') == Published(s) + 1;
      var u := |s.claimed| - 1;
      SlotOfTicket(u);
      forall v: nat | Cleared(s) <= v < Cleared(s) + SLOTS && v != u ensures Slot(v) != Slot(u) {
        SlotsApart(v, u);
      }
    }
  }

  lemma ReleaseInv(s: State, id: nat)
    requires Inv(s) && At(s, id).Unlock?
    ensures Inv(Moved(s, id, Idle).(owner := Free))
  {
    hide Sized;
    hide Flagged;
    hide Faithful;
    hide ProducerOk;
    hide ConsumerOk;
    var s' := Moved(s, id, Idle).(owner := Free);
    OthersStay(s, s', id, Idle);
    assert Holder(s) == Unlock && Holder(s') == Idle;
    StillExclusive(s, s', id);
    SameRing(s, s');
  }

  lemma TakeFlagInv(s: State)
    requires Inv(s)
    ensures Inv(TakeFlagStep(s))
  {
    hide Slot;
    NobodyMoved(s, TakeFlagStep(s));
    SlotOfTicket(|s.popped|);
    assert Holder(TakeFlagStep(s)) == Holder(s);
  }

  lemma ReadWordInv(s: State)
    requires Inv(s)
    ensures Inv(ReadWordStep(s))
  {
    hide Slot;
    NobodyMoved(s, ReadWordStep(s));
    SlotOfTicket(|s.popped|);
    assert Holder(ReadWordStep(s)) == Holder(s);
  }

  lemma ClearFlagInv(s: State)
    requires Inv(s)
    ensures Inv(ClearFlagStep(s))
  {
    hide Slot;
    NobodyMoved(s, ClearFlagStep(s));
    var s' := ClearFlagStep(s);
    assert Holder(s') == Holder(s);
    if s.consumer.Clear? {
      var u := |s.popped|;
      SlotOfTicket(u);
      SlotWraps(u);
      forall v: nat | u < v < u + SLOTS ensures Slot(v) != Slot(u) {
        SlotsApart(v, u);
      }
    }
  }

  lemma BumpTailInv(s: State)
    requires Inv(s)
    ensures Inv(BumpTailStep(s))
  {
    hide Slot;
    NobodyMoved(s, BumpTailStep(s));
    var s' := BumpTailStep(s);
    assert Holder(s') == Holder(s);
    if s.consumer.Advance? {
      NextTicket(|s.popped|);
      assert s'.popped == s.claimed[..|s.popped| + 1];
      assert Cleared(s') == Cleared(s) && Published(s') == Published(s);
      assert Sized(s') && Exclusive(s') && Flagged(s') && Faithful(s');
    }
  }

  lemma StepInv(s: State, a: Action)
    requires Inv(s)
    ensures Inv(Step(s, a))
  {
    hide Inv;
    match a
    case Call(id, rec) =>
      if At(s, id).Idle? && |rec| == WORDS {
        CallInv(s, id, rec);
      }
    case Lock(id) => LockInv(s, id);
    case FetchAdd(id) => FetchAddInv(s, id);
    case TestFlag(id) => TestFlagInv(s, id);
    case CopyWord(id) => CopyWordInv(s, id);
    case SetFlag(id) => SetFlagInv(s, id);
    case Release(id) =>
      if At(s, id).Unlock? {
        ReleaseInv(s, id);
      }
    case TakeFlag => TakeFlagInv(s);
    case ReadWord => ReadWordInv(s);
    case ClearFlag => ClearFlagInv(s);
    case BumpTail => BumpTailInv(s);
  }

  // -------------------------------------------------------------------- runs

  /** Every interleaving keeps the invariant. */
  lemma {:induction false} RunInv(s: State, actions: seq<Action>)
    requires Inv(s)
    ensures Inv(Run(s, actions))
    decreases |actions|
  {
    hide Inv;
    hide Step;
    if actions != [] {
      StepInv(s, actions[0]);
      RunInv(Step(s, actions[0]), actions[1..]);
    }
  }

  // ------------------------------------------------------------------- calls

  /** Position `i` is a call with record `rec`, and at `j` its caller draws a ticket. */
  ghost predicate Drew(actions: seq<Action>, i: nat, j: nat, rec: Rec) {
    i < j < |actions| && actions[j].FetchAdd? && actions[i] == Call(actions[j].id, rec)
  }

  /**
    Ticket by ticket, where its record was handed in and where it was drawn: no two come from one
    call, they are drawn one after the other, and no producer calls again before it has drawn.
   */
  ghost predicate Drawn(actions: seq<Action>, claimed: seq<Rec>, calls: seq<nat>, draws: seq<nat>) {
    && |calls| == |draws| == |claimed|
    && (forall u :: 0 <= u < |claimed| ==> Drew(actions, calls[u], draws[u], claimed[u]))
    && (forall u, v :: 0 <= u < v < |claimed| ==>
          calls[u] != calls[v] && draws[u] < draws[v] && (actions[draws[u]] == actions[draws[v]] ==> draws[u] < calls[v]))
  }

  predicate Waits(s: State, id: nat) {
    At(s, id).Blocked? || At(s, id).Claim?
  }

  /** Action `i` is a call, by a producer that is in no other. */
  ghost predicate Accepted(data: seq<Rec>, actions: seq<Action>, i: nat) {
    i < |actions| && actions[i].Call? && |actions[i].rec| == WORDS && At(Run(Init(data), actions[..i]), actions[i].id).Idle?
  }

  /** The call at position `i` is the one that producer `id` waits with. */
  ghost predicate Pending(actions: seq<Action>, s: State, draws: seq<nat>, id: nat, i: nat) {
    && Waits(s, id) && i < |actions| && actions[i] == Call(id, At(s, id).rec)
    && forall u :: 0 <= u < |draws| && draws[u] < |actions| && actions[draws[u]] == FetchAdd(id) ==> draws[u] < i
  }

  ghost predicate Tied(data: seq<Rec>, actions: seq<Action>, calls: seq<nat>, draws: seq<nat>, pending: map<nat, nat>) {
    var s := Run(Init(data), actions);
    && Drawn(actions, s.claimed, calls, draws)
    && (forall id: nat :: Waits(s, id) ==> id in pending && Pending(actions, s, draws, id, pending[id]))
    && (forall i: nat :: Accepted(data, actions, i) ==>
          i in calls || (Waits(s, actions[i].id) && actions[i].id in pending && pending[actions[i].id] == i))
  }

  lemma {:induction false} RunSnoc(s: State, actions: seq<Action>, a: Action)
    ensures Run(s, actions + [a]) == Step(Run(s, actions), a)
    decreases |actions|
  {
    hide Step;
    if actions == [] {
      assert actions + [a] == [a];
      assert Run(Step(s, a), []) == Step(s, a);
    } else {
      assert (actions + [a])[1..] == actions[1..] + [a];
      RunSnoc(Step(s, actions[0]), actions[1..], a);
    }
  }

  /** Who waits with what, after one step. */
  lemma WaitStep(s: State, a: Action, id: nat)
    ensures var s' := Step(s, a);
            if a.Call? && a.id == id && At(s, id).Idle? && |a.rec| == WORDS then At(s', id) == Blocked(a.rec)
            else if a.FetchAdd? && a.id == id && At(s, id).Claim? then !Waits(s', id)
            else (Waits(s', id) <==> Waits(s, id)) && (Waits(s, id) ==> At(s', id).rec == At(s, id).rec)
  {
  }

  lemma AcceptedSnoc(data: seq<Rec>, actions: seq<Action>, a: Action, i: nat)
    ensures i < |actions| ==> (Accepted(data, actions + [a], i) <==> Accepted(data, actions, i))
    ensures Accepted(data, actions + [a], |actions|) <==>
            a.Call? && |a.rec| == WORDS && At(Run(Init(data), actions), a.id).Idle?
  {
    hide Run;
    hide Init;
    assert (actions + [a])[..|actions|] == actions;
    if i < |actions| {
      assert (actions + [a])[..i] == actions[..i];
    }
  }

  lemma DrawnLonger(actions: seq<Action>, a: Action, claimed: seq<Rec>, calls: seq<nat>, draws: seq<nat>)
    requires Drawn(actions, claimed, calls, draws)
    ensures Drawn(actions + [a], claimed, calls, draws)
  {
    forall u | 0 <= u < |claimed| ensures Drew(actions + [a], calls[u], draws[u], claimed[u]) {
      assert Drew(actions, calls[u], draws[u], claimed[u]);
    }
  }

  /** A ticket drawn now, for the call its producer waits with. */
  lemma DrawnMore(actions: seq<Action>, s: State, id: nat, i: nat, calls: seq<nat>, draws: seq<nat>)
    requires Drawn(actions, s.claimed, calls, draws) && Pending(actions, s, draws, id, i)
    ensures Drawn(actions + [FetchAdd(id)], s.claimed + [At(s, id).rec], calls + [i], draws + [|actions|])
  {
    var more, claimed, cs, ds := actions + [FetchAdd(id)], s.claimed + [At(s, id).rec], calls + [i], draws + [|actions|];
    DrawnLonger(actions, FetchAdd(id), s.claimed, calls, draws);
    var n := |s.claimed|;
    assert Drew(more, i, |actions|, At(s, id).rec);
    forall u | 0 <= u < |claimed| ensures Drew(more, cs[u], ds[u], claimed[u]) {
      assert u < n ==> Drew(more, calls[u], draws[u], s.claimed[u]);
    }
    forall u, v | 0 <= u < v < |claimed|
      ensures cs[u] != cs[v] && ds[u] < ds[v] && (more[ds[u]] == more[ds[v]] ==> ds[u] < cs[v])
    {
      assert Drew(actions, calls[u], draws[u], s.claimed[u]);
    }
  }

  lemma PendingLonger(actions: seq<Action>, a: Action, s: State, draws: seq<nat>, id: nat, i: nat)
    requires Pending(actions, s, draws, id, i) && Waits(Step(s, a), id) && At(Step(s, a), id).rec == At(s, id).rec
    requires forall u :: 0 <= u < |draws| ==> draws[u] < |actions|
    ensures Pending(actions + [a], Step(s, a), draws, id, i)
  {
    hide Step;
    hide Waits;
  }

  lemma DrawnBounds(actions: seq<Action>, claimed: seq<Rec>, calls: seq<nat>, draws: seq<nat>)
    requires Drawn(actions, claimed, calls, draws)
    ensures forall u :: 0 <= u < |draws| ==> draws[u] < |actions|
  {
    forall u | 0 <= u < |draws| ensures draws[u] < |actions| {
      assert Drew(actions, calls[u], draws[u], claimed[u]);
    }
  }

  /** Nobody draws a ticket in this step. */
  lemma TiedQuiet(data: seq<Rec>, actions: seq<Action>, a: Action, calls: seq<nat>, draws: seq<nat>, pending: map<nat, nat>)
    requires Tied(data, actions, calls, draws, pending)
    requires !(a.FetchAdd? && At(Run(Init(data), actions), a.id).Claim?)
    ensures Tied(data, actions + [a], calls, draws,
                 if Accepted(data, actions + [a], |actions|) then pending[a.id := |actions|] else pending)
  {
    hide Step;
    hide Run;
    hide Init;
    hide Drawn;
    hide Accepted;
    hide Waits;
    hide Pending;
    var s, more := Run(Init(data), actions), actions + [a];
    AcceptedSnoc(data, actions, a, |actions|);
    var s', p := Step(s, a), if Accepted(data, more, |actions|) then pending[a.id := |actions|] else pending;
    RunSnoc(Init(data), actions, a);
    HistoryStep(s, a);
    DrawnBounds(actions, s.claimed, calls, draws);
    DrawnLonger(actions, a, s.claimed, calls, draws);
    forall id: nat | Waits(s', id) ensures id in p && Pending(more, s', draws, id, p[id]) {
      WaitStep(s, a, id);
      if Accepted(data, more, |actions|) && a.id == id {
        PendingNew(actions, a, s', draws, id);
      } else {
        PendingLonger(actions, a, s, draws, id, pending[id]);
      }
    }
    forall i: nat | Accepted(data, more, i)
      ensures IsCall(more, i) && (i in calls || (Waits(s', more[i].id) && more[i].id in p && p[more[i].id] == i))
    {
      AcceptedSnoc(data, actions, a, i);
      AcceptedIs(data, more, i);
      WaitStep(s, a, more[i].id);
      WaitsIs(s, more[i].id);
      WaitsIs(s', more[i].id);
    }
  }

  ghost predicate IsCall(actions: seq<Action>, i: nat) {
    i < |actions| && actions[i].Call?
  }

  lemma AcceptedIs(data: seq<Rec>, actions: seq<Action>, i: nat)
    requires Accepted(data, actions, i)
    ensures IsCall(actions, i)
  {
  }

  lemma WaitsIs(s: State, id: nat)
    ensures At(s, id).Idle? ==> !Waits(s, id)
    ensures At(s, id).Blocked? ==> Waits(s, id)
    ensures At(s, id).Claim? ==> Waits(s, id)
  {
  }

  lemma PendingNew(actions: seq<Action>, a: Action, s': State, draws: seq<nat>, id: nat)
    requires a.Call? && a.id == id && At(s', id) == Blocked(a.rec) && forall u :: 0 <= u < |draws| ==> draws[u] < |actions|
    ensures Pending(actions + [a], s', draws, id, |actions|)
  {
  }

  /** Producer `id` draws a ticket in this step. */
  lemma TiedDraw(data: seq<Rec>, actions: seq<Action>, id: nat, calls: seq<nat>, draws: seq<nat>, pending: map<nat, nat>)
    requires Tied(data, actions, calls, draws, pending) && At(Run(Init(data), actions), id).Claim?
    ensures id in pending && Tied(data, actions + [FetchAdd(id)], calls + [pending[id]], draws + [|actions|], pending)
  {
    hide Step;
    hide Run;
    hide Init;
    hide Drawn;
    hide Accepted;
    hide Waits;
    hide Pending;
    var a := FetchAdd(id);
    var s, more := Run(Init(data), actions), actions + [a];
    WaitsIs(s, id);
    var s', cs, ds := Step(s, a), calls + [pending[id]], draws + [|actions|];
    RunSnoc(Init(data), actions, a);
    DrawStep(s, id);
    DrawnBounds(actions, s.claimed, calls, draws);
    DrawnMore(actions, s, id, pending[id], calls, draws);
    forall x: nat | Waits(s', x) ensures x in pending && Pending(more, s', ds, x, pending[x]) {
      WaitStep(s, a, x);
      PendingLonger(actions, a, s, draws, x, pending[x]);
      PendingDrawn(more, s', draws, id, x, pending[x]);
    }
    forall i: nat | Accepted(data, more, i)
      ensures IsCall(more, i) && (i in cs || (Waits(s', more[i].id) && more[i].id in pending && pending[more[i].id] == i))
    {
      AcceptedSnoc(data, actions, a, i);
      AcceptedIs(data, more, i);
      WaitStep(s, a, more[i].id);
    }
  }

  lemma DrawStep(s: State, id: nat)
    requires At(s, id).Claim?
    ensures Step(s, FetchAdd(id)).claimed == s.claimed + [At(s, id).rec]
  {
  }

  lemma PendingDrawn(more: seq<Action>, s': State, draws: seq<nat>, id: nat, x: nat, i: nat)
    requires Pending(more, s', draws, x, i) && x != id && |more| > 0 && more[|more| - 1] == FetchAdd(id)
    ensures Pending(more, s', draws + [|more| - 1], x, i)
  {
  }

  /** Every run ties its tickets to calls. */
  lemma {:induction false} TiedRun(data: seq<Rec>, actions: seq<Action>) returns (calls: seq<nat>, draws: seq<nat>, pending: map<nat, nat>)
    ensures Tied(data, actions, calls, draws, pending)
    decreases |actions|
  {
    if actions == [] {
      calls, draws, pending := [], [], map[];
    } else {
      hide Tied;
      hide Run;
      var rest, a := actions[..|actions| - 1], actions[|actions| - 1];
      assert actions == rest + [a];
      calls, draws, pending := TiedRun(data, rest);
      if a.FetchAdd? && At(Run(Init(data), rest), a.id).Claim? {
        TiedDraw(data, rest, a.id, calls, draws, pending);
        calls, draws := calls + [pending[a.id]], draws + [|rest|];
      } else {
        TiedQuiet(data, rest, a, calls, draws, pending);
        pending := if Accepted(data, actions, |rest|) then pending[a.id := |rest|] else pending;
      }
    }
  }

  /** Every call accepted has drawn a ticket, or its caller still waits with its record. */
  ghost predicate NoneLost(data: seq<Rec>, actions: seq<Action>, calls: seq<nat>) {
    forall i: nat :: Accepted(data, actions, i) ==>
      i in calls || At(Run(Init(data), actions), actions[i].id) in {Blocked(actions[i].rec), Claim(actions[i].rec)}
  }

  lemma TiedLosesNone(data: seq<Rec>, actions: seq<Action>, calls: seq<nat>, draws: seq<nat>, pending: map<nat, nat>)
    requires Tied(data, actions, calls, draws, pending)
    ensures Drawn(actions, Run(Init(data), actions).claimed, calls, draws) && NoneLost(data, actions, calls)
  {
    hide Run;
    hide Init;
    hide Drawn;
  }

  /**
    Under every interleaving, and however often the 32-bit tickets have wrapped, the records popped
    are those of the first calls published, in the order their tickets were drawn, each whole and
    once; a producer's own come in the order of its calls, and no call is lost.
   */
  lemma PoppedAreFirstPublished(data: seq<Rec>, actions: seq<Action>) returns (calls: seq<nat>, draws: seq<nat>)
    requires |data| == SLOTS && forall i :: 0 <= i < SLOTS ==> |data[i]| == WORDS
    ensures var s := Run(Init(data), actions);
            && Drawn(actions, s.claimed, calls, draws) && NoneLost(data, actions, calls)
            && 0 <= |s.popped| <= Published(s) <= |calls|
            && forall u :: 0 <= u < |s.popped| ==> Drew(actions, calls[u], draws[u], s.popped[u])
  {
    hide Inv;
    hide Step;
    hide Run;
    hide Tied;
    hide NoneLost;
    ghost var pending;
    InitInv(data);
    RunInv(Init(data), actions);
    calls, draws, pending := TiedRun(data, actions);
    TiedLosesNone(data, actions, calls, draws, pending);
    var s := Run(Init(data), actions);
    PrefixOf(s);
    forall u | 0 <= u < |s.popped| ensures Drew(actions, calls[u], draws[u], s.popped[u]) {
      assert s.popped[u] == s.claimed[u];
    }
  }

  lemma PrefixOf(s: State)
    requires Inv(s)
    ensures 0 <= Published(s) <= |s.claimed| && s.popped <= s.claimed[..Published(s)]
  {
    hide Slot;
    hide Flagged;
    assert Cleared(s) <= Published(s) by {
      FlaggedBounds(s);
    }
    assert s.claimed[..Published(s)][..|s.popped|] == s.claimed[..|s.popped|];
  }

  lemma FlaggedBounds(s: State)
    requires Flagged(s)
    ensures Cleared(s) <= Published(s) <= Cleared(s) + SLOTS
  {
  }

  /** When no push is under way and the consumer finds its slot empty, nothing published is left behind. */
  lemma NothingLeft(data: seq<Rec>, actions: seq<Action>)
    requires |data| == SLOTS && forall i :: 0 <= i < SLOTS ==> |data[i]| == WORDS
    ensures var s := Run(Init(data), actions);
            s.consumer.Poll? && !Flag(s, Slot(s.tail)) && !InFlight(Holder(s)) ==> s.popped == s.claimed
  {
    hide Inv;
    hide Step;
    hide Run;
    InitInv(data);
    RunInv(Init(data), actions);
    var s := Run(Init(data), actions);
    if s.consumer.Poll? && !Flag(s, Slot(s.tail)) && !InFlight(Holder(s)) {
      EmptySlot(s);
    }
  }

  lemma EmptySlot(s: State)
    requires Inv(s) && s.consumer.Poll? && !Flag(s, Slot(s.tail))
    ensures |s.popped| == Published(s) && s.popped == s.claimed[..|s.popped|]
    ensures !InFlight(Holder(s)) ==> s.popped == s.claimed
  {
    hide Slot;
    SlotOfTicket(|s.popped|);
  }

  /** In one step each history gains at most one record: the caller's own when it draws a ticket, or the slot's. */
  lemma HistoryStep(s: State, a: Action)
    ensures s.claimed <= Step(s, a).claimed && s.popped <= Step(s, a).popped
    ensures Step(s, a).claimed != s.claimed ==> a.FetchAdd? && At(s, a.id).Claim? && Step(s, a).claimed == s.claimed + [At(s, a.id).rec]
    ensures |Step(s, a).popped| <= |s.popped| + 1
  {
  }

  /** However a run goes on, the ticket order and the records popped so far stay as they are. */
  lemma {:induction false} HistoriesGrow(s: State, actions: seq<Action>, more: seq<Action>)
    ensures Run(s, actions).claimed <= Run(s, actions + more).claimed && Run(s, actions).popped <= Run(s, actions + more).popped
    ensures |Run(s, actions + more).popped| <= |Run(s, actions).popped| + |more|
    decreases |actions| + |more|
  {
    hide Step;
    if actions != [] {
      assert (actions + more)[1..] == actions[1..] + more;
      HistoriesGrow(Step(s, actions[0]), actions[1..], more);
    } else if more != [] {
      assert actions + more == more;
      HistoryStep(s, more[0]);
      HistoriesGrow(Step(s, more[0]), [], more[1..]);
      assert [] + more[1..] == more[1..];
    } else {
      assert actions + more == [];
    }
  }
}
