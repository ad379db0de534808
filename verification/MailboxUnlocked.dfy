/**
  What a push and a pop do when left alone, and why pushes need the mutex: without it a
  producer that laps the ring overtakes one that has not published yet.
 */
module MailboxUnlocked {
  import opened Mailbox
  import opened Words

  /** The mailbox with the mutex taken out. */
  function StepUnlocked(s: State, a: Action): State {
    match a
    case Lock(id) => if At(s, id).Blocked? then Moved(s, id, Claim(At(s, id).rec)) else s
    case _ => Step(s, a)
  }

  function RunUnlocked(s: State, actions: seq<Action>): State
    decreases |actions|
  {
    if actions == [] then s else RunUnlocked(StepUnlocked(s, actions[0]), actions[1..])
  }

  lemma {:induction false} RunJoin(s: State, a: seq<Action>, b: seq<Action>)
    ensures RunUnlocked(s, a + b) == RunUnlocked(RunUnlocked(s, a), b)
    decreases |a|
  {
    hide StepUnlocked;
    if a == [] {
      assert a + b == b;
    } else {
      assert (a + b)[1..] == a[1..] + b;
      RunJoin(StepUnlocked(s, a[0]), a[1..], b);
    }
  }

  lemma RunOne(s: State, a: Action)
    ensures RunUnlocked(s, [a]) == StepUnlocked(s, a)
  {
    assert RunUnlocked(StepUnlocked(s, a), []) == StepUnlocked(s, a);
  }

  // ------------------------------------------------------------------- solo

  ghost predicate Ring(s: State) {
    |s.flags| == |s.data| == SLOTS && forall i :: 0 <= i < SLOTS ==> |s.data[i]| == WORDS
  }

  /** Everything but the producers, the flags and the data is the same. */
  ghost predicate SameElse(s: State, s': State) {
    s' == s.(producers := s'.producers, flags := s'.flags, data := s'.data, consumer := s'.consumer)
  }

  ghost predicate Copying(s: State, s': State, id: nat, rec: Rec, t: nat, n: nat) {
    && Ring(s') && SameElse(s, s') && s'.flags == s.flags && s'.consumer == s.consumer && At(s', id) == Copy(rec, t, n)
    && n <= WORDS == |rec| && Data(s', Slot(t))[..n] == rec[..n]
  }

  function Copies(id: nat, n: nat): seq<Action> {
    if n == 0 then [] else Copies(id, n - 1) + [CopyWord(id)]
  }

  lemma {:induction false} CopyRun(s: State, id: nat, rec: Rec, t: nat, n: nat)
    requires Ring(s) && At(s, id) == Copy(rec, t, 0) && |rec| == WORDS && n <= WORDS
    ensures Copying(s, RunUnlocked(s, Copies(id, n)), id, rec, t, n)
    decreases n
  {
    hide Slot;
    if n > 0 {
      CopyRun(s, id, rec, t, n - 1);
      var s1 := RunUnlocked(s, Copies(id, n - 1));
      RunJoin(s, Copies(id, n - 1), [CopyWord(id)]);
      RunOne(s1, CopyWord(id));
      CopyOne(s, s1, id, rec, t, n - 1);
    }
  }

  lemma CopyOne(s: State, s1: State, id: nat, rec: Rec, t: nat, n: nat)
    requires Copying(s, s1, id, rec, t, n) && n < WORDS
    ensures Copying(s, StepUnlocked(s1, CopyWord(id)), id, rec, t, n + 1)
  {
    hide Slot;
    var s2 := StepUnlocked(s1, CopyWord(id));
    var d := Data(s1, Slot(t));
    assert Data(s2, Slot(t)) == d[n := rec[n]];
    assert d[n := rec[n]][..n + 1] == d[..n] + [rec[n]];
    assert rec[..n + 1] == rec[..n] + [rec[n]];
  }

  /** A producer with ticket `t` whose slot is empty, left alone. */
  function PushRest(id: nat): seq<Action> {
    [TestFlag(id)] + Copies(id, WORDS) + [CopyWord(id), SetFlag(id)]
  }

  /** Left alone, it puts its record into the slot and flags it, and nothing else in the ring changes. */
  lemma PushAlone(s: State, id: nat, rec: Rec, t: nat)
    requires Ring(s) && At(s, id) == Spin(rec, t) && |rec| == WORDS && !Flag(s, Slot(t))
    ensures var s' := RunUnlocked(s, PushRest(id));
            Ring(s') && SameElse(s, s') && s'.consumer == s.consumer && s'.flags == s.flags[Slot(t) := true] && Data(s', Slot(t)) == rec
  {
    hide Slot;
    hide RunUnlocked;
    var s1 := TestFlagStep(s, id);
    RunOne(s, TestFlag(id));
    CopyRun(s1, id, rec, t, WORDS);
    var s2 := RunUnlocked(s1, Copies(id, WORDS));
    RunJoin(s, [TestFlag(id)], Copies(id, WORDS));
    RunJoin(s, [TestFlag(id)] + Copies(id, WORDS), [CopyWord(id), SetFlag(id)]);
    assert Data(s2, Slot(t))[..WORDS] == Data(s2, Slot(t)) && rec[..WORDS] == rec;
    var s3 := CopyWordStep(s2, id);
    assert [CopyWord(id), SetFlag(id)] == [CopyWord(id)] + [SetFlag(id)];
    RunJoin(s2, [CopyWord(id)], [SetFlag(id)]);
    RunOne(s2, CopyWord(id));
    RunOne(s3, SetFlag(id));
  }

  function Reads(n: nat): seq<Action> {
    if n == 0 then [] else Reads(n - 1) + [ReadWord]
  }

  lemma {:induction false} ReadRun(s: State, t: nat, n: nat)
    requires Ring(s) && s.consumer == Fetch(t, []) && n <= WORDS
    ensures RunUnlocked(s, Reads(n)) == s.(consumer := Fetch(t, Data(s, Slot(t))[..n]))
    decreases n
  {
    hide Slot;
    if n == 0 {
      RunNone(s);
    } else {
      ReadRun(s, t, n - 1);
      var s1 := s.(consumer := Fetch(t, Data(s, Slot(t))[..n - 1]));
      RunJoin(s, Reads(n - 1), [ReadWord]);
      RunOne(s1, ReadWord);
      var d := Data(s, Slot(t));
      assert d[..n] == d[..n - 1] + [d[n - 1]];
      assert Data(s1, Slot(t)) == d;
    }
  }

  function PopAll(): seq<Action> {
    [TakeFlag] + Reads(WORDS) + [ReadWord, ClearFlag, BumpTail]
  }

  /** A pop left alone with a flagged slot returns the slot's record, clears the flag and moves on. */
  lemma PopAlone(s: State)
    requires Ring(s) && s.consumer.Poll? && Flag(s, Slot(s.tail))
    ensures RunUnlocked(s, PopAll()) ==
            s.(popped := s.popped + [Data(s, Slot(s.tail))], flags := s.flags[Slot(s.tail) := false], tail := (s.tail + 1) % U32)
  {
    hide Slot;
    hide RunUnlocked;
    var t := s.tail;
    var s1 := s.(consumer := Fetch(t, []));
    RunOne(s, TakeFlag);
    ReadRun(s1, t, WORDS);
    RunJoin(s, [TakeFlag], Reads(WORDS));
    RunJoin(s, [TakeFlag] + Reads(WORDS), [ReadWord, ClearFlag, BumpTail]);
    var r := Data(s, Slot(t));
    assert r[..WORDS] == r;
    var s2 := s.(consumer := Fetch(t, r));
    var s3 := s.(consumer := Clear(t, r));
    var s4 := s.(consumer := Advance(t, r), flags := s.flags[Slot(t) := false]);
    assert [ReadWord, ClearFlag, BumpTail] == [ReadWord] + [ClearFlag, BumpTail];
    assert [ClearFlag, BumpTail] == [ClearFlag] + [BumpTail];
    RunJoin(s2, [ReadWord], [ClearFlag, BumpTail]);
    RunOne(s2, ReadWord);
    RunJoin(s3, [ClearFlag], [BumpTail]);
    RunOne(s3, ClearFlag);
    RunOne(s4, BumpTail);
  }

  // ----------------------------------------------------------------- overtaken

  function Record(i: nat): Rec {
    [i, i, i, i]
  }

  function Records(n: nat): (r: seq<Rec>)
    ensures |r| == n && forall i :: 0 <= i < n ==> r[i] == Record(i)
  {
    seq(n, i requires 0 <= i => Record(i))
  }

  function Claims(n: nat): seq<Action> {
    if n == 0 then [] else Claims(n - 1) + [Call(n - 1, Record(n - 1)), Lock(n - 1), FetchAdd(n - 1)]
  }

  ghost predicate Claimed(s: State, data: seq<Rec>, n: nat) {
    && s.head == n && s.tail == 0 && s.flags == seq(SLOTS, _ => false) && s.data == data && s.consumer == Poll
    && s.claimed == Records(n) && s.popped == []
    && forall i: nat :: At(s, i) == if i < n then Spin(Record(i), i) else Idle
  }

  /** `n` producers draw a ticket each and stop there. */
  lemma {:induction false} AllClaim(data: seq<Rec>, n: nat)
    requires n <= SLOTS + 1
    ensures Claimed(RunUnlocked(Init(data), Claims(n)), data, n)
    decreases n
  {
    hide RunUnlocked;
    if n == 0 {
      RunNone(Init(data));
    } else {
      AllClaim(data, n - 1);
      var s := RunUnlocked(Init(data), Claims(n - 1));
      var id := n - 1;
      RunJoin(Init(data), Claims(n - 1), [Call(id, Record(id)), Lock(id), FetchAdd(id)]);
      ClaimOne(s, data, id);
    }
  }

  lemma RunNone(s: State)
    ensures RunUnlocked(s, []) == s
  {
  }

  lemma ClaimOne(s: State, data: seq<Rec>, id: nat)
    requires Claimed(s, data, id) && id <= SLOTS
    ensures Claimed(RunUnlocked(s, [Call(id, Record(id)), Lock(id), FetchAdd(id)]), data, id + 1)
  {
    hide RunUnlocked;
    var s1 := Moved(s, id, Blocked(Record(id)));
    var s2 := Moved(s1, id, Claim(Record(id)));
    var s3 := FetchAddStep(s2, id);
    assert [Call(id, Record(id)), Lock(id), FetchAdd(id)] == [Call(id, Record(id))] + [Lock(id), FetchAdd(id)];
    assert [Lock(id), FetchAdd(id)] == [Lock(id)] + [FetchAdd(id)];
    RunJoin(s, [Call(id, Record(id))], [Lock(id), FetchAdd(id)]);
    RunJoin(s1, [Lock(id)], [FetchAdd(id)]);
    RunOne(s, Call(id, Record(id)));
    RunOne(s1, Lock(id));
    RunOne(s2, FetchAdd(id));
    OthersStay(s, s1, id, Blocked(Record(id)));
    OthersStay(s1, s2, id, Claim(Record(id)));
    OthersStay(s2, s3, id, Spin(Record(id), id));
    assert Records(id + 1) == Records(id) + [Record(id)];
  }

  /**
    Without the mutex: 4097 producers draw tickets, the last one finds slot 0 empty because the
    first has not published, and the consumer is handed the last record first.
   */
  lemma MutexNeeded(data: seq<Rec>)
    requires |data| == SLOTS && forall i :: 0 <= i < SLOTS ==> |data[i]| == WORDS
    ensures var s := RunUnlocked(Init(data), Claims(SLOTS + 1) + PushRest(SLOTS) + PopAll());
            s.popped == [Record(SLOTS)] && |s.claimed| > 0 && s.claimed[0] == Record(0) && !(s.popped <= s.claimed)
  {
    hide RunUnlocked;
    hide PushRest;
    hide PopAll;
    hide Claims;
    AllClaim(data, SLOTS + 1);
    var s1 := RunUnlocked(Init(data), Claims(SLOTS + 1));
    PushAlone(s1, SLOTS, Record(SLOTS), SLOTS);
    var s2 := RunUnlocked(s1, PushRest(SLOTS));
    RunJoin(Init(data), Claims(SLOTS + 1), PushRest(SLOTS));
    PopAlone(s2);
    RunJoin(Init(data), Claims(SLOTS + 1) + PushRest(SLOTS), PopAll());
    assert Record(SLOTS)[0] != Record(0)[0];
  }
}
