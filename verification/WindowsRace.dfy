/**
  `rtcore_mmap` of `kernelmod/rtmain.c` step by step, for calls that run at the same time: it reads
  the cursor `G_MEM_OFF` three times and writes it once, without a lock.
 */
module WindowsRace {
  import opened Mmu

  /** How far a call has come: past the size check, its window placed, the cursor read for the update. */
  datatype Stage = Fresh | Checked | Placed(off: nat) | Loaded(off: nat, seen: nat) | Mapped(off: nat) | Failed

  datatype Call = Call(size: nat, stage: Stage)

  datatype State = State(cursor: nat, calls: seq<Call>)

  /** The next step of one call; `ok` is whether `remap_pfn_range` succeeds. */
  function Advance(s: State, c: Call, ok: bool): Stage {
    match c.stage
    case Fresh => if s.cursor + c.size > CODE_SIZE then Failed else Checked
    case Checked => Placed(s.cursor)
    case Placed(off) => if ok then Loaded(off, s.cursor) else Failed
    case Loaded(off, _) => Mapped(off)
    case Mapped(off) => Mapped(off)
    case Failed => Failed
  }

  function Next(s: State, i: nat, ok: bool): State
    requires i < |s.calls|
  {
    var c := s.calls[i];
    State(if c.stage.Loaded? then c.stage.seen + c.size else s.cursor, s.calls[i := c.(stage := Advance(s, c, ok))])
  }

  /** `trace` is a run: step `t` is by call `steps[t].0`. */
  ghost predicate Run(trace: seq<State>, steps: seq<(nat, bool)>) {
    && |trace| == |steps| + 1
    && trace[0].cursor == 0 && (forall i :: 0 <= i < |trace[0].calls| ==> trace[0].calls[i].stage == Fresh)
    && forall t :: 0 <= t < |steps| ==> steps[t].0 < |trace[t].calls| && trace[t + 1] == Next(trace[t], steps[t].0, steps[t].1)
  }

  predicate Inside(c: Call) {
    c.stage.Checked? || c.stage.Placed? || c.stage.Loaded?
  }

  /** At most one call is between its first read and its write of the cursor. */
  ghost predicate Serial(s: State) {
    forall i, j :: 0 <= i < |s.calls| && 0 <= j < |s.calls| && Inside(s.calls[i]) && Inside(s.calls[j]) ==> i == j
  }

  ghost predicate Apart(c: Call, d: Call) {
    c.stage.Mapped? && d.stage.Mapped? ==> c.stage.off + c.size <= d.stage.off || d.stage.off + d.size <= c.stage.off
  }

  ghost predicate Fits(c: Call, cursor: nat) {
    match c.stage
    case Fresh => true
    case Checked => cursor + c.size <= CODE_SIZE
    case Placed(off) => off == cursor && cursor + c.size <= CODE_SIZE
    case Loaded(off, seen) => off == seen == cursor && cursor + c.size <= CODE_SIZE
    case Mapped(off) => off + c.size <= cursor
    case Failed => true
  }

  ghost predicate Good(s: State) {
    && s.cursor <= CODE_SIZE
    && (forall i :: 0 <= i < |s.calls| ==> Fits(s.calls[i], s.cursor))
    && (forall i, j :: 0 <= i < j < |s.calls| ==> Apart(s.calls[i], s.calls[j]))
  }

  lemma StepGood(s: State, i: nat, ok: bool)
    requires Good(s) && Serial(s) && i < |s.calls|
    ensures Good(Next(s, i, ok))
  {
    var s' := Next(s, i, ok);
    forall j | 0 <= j < |s.calls| ensures Fits(s'.calls[j], s'.cursor) {
      assert Fits(s.calls[j], s.cursor) && Fits(s.calls[i], s.cursor);
    }
    forall j, k | 0 <= j < k < |s.calls| ensures Apart(s'.calls[j], s'.calls[k]) {
      assert Apart(s.calls[j], s.calls[k]) && Fits(s.calls[j], s.cursor) && Fits(s.calls[k], s.cursor);
    }
  }

  /** Calls that do not overlap in time get windows that do not overlap, inside the region. */
  lemma {:induction false} SerialWindowsApart(trace: seq<State>, steps: seq<(nat, bool)>, t: nat)
    requires Run(trace, steps) && t < |trace| && forall u :: 0 <= u < t ==> Serial(trace[u])
    ensures Good(trace[t])
  {
    if t > 0 {
      SerialWindowsApart(trace, steps, t - 1);
      StepGood(trace[t - 1], steps[t - 1].0, steps[t - 1].1);
      assert trace[t - 1 + 1] == Next(trace[t - 1], steps[t - 1].0, steps[t - 1].1);
    }
  }

  // ------------------------------------------------------------- two calls

  /** Step `v` places the window of call `i`. */
  ghost predicate Places(trace: seq<State>, steps: seq<(nat, bool)>, i: nat, v: nat) {
    v < |steps| && v < |trace| && steps[v].0 == i < |trace[v].calls| && trace[v].calls[i].stage.Checked?
  }

  /** Two calls of one or more bytes: the cursor moves when the first of them writes it. */
  ghost predicate Pair(s: State, a: nat, b: nat) {
    && |s.calls| == 2 && s.calls[0].size == a && s.calls[1].size == b
    && (!s.calls[0].stage.Mapped? && !s.calls[1].stage.Mapped? ==> s.cursor == 0)
    && (s.calls[0].stage.Mapped? && !s.calls[1].stage.Mapped? ==> s.cursor == a)
    && (s.calls[1].stage.Mapped? && !s.calls[0].stage.Mapped? ==> s.cursor == b)
    && (s.calls[0].stage.Loaded? && !s.calls[1].stage.Mapped? ==> s.calls[0].stage.seen == 0)
    && (s.calls[1].stage.Loaded? && !s.calls[0].stage.Mapped? ==> s.calls[1].stage.seen == 0)
  }

  lemma RunStep(trace: seq<State>, steps: seq<(nat, bool)>, t: nat)
    requires Run(trace, steps) && t < |steps|
    ensures steps[t].0 < |trace[t].calls| && trace[t + 1] == Next(trace[t], steps[t].0, steps[t].1)
  {
  }

  lemma {:induction false} StaysPair(trace: seq<State>, steps: seq<(nat, bool)>, t: nat, a: nat, b: nat)
    requires Run(trace, steps) && t < |trace| && |trace[0].calls| == 2 && trace[0].calls[0].size == a && trace[0].calls[1].size == b
    ensures Pair(trace[t], a, b)
  {
    hide Run;
    RunStarts(trace, steps);
    if t > 0 {
      StaysPair(trace, steps, t - 1, a, b);
      RunStep(trace, steps, t - 1);
    }
  }

  lemma RunStarts(trace: seq<State>, steps: seq<(nat, bool)>)
    requires Run(trace, steps)
    ensures |trace| == |steps| + 1 && trace[0].cursor == 0 && forall i :: 0 <= i < |trace[0].calls| ==> trace[0].calls[i].stage == Fresh
  {
  }

  /** Once placed, a window stays where it is; a call with a window was placed once, at the cursor of that time. */
  lemma {:induction false} PlacedThen(trace: seq<State>, steps: seq<(nat, bool)>, i: nat, t: nat) returns (v: nat)
    requires Run(trace, steps) && t < |trace| && i < |trace[0].calls|
    ensures |trace[t].calls| == |trace[0].calls|
    ensures trace[t].calls[i].stage.Mapped? || trace[t].calls[i].stage.Placed? || trace[t].calls[i].stage.Loaded? ==>
              v < t && Places(trace, steps, i, v) && trace[t].calls[i].stage.off == trace[v].cursor
    ensures trace[t].calls[i].stage.Fresh? || trace[t].calls[i].stage.Checked? ==> forall u :: 0 <= u < t ==> !Places(trace, steps, i, u)
    ensures forall u :: 0 <= u < t && Places(trace, steps, i, u) && !trace[t].calls[i].stage.Failed? ==> u == v
  {
    hide Run;
    RunStarts(trace, steps);
    v := 0;
    if t > 0 {
      v := PlacedThen(trace, steps, i, t - 1);
      RunStep(trace, steps, t - 1);
      if steps[t - 1].0 == i && trace[t - 1].calls[i].stage.Checked? {
        v := t - 1;
        assert Places(trace, steps, i, v);
      }
    }
  }

  /** A call that has its window keeps it. */
  lemma {:induction false} MappedStays(trace: seq<State>, steps: seq<(nat, bool)>, i: nat, t: nat, u: nat)
    requires Run(trace, steps) && t <= u < |trace| && i < |trace[t].calls| && trace[t].calls[i].stage.Mapped?
    ensures i < |trace[u].calls| && trace[u].calls[i].stage.Mapped?
    decreases u
  {
    hide Run;
    RunStarts(trace, steps);
    if t < u {
      MappedStays(trace, steps, i, t, u - 1);
      RunStep(trace, steps, u - 1);
    }
  }

  /** Call `i` placed its window when call `j` already had its own. */
  ghost predicate PlacedAfter(trace: seq<State>, steps: seq<(nat, bool)>, i: nat, j: nat) {
    exists v :: 0 <= v < |trace| && j < |trace[v].calls| && Places(trace, steps, i, v) && trace[v].calls[j].stage.Mapped?
  }

  /**
    Of two calls that got windows of one byte or more, the windows are apart exactly when one call
    placed its window after the other had finished; otherwise both start at the same address.
   */
  lemma PairApart(trace: seq<State>, steps: seq<(nat, bool)>)
    requires Run(trace, steps) && |trace[0].calls| == 2 && trace[0].calls[0].size > 0 && trace[0].calls[1].size > 0
    requires var s := trace[|steps|]; |s.calls| == 2 && s.calls[0].stage.Mapped? && s.calls[1].stage.Mapped?
    ensures var s := trace[|steps|];
            && (Apart(s.calls[0], s.calls[1]) <==> PlacedAfter(trace, steps, 0, 1) || PlacedAfter(trace, steps, 1, 0))
            && (!Apart(s.calls[0], s.calls[1]) ==> s.calls[0].stage.off == s.calls[1].stage.off)
  {
    hide Run;
    RunStarts(trace, steps);
    var t, a, b := |steps|, trace[0].calls[0].size, trace[0].calls[1].size;
    var v := PlacedThen(trace, steps, 0, t);
    var w := PlacedThen(trace, steps, 1, t);
    StaysPair(trace, steps, t, a, b);
    StaysPair(trace, steps, v, a, b);
    StaysPair(trace, steps, w, a, b);
    if trace[v].calls[1].stage.Mapped? {
      assert PlacedAfter(trace, steps, 0, 1);
      if w >= v {
        MappedStays(trace, steps, 1, v, w);
      }
      OnceUnmapped(trace, steps, 0, w, v);
    } else if trace[w].calls[0].stage.Mapped? {
      assert PlacedAfter(trace, steps, 1, 0);
      if v >= w {
        MappedStays(trace, steps, 0, w, v);
      }
      OnceUnmapped(trace, steps, 1, v, w);
    }
  }

  /** A call that is still to place its window had none before. */
  lemma OnceUnmapped(trace: seq<State>, steps: seq<(nat, bool)>, i: nat, u: nat, v: nat)
    requires Run(trace, steps) && Places(trace, steps, i, v) && u <= v && i < |trace[u].calls|
    ensures !trace[u].calls[i].stage.Mapped?
  {
    hide Run;
    if trace[u].calls[i].stage.Mapped? {
      RunStarts(trace, steps);
      MappedStays(trace, steps, i, u, v);
    }
  }

  /** Two calls of one page each that overlap in time get the same window. */
  lemma RaceSharesWindow() returns (trace: seq<State>, steps: seq<(nat, bool)>)
    ensures Run(trace, steps) && |trace| == 9 && trace[8] == State(4096, [Call(4096, Mapped(0)), Call(4096, Mapped(0))])
    ensures !Good(trace[8])
  {
    var s0 := State(0, [Call(4096, Fresh), Call(4096, Fresh)]);
    var s1 := Next(s0, 0, true);
    var s2 := Next(s1, 0, true);
    var s3 := Next(s2, 1, true);
    var s4 := Next(s3, 1, true);
    var s5 := Next(s4, 0, true);
    var s6 := Next(s5, 1, true);
    var s7 := Next(s6, 0, true);
    var s8 := Next(s7, 1, true);
    trace := [s0, s1, s2, s3, s4, s5, s6, s7, s8];
    steps := [(0, true), (0, true), (1, true), (1, true), (0, true), (1, true), (0, true), (1, true)];
    assert !Apart(s8.calls[0], s8.calls[1]);
  }
}
