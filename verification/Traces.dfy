/**
  Runs of `alloc`, `aligned_alloc`, `free` and `realloc` over the pointers the run holds: which block
  each call acts on, the bytes and the layout it leaves, and exactly which call is the first to leave
  lists that are wrong or a block too short for a free header.
 */
module Traces {
  import opened Ram
  import opened Blocks
  import opened Links
  import opened Layout
  import opened Soundness
  import opened Raw
  import opened Growth
  import opened Short
  import opened FreeStores
  import opened ShortFree
  import opened Alloc
  import opened Runs
  import opened Bits
  import opened Words

  /** One call, on the pointers held so far; `held[h]` is the `h`-th. */
  datatype Call =
    | Get(len: nat)
    | GetAligned(len: nat, e: nat)
    | Put(h: nat)
    | Resize(h: nat, size: nat)

  /** Memory, list head, layout and the pointers held. */
  datatype State = State(ram: seq<byte>, free: int, blocks: seq<Block>, held: seq<nat>)

  /** The arguments are of type `size_t`, and adding a header to the last two does not wrap. */
  ghost predicate Sized(call: Call) {
    match call
    case Get(len) => len < U64
    case GetAligned(len, e) => len + USED_HEADER + Pow2(e) <= U64
    case Put(_) => true
    case Resize(_, size) => size + USED_HEADER < U64
  }

  /** The pointers held are the live ones, each once. */
  ghost predicate Holds(bs: seq<Block>, held: seq<nat>) {
    (forall p :: p in held <==> p in Payloads(bs)) && (forall g, h :: 0 <= g < h < |held| ==> held[g] != held[h])
  }

  /** A `realloc` to fewer bytes than the block has; a run passes it over. */
  ghost predicate Shrinks(bs: seq<Block>, i: nat, size: nat) {
    i < |bs| && size + USED_HEADER < bs[i].size
  }

  ghost predicate Moves(bs: seq<Block>, i: nat, size: nat) {
    i < |bs| && !Shrinks(bs, i, size) && !InPlace(bs, i, size)
  }

  /**
    The block `i` that a call acts on, `|bs|` for none: the best fit, the aligned pick, or the block of
    the pointer; and the best fit `j` that a `realloc` moves to.
   */
  ghost predicate Acts(bs: seq<Block>, call: Call, held: seq<nat>, i: nat, j: nat) {
    match call
    case Get(len) => if NoneFits(bs, WithHeader(len)) then i == |bs| else IsBestFit(bs, i, WithHeader(len))
    case GetAligned(len, e) =>
      if NoneFitsAligned(bs, len + USED_HEADER, Pow2(e)) then i == |bs| else IsAlignedPick(bs, i, len + USED_HEADER, Pow2(e))
    case Put(h) => if h < |held| then LiveAt(bs, i) && PayloadOf(bs, i, held[h]) else i == |bs|
    case Resize(h, size) =>
      if h < |held| then
        && LiveAt(bs, i) && PayloadOf(bs, i, held[h])
        && if Moves(bs, i, size) && !NoneFits(bs, size + USED_HEADER) then MovesTo(bs, i, j, size + USED_HEADER) else j == |bs|
      else i == |bs|
  }

  /** The layout after the call. */
  ghost function After(bs: seq<Block>, call: Call, i: nat, j: nat): seq<Block> {
    if i >= |bs| then bs
    else
      match call
      case Get(len) => if WithHeader(len) <= bs[i].size then Carve(bs, i, WithHeader(len)) else bs
      case GetAligned(len, e) =>
        var gap, n := Gap(bs[i].addr, Pow2(e)), len + USED_HEADER;
        if gap + n <= bs[i].size then CarveAfter(bs, i, gap, n) else bs
      case Put(_) => Release(bs, i)
      case Resize(_, size) =>
        if Shrinks(bs, i, size) then bs
        else if InPlace(bs, i, size) then GrowLayout(bs, i, size)
        else if j < |bs| then MoveLayout(bs, i, j, size + USED_HEADER) else bs
  }

  /** The pointers held after the call. */
  ghost function NextHeld(bs: seq<Block>, call: Call, held: seq<nat>, i: nat, j: nat): seq<nat> {
    if i >= |bs| then held
    else
      match call
      case Get(_) => held + [bs[i].Payload()]
      case GetAligned(_, e) => held + [bs[i].Payload() + Gap(bs[i].addr, Pow2(e))]
      case Put(h) => if h < |held| then held[..h] + held[h + 1..] else held
      case Resize(h, size) => if h < |held| && Moves(bs, i, size) && j < |bs| then held[h := bs[j].Payload()] else held
  }

  /** The bytes and the list head after the call. */
  ghost function RawStep(pfreeNull: bool, end: nat, m: seq<byte>, free: int, bs: seq<Block>, call: Call, i: nat, j: nat): (seq<byte>, int) {
    if i >= |bs| then (m, free)
    else
      var b := bs[i].addr;
      match call
      case Get(len) => RawTake(m, free, end, b, WithHeader(len))
      case GetAligned(len, e) => var r := RawAligned(m, free, end, b, Gap(b, Pow2(e)), len + USED_HEADER); (r.0, r.1)
      case Put(_) => RawFree(m, free, end, b, pfreeNull)
      case Resize(_, size) =>
        if Shrinks(bs, i, size) then (m, free)
        else if InPlace(bs, i, size) then RawExtend(m, free, end, b, bs[i + 1].addr, size - PayloadSize(bs, i))
        else if j < |bs| then RawMove(m, free, end, b, bs[j].addr, size + USED_HEADER, PayloadSize(bs, i), pfreeNull)
        else (m, free)
  }

  /** The call leaves wrong lists, or a block too short for a free header. */
  ghost predicate Stops(pfreeNull: bool, bs: seq<Block>, call: Call, i: nat, j: nat) {
    i < |bs| &&
    match call
    case Get(len) => !CutsWhole(bs[i], WithHeader(len))
    case GetAligned(len, e) => !CutsLegally(bs[i], Gap(bs[i].addr, Pow2(e)), len + USED_HEADER)
    case Put(_) => !FreeSound(pfreeNull, bs, i)
    case Resize(_, size) =>
      && !Shrinks(bs, i, size)
      && if InPlace(bs, i, size) then !GrowsFine(bs, i, size) else j < |bs| && !MoveSound(pfreeNull, bs, i, j, size + USED_HEADER)
  }

  /** What is known of the memory a stopping call leaves. */
  ghost predicate LeftBehind(base: nat, end: nat, m: seq<byte>, free: int, bs: seq<Block>, call: Call, i: nat, j: nat) {
    match call
    case Get(len) =>
      i < |bs| && Cuts(bs, i, WithHeader(len)) && (Threaded(m, base, free, end, After(bs, call, i, j)) <==> CarvesRight(bs, i, WithHeader(len)))
    case GetAligned(len, e) => i < |bs| && CutsOver(m, free, base, end, bs, i, Gap(bs[i].addr, Pow2(e)), len + USED_HEADER)
    case Put(_) => !Representable(m, base, free, end)
    case Resize(_, size) =>
      if InPlace(bs, i, size) then !Lists(m, base, free, end, After(bs, call, i, j)) else !Representable(m, base, free, end)
  }

  /** One step of a run; `intact` tells whether the lists are right and every block has room for a free header. */
  ghost predicate Stepped(pfreeNull: bool, base: nat, end: nat, s: State, call: Call, i: nat, j: nat, s': State, intact: bool) {
    && Acts(s.blocks, call, s.held, i, j)
    && (s'.ram, s'.free) == RawStep(pfreeNull, end, s.ram, s.free, s.blocks, call, i, j)
    && s'.blocks == After(s.blocks, call, i, j) && s'.held == NextHeld(s.blocks, call, s.held, i, j)
    && (intact <==> !Stops(pfreeNull, s.blocks, call, i, j))
    && (intact ==> Lists(s'.ram, base, s'.free, end, s'.blocks) && Coalesced(s'.blocks) && Holds(s'.blocks, s'.held))
    && (!intact ==> LeftBehind(base, end, s'.ram, s'.free, s.blocks, call, i, j))
  }

  // ------------------------------------------------------------ pointers held

  lemma HeldMore(bs: seq<Block>, bs': seq<Block>, held: seq<nat>, p: nat)
    requires Holds(bs, held) && p !in Payloads(bs) && Payloads(bs') == Payloads(bs) + {p}
    ensures Holds(bs', held + [p])
  {
  }

  lemma HeldLess(bs: seq<Block>, bs': seq<Block>, held: seq<nat>, h: nat)
    requires Holds(bs, held) && h < |held| && Payloads(bs') == Payloads(bs) - {held[h]}
    ensures Holds(bs', held[..h] + held[h + 1..])
  {
    var rest := held[..h] + held[h + 1..];
    forall p ensures p in rest <==> p in Payloads(bs') {
      if p in held && p != held[h] {
        var g :| 0 <= g < |held| && held[g] == p;
        assert rest[if g < h then g else g - 1] == p;
      }
    }
  }

  lemma HeldMoved(bs: seq<Block>, bs': seq<Block>, held: seq<nat>, h: nat, q: nat)
    requires Holds(bs, held) && h < |held| && q !in Payloads(bs) && Payloads(bs') == Payloads(bs) + {q} - {held[h]}
    ensures Holds(bs', held[h := q])
  {
    var next := held[h := q];
    forall p ensures p in next <==> p in Payloads(bs') {
      if p in held && p != held[h] {
        var g :| 0 <= g < |held| && held[g] == p;
        assert next[g] == p;
      }
      if p == q {
        assert next[h] == q;
      }
    }
  }

  lemma HeldSame(bs: seq<Block>, bs': seq<Block>, held: seq<nat>)
    requires Holds(bs, held) && Payloads(bs') == Payloads(bs)
    ensures Holds(bs', held)
  {
  }

  lemma HeldBlock(bs: seq<Block>, held: seq<nat>, h: nat) returns (i: nat)
    requires Holds(bs, held) && h < |held|
    ensures i < |bs| && bs[i].used && bs[i].Payload() == held[h]
  {
    assert held[h] in held;
    i := PayloadBlock(bs, held[h]);
  }

  /** A moving `realloc` swaps one live pointer for another. */
  lemma PayloadsMoved(bs: seq<Block>, base: nat, end: nat, i: nat, j: nat, n: nat)
    requires Legal(bs, base, end) && MovesTo(bs, i, j, n) && CutsWhole(bs[j], n)
    ensures j < |bs| && Payloads(MoveLayout(bs, i, j, n)) == Payloads(bs) + {bs[j].Payload()} - {bs[i].Payload()}
  {
    hide Carve;
    hide Release;
    hide Legal;
    MoveUnfolds(true, bs, i, j, n);
    CarveMoves(bs, i, j, n);
    PayloadsCarved(bs, j, n);
    CarveLegal(bs, base, end, j, n);
    PayloadsReleased(Carve(bs, j, n), base, end, IndexAfterCarve(bs, i, j, n));
  }

  lemma NullSound(bs: seq<Block>, i: nat, j: nat, n: nat)
    requires MovesTo(bs, i, j, n)
    ensures MoveSound(true, bs, i, j, n)
  {
    MoveUnfolds(true, bs, i, j, n);
  }

  lemma GrownHolds(bs: seq<Block>, i: nat, size: nat, held: seq<nat>)
    requires Holds(bs, held) && InPlace(bs, i, size) && bs[i].used && bs[i].size <= size + USED_HEADER
    ensures Holds(GrowLayout(bs, i, size), held)
  {
    hide Grow;
    hide Payloads;
    var n: nat := size + USED_HEADER - bs[i].size;
    PayloadsGrown(bs, i, n);
    HeldSame(bs, Grow(bs, i, n), held);
  }

  lemma MovedHolds(bs: seq<Block>, base: nat, end: nat, i: nat, j: nat, n: nat, held: seq<nat>, h: nat)
    requires Legal(bs, base, end) && Holds(bs, held) && MovesTo(bs, i, j, n) && CutsWhole(bs[j], n)
    requires h < |held| && held[h] == bs[i].Payload()
    ensures j < |bs| && Holds(MoveLayout(bs, i, j, n), held[h := bs[j].Payload()])
  {
    hide MoveLayout;
    hide Payloads;
    PayloadsMoved(bs, base, end, i, j, n);
    FreeNotLive(bs, base, end, j, 0);
    HeldMoved(bs, MoveLayout(bs, i, j, n), held, h, bs[j].Payload());
  }

  lemma NothingHeld(bs: seq<Block>)
    requires |bs| == 1 && !bs[0].used
    ensures Holds(bs, [])
  {
  }

  lemma NothingLive(bs: seq<Block>)
    requires Holds(bs, [])
    ensures Live(bs) == {}
  {
    forall b | b in Live(bs) ensures false {
      var i :| 0 <= i < |bs| && bs[i] == b;
      PayloadIn(bs, i);
    }
  }

  // ------------------------------------------------------------------- the calls

  method DoGet(a: Allocator, len: nat, held: seq<nat>) returns (next: seq<nat>, intact: bool, ghost i: nat, ghost s: State)
    requires a.Valid() && Holds(a.blocks, held) && len < U64
    modifies a`ram, a`free, a`prev, a`next, a`used, a`nfree, a`pfree, a`blocks, a`ram0, a`keep
    ensures Stepped(a.pfreeNull, a.base, a.end, State(old(a.ram), old(a.free), old(a.blocks), held), Get(len), i, 0, s, intact)
    ensures s.ram == a.ram && s.free == a.free && (intact ==> a.Valid() && a.blocks == s.blocks && next == s.held)
  {
    hide Allocator.Valid;
    hide Representable;
    hide PayloadKept;
    hide OutsideKept;
    hide Carve;
    hide Holds;
    hide Payloads;
    hide Legal;
    hide NoneFits;
    hide IsBestFit;
    hide RawTake;
    hide Lists;
    hide Threaded;
    hide CarvesRight;
    hide Coalesced;
    ghost var bs, n := a.blocks, WithHeader(len);
    ValidLegal(a);
    LegalTiled(bs, a.base, a.end);
    var p: nat;
    var right: bool;
    p, intact, right, i := a.Malloc(len);
    next := held;
    if p == 0 {
      i := |bs|;
    } else {
      next := held + [p];
      BestIsSome(bs, i, n);
      if intact {
        Near(bs, a.base, a.end, i);
        FreeNotLive(bs, a.base, a.end, i, 0);
        PayloadsCarved(bs, i, n);
        HeldMore(bs, a.blocks, held, p);
      }
    }
    if intact {
      ValidLists(a);
      ValidLegal(a);
      LegalCoalesced(a.blocks, a.base, a.end);
    }
    s := State(a.ram, a.free, After(bs, Get(len), i, 0), NextHeld(bs, Get(len), held, i, 0));
  }

  method DoGetAligned(a: Allocator, len: nat, e: nat, held: seq<nat>) returns (next: seq<nat>, intact: bool, ghost i: nat, ghost s: State)
    requires a.Valid() && Holds(a.blocks, held) && len + USED_HEADER + Pow2(e) <= U64
    modifies a`ram, a`free, a`prev, a`next, a`used, a`nfree, a`pfree, a`blocks, a`ram0, a`keep
    ensures Stepped(a.pfreeNull, a.base, a.end, State(old(a.ram), old(a.free), old(a.blocks), held), GetAligned(len, e), i, 0, s, intact)
    ensures s.ram == a.ram && s.free == a.free && (intact ==> a.Valid() && a.blocks == s.blocks && next == s.held)
  {
    hide Allocator.Valid;
    hide PayloadKept;
    hide OutsideKept;
    hide CarveAfter;
    hide CutsLegally;
    hide CutsOver;
    hide Holds;
    hide Payloads;
    hide Legal;
    hide NoneFitsAligned;
    hide AlignedPick;
    hide RawAligned;
    hide Lists;
    hide Coalesced;
    ghost var bs, n := a.blocks, len + USED_HEADER;
    ValidLegal(a);
    LegalTiled(bs, a.base, a.end);
    var p: nat;
    p, intact, i := a.AlignedAlloc(len, Pow2(e), e);
    next := held;
    if p == 0 {
      i := |bs|;
    } else if intact {
      next := held + [p];
      ghost var gap := Gap(bs[i].addr, Pow2(e));
      FreeNotLive(bs, a.base, a.end, i, gap);
      PayloadsCarvedAfter(bs, i, gap, n);
      HeldMore(bs, a.blocks, held, p);
    }
    if intact {
      ValidLists(a);
      ValidLegal(a);
      LegalCoalesced(a.blocks, a.base, a.end);
    }
    s := State(a.ram, a.free, After(bs, GetAligned(len, e), i, 0), NextHeld(bs, GetAligned(len, e), held, i, 0));
  }

  method DoPut(a: Allocator, h: nat, held: seq<nat>) returns (next: seq<nat>, intact: bool, ghost i: nat, ghost s: State)
    requires a.Valid() && Holds(a.blocks, held)
    modifies a`ram, a`free, a`prev, a`next, a`used, a`nfree, a`pfree, a`blocks, a`ram0, a`keep
    ensures Stepped(a.pfreeNull, a.base, a.end, State(old(a.ram), old(a.free), old(a.blocks), held), Put(h), i, 0, s, intact)
    ensures s.ram == a.ram && s.free == a.free && (intact ==> a.Valid() && a.blocks == s.blocks && next == s.held)
    ensures !intact ==> !a.pfreeNull
  {
    hide Allocator.Valid;
    hide Representable;
    hide PayloadKept;
    hide OutsideKept;
    hide Release;
    hide Legal;
    hide Holds;
    hide Payloads;
    hide RawFree;
    hide Lists;
    hide Coalesced;
    ghost var bs := a.blocks;
    next, intact, i := held, true, |bs|;
    ValidLegal(a);
    if h < |held| {
      next := held[..h] + held[h + 1..];
      i := HeldBlock(bs, held, h);
      ValidSpan(a, i);
      var panic: bool;
      panic, intact := a.Free(held[h], i);
      if intact {
        PayloadsReleased(bs, a.base, a.end, i);
        HeldLess(bs, a.blocks, held, h);
      }
    }
    if intact {
      ValidLists(a);
      ValidLegal(a);
      LegalCoalesced(a.blocks, a.base, a.end);
    }
    s := State(a.ram, a.free, After(bs, Put(h), i, 0), NextHeld(bs, Put(h), held, i, 0));
  }

  method DoResize(a: Allocator, h: nat, size: nat, held: seq<nat>)
    returns (next: seq<nat>, intact: bool, ghost i: nat, ghost j: nat, ghost s: State)
    requires a.Valid() && Holds(a.blocks, held) && size + USED_HEADER < U64
    modifies a`ram, a`free, a`prev, a`next, a`used, a`nfree, a`pfree, a`blocks, a`ram0, a`keep
    ensures Stepped(a.pfreeNull, a.base, a.end, State(old(a.ram), old(a.free), old(a.blocks), held), Resize(h, size), i, j, s, intact)
    ensures s.ram == a.ram && s.free == a.free && (intact ==> a.Valid() && a.blocks == s.blocks && next == s.held)
    ensures !intact && !InPlace(old(a.blocks), i, size) ==> !a.pfreeNull
  {
    hide Allocator.Valid;
    hide Representable;
    hide PayloadKept;
    hide OutsideKept;
    hide Release;
    hide Legal;
    hide Holds;
    hide Payloads;
    hide Grow;
    hide MoveLayout;
    hide MoveSound;
    hide GrowsFine;
    hide Lists;
    hide Tiled;
    hide NoneFits;
    hide FreeSound;
    hide RawExtend;
    hide RawMove;
    hide Coalesced;
    ghost var bs, call := a.blocks, Resize(h, size);
    next, intact, i, j := held, true, |bs|, |bs|;
    ValidLegal(a);
    if h < |held| {
      next, intact, i, j := ResizeHeld(a, h, size, held);
    }
    if intact {
      ValidLists(a);
      ValidLegal(a);
      LegalCoalesced(a.blocks, a.base, a.end);
    }
    s := State(a.ram, a.free, After(bs, call, i, j), NextHeld(bs, call, held, i, j));
  }

  /** `realloc` of a pointer held. */
  method ResizeHeld(a: Allocator, h: nat, size: nat, held: seq<nat>) returns (next: seq<nat>, intact: bool, ghost i: nat, ghost j: nat)
    requires a.Valid() && Holds(a.blocks, held) && size + USED_HEADER < U64 && h < |held|
    modifies a`ram, a`free, a`prev, a`next, a`used, a`nfree, a`pfree, a`blocks, a`ram0, a`keep
    ensures var bs, call := old(a.blocks), Resize(h, size);
            && i < |bs| && Acts(bs, call, held, i, j) && (intact <==> !Stops(a.pfreeNull, bs, call, i, j))
            && (a.ram, a.free as int) == RawStep(a.pfreeNull, a.end, old(a.ram), old(a.free), bs, call, i, j)
            && (intact ==> a.Valid() && a.blocks == After(bs, call, i, j) && next == NextHeld(bs, call, held, i, j) && Holds(a.blocks, next))
            && (!intact ==> LeftBehind(a.base, a.end, a.ram, a.free, bs, call, i, j))
    ensures !intact && !InPlace(old(a.blocks), i, size) ==> !a.pfreeNull
  {
    hide Allocator.Valid;
    hide Representable;
    hide PayloadKept;
    hide OutsideKept;
    hide Release;
    hide Legal;
    hide Holds;
    hide Payloads;
    hide Grow;
    hide MoveLayout;
    hide MoveSound;
    hide GrowsFine;
    hide Lists;
    hide Tiled;
    hide NoneFits;
    hide FreeSound;
    hide RawExtend;
    hide RawMove;
    ghost var bs := a.blocks;
    var p := held[h];
    i := HeldBlock(bs, held, h);
    j := |bs|;
    ValidLegal(a);
    ValidSpan(a, i);
    ValidHeader(a, i);
    LegalTiled(bs, a.base, a.end);
    Near(bs, a.base, a.end, i);
    next, intact := held, true;
    if size < a.Next(p - USED_HEADER) - USED_HEADER {
      return;
    }
    var q: nat;
    var panic: bool;
    q, panic, intact, j := a.Realloc(p, size, i);
    if q != 0 {
      next := held[h := q];
    }
    if InPlace(bs, i, size) {
      j := |bs|;
      assert next == held;
      if intact {
        GrownHolds(bs, i, size, held);
      }
    } else if q == 0 {
      j := |bs|;
    } else if intact {
      MovedHolds(bs, a.base, a.end, i, j, size + USED_HEADER, held, h);
    } else {
      NullSound(bs, i, j, size + USED_HEADER);
    }
  }

  /** One call of a run. */
  method Step(a: Allocator, call: Call, held: seq<nat>) returns (next: seq<nat>, intact: bool, ghost i: nat, ghost j: nat, ghost s: State)
    requires a.Valid() && Holds(a.blocks, held) && Sized(call)
    modifies a`ram, a`free, a`prev, a`next, a`used, a`nfree, a`pfree, a`blocks, a`ram0, a`keep
    ensures Stepped(a.pfreeNull, a.base, a.end, State(old(a.ram), old(a.free), old(a.blocks), held), call, i, j, s, intact)
    ensures s.ram == a.ram && s.free == a.free && (intact ==> a.Valid() && a.blocks == s.blocks && next == s.held)
    ensures a.pfreeNull && (call.Put? || (call.Resize? && !InPlace(old(a.blocks), i, call.size))) ==> intact
  {
    hide Allocator.Valid;
    hide Stepped;
    hide Holds;
    hide InPlace;
    j := 0;
    match call {
      case Get(len) => next, intact, i, s := DoGet(a, len, held);
      case GetAligned(len, e) => next, intact, i, s := DoGetAligned(a, len, e, held);
      case Put(h) => next, intact, i, s := DoPut(a, h, held);
      case Resize(h, size) => next, intact, i, j, s := DoResize(a, h, size, held);
    }
  }

  // -------------------------------------------------------------------- runs

  ghost function Fresh(memory: seq<byte>, start: nat, size: nat): State {
    State(RawInit(memory, start, size), start, [Block(start, size, false)], [])
  }

  /**
    `t` is a run of the calls on a fresh arena, up to the first that is not intact: `t[k]` is the state
    before the `k`-th call, which acts on block `on[k].0` (and moves it to `on[k].1`).
   */
  ghost predicate Ran(memory: seq<byte>, start: nat, size: nat, pfreeNull: bool, calls: seq<Call>,
                      t: seq<State>, on: seq<(nat, nat)>, intact: bool) {
    && |t| == |on| + 1 && |on| <= |calls| && (if intact then |on| == |calls| else |on| > 0)
    && t[0] == Fresh(memory, start, size)
    && forall k :: 0 <= k < |on| ==> Stepped(pfreeNull, start, start + size, t[k], calls[k], on[k].0, on[k].1, t[k + 1], intact || k < |on| - 1)
  }

  /**
    Any run of calls on a fresh arena, stopped at the first that leaves wrong lists or a block too short
    for a free header.  With NULL on 0 that is never a `free`, nor a `realloc` that moves.
   */
  method Run(memory: seq<byte>, start: nat, size: nat, nullOnZero: bool, calls: seq<Call>)
    returns (a: Allocator, intact: bool, held: seq<nat>, ghost t: seq<State>, ghost on: seq<(nat, nat)>)
    requires 0 < start && FREE_HEADER <= size && size + FREE_HEADER <= U32 && start + size + FREE_HEADER <= |memory|
    requires forall k :: 0 <= k < |calls| ==> Sized(calls[k])
    ensures Ran(memory, start, size, nullOnZero, calls, t, on, intact)
    ensures a.base == start && a.end == start + size && a.ram == t[|on|].ram && a.free == t[|on|].free
    ensures intact ==> a.Valid() && a.blocks == t[|on|].blocks && held == t[|on|].held && Holds(a.blocks, held)
    ensures intact && held == [] ==> a.blocks == [Block(start, size, false)]
    ensures !intact && nullOnZero ==>
              !calls[|on| - 1].Put? && (calls[|on| - 1].Resize? ==> InPlace(t[|on| - 1].blocks, on[|on| - 1].0, calls[|on| - 1].size))
  {
    hide Allocator.Valid;
    hide OutsideKept;
    hide Legal;
    hide Stepped;
    hide Holds;
    hide Sized;
    hide InPlace;
    hide RawInit;
    a := new Allocator(memory, start, size, nullOnZero);
    NothingHeld(a.blocks);
    held, intact, t, on := [], true, [Fresh(memory, start, size)], [];
    var n := 0;
    while n < |calls| && intact
      invariant a.base == start && a.end == start + size && a.pfreeNull == nullOnZero && fresh(a)
      invariant n == |on| <= |calls| && |t| == n + 1 && t[0] == Fresh(memory, start, size) && (!intact ==> n > 0)
      invariant forall k :: 0 <= k < n ==> Stepped(nullOnZero, start, start + size, t[k], calls[k], on[k].0, on[k].1, t[k + 1], intact || k < n - 1)
      invariant a.ram == t[n].ram && a.free == t[n].free
      invariant intact ==> a.Valid() && a.blocks == t[n].blocks && held == t[n].held && Holds(a.blocks, held)
      invariant !intact && nullOnZero ==>
                  !calls[n - 1].Put? && (calls[n - 1].Resize? ==> InPlace(t[n - 1].blocks, on[n - 1].0, calls[n - 1].size))
      decreases |calls| - n
    {
      ghost var i, j, s;
      ghost var was := t[n];
      assert was == State(a.ram, a.free, a.blocks, held);
      held, intact, i, j, s := Step(a, calls[n], held);
      if intact {
        SteppedHolds(nullOnZero, start, start + size, was, calls[n], i, j, s);
      }
      t, on := t + [s], on + [(i, j)];
      n := n + 1;
    }
    if intact {
      ValidLegal(a);
      if held == [] {
        NothingLive(a.blocks);
        AllFree(a.blocks, start, start + size);
      }
    }
  }

  lemma SteppedHolds(pfreeNull: bool, base: nat, end: nat, s: State, call: Call, i: nat, j: nat, s': State)
    requires Stepped(pfreeNull, base, end, s, call, i, j, s', true)
    ensures Holds(s'.blocks, s'.held)
  {
  }

  /** Every shipped run that allocates once in a fresh arena, splitting it, and frees again stops there: no blocks fit the memory. */
  lemma FirstFreeBreaksLists(memory: seq<byte>, start: nat, size: nat, len: nat, t: seq<State>, on: seq<(nat, nat)>, intact: bool)
    requires Ran(memory, start, size, false, [Get(len), Put(0)], t, on, intact)
    requires 8 <= len && len + USED_HEADER + MIN_SPLIT <= size < U32
    ensures |on| == 2 && !intact && !Representable(t[2].ram, start, t[2].free, start + size)
  {
    hide Representable;
    hide Lists;
    hide RawStep;
    hide Holds;
    hide Carve;
    hide Release;
    hide Fresh;
    var calls, n := [Get(len), Put(0)], len + USED_HEADER;
    assert calls[0] == Get(len) && calls[1] == Put(0);
    FreshStart(memory, start, size);
    var bs := [Block(start, size, false)];
    SmallDifference(n, 0);
    assert t[0].blocks == bs && t[0].held == [];
    assert !bs[0].used && bs[0].size >= n;
    assert Stepped(false, start, start + size, t[0], calls[0], on[0].0, on[0].1, t[0 + 1], intact || 0 < |on| - 1);
    OnlyFit(bs, on[0].0, n);
    CarvedShape(bs, 0, n);
    assert |on| == 2;
    assert Stepped(false, start, start + size, t[1], calls[1], on[1].0, on[1].1, t[1 + 1], intact || 1 < |on| - 1);
    var c := Carve(bs, 0, n);
    assert t[1].blocks == c && t[1].held == [start + USED_HEADER];
    assert !c[1].used;
    assert on[1].0 == 0;
  }

  lemma FreshStart(memory: seq<byte>, start: nat, size: nat)
    ensures Fresh(memory, start, size).blocks == [Block(start, size, false)] && Fresh(memory, start, size).held == []
  {
  }

  lemma OnlyFit(bs: seq<Block>, i: nat, n: nat)
    requires |bs| == 1 && !bs[0].used && n <= bs[0].size
    ensures !NoneFits(bs, n) && (IsBestFit(bs, i, n) ==> i == 0)
  {
  }
}
