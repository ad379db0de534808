/**
  The physical windows that `kernelmod/rtmain.c` hands to file descriptors, and the requests it
  sends for programs inside them; with the process maps built from those requests.
 */
module Windows {
  import opened Bits
  import opened PageFormat
  import opened Mmu
  import opened Tree

  /** What the driver records for a file descriptor. */
  datatype Context = Context(userBase: nat, userLen: nat, physBase: nat, firstOff: nat, mapped: bool)

  datatype Window = Window(phys: nat, len: nat)

  datatype Request = Request(pc: nat, progSize: nat, memReq: nat)

  datatype Status = Ok | Again | BadCall | Fault

  /** Windows follow each other without gaps from the start of the code region. */
  ghost predicate Laid(windows: seq<Window>, off: nat) {
    && off % PAGE_SIZE == 0 && off <= CODE_SIZE
    && (forall i :: 0 <= i < |windows| ==>
          windows[i].phys == CODE_0 + Total(windows[..i]) && windows[i].len % PAGE_SIZE == 0)
    && off == Total(windows)
  }

  ghost function Total(windows: seq<Window>): nat {
    if windows == [] then 0 else Total(windows[..|windows| - 1]) + windows[|windows| - 1].len
  }

  lemma {:induction false} TotalUpTo(windows: seq<Window>, i: nat)
    requires i < |windows|
    ensures Total(windows[..i]) + windows[i].len <= Total(windows)
    decreases |windows|
  {
    var n := |windows| - 1;
    if i < n {
      TotalUpTo(windows[..n], i);
      assert windows[..n][..i] == windows[..i];
    }
  }

  /** Windows are page-aligned, inside the code region, and disjoint. */
  lemma WindowsDisjoint(windows: seq<Window>, off: nat, i: nat, j: nat)
    requires Laid(windows, off) && i < j < |windows|
    ensures windows[i].phys + windows[i].len <= windows[j].phys
    ensures windows[i].phys % PAGE_SIZE == 0 && CODE_0 <= windows[i].phys && windows[j].phys + windows[j].len <= CODE_0 + CODE_SIZE
  {
    TotalUpTo(windows[..j], i);
    assert windows[..j][..i] == windows[..i];
    TotalUpTo(windows, j);
    WindowAligned(windows, off, i);
  }

  lemma WindowAligned(windows: seq<Window>, off: nat, i: nat)
    requires Laid(windows, off) && i < |windows|
    ensures windows[i].phys % PAGE_SIZE == 0 && windows[i].len % PAGE_SIZE == 0
    ensures CODE_0 <= windows[i].phys && windows[i].phys + windows[i].len <= CODE_0 + CODE_SIZE
  {
    TotalUpTo(windows, i);
    TotalAligned(windows[..i]);
  }

  lemma {:induction false} TotalAligned(windows: seq<Window>)
    requires forall i :: 0 <= i < |windows| ==> windows[i].len % PAGE_SIZE == 0
    ensures Total(windows) % PAGE_SIZE == 0
    decreases |windows|
  {
    if windows != [] {
      TotalAligned(windows[..|windows| - 1]);
    }
  }

  lemma LaidPush(windows: seq<Window>, off: nat, size: nat)
    requires Laid(windows, off) && size % PAGE_SIZE == 0 && off + size <= CODE_SIZE
    ensures Laid(windows + [Window(CODE_0 + off, size)], off + size)
  {
    var w := windows + [Window(CODE_0 + off, size)];
    assert w[..|windows|] == windows;
    forall i | 0 <= i < |windows| ensures w[..i] == windows[..i] {
    }
  }

  // ---------------------------------------------------------------- requests

  /** A request for a program that starts inside a window and ends with it. */
  ghost predicate InWindow(r: Request, w: Window) {
    w.phys <= r.pc < w.phys + w.len && r.pc + r.progSize == w.phys + w.len
  }

  /** A file descriptor's mapping is one of the windows. */
  ghost predicate Backs(windows: seq<Window>, c: Context) {
    c.mapped ==> c.firstOff == 0 && exists i :: 0 <= i < |windows| && windows[i] == Window(c.physBase, c.userLen)
  }

  /** The low window of a process map reaches only code frames of the request's own window. */
  lemma LowWindowInside(r: Request, w: Window, kernelEnd: nat, x: nat)
    requires InWindow(r, w) && w.phys % PAGE_SIZE == 0 && w.len % PAGE_SIZE == 0
    requires CODE_0 <= w.phys && w.phys + w.len <= CODE_0 + CODE_SIZE
    requires x < Ceil(Min(CODE_0, r.progSize))
    ensures var f := ProcessFrame(r.pc, r.progSize, kernelEnd, x);
            f == To(Floor(r.pc) + x, PTE_PROC_RWX) && w.phys <= f.pa < w.phys + w.len
  {
  }

  /** Process maps of requests in different windows never share a low-window frame, aligned entry or not. */
  lemma NoSharedFrame(windows: seq<Window>, off: nat, i: nat, j: nat, r: Request, s: Request, kernelEnd: nat, x: nat, y: nat)
    requires Laid(windows, off) && i < |windows| && j < |windows| && i != j
    requires InWindow(r, windows[i]) && InWindow(s, windows[j])
    requires x < Ceil(Min(CODE_0, r.progSize)) && y < Ceil(Min(CODE_0, s.progSize))
    ensures var f, g := ProcessFrame(r.pc, r.progSize, kernelEnd, x), ProcessFrame(s.pc, s.progSize, kernelEnd, y);
            f.To? && g.To? && f.pa / PAGE_SIZE != g.pa / PAGE_SIZE
  {
    hide Laid;
    hide InWindow;
    hide ProcessFrame;
    WindowAligned(windows, off, i);
    WindowAligned(windows, off, j);
    LowWindowInside(r, windows[i], kernelEnd, x);
    LowWindowInside(s, windows[j], kernelEnd, y);
    if i < j {
      WindowsDisjoint(windows, off, i, j);
    } else {
      WindowsDisjoint(windows, off, j, i);
    }
  }

  /** Some address of the process map built for `r` leads into window `w`. */
  ghost predicate Reaches(r: Request, kernelEnd: nat, w: Window) {
    exists x: nat :: x < VA_LIMIT && Into(ProcessFrame(r.pc, r.progSize, kernelEnd, x), w)
  }

  ghost predicate Into(f: Frame, w: Window) {
    f.To? && w.phys <= f.pa < w.phys + w.len
  }

  /**
    The whole map of a request in one window reaches another exactly when that other window starts
    below the end of the kernel part, which ends at the image or the kernel's end, whichever is first.
   */
  lemma ReachesWhen(windows: seq<Window>, off: nat, i: nat, j: nat, r: Request, kernelEnd: nat)
    requires Laid(windows, off) && i < |windows| && j < |windows| && i != j && windows[j].len > 0
    requires InWindow(r, windows[i])
    ensures Reaches(r, kernelEnd, windows[j]) <==> windows[j].phys < Ceil(Min(r.pc, kernelEnd))
  {
    hide Laid;
    var w := windows[j];
    WindowAligned(windows, off, i);
    WindowAligned(windows, off, j);
    if i < j {
      WindowsDisjoint(windows, off, i, j);
    } else {
      WindowsDisjoint(windows, off, j, i);
    }
    forall x: nat | x < VA_LIMIT && Into(ProcessFrame(r.pc, r.progSize, kernelEnd, x), w)
      ensures w.phys < Ceil(Min(r.pc, kernelEnd))
    {
      if x < Ceil(Min(CODE_0, r.progSize)) {
        LowWindowInside(r, windows[i], kernelEnd, x);
      }
    }
    if w.phys < Ceil(Min(r.pc, kernelEnd)) {
      assert Into(ProcessFrame(r.pc, r.progSize, kernelEnd, w.phys), w);
    }
  }

  /** A process starts at address 0; that is its entry point exactly when the entry is on a page boundary. */
  lemma ZeroIsEntry(r: Request, w: Window, kernelEnd: nat)
    requires InWindow(r, w)
    ensures ProcessFrame(r.pc, r.progSize, kernelEnd, 0) == To(r.pc, PTE_PROC_RWX) <==> r.pc % PAGE_SIZE == 0
  {
    assert Ceil(Min(CODE_0, r.progSize)) > 0;
  }

  datatype Event =
    | MmapCall(fd: nat, vmStart: nat, vmEnd: nat, remapOk: bool)
    | SchedCall(fd: nat, entry: nat, memReq: nat)

  /** What the driver knows: how much of the code region is handed out, what descriptors map, windows and requests. */
  datatype Book = Book(memOff: nat, contexts: map<nat, Context>, windows: seq<Window>, requests: seq<(Request, nat)>)

  ghost predicate Sound(b: Book) {
    && Laid(b.windows, b.memOff)
    && (forall fd :: fd in b.contexts ==> Backs(b.windows, b.contexts[fd]))
    && (forall k :: 0 <= k < |b.requests| ==>
          b.requests[k].1 < |b.windows| && InWindow(b.requests[k].0, b.windows[b.requests[k].1]))
  }

  /** A new window for descriptor `fd` right after the last, or the error, which changes nothing. */
  ghost predicate Mapped(b: Book, fd: nat, vmStart: nat, len: int, remapOk: bool, r: Status, b': Book) {
    && r == (if b.memOff + len > CODE_SIZE then BadCall else if !remapOk then Again else Ok)
    && (r != Ok ==> b' == b)
    && (r == Ok ==>
          && len >= 0 && b'.memOff == b.memOff + len && b'.requests == b.requests
          && b'.windows == b.windows + [Window(CODE_0 + b.memOff, len)]
          && b'.contexts == b.contexts[fd := Context(vmStart, len, CODE_0 + b.memOff, 0, true)])
  }

  /** What the driver answers to a request to run the program at user address `entry`. */
  ghost function Answer(b: Book, fd: nat, entry: nat): Status {
    if fd !in b.contexts || !b.contexts[fd].mapped then BadCall
    else
      var c := b.contexts[fd];
      if !(c.userBase <= entry < c.userBase + c.userLen) then Fault
      else if (c.physBase + (entry - c.userBase)) % 4 != 0 then BadCall
      else Ok
  }

  /**
    The request starts as far into the descriptor's window as `entry` into its mapping, and ends with
    it; an error changes nothing.
   */
  ghost predicate Sent(b: Book, fd: nat, entry: nat, memReq: nat, r: Status, b': Book) {
    && r == Answer(b, fd, entry)
    && (r != Ok ==> b' == b)
    && (r == Ok ==>
          exists w, req: Request ::
            && 0 <= w < |b.windows| && b'.requests == b.requests + [(req, w)] && b' == b.(requests := b'.requests)
            && fd in b.contexts && b.windows[w] == Window(b.contexts[fd].physBase, b.contexts[fd].userLen)
            && req.pc - b.windows[w].phys == entry - b.contexts[fd].userBase
            && req.pc + req.progSize == b.windows[w].phys + b.windows[w].len && req.memReq == memReq)
  }

  /** What one call does. */
  ghost predicate Did(b: Book, event: Event, r: Status, b': Book) {
    match event
    case MmapCall(fd, vmStart, vmEnd, remapOk) => Mapped(b, fd, vmStart, vmEnd - vmStart, remapOk, r, b')
    case SchedCall(fd, entry, memReq) => Sent(b, fd, entry, memReq, r, b')
  }

  /** A run of calls, with what each answers and the book before and after it. */
  ghost predicate Went(books: seq<Book>, events: seq<Event>, rs: seq<Status>) {
    && |books| == |rs| + 1 && |rs| <= |events| && (forall k :: 0 <= k < |books| ==> Sound(books[k]))
    && (forall j, k :: 0 <= j < k < |books| && k == j + 1 ==> Did(books[j], events[j], rs[j], books[k]))
  }

  lemma WentOn(books: seq<Book>, events: seq<Event>, rs: seq<Status>, r: Status, b: Book)
    requires Went(books, events, rs) && |rs| < |events| && Sound(b) && Did(books[|rs|], events[|rs|], r, b)
    ensures Went(books + [b], events, rs + [r])
  {
    hide Sound;
    hide Did;
  }

  /** A step only adds windows and requests. */
  lemma DidGrows(b: Book, event: Event, r: Status, b': Book)
    requires Did(b, event, r, b')
    ensures b.windows <= b'.windows && b.requests <= b'.requests
  {
  }

  lemma {:induction false} HistoryGrows(books: seq<Book>, events: seq<Event>, rs: seq<Status>, i: nat, j: nat)
    requires Went(books, events, rs) && i <= j < |books|
    ensures books[i].windows <= books[j].windows && books[i].requests <= books[j].requests
    decreases j
  {
    hide Sound;
    hide Did;
    if i < j {
      HistoryGrows(books, events, rs, i, j - 1);
      DidGrows(books[j - 1], events[j - 1], rs[j - 1], books[j]);
    }
  }

  /**
    At every point of a run, whenever they were sent: requests for different windows start programs
    whose low windows share no frame.
   */
  lemma RunKeepsApart(books: seq<Book>, events: seq<Event>, rs: seq<Status>, k: nat, a: nat, b: nat, kernelEnd: nat, x: nat, y: nat)
    requires Went(books, events, rs) && k < |books| && a < |books[k].requests| && b < |books[k].requests|
    requires books[k].requests[a].1 != books[k].requests[b].1
    requires x < Ceil(Min(CODE_0, books[k].requests[a].0.progSize)) && y < Ceil(Min(CODE_0, books[k].requests[b].0.progSize))
    ensures var r, s := books[k].requests[a].0, books[k].requests[b].0;
            var f, g := ProcessFrame(r.pc, r.progSize, kernelEnd, x), ProcessFrame(s.pc, s.progSize, kernelEnd, y);
            f.To? && g.To? && f.pa / PAGE_SIZE != g.pa / PAGE_SIZE
  {
    hide Did;
    hide Laid;
    hide InWindow;
    hide ProcessFrame;
    var t := books[k];
    assert Sound(t);
    NoSharedFrame(t.windows, t.memOff, t.requests[a].1, t.requests[b].1, t.requests[a].0, t.requests[b].0, kernelEnd, x, y);
  }

  class Driver {
    var memOff: nat
    var contexts: map<nat, Context>

    // All windows handed out, and all requests sent with the window each is for.
    ghost var windows: seq<Window>
    ghost var requests: seq<(Request, nat)>

    ghost function Books(): Book
      reads this
    {
      Book(memOff, contexts, windows, requests)
    }

    ghost predicate Valid()
      reads this
    {
      Sound(Books())
    }

    constructor ()
      ensures Valid() && windows == [] && requests == []
    {
      memOff, contexts := 0, map[];
      windows, requests := [], [];
    }

    /** `rtcore_mmap`; the kernel passes page-aligned user ranges, and `remap_pfn_range` may fail. */
    method Mmap(fd: nat, vmStart: nat, vmEnd: nat, remapOk: bool) returns (r: Status)
      requires Valid() && vmStart <= vmEnd < VA_LIMIT && vmStart % PAGE_SIZE == 0 && vmEnd % PAGE_SIZE == 0
      modifies this
      ensures Valid() && Mapped(old(Books()), fd, vmStart, vmEnd - vmStart, remapOk, r, Books())
    {
      hide Laid;
      hide InWindow;
      hide And;
      hide Pow2;
      var size := vmEnd - vmStart;
      var sz := memOff + size;
      if sz > CODE_SIZE {
        return BadCall;
      }
      var start := CODE_0 + memOff;
      var firstOff, physBase := And(start, PAGE_SIZE - 1), And(start, PAGE_MASK);
      Powers();
      AndLowMask(start, 12);
      CursorAligned(windows, memOff);
      PageMasked(start);
      if !remapOk {
        return Again;
      }
      contexts := contexts[fd := Context(vmStart, size, physBase, firstOff, true)];
      LaidPush(windows, memOff, size);
      memOff := memOff + size;
      windows := windows + [Window(start, size)];
      assert windows[|windows| - 1] == Window(physBase, size);
      BacksPush(old(windows), Window(start, size));
      return Ok;
    }

    /** `rtcore_sched_prog` up to the push: the request for a program at user address `entry`, or an error. */
    method SchedProg(fd: nat, entry: nat, memReq: nat) returns (r: Status, req: Request)
      requires Valid()
      modifies this
      ensures Valid() && Sent(old(Books()), fd, entry, memReq, r, Books())
      ensures r == Ok ==> |requests| > 0 && requests[|requests| - 1].0 == req
    {
      hide Laid;
      hide And;
      req := Request(0, 0, 0);
      if fd !in contexts || !contexts[fd].mapped {
        return BadCall, req;
      }
      var c := contexts[fd];
      if entry < c.userBase || entry >= c.userBase + c.userLen {
        return Fault, req;
      }
      var phys := c.physBase + (entry - c.userBase);
      LowBits(phys);
      if And(phys, 3) != 0 {
        return BadCall, req;
      }
      ghost var w :| 0 <= w < |windows| && windows[w] == Window(c.physBase, c.userLen);
      WindowAligned(windows, memOff, w);
      if phys < CODE_0 || phys >= CODE_0 + CODE_SIZE {
        assert false;  // the window lies in the region, so this check never fails
      }
      req := Request(phys, c.userLen - (entry - c.userBase), memReq);
      requests := requests + [(req, w)];
      return Ok, req;
    }

    /** Every sequence of calls goes through books related call by call, windows apart and requests inside theirs. */
    method Run(events: seq<Event>) returns (rs: seq<Status>, ghost books: seq<Book>)
      requires Valid()
      requires forall e :: e in events && e.MmapCall? ==>
                 e.vmStart <= e.vmEnd < VA_LIMIT && e.vmStart % PAGE_SIZE == 0 && e.vmEnd % PAGE_SIZE == 0
      modifies this
      ensures Valid() && |rs| == |events| && Went(books, events, rs) && books[0] == old(Books()) && books[|events|] == Books()
    {
      hide Sound;
      hide Mapped;
      hide Sent;
      rs, books := [], [Books()];
      for k := 0 to |events|
        invariant Valid() && |rs| == k && Went(books, events, rs) && books[0] == old(Books()) && books[k] == Books()
      {
        assert events[k] in events;
        var r: Status;
        match events[k] {
          case MmapCall(fd, vmStart, vmEnd, remapOk) =>
            r := Mmap(fd, vmStart, vmEnd, remapOk);
          case SchedCall(fd, entry, memReq) =>
            var req: Request;
            r, req := SchedProg(fd, entry, memReq);
        }
        WentOn(books, events, rs, r, Books());
        rs, books := rs + [r], books + [Books()];
      }
    }
  }

  lemma CursorAligned(windows: seq<Window>, off: nat)
    requires Laid(windows, off)
    ensures off % PAGE_SIZE == 0 && (CODE_0 + off) % PAGE_SIZE == 0 && off <= CODE_SIZE
  {
  }

  lemma BacksPush(windows: seq<Window>, w: Window)
    ensures forall c: Context :: Backs(windows, c) ==> Backs(windows + [w], c)
  {
    forall c: Context | Backs(windows, c) ensures Backs(windows + [w], c) {
      if c.mapped {
        var i :| 0 <= i < |windows| && windows[i] == Window(c.physBase, c.userLen);
        assert (windows + [w])[i] == Window(c.physBase, c.userLen);
      }
    }
  }
}
