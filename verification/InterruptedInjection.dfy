/** Ctrl-C during an injection: what `restore_breakpoints` leaves at the stops of the stub. */
module InterruptedInjection {
  import opened Memory
  import opened Machine
  import opened Breakpoints
  import opened Detach
  import opened X86
  import opened Stub
  import opened Lockstep
  import opened HotSwap
  import opened LiveInjection

  /** Native memory, but what the injection has written outside the words of the breakpoints is still there. */
  ghost predicate LeftBehind(points: Points, native: Mem, m: Mem, r: Mem, f: iset<int>) {
    |r| == |m| == |native| &&
    forall x :: 0 <= x < |r| ==> r[x] == if x in f && !InWord(points, x) then m[x] else native[x]
  }

  lemma CoveredIffInWord(points: Points, order: seq<Word>, x: int)
    requires Walks(order, points.Keys)
    ensures Covered(order, x) <==> InWord(points, x)
  {
  }

  /** Breakpoints written back to memory that has changed in `f` since the overlay held. */
  lemma RestoreOverChange(s: Session, native: Mem, m: Mem, f: iset<int>, order: seq<Word>)
    requires Overlay(s, native) && SameBut(s.st.mem, m, f) && Walks(order, s.points.Keys)
    ensures AllMapped(m, s.points) && LeftBehind(s.points, native, m, RestoreWords(m, s.points, order), f)
  {
    RestoreCovers(m, native, s.points, order);
    forall x | 0 <= x < |m|
      ensures RestoreWords(m, s.points, order)[x] == if x in f && !InWord(s.points, x) then m[x] else native[x]
    {
      CoveredIffInWord(s.points, order, x);
      assert x in s.points ==> InWord(s.points, x);
    }
  }

  /** The target has stopped in the stub, and since the injection began only its own places have changed. */
  ghost predicate AtStop(c: Call, s: Session, t: State, off: nat, ws: seq<Word>, size: nat, f: iset<int>) {
    In(c, t, off, ws) && SameBut(s.st.mem, t.mem, Busy(c, size, f))
  }

  /**
   * At none of the stops does the handler leave the program in a state of its own: rip stays inside the
   * stub, and of all that the injection has written only the bytes in breakpoints' words are undone.
   */
  lemma DetachDuringInjection(c: Call, s: Session, native: Mem, t: State, off: nat, ws: seq<Word>, size: nat,
                              f: iset<int>, order: seq<Word>)
    requires Overlay(s, native) && AtStop(c, s, t, off, ws, size, f) && Walks(order, s.points.Keys)
    ensures AllMapped(t.mem, s.points)
    ensures var left := DetachState(t, s.points, false, order);
            && left.regs == t.regs && LeftBehind(s.points, native, t.mem, left.mem, Busy(c, size, f))
            && forall n: State :: !(c.base <= n.regs.rip < c.base + StubSize(c.which)) ==> left != n
  {
    RestoreOverChange(s, native, t.mem, Busy(c, size, f), order);
  }

  /** No breakpoint's word meets the stub's code or the words on its stack. */
  ghost predicate WordsMissStub(points: Points, c: Call, ws: seq<Word>) {
    WordsMiss(points, Range(c.base, StubSize(c.which)) + Range(c.sp - 8 * |ws|, 8 * |ws|))
  }

  lemma WordsUndisturbed(c: Call, m: Mem, r: Mem, ws: seq<Word>)
    requires Words(m, c.sp, ws) && |m| == |r|
    requires forall x :: 0 <= x < |m| && Within(x, c.sp - 8 * |ws|, 8 * |ws|) ==> r[x] == m[x]
    ensures Words(r, c.sp, ws)
  {
    forall x | 0 <= x < |m| && c.sp - 8 * |ws| <= x < c.sp
      ensures r[x] == m[x]
    {
      assert Within(x, c.sp - 8 * |ws|, 8 * |ws|);
    }
    WordsKept(m, r, c.sp, ws);
  }

  lemma Undisturbed(s: Session, native: Mem, m: Mem, f: iset<int>, order: seq<Word>, x: int)
    requires Overlay(s, native) && SameBut(s.st.mem, m, f) && Walks(order, s.points.Keys)
    requires AllMapped(m, s.points) && 0 <= x < |m| && !InWord(s.points, x)
    ensures RestoreWords(m, s.points, order)[x] == m[x]
  {
    RestoreOverChange(s, native, m, f, order);
    RestoreCovers(m, native, s.points, order);
    CoveredIffInWord(s.points, order, x);
  }

  lemma TextLeft(s: Session, native: Mem, w: World, m: Mem, f: iset<int>, order: seq<Word>)
    requires Overlay(s, native) && SameBut(s.st.mem, m, f) && Walks(order, s.points.Keys)
    requires AllMapped(m, s.points) && TextIntact(w, native) && TextIntact(w, m)
    ensures TextIntact(w, RestoreWords(m, s.points, order))
  {
    RestoreOverChange(s, native, m, f, order);
    var r := RestoreWords(m, s.points, order);
    forall a | a in w.text
      ensures CodeIntact(w, a, r)
    {
      assert CodeIntact(w, a, m) && CodeIntact(w, a, native);
      forall x | x in w.text[a]
        ensures 0 <= x < |r| && r[x] == w.text[a][x]
      {
        if !InWord(s.points, x) {
          Undisturbed(s, native, m, f, order, x);
        }
      }
    }
  }

  /** Away from the breakpoints the stub is still all there. */
  lemma StillInStub(c: Call, s: Session, native: Mem, t: State, off: nat, ws: seq<Word>, size: nat, f: iset<int>,
                    order: seq<Word>)
    requires Overlay(s, native) && AtStop(c, s, t, off, ws, size, f) && Walks(order, s.points.Keys)
    requires WordsMissStub(s.points, c, ws) && TextIntact(c.w, native) && |c.code| == StubSize(c.which)
    ensures AllMapped(t.mem, s.points) && In(c, DetachState(t, s.points, false, order), off, ws)
  {
    DetachDuringInjection(c, s, native, t, off, ws, size, f, order);
    var r := RestoreWords(t.mem, s.points, order);
    var mine := Range(c.base, StubSize(c.which)) + Range(c.sp - 8 * |ws|, 8 * |ws|);
    forall x | 0 <= x < |r| && x in mine
      ensures r[x] == t.mem[x]
    {
      Undisturbed(s, native, t.mem, Busy(c, size, f), order, x);
    }
    WordsUndisturbed(c, t.mem, r, ws);
    assert forall x :: c.base <= x < c.base + |c.code| ==> Within(x, c.base, StubSize(c.which));
    TextLeft(s, native, c.w, t.mem, Busy(c, size, f), order);
  }

  /**
   * There the detached target goes on with the injection, and runs into the next trap of the stub, for
   * which no debugger is left. From the first stop it gets there by dlopen of a buffer whose contents
   * the handler has not provided.
   */
  lemma DetachedAtFirstStop(c: Call, s: Session, native: Mem, t: State, ws: seq<Word>, dlopen: Word, size: nat,
                            f: iset<int>, order: seq<Word>)
    returns (e: State, u: State)
    requires Overlay(s, native) && AtStop(c, s, t, 17, ws + [dlopen], size, f) && Walks(order, s.points.Keys)
    requires Placed(c) && c.which == Inject && |ws| <= 2 && Callable(c.w, dlopen)
    requires WordsMissStub(s.points, c, ws + [dlopen]) && TextIntact(c.w, native)
    requires AllMapped(t.mem, s.points) ==> Good(c, DetachState(t, s.points, false, order), 6)
    ensures AllMapped(t.mem, s.points)
    ensures Stops(c, DetachState(t, s.points, false, order), 8, u, [e]) && In(c, u, 42, ws)
    ensures e.regs.rip == dlopen && Get(e, RDI) == Get(t, RAX)
  {
    StillInStub(c, s, native, t, 17, ws + [dlopen], size, f, order);
    e, u := SecondStop(c, DetachState(t, s.points, false, order), ws, dlopen);
  }

  /** From the second stop it gets there without any call. */
  lemma DetachedAtSecondStop(c: Call, s: Session, native: Mem, t: State, ws: seq<Word>, free: Word, size: nat,
                             f: iset<int>, order: seq<Word>)
    returns (u: State)
    requires Overlay(s, native) && AtStop(c, s, t, 42, ws + [free], size, f) && Walks(order, s.points.Keys)
    requires Placed(c) && c.which == Inject && |ws| <= 2
    requires WordsMissStub(s.points, c, ws + [free]) && TextIntact(c.w, native)
    ensures AllMapped(t.mem, s.points)
    ensures Stops(c, DetachState(t, s.points, false, order), 5, u, []) && In(c, u, 54, ws + [Get(t, RBX)])
  {
    StillInStub(c, s, native, t, 42, ws + [free], size, f, order);
    var left := DetachState(t, s.points, false, order);
    var below := Read64(left.mem, c.sp - 8 * |ws + [free]| - 8);
    OneWordMore(left.mem, c.sp, ws + [free]);
    u := ThirdStop(c, left, ws, free, below);
  }

  lemma OneWordMore(m: Mem, sp: int, ws: seq<Word>)
    requires Words(m, sp, ws) && Mapped(m, sp - 8 * |ws| - 8, 8)
    ensures Words(m, sp, ws + [Read64(m, sp - 8 * |ws| - 8)])
  {
  }
}
