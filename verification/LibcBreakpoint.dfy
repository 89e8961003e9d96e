/** What happens to an injection when a breakpoint stands inside the libc code that it runs. */
module LibcBreakpoint {
  import opened Memory
  import opened Machine
  import opened Breakpoints
  import opened X86
  import opened Stub
  import opened Lockstep
  import opened HotSwap

  /** The code of a routine is all there under traps exactly when none of them stands in it. */
  lemma CodeIntactIff(w: World, r: Word, native: Mem, keys: set<Word>)
    requires CodeIntact(w, r, native)
    ensures CodeIntact(w, r, Plant(native, keys)) <==> forall k :: k in keys && k in w.text[r] ==> w.text[r][k] == INT3
  {
    var m := Plant(native, keys);
    if CodeIntact(w, r, m) {
      forall k | k in keys && k in w.text[r]
        ensures w.text[r][k] == INT3
      {
        assert m[k] == w.text[r][k];
      }
    }
  }

  /**
   * The step of the processor while the code of routine `r` is not all there: that routine runs one
   * instruction at a time, and the others as wholes if theirs is.
   */
  function StepIn(w: World, r: Word, s: State): (t: State)
    ensures |t.mem| == |s.mem|
  {
    if w.Entry(s.regs.rip) && s.regs.rip != r && CodeIntact(w, s.regs.rip, s.mem) then w.routine.Do(s)
    else Instruction(w, s)
  }

  function Inside(w: World, r: Word, n: State, j: nat): (t: State)
    ensures |t.mem| == |n.mem|
    decreases j
  {
    if j == 0 then n else Inside(w, r, StepIn(w, r, n), j - 1)
  }

  /** The instruction at `n` is not the one at `k`, and a trap at `k` makes no difference to it. */
  ghost predicate Undisturbed(w: World, r: Word, k: Word, n: State) {
    n.regs.rip != k && !AtInt3(n) && StepIn(w, r, Planted(n, {k})) == Planted(StepIn(w, r, n), {k})
  }

  /** The run from `n` comes to `k` after `j` steps, and not before. */
  ghost predicate ComesTo(w: World, r: Word, k: Word, n: State, j: nat) {
    Inside(w, r, n, j).regs.rip == k && forall i :: 0 <= i < j ==> Undisturbed(w, r, k, Inside(w, r, n, i))
  }

  /** A byte of a routine's code that is no `int3`. */
  predicate InCode(w: World, r: Word, k: Word) {
    r in w.text && k in w.text[r] && w.text[r][k] != INT3
  }

  /** The target stops there: no instruction of the routine behind the trap is executed. */
  lemma {:induction false} StopsInside(isa: Isa, w: World, r: Word, k: Word, n: State, j: nat)
    requires Runs(isa, w) && InCode(w, r, k) && k < |n.mem| && ComesTo(w, r, k, n, j)
    ensures RunToTrap(isa, Planted(n, {k}), j) == Some(MoveRip(Planted(Inside(w, r, n, j), {k}), 1))
    decreases j
  {
    var p := Planted(n, {k});
    assert p.mem[k] == INT3;
    if j > 0 {
      assert Inside(w, r, n, 0) == n;
      assert Undisturbed(w, r, k, n);
      var next := StepIn(w, r, n);
      assert isa.Do(p) == Processor(w, p) == StepIn(w, r, p);
      forall i | 0 <= i < j - 1
        ensures Undisturbed(w, r, k, Inside(w, r, next, i))
      {
        assert Inside(w, r, next, i) == Inside(w, r, n, i + 1);
      }
      StopsInside(isa, w, r, k, next, j - 1);
    }
  }

  // ----- calls to which only some of the routines matter

  /** The same call on a processor to which the code of all routines but `rs` is like any other. */
  function Only(c: Call, rs: set<Word>): Call {
    var w := c.w.(text := map r | r in c.w.text && r in rs :: c.w.text[r]);
    c.(w := w, isa := Isa(s => Processor(w, s)))
  }

  lemma OnlyRuns(c: Call, rs: set<Word>)
    ensures Runs(Only(c, rs).isa, Only(c, rs).w)
  {
    forall s: State
      ensures Only(c, rs).isa.Do(s) == Processor(Only(c, rs).w, s)
    {
      assert Only(c, rs).isa.exec(s) == Processor(Only(c, rs).w, s);
    }
  }

  lemma OnlyIsPlaced(c: Call, rs: set<Word>)
    requires Placed(c)
    ensures Placed(Only(c, rs))
  {
    OnlyRuns(c, rs);
    forall a: Word | Only(c, rs).w.Entry(a)
      ensures !(c.base <= a < c.base + StubSize(c.which))
    {
      assert c.w.Entry(a);
    }
  }

  /** Where the two processors agree: anywhere but at the entry of a routine not in `rs`. */
  lemma SameStep(c: Call, rs: set<Word>, s: State)
    requires Runs(c.isa, c.w) && (c.w.Entry(s.regs.rip) ==> s.regs.rip in rs)
    ensures Only(c, rs).isa.Do(s) == c.isa.Do(s)
  {
    var w := Only(c, rs).w;
    OnlyRuns(c, rs);
    assert CodeIntact(w, s.regs.rip, s.mem) <==> s.regs.rip in rs && CodeIntact(c.w, s.regs.rip, s.mem);
    assert c.isa.Do(s) == Processor(c.w, s) == Processor(w, s) == Only(c, rs).isa.Do(s);
  }

  ghost predicate EntersOnly(es: seq<State>, rs: set<Word>) {
    forall e :: e in es ==> e.regs.rip in rs
  }

  lemma {:induction false} LeadsAsOnly(c: Call, rs: set<Word>, s: State, t: State, k: nat, es: seq<State>)
    requires Runs(c.isa, c.w) && LeadsTo(Only(c, rs), s, t, k, es) && EntersOnly(es, rs)
    ensures LeadsTo(c, s, t, k, es)
    decreases k
  {
    if k > 0 {
      if c.w.Entry(s.regs.rip) {
        assert es[0] in es;
        SameStep(c, rs, s);
        LeadsAsOnly(c, rs, c.isa.Do(s), t, k - 1, es[1..]);
      } else {
        SameStep(c, rs, s);
        LeadsAsOnly(c, rs, c.isa.Do(s), t, k - 1, es);
      }
    }
  }

  lemma {:induction false} SameEntered(c: Call, rs: set<Word>, states: seq<State>)
    ensures Entered(Only(c, rs).w, states) == Entered(c.w, states)
    decreases |states|
  {
    if states != [] {
      assert Only(c, rs).w.Entry(states[0].regs.rip) == c.w.Entry(states[0].regs.rip);
      SameEntered(c, rs, states[1..]);
    }
  }

  lemma {:induction false} SameRun(c: Call, rs: set<Word>, s: State, n: nat)
    requires Runs(c.isa, c.w) && RunToTrap(Only(c, rs).isa, s, n).Some?
    requires EntersOnly(Entered(c.w, RunStates(Only(c, rs).isa, s, n)), rs)
    ensures RunToTrap(c.isa, s, n) == RunToTrap(Only(c, rs).isa, s, n)
    ensures RunStates(c.isa, s, n) == RunStates(Only(c, rs).isa, s, n)
    decreases n
  {
    if !AtInt3(s) {
      var next := Only(c, rs).isa.Do(s);
      var more := RunStates(Only(c, rs).isa, next, n - 1);
      EnteredFirst(c.w, s, more);
      if c.w.Entry(s.regs.rip) {
        assert ([s] + Entered(c.w, more))[0] in [s] + Entered(c.w, more);
      }
      SameStep(c, rs, s);
      SameRun(c, rs, next, n - 1);
    }
  }

  /** A run that enters only such routines stops at the same place. */
  lemma StopsAsOnly(c: Call, rs: set<Word>, s: State, n: nat, t: State, es: seq<State>)
    requires Runs(c.isa, c.w) && Stops(Only(c, rs), s, n, t, es) && EntersOnly(es, rs)
    ensures Stops(c, s, n, t, es)
  {
    SameEntered(c, rs, RunStates(Only(c, rs).isa, s, n));
    SameRun(c, rs, s, n);
  }

  lemma {:induction false} LeadsAhead(c: Call, s: State, t: State, k: nat)
    requires LeadsTo(c, s, t, k, [])
    ensures t == Ahead(c.isa, s, k)
    decreases k
  {
    if k > 0 {
      LeadsAhead(c, c.isa.Do(s), t, k - 1);
    }
  }

  lemma {:induction false} PrefixToTrap(c: Call, s: State, t: State, k: nat, j: nat, u: State)
    requires LeadsTo(c, s, t, k, []) && RunToTrap(c.isa, t, j) == Some(u)
    ensures RunToTrap(c.isa, s, k + j) == Some(u)
    decreases k
  {
    if k > 0 {
      PrefixToTrap(c, c.isa.Do(s), t, k - 1, j, u);
    }
  }

  // ----- the state in which a routine is entered

  /** The state with the byte that the trap at `k` replaces. */
  function Lifted(w: World, r: Word, k: Word, e: State): State
    requires InCode(w, r, k) && k < |e.mem|
  {
    e.(mem := e.mem[k := w.text[r][k]])
  }

  /** A trap at `k` is all that is wrong with the code of routine `r`. */
  predicate TrappedAt(w: World, r: Word, k: Word, m: Mem) {
    InCode(w, r, k) && k < |m| && m[k] == INT3 && CodeIntact(w, r, m[k := w.text[r][k]])
  }

  lemma StillTrapped(c: Call, r: Word, k: Word, m: Mem, n: Mem)
    requires Placed(c) && TrappedAt(c.w, r, k, m) && SameOutside(m, n, c.room, c.sp)
    ensures TrappedAt(c.w, r, k, n)
  {
    var fixed := m[k := c.w.text[r][k]];
    forall x | x in c.w.text[r]
      ensures 0 <= x < |n| && (x != k ==> n[x] == c.w.text[r][x])
    {
      assert 0 <= x < |fixed| && fixed[x] == c.w.text[r][x];
      assert r in c.w.text && x !in c.room.owned;
    }
  }

  lemma LiftAndPlant(w: World, r: Word, k: Word, e: State)
    requires TrappedAt(w, r, k, e.mem)
    ensures e == Planted(Lifted(w, r, k, e), {k})
  {
    assert Plant(Lifted(w, r, k, e).mem, {k}) == e.mem;
  }

  lemma NotTheStubsStop(c: Call, r: Word, k: Word)
    requires Placed(c) && c.which == Inject && InCode(c.w, r, k)
    ensures Add64(k, 1) != c.base + 17 && Add64(k, 1) != c.base + 42
  {
    var x: int := k;
    assert r in c.w.text && x in c.w.text[r];
    assert x !in c.room.owned;
    assert !(c.base <= x < c.base + StubSize(Inject));
  }

  /** The run from `s` comes to `r` after `i` instructions, which have changed only the stack. */
  ghost predicate Reaches(c: Call, s: State, i: nat, r: Word) {
    var e := Ahead(c.isa, s, i);
    LeadsTo(c, s, e, i, []) && e.regs.rip == r && StackOnly(s.mem, e.mem, c.room, c.sp)
  }

  /** The run from `s` enters `r` after `i` instructions, in the state it would have without the trap at `k`. */
  ghost predicate EntersUnderTrap(c: Call, s: State, i: nat, r: Word, k: Word, n: State)
    requires InCode(c.w, r, k)
  {
    && k < |s.mem| && n == Lifted(c.w, r, k, Ahead(c.isa, s, i)) && n.regs.rip == r && CodeIntact(c.w, r, n.mem)
    && LeadsTo(c, s, Planted(n, {k}), i, [])
  }

  /**
   * It stops in `t`, one byte into the instruction at `k`, with the registers that the routine has there
   * after `j` instructions; that is none of the stub's own stops.
   */
  ghost predicate StopsAtTrap(c: Call, s: State, i: nat, r: Word, k: Word, j: nat, n: State, t: State) {
    && RunToTrap(c.isa, s, i + j) == Some(t) && t == MoveRip(Planted(Inside(c.w, r, n, j), {k}), 1)
    && t.regs.rip == Add64(k, 1) && Get(t, RAX) == Get(Inside(c.w, r, n, j), RAX)
    && t.regs.rip != c.base + 17 && t.regs.rip != c.base + 42
  }

  /** The run that enters a routine after `i` instructions comes to `k` after `j` more steps. */
  lemma StopsBehindEntry(c: Call, s: State, i: nat, r: Word, k: Word, j: nat) returns (n: State, t: State)
    requires Placed(c) && c.which == Inject && TrappedAt(c.w, r, k, s.mem)
    requires Reaches(c, s, i, r)
    requires ComesTo(c.w, r, k, Lifted(c.w, r, k, Ahead(c.isa, s, i)), j)
    ensures EntersUnderTrap(c, s, i, r, k, n) && StopsAtTrap(c, s, i, r, k, j, n, t)
  {
    var e := Ahead(c.isa, s, i);
    StillTrapped(c, r, k, s.mem, e.mem);
    LiftAndPlant(c.w, r, k, e);
    n := Lifted(c.w, r, k, e);
    StopsInside(c.isa, c.w, r, k, n, j);
    t := MoveRip(Planted(Inside(c.w, r, n, j), {k}), 1);
    PrefixToTrap(c, s, e, i, j, t);
    NotTheStubsStop(c, r, k);
  }

  // ----- the stub, installed under a trap

  /** The stub installed over memory with an armed breakpoint in the code of routine `r`, and about to run. */
  lemma InstalledUnderTrap(c: Call, native: Mem, code: seq<Byte>, ret: nat, s: State, off: nat, r: Word, k: Word,
                           rs: set<Word>)
    requires Placed(c) && c.which == Inject && c.code == INJECT && Compiled(code, ret, Inject) && |native| == c.len
    requires Mapped(native, c.base, |code|) && TextIntact(c.w, native)
    requires forall a, x :: a in c.w.text && x in c.w.text[a] ==> !(c.base <= x < c.base + |code|)
    requires InCode(c.w, r, k) && forall a :: a in c.w.text && a in rs ==> k !in c.w.text[a]
    requires s.mem == WriteBytes(Plant(native, {k}), c.base, NewCode(code, ret))
    requires (off == 0 || off == 1) && s.regs.rip == c.base + off && Get(s, RSP) == c.sp
    ensures In(Only(c, rs), s, off, []) && TrappedAt(c.w, r, k, s.mem)
  {
    var m := Plant(native, {k});
    OnlyIsPlaced(c, rs);
    forall a | a in Only(c, rs).w.text
      ensures CodeIntact(Only(c, rs).w, a, m)
    {
      assert CodeIntact(c.w, a, native);
    }
    Installed(Only(c, rs), m, code, ret, s, off, []);
    TrappedUnderStub(c, native, code, ret, r, k);
  }

  lemma TrappedUnderStub(c: Call, native: Mem, code: seq<Byte>, ret: nat, r: Word, k: Word)
    requires |code| > 0 && ret < |code| && Mapped(native, c.base, |code|)
    requires CodeIntact(c.w, r, native) && InCode(c.w, r, k)
    requires forall x :: x in c.w.text[r] ==> !(c.base <= x < c.base + |code|)
    ensures TrappedAt(c.w, r, k, WriteBytes(Plant(native, {k}), c.base, NewCode(code, ret)))
  {
  }

  // ----- malloc

  lemma EntersMalloc(c: Call, s: State, off: nat, i: nat, rs: set<Word>)
    requires Placed(c) && c.which == Inject && In(Only(c, rs), s, off, []) && (off == 0 || off == 1) && i == 7 - off
    ensures Reaches(c, s, i, Get(s, RDI)) && Ahead(Only(c, rs).isa, s, i) == Ahead(c.isa, s, i)
  {
    OnlyIsPlaced(c, rs);
    var e := ReachMallocFrom(Only(c, rs), s, off);
    LeadsAhead(Only(c, rs), s, e, i);
    LeadsAsOnly(c, rs, s, e, i, []);
    LeadsAhead(c, s, e, i);
  }

  lemma StopsInMalloc(c: Call, s: State, off: nat, i: nat, r: Word, k: Word, j: nat) returns (n: State, t: State)
    requires Placed(c) && c.which == Inject && In(Only(c, {}), s, off, []) && (off == 0 || off == 1) && i == 7 - off
    requires TrappedAt(c.w, r, k, s.mem) && Get(s, RDI) == r
    requires ComesTo(c.w, r, k, Lifted(c.w, r, k, Ahead(c.isa, s, i)), j)
    ensures EntersUnderTrap(c, s, i, r, k, n) && StopsAtTrap(c, s, i, r, k, j, n, t)
  {
    EntersMalloc(c, s, off, i, {});
    n, t := StopsBehindEntry(c, s, i, r, k, j);
  }

  /**
   * A breakpoint at `k`, which malloc comes to `j` steps after it is entered. The first stop of the
   * injected stub is then not its own `int3`: the target stands one byte into the instruction at `k`, and
   * the rax that `pdlopen` takes for the buffer is the one of that moment.
   */
  lemma BreakpointInMalloc(c: Call, s: State, off: nat, k: Word, j: nat) returns (n: State, t: State)
    requires Placed(c) && c.which == Inject && In(Only(c, {}), s, off, []) && (off == 0 || off == 1)
    requires TrappedAt(c.w, c.w.mallocAddr, k, s.mem) && Get(s, RDI) == c.w.mallocAddr
    requires ComesTo(c.w, c.w.mallocAddr, k, Lifted(c.w, c.w.mallocAddr, k, Ahead(c.isa, s, 7 - off)), j)
    ensures EntersUnderTrap(c, s, 7 - off, c.w.mallocAddr, k, n)
    ensures StopsAtTrap(c, s, 7 - off, c.w.mallocAddr, k, j, n, t)
  {
    n, t := StopsInMalloc(c, s, off, 7 - off, c.w.mallocAddr, k, j);
  }

  // ----- dlopen

  lemma SameGood(c: Call, rs: set<Word>, s: State, k: nat)
    requires Ahead(Only(c, rs).isa, s, k) == Ahead(c.isa, s, k) && Good(c, s, k)
    ensures Good(Only(c, rs), s, k)
  {
  }

  /** With the trap elsewhere malloc runs and returns as ever. */
  lemma MallocBesideTrap(c: Call, s: State, off: nat) returns (e: State, t: State, ws: seq<Word>)
    requires Placed(c) && c.which == Inject && In(Only(c, {c.w.mallocAddr}), s, off, []) && (off == 0 || off == 1)
    requires Callable(c.w, c.w.mallocAddr) && Get(s, RDI) == c.w.mallocAddr && Good(c, s, 7 - off)
    ensures Stops(c, s, 9, t, [e]) && e.regs.rip == c.w.mallocAddr && |ws| <= 1
    ensures In(Only(c, {c.w.mallocAddr}), t, 17, ws + [Get(s, RSI)] + [Get(s, RDX)])
    ensures SameOutside(s.mem, t.mem, c.room, c.sp)
  {
    var rs := {c.w.mallocAddr};
    OnlyIsPlaced(c, rs);
    EntersMalloc(c, s, off, 7 - off, rs);
    SameGood(c, rs, s, 7 - off);
    e, t, ws := StopOne(Only(c, rs), s, off);
    EntersOne(e);
    StopsAsOnly(c, rs, s, 9, t, [e]);
  }

  lemma EntersOne(e: State)
    ensures EntersOnly([e], {e.regs.rip})
  {
  }

  lemma EntersDlopen(c: Call, s: State, ws: seq<Word>, rs: set<Word>)
    requires Placed(c) && c.which == Inject && In(Only(c, rs), s, 17, ws + [c.w.dlopenAddr]) && |ws| <= 2
    ensures Reaches(c, s, 6, c.w.dlopenAddr)
  {
    OnlyIsPlaced(c, rs);
    var e := ReachDlopen(Only(c, rs), s, ws, c.w.dlopenAddr);
    LeadsAsOnly(c, rs, s, e, 6, []);
    LeadsAhead(c, s, e, 6);
  }

  lemma StoreKeepsTrap(c: Call, r: Word, k: Word, m: Mem, a: int, d: seq<Byte>)
    requires TrappedAt(c.w, r, k, m) && Mapped(m, a, |d|) && Clear(c, a, |d|)
    ensures TrappedAt(c.w, r, k, WriteBytes(m, a, d))
  {
  }

  /** From the first stop on, with the path stored. */
  lemma StopsInDlopen(c: Call, s: State, ws: seq<Word>, k: Word, j: nat, rs: set<Word>) returns (n: State, t: State)
    requires Placed(c) && c.which == Inject && In(Only(c, rs), s, 17, ws + [c.w.dlopenAddr]) && |ws| <= 2
    requires TrappedAt(c.w, c.w.dlopenAddr, k, s.mem)
    requires ComesTo(c.w, c.w.dlopenAddr, k, Lifted(c.w, c.w.dlopenAddr, k, Ahead(c.isa, s, 6)), j)
    ensures EntersUnderTrap(c, s, 6, c.w.dlopenAddr, k, n) && StopsAtTrap(c, s, 6, c.w.dlopenAddr, k, j, n, t)
  {
    EntersDlopen(c, s, ws, rs);
    n, t := StopsBehindEntry(c, s, 6, c.w.dlopenAddr, k, j);
  }

  /**
   * A breakpoint at `k` that dlopen comes to, and malloc does not execute. The first stop is the stub's
   * own; the second is inside dlopen, one byte into the instruction at `k`, and the rax of that moment is
   * taken for the library.
   */
  lemma BreakpointInDlopen(c: Call, s: State, off: nat, path: seq<Byte>, k: Word, j: nat)
    returns (e: State, s1: State, n: State, t: State)
    requires Placed(c) && c.which == Inject && In(Only(c, {c.w.mallocAddr}), s, off, []) && (off == 0 || off == 1)
    requires Callable(c.w, c.w.mallocAddr) && Get(s, RDI) == c.w.mallocAddr && Get(s, RDX) == c.w.dlopenAddr
    requires Good(c, s, 7 - off) && TrappedAt(c.w, c.w.dlopenAddr, k, s.mem)
    requires RunToTrap(c.isa, s, 9).Some? ==>
               BufferAt(c, s) != 0 && BufferAt(c, s) + |path| <= |s.mem| && Clear(c, BufferAt(c, s), |path|)
    requires RunToTrap(c.isa, s, 9).Some? && k < |s.mem| ==>
               ComesTo(c.w, c.w.dlopenAddr, k,
                       Lifted(c.w, c.w.dlopenAddr, k, Ahead(c.isa, PathStored(c, s, path), 6)), j)
    ensures RunToTrap(c.isa, s, 9).Some? && Stops(c, s, 9, RunToTrap(c.isa, s, 9).value, [e])
    ensures e.regs.rip == c.w.mallocAddr
    ensures s1 == PathStored(c, s, path)
    ensures EntersUnderTrap(c, s1, 6, c.w.dlopenAddr, k, n) && StopsAtTrap(c, s1, 6, c.w.dlopenAddr, k, j, n, t)
  {
    var rs := {c.w.mallocAddr};
    var stop, ws;
    OnlyIsPlaced(c, rs);
    e, stop, ws := MallocBesideTrap(c, s, off);
    StillTrapped(c, c.w.dlopenAddr, k, s.mem, stop.mem);
    StoreKeepsTrap(c, c.w.dlopenAddr, k, stop.mem, BufferAt(c, s), path);
    s1 := PathStored(c, s, path);
    StoreKeepsIn(Only(c, rs), stop, 17, ws + [Get(s, RSI)] + [Get(s, RDX)], BufferAt(c, s), path);
    n, t := StopsInDlopen(c, s1, ws + [Get(s, RSI)], k, j, rs);
  }
}
