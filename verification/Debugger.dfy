/** The debugger itself: `break_point_map`, `at_trap` and the functions of `ddb.cpp` that use them. */
module Debugger {
  import opened Memory
  import opened Machine
  import opened Ptrace
  import opened Breakpoints
  import opened Detach

  class Debugger {
    const target: Tracee
    var points: Points
    var atTrap: bool

    constructor (target: Tracee)
      ensures this.target == target && points == map[] && !atTrap
    {
      this.target := target;
      points, atTrap := map[], false;
    }

    function Now(): Session
      reads this, target
    {
      Session(target.Now(), points)
    }

    /** `set_breakpoint_at_addr`; `junk` is what an unrecorded register field happens to hold. */
    method SetBreakpointAtAddr(addr: Word, recordRegs: bool, junk: Regs) returns (ok: bool)
      modifies `points, target`mem
      ensures var r := Set(old(Now()), addr, if recordRegs then old(target.regs) else junk);
              if target.stopped && r.Some? then ok && Now() == r.value else !ok && Now() == old(Now())
      ensures ok <==> target.stopped && Peekable(old(target.mem), addr, 0)
      ensures ok ==> points == if addr in old(points) then old(points)
                               else old(points)[addr := Checkpoint(Read64(old(target.mem), addr),
                                                                   if recordRegs then target.regs else junk)]
    {
      OneWord(target.mem, addr);
      var word := new Byte[8];
      ok := target.PtraceRead(addr, word, 8);
      if !ok {
        return;
      }
      var orig := WordOf(word);
      assert word[..] == word[..8];
      ReadMoved(target.mem, addr, word[..]);
      var trap := BytesOf(TrapWord(orig));
      assert trap[..8] == trap[..];
      ok := target.PtraceWrite(addr, trap, 8);
      var regs := junk;
      if recordRegs {
        ok, regs := target.GetRegs();
      }
      if addr !in points {
        points := points[addr := Checkpoint(orig, regs)];
      }
    }

    /** `reset_breakpoint`. */
    method ResetBreakpoint(addr: Word, h: Regs, refreshRegs: bool) returns (ok: bool)
      modifies `points, target`regs, target`mem, target`trace
      ensures var r := Reset(target.isa, old(Now()), addr, h, refreshRegs);
              if (target.stopped || addr !in old(points)) && r.Some? then ok && Now() == r.value else !ok
      ensures !target.stopped ==> Now() == old(Now())
    {
      if addr !in points {
        return true;
      }
      if refreshRegs {
        var regs;
        ok, regs := target.GetRegs();
        if !ok {
          return;
        }
        var taken := regs.(rip := Add64(regs.rip, -1));
        points := points[addr := points[addr].(regs := taken)];
      }
      var orig := points[addr].origCode;
      var word := BytesOf(orig);
      assert word[..8] == word[..];
      ok := target.PtraceWrite(addr, word, 8);
      if !ok {
        return;
      }
      ok := target.SetRegs(h);
      ok := target.SingleStep();
      var trap := BytesOf(TrapWord(orig));
      assert trap[..8] == trap[..];
      ok := target.PtraceWrite(addr, trap, 8);
    }

    /** The SIGTRAP branch of the main loop. */
    method HandleSigtrap(record: bool) returns (ok: bool)
      modifies this, target`regs, target`mem, target`trace
      ensures atTrap
      ensures var r := HandleTrap(target.isa, old(Now()), record);
              if target.stopped && r.Some? then ok && Now() == r.value else !ok
      ensures !target.stopped ==> Now() == old(Now())
    {
      atTrap := true;
      var h;
      ok, h := target.GetRegs();
      if !ok {
        return;
      }
      h := h.(rip := Add64(h.rip, -1));
      ok := ResetBreakpoint(h.rip, h, record);
    }

    /** The head of the main loop. */
    method Resume() returns (ok: bool)
      modifies `atTrap, target`stopped
      ensures ok == old(target.stopped) && !target.stopped && !atTrap && Now() == old(Now())
    {
      atTrap := false;
      ok := target.PtraceLetgo();
    }

    /** `restart_curr_frame`; without a checkpoint the unwinder takes over. */
    method RestartCurrFrame(callAddr: Word) returns (found: bool, ok: bool)
      modifies target`regs
      ensures found <==> callAddr in points
      ensures !found ==> ok && Now() == old(Now())
      ensures found ==> var r := Restart(old(Now()), callAddr);
                        if target.stopped && r.Some? then ok && Now() == r.value else !ok && Now() == old(Now())
      ensures found ==> (ok <==> target.stopped && Peekable(target.mem, points[callAddr].regs.rip, 0))
      ensures found && ok ==> target.regs == points[callAddr].regs
    {
      if callAddr !in points {
        return false, true;
      }
      var inst := new Byte[8];
      OneWord(target.mem, points[callAddr].regs.rip);
      ok := target.PtraceRead(points[callAddr].regs.rip, inst, 8);
      if ok {
        ok := target.SetRegs(points[callAddr].regs);
      }
      found := true;
    }

    /** What `restore_breakpoints` makes of the registers. */
    function Rewound(regs: Regs): Regs
      reads this
    {
      if atTrap then regs.(rip := Add64(regs.rip, -1)) else regs
    }

    /** `restore_breakpoints`; `order` is the order in which the map happened to be walked. */
    method RestoreBreakpoints() returns (ok: bool, ghost order: seq<Word>)
      modifies target`regs, target`mem
      ensures target.stopped ==> (ok <==> AllMapped(old(target.mem), points))
      ensures !target.stopped ==> (ok <==> !atTrap && points == map[]) && Now() == old(Now())
      ensures ok ==> Walks(order, points.Keys)
      ensures ok ==> target.mem == RestoreWords(old(target.mem), points, order)
      ensures target.stopped ==> target.regs == Rewound(old(target.regs))
    {
      order := [];
      if atTrap {
        var regs;
        ok, regs := target.GetRegs();
        if !ok {
          return;
        }
        ok := target.SetRegs(regs.(rip := Add64(regs.rip, -1)));
      }
      var left := points.Keys;
      while left != {}
        invariant left <= points.Keys && Distinct(order)
        invariant !target.stopped ==> order == [] && !atTrap
        invariant forall k :: k in order <==> k in points && k !in left
        invariant forall k :: k in order ==> Mapped(old(target.mem), k, 8)
        invariant target.mem == RestoreWords(old(target.mem), points, order)
        invariant target.regs == Rewound(old(target.regs))
        decreases left
      {
        var k :| k in left;
        var word := BytesOf(points[k].origCode);
        assert word[..8] == word[..];
        ok := target.PtraceWrite(k, word, 8);
        if !ok {
          return;
        }
        left := left - {k};
        assert (order + [k])[..|order + [k]| - 1] == order;
        order := order + [k];
      }
      ok := true;
    }

    /**
     * `sighandler`, at any moment. An executing target it cannot touch: the debugger exits and every trap
     * stays. On a stopped one the stored words are written back. At a moment at which memory is native
     * under some traps and the stored words are native, the traps are lifted that a stored word covers; it
     * is in the native state `n` exactly when none else makes a difference and `at_trap` is what rip is off by.
     */
    method Sighandler(ghost n: State, ghost traps: set<Word>, ghost off: int) returns (ok: bool, ghost order: seq<Word>)
      requires -1 <= off <= 1
      modifies target`regs, target`mem, target`stopped
      ensures ok <==> old(target.stopped) && AllMapped(old(target.mem), points)
      ensures points == old(points) && (!old(target.stopped) ==> Now() == old(Now()))
      ensures ok ==> Walks(order, points.Keys)
      ensures ok ==> target.Now() == DetachState(old(target.Now()), points, atTrap, order)
      ensures ok && Shows(old(target.Now()), points, n, traps, off) ==>
                target.Now() == State(WithRip(n, off - Rewind(atTrap)).regs, Plant(n.mem, Uncovered(points, traps)))
      ensures ok && Shows(old(target.Now()), points, n, traps, off) ==>
                (target.Now() == n <==> off == Rewind(atTrap) && Invisible(n.mem, Uncovered(points, traps)))
    {
      ghost var st := target.Now();
      ok, order := RestoreBreakpoints();
      if Walks(order, points.Keys) && Shows(st, points, n, traps, off) {
        DetachLeaves(st, points, atTrap, n, traps, off, order);
        DetachIsNativeIff(st, points, atTrap, n, traps, off, order);
      }
      if ok {
        ok := target.PtraceDetach();
      }
    }
  }

  lemma ReadMoved(m: Mem, a: int, b: seq<Byte>)
    requires Mapped(m, a, 8) && b == ReadBytes(m, a, 8)
    ensures Read64(b, 0) == Read64(m, a)
  {
    Pow256Values();
    forall i | 0 <= i < 8
      ensures b[0 + i] == Digit(Read64(m, a), i)
    {
      DigitOfValue(m, a, 8, i);
    }
    ValueOfDigits(b, 0, 8, Read64(m, a));
  }

  /** A `long` in memory. */
  method BytesOf(w: Word) returns (b: array<Byte>)
    ensures fresh(b) && b.Length == 8 && b[..] == Bytes(w, 8)
  {
    var bytes := Bytes(w, 8);
    b := new Byte[8](i requires 0 <= i < 8 => bytes[i]);
  }

  method WordOf(b: array<Byte>) returns (w: Word)
    requires b.Length == 8
    ensures w == Read64(b[..], 0)
  {
    w := Read64(b[..], 0);
  }
}
