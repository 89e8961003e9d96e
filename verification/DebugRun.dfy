/** Whole runs under the debugger, and the native run they stand for. */
module DebugRun {
  import opened Memory
  import opened Machine
  import opened Breakpoints

  /**
   * At `n` the program neither reads, as data or inside an instruction, nor writes the code at
   * `sites`: traps planted anywhere but at the current instruction make no difference to the step,
   * and the step leaves the words at `sites` alone.
   */
  ghost predicate Tame(isa: Isa, n: State, sites: set<Word>) {
    && (forall keys: set<Word> :: keys <= sites && n.regs.rip !in keys ==>
          Step(isa, Planted(n, keys)) == Planted(Step(isa, n), keys))
    && (forall k :: k in sites && Mapped(n.mem, k, 8) ==>
          ReadBytes(Step(isa, n).mem, k, 8) == ReadBytes(n.mem, k, 8))
  }

  // ----- one reset

  /**
   * `reset_breakpoint` after a hit is one native step; of the traps inside the word that was put
   * back for the step only the one at `addr` is armed again.
   */
  lemma ResetIsOneStep(isa: Isa, s: Session, n: State, addr: Word, refresh: bool)
    requires Overlay(s, n.mem) && addr in s.points && n.regs.rip == addr
    requires Tame(isa, n, s.points.Keys)
    ensures Reset(isa, s, addr, n.regs, refresh).Some?
    ensures var t := Reset(isa, s, addr, n.regs, refresh).value;
            var keys := s.points.Keys;
            t.st == Planted(Step(isa, n), keys - KeysIn(keys, addr) + {addr})
  {
    var keys := s.points.Keys;
    var lifted := keys - KeysIn(keys, addr);
    LiftTraps(n.mem, keys, addr);
    assert State(n.regs, Plant(n.mem, lifted)) == Planted(n, lifted);
    Rearm(Step(isa, n).mem, n.mem, keys, addr);
  }

  /** The words at the keys are still native after a tame step. */
  lemma WordsKept(isa: Isa, n: State, points: Points)
    requires Tame(isa, n, points.Keys)
    requires forall k :: k in points ==> Mapped(n.mem, k, 8) && Read64(n.mem, k) == points[k].origCode
    ensures forall k :: k in points ==> Read64(Step(isa, n).mem, k) == points[k].origCode
  {
    forall k | k in points
      ensures Read64(Step(isa, n).mem, k) == points[k].origCode
    {
      assert Mapped(n.mem, k, 8);
      SameWord(n.mem, Step(isa, n).mem, k);
    }
  }

  lemma SameWord(m: Mem, r: Mem, k: Word)
    requires |m| == |r| && Mapped(m, k, 8) && ReadBytes(m, k, 8) == ReadBytes(r, k, 8)
    ensures Read64(m, k) == Read64(r, k)
  {
    forall x | k <= x < k + 8
      ensures m[x] == r[x]
    {
      assert ReadBytes(m, k, 8)[x - k] == ReadBytes(r, k, 8)[x - k];
    }
    SameValue(m, r, k, 8);
  }

  /** Reset keeps the overlay exactly when no other key lies in the seven bytes above. */
  lemma ResetKeepsOverlayIff(isa: Isa, s: Session, n: State, addr: Word, refresh: bool)
    requires Overlay(s, n.mem) && addr in s.points && n.regs.rip == addr
    requires Tame(isa, n, s.points.Keys)
    ensures Reset(isa, s, addr, n.regs, refresh).Some?
    ensures Overlay(Reset(isa, s, addr, n.regs, refresh).value, Step(isa, n).mem)
       <==> ClearAbove(Step(isa, n).mem, s.points.Keys, addr)
  {
    ResetIsOneStep(isa, s, n, addr, refresh);
    var t := Reset(isa, s, addr, n.regs, refresh).value;
    assert t.points.Keys == s.points.Keys;
    assert forall k :: k in s.points ==> t.points[k].origCode == s.points[k].origCode;
    WordsKept(isa, n, s.points);
    PlantWithoutAbove(Step(isa, n).mem, s.points.Keys, addr);
  }

  // ----- runs

  /**
   * Where the main loop is. The target executes while Running and is stopped else: at the head of the
   * loop or by some other signal (Stopped), by a trap that `wait` has reported while `at_trap` is still 0
   * (Reported), with `at_trap` set (Trapped), and with the breakpoint reset (Handled).
   */
  datatype Phase = Running | Stopped | Reported | Trapped | Handled

  /** `at_trap`. */
  predicate AtTrap(phase: Phase) {
    phase == Trapped || phase == Handled
  }

  datatype Run = Run(s: Session, phase: Phase)

  datatype Event =
    | Tick                                              // the target executes one instruction
    | Interrupt                                         // another signal stops it
    | Notice                                            // the SIGTRAP branch is entered
    | Handle(refresh: bool)                             // the rest of that branch
    | Head                                              // the loop goes on
    | Resume                                            // `ptrace_letgo`
    | SetPoint(addr: Word, record: bool, junk: Regs)    // from the prompt after another signal
    | RestartAt(addr: Word)

  /** What one event leads to; None when it cannot happen here or the debugger exits. */
  function Next(isa: Isa, r: Run, e: Event): Option<Run> {
    match e
    case Tick =>
      if r.phase != Running then None
      else Some(Run(r.s.(st := Step(isa, r.s.st)), if AtInt3(r.s.st) then Reported else Running))
    case Interrupt =>
      if r.phase != Running then None else Some(Run(r.s, Stopped))
    case Notice =>
      if r.phase != Reported then None else Some(Run(r.s, Trapped))
    case Handle(refresh) =>
      if r.phase != Trapped then None
      else Then(HandleTrap(isa, r.s, refresh), Handled)
    case Head =>
      if r.phase != Handled then None else Some(Run(r.s, Stopped))
    case Resume =>
      if r.phase != Stopped then None else Some(Run(r.s, Running))
    case SetPoint(addr, record, junk) =>
      if r.phase != Stopped then None
      else Then(Set(r.s, addr, if record then r.s.st.regs else junk), Stopped)
    case RestartAt(addr) =>
      if r.phase != Stopped || addr !in r.s.points then None
      else Then(Restart(r.s, addr), Stopped)
  }

  function Then(s: Option<Session>, phase: Phase): Option<Run> {
    if s.None? then None else Some(Run(s.value, phase))
  }

  function RunEvents(isa: Isa, r: Run, es: seq<Event>): Option<Run>
    decreases |es|
  {
    if es == [] then Some(r)
    else
      var q := RunEvents(isa, r, es[..|es| - 1]);
      if q.None? then None else Next(isa, q.value, es[|es| - 1])
  }

  /** Stopped by a planted trap whose instruction is still to be executed. */
  predicate Hit(r: Run) {
    (r.phase == Reported || r.phase == Trapped) && Add64(r.s.st.regs.rip, -1) in r.s.points
  }

  /** How many native instructions an event stands for. */
  function NativeSteps(r: Run, e: Event): nat {
    match e
    case Tick => if AtInt3(r.s.st) && r.s.st.regs.rip in r.s.points then 0 else 1
    case Handle(_) => if Hit(r) then 1 else 0
    case _ => 0
  }

  function NativeCount(isa: Isa, r: Run, es: seq<Event>): nat
    requires RunEvents(isa, r, es).Some?
    decreases |es|
  {
    if es == [] then 0
    else
      var front := es[..|es| - 1];
      NativeCount(isa, r, front) + NativeSteps(RunEvents(isa, r, front).value, es[|es| - 1])
  }

  /** The run seen without the debugger: planted bytes replaced, `rip` rewound at a hit. */
  function Project(r: Run): State {
    var st, points := r.s.st, r.s.points;
    var mem := seq(|st.mem|, i requires 0 <= i < |st.mem| =>
                     if i in points then points[i].origCode % 0x100 else st.mem[i]);
    State(if Hit(r) then st.regs.(rip := Add64(st.regs.rip, -1)) else st.regs, mem)
  }

  ghost predicate Sim(r: Run, n: State) {
    && Overlay(r.s, n.mem)
    && n.regs == if Hit(r) then r.s.st.regs.(rip := Add64(r.s.st.regs.rip, -1)) else r.s.st.regs
  }

  /** The native state of a simulated run is its projection. */
  lemma SimIsProjection(r: Run, n: State)
    requires Sim(r, n)
    ensures n == Project(r)
  {
    var p := Project(r);
    forall i | 0 <= i < |n.mem|
      ensures p.mem[i] == n.mem[i]
    {
      if i in r.s.points {
        DigitOfValue(n.mem, i, 8, 0);
      }
    }
    assert p.mem == n.mem;
  }

  lemma SeparatedIsClear(native: Mem, keys: set<Word>, sites: set<Word>, addr: Word)
    requires Separated(sites) && keys <= sites && addr in sites
    ensures ClearAbove(native, keys, addr)
  {
  }

  lemma TickSimulates(isa: Isa, r: Run, n: State, sites: set<Word>)
    requires Sim(r, n) && r.phase == Running && r.s.points.Keys <= sites && Tame(isa, n, sites)
    ensures Sim(Next(isa, r, Tick).value, Steps(isa, n, NativeSteps(r, Tick)))
  {
    var keys, rip := r.s.points.Keys, n.regs.rip;
    var q := Next(isa, r, Tick).value;
    assert r.s.st == Planted(n, keys);
    StepsOfOne(isa, n);
    if rip in keys {
      RipBackAndForth(rip);
      assert AtInt3(r.s.st);
      assert Hit(q);
    } else {
      assert AtInt3(r.s.st) <==> AtInt3(n);
      assert q.s.st == Planted(Step(isa, n), keys);
      WordsKept(isa, n, r.s.points);
      RipBackAndForth(rip);
    }
  }

  lemma HandleSimulates(isa: Isa, r: Run, n: State, refresh: bool, sites: set<Word>)
    requires Sim(r, n) && r.phase == Trapped && r.s.points.Keys <= sites && Tame(isa, n, sites)
    requires Separated(sites)
    ensures Next(isa, r, Handle(refresh)).Some?
    ensures Sim(Next(isa, r, Handle(refresh)).value, Steps(isa, n, NativeSteps(r, Handle(refresh))))
    ensures Hit(r) && refresh ==> Next(isa, r, Handle(refresh)).value.s.points[n.regs.rip].regs == n.regs
  {
    StepsOfOne(isa, n);
    if Hit(r) {
      var addr := n.regs.rip;
      assert Tame(isa, n, r.s.points.Keys);
      ResetKeepsOverlayIff(isa, r.s, n, addr, refresh);
      SeparatedIsClear(Step(isa, n).mem, r.s.points.Keys, sites, addr);
      ResetIsOneStep(isa, r.s, n, addr, refresh);
    }
  }

  /** Every event but a restart is matched by the native steps it stands for. */
  lemma EventSimulates(isa: Isa, r: Run, n: State, e: Event, sites: set<Word>)
    requires Sim(r, n) && r.s.points.Keys <= sites && Separated(sites) && Tame(isa, n, sites)
    requires Next(isa, r, e).Some? && !e.RestartAt? && (e.SetPoint? ==> e.addr in sites)
    ensures Sim(Next(isa, r, e).value, Steps(isa, n, NativeSteps(r, e)))
    ensures Next(isa, r, e).value.s.points.Keys <= sites
  {
    match e
    case Tick => TickSimulates(isa, r, n, sites);
    case Handle(refresh) => HandleSimulates(isa, r, n, refresh, sites);
    case Interrupt =>
    case Notice =>
    case Head =>
    case Resume =>
    case SetPoint(addr, record, junk) =>
      var regs := if record then r.s.st.regs else junk;
      if addr in r.s.points {
        SetAgainIsIdentity(r.s, n.mem, addr, regs);
      } else {
        SetKeepsOverlayIff(r.s, n.mem, addr, regs);
        SeparatedIsClear(n.mem, r.s.points.Keys, sites, addr);
      }
  }

  /** A restart changes nothing but the registers, which become those of the checkpoint. */
  lemma RestartSimulates(isa: Isa, r: Run, n: State, addr: Word)
    requires Sim(r, n) && Next(isa, r, RestartAt(addr)).Some?
    ensures Sim(Next(isa, r, RestartAt(addr)).value, n.(regs := r.s.points[addr].regs))
  {
  }

  ghost predicate NoRestart(es: seq<Event>, sites: set<Word>) {
    forall e :: e in es ==> !e.RestartAt? && (e.SetPoint? ==> e.addr in sites)
  }

  /** A tame program: every state of its native run is tame. */
  ghost predicate TameRun(isa: Isa, n: State, sites: set<Word>) {
    forall i: nat {:trigger Tame(isa, Steps(isa, n, i), sites)} :: Tame(isa, Steps(isa, n, i), sites)
  }

  /** The run `q` stands for native step number `c`. */
  ghost predicate StandsFor(isa: Isa, n: State, q: Run, c: nat, sites: set<Word>) {
    && Sim(q, Steps(isa, n, c))
    && Project(q) == Steps(isa, n, c)
    && q.s.points.Keys <= sites
  }

  lemma StepsOfOne(isa: Isa, n: State)
    ensures Steps(isa, n, 0) == n && Steps(isa, n, 1) == Step(isa, n)
  {
  }

  lemma StepsAdd(isa: Isa, n: State, c: nat, k: nat)
    requires k <= 1
    ensures Steps(isa, Steps(isa, n, c), k) == Steps(isa, n, c + k)
  {
    StepsOfOne(isa, Steps(isa, n, c));
    if k == 1 {
      LastStep(isa, n, c);
    } else {
      assert c + k == c;
    }
  }

  lemma LastStep(isa: Isa, n: State, c: nat)
    ensures Steps(isa, n, c + 1) == Step(isa, Steps(isa, n, c))
  {
  }

  /** The native run goes on from step `c` to step `d`, and so does the run that stands for it. */
  lemma GoesOn(isa: Isa, n: State, c: nat, k: nat, q: Run, d: nat, sites: set<Word>)
    requires Sim(q, Steps(isa, Steps(isa, n, c), k)) && q.s.points.Keys <= sites && d == c + k && k <= 1
    ensures StandsFor(isa, n, q, d, sites)
  {
    StepsAdd(isa, n, c, k);
    assert Steps(isa, n, d) == Steps(isa, Steps(isa, n, c), k);
    SimIsProjection(q, Steps(isa, n, d));
  }

  lemma EventSimulatesFrom(isa: Isa, n: State, c: nat, q: Run, e: Event, p: Run, sites: set<Word>)
    requires StandsFor(isa, n, q, c, sites) && Separated(sites) && TameRun(isa, n, sites)
    requires !e.RestartAt? && (e.SetPoint? ==> e.addr in sites) && Next(isa, q, e) == Some(p)
    ensures Sim(p, Steps(isa, Steps(isa, n, c), NativeSteps(q, e))) && p.s.points.Keys <= sites
  {
    assert Tame(isa, Steps(isa, n, c), sites);
    EventSimulates(isa, q, Steps(isa, n, c), e, sites);
  }

  lemma StandsForStart(isa: Isa, r: Run, n: State, sites: set<Word>)
    requires Sim(r, n) && r.s.points.Keys <= sites
    ensures StandsFor(isa, n, r, 0, sites)
  {
    SimIsProjection(r, n);
    assert Steps(isa, n, 0) == n;
  }

  lemma LastEvent(isa: Isa, r: Run, es: seq<Event>, sites: set<Word>)
    requires es != [] && NoRestart(es, sites) && RunEvents(isa, r, es).Some?
    ensures var front, e := es[..|es| - 1], es[|es| - 1];
            NoRestart(front, sites) && !e.RestartAt? && (e.SetPoint? ==> e.addr in sites) &&
            RunEvents(isa, r, front).Some? && RunEvents(isa, r, es) == Next(isa, RunEvents(isa, r, front).value, e) &&
            NativeCount(isa, r, es) == NativeCount(isa, r, front) + NativeSteps(RunEvents(isa, r, front).value, e)
  {
    assert es[|es| - 1] in es;
  }

  /**
   * Transparency. Any sequence of free running, trap hits, resets and new breakpoints is the native
   * run, as far as the counted steps take it, with the traps laid over it.
   */
  lemma {:induction false} Transparency(isa: Isa, r: Run, n: State, es: seq<Event>, sites: set<Word>)
    requires Sim(r, n) && r.s.points.Keys <= sites && Separated(sites) && TameRun(isa, n, sites)
    requires NoRestart(es, sites) && RunEvents(isa, r, es).Some?
    ensures StandsFor(isa, n, RunEvents(isa, r, es).value, NativeCount(isa, r, es), sites)
    decreases |es|
  {
    if es == [] {
      StandsForStart(isa, r, n, sites);
    } else {
      var front, e := es[..|es| - 1], es[|es| - 1];
      LastEvent(isa, r, es, sites);
      Transparency(isa, r, n, front, sites);
      var q, c := RunEvents(isa, r, front).value, NativeCount(isa, r, front);
      EventSimulatesFrom(isa, n, c, q, e, RunEvents(isa, r, es).value, sites);
      GoesOn(isa, n, c, NativeSteps(q, e), RunEvents(isa, r, es).value, NativeCount(isa, r, es), sites);
    }
  }

  /** Running on by one more event. */
  lemma RunOn(isa: Isa, r: Run, es: seq<Event>, e: Event)
    requires RunEvents(isa, r, es).Some? && Next(isa, RunEvents(isa, r, es).value, e).Some?
    ensures RunEvents(isa, r, es + [e]) == Next(isa, RunEvents(isa, r, es).value, e)
    ensures NativeCount(isa, r, es + [e])
         == NativeCount(isa, r, es) + NativeSteps(RunEvents(isa, r, es).value, e)
  {
    assert (es + [e])[..|es + [e]| - 1] == es;
  }

  /** From the report of a trap back to Running. */
  const TRAP_EVENTS := [Tick, Notice, Handle(false), Head, Resume]

  /** The events of one native step from Running: a tick and, when that traps, handling it. */
  function StepEvents(isa: Isa, q: Run): seq<Event> {
    if q.phase == Running && Next(isa, q, Tick).value.phase == Reported then TRAP_EVENTS else [Tick]
  }

  lemma TickThenHandle(isa: Isa, r: Run, n: State, sites: set<Word>)
    requires Sim(r, n) && r.phase == Running
    requires r.s.points.Keys <= sites && Separated(sites) && Tame(isa, n, sites)
    ensures var hit := Next(isa, r, Tick).value;
            if hit.phase == Reported then
              var seen := Run(hit.s, Trapped);
              && Next(isa, seen, Handle(false)).Some?
              && Next(isa, seen, Handle(false)).value.phase == Handled
              && NativeSteps(r, Tick) + NativeSteps(seen, Handle(false)) == 1
            else NativeSteps(r, Tick) == 1
  {
    var hit := Next(isa, r, Tick).value;
    RipBackAndForth(r.s.st.regs.rip);
    TickSimulates(isa, r, n, sites);
    if n.regs.rip in r.s.points {
      assert AtInt3(r.s.st);
      assert Steps(isa, n, 0) == n;
      HandleSimulates(isa, Run(hit.s, Trapped), n, false, sites);
    }
  }

  /** The events after a tick that traps: noticing and handling the trap, and resuming. */
  lemma RunThroughHit(isa: Isa, r: Run, es: seq<Event>)
    requires RunEvents(isa, r, es).Some? && RunEvents(isa, r, es).value.phase == Running
    requires Next(isa, RunEvents(isa, r, es).value, Tick).value.phase == Reported
    requires var seen := Run(Next(isa, RunEvents(isa, r, es).value, Tick).value.s, Trapped);
             Next(isa, seen, Handle(false)).Some? && Next(isa, seen, Handle(false)).value.phase == Handled
    ensures var q := RunEvents(isa, r, es).value;
            var seen := Run(Next(isa, q, Tick).value.s, Trapped);
            var on := es + TRAP_EVENTS;
            && RunEvents(isa, r, on).Some? && RunEvents(isa, r, on).value.phase == Running
            && NativeCount(isa, r, on) ==
               NativeCount(isa, r, es) + NativeSteps(q, Tick) + NativeSteps(seen, Handle(false))
  {
    var one := es + [Tick];
    var two := one + [Notice];
    var three := two + [Handle(false)];
    var four := three + [Head];
    RunOn(isa, r, es, Tick);
    RunOn(isa, r, one, Notice);
    RunOn(isa, r, two, Handle(false));
    RunOn(isa, r, three, Head);
    RunOn(isa, r, four, Resume);
    assert four + [Resume] == es + TRAP_EVENTS;
  }

  lemma StepEventsTakeOneStep(isa: Isa, r: Run, es: seq<Event>, n: State, sites: set<Word>)
    requires RunEvents(isa, r, es).Some?
    requires var q := RunEvents(isa, r, es).value;
             && Sim(q, n) && q.phase == Running && q.s.points.Keys <= sites
             && Separated(sites) && Tame(isa, n, sites)
    ensures var on := es + StepEvents(isa, RunEvents(isa, r, es).value);
            && RunEvents(isa, r, on).Some? && RunEvents(isa, r, on).value.phase == Running
            && NativeCount(isa, r, on) == NativeCount(isa, r, es) + 1
  {
    var q := RunEvents(isa, r, es).value;
    TickThenHandle(isa, q, n, sites);
    if Next(isa, q, Tick).value.phase == Reported {
      RunThroughHit(isa, r, es);
    } else {
      RunOn(isa, r, es, Tick);
    }
  }

  /**
   * The debugged run never gets stuck: it can be driven to any native step, one hit, reset and
   * resume for each native step that starts at a breakpoint.
   */
  lemma {:induction false} EveryNativeStepIsReached(isa: Isa, r: Run, n: State, count: nat, sites: set<Word>)
    returns (es: seq<Event>)
    requires Sim(r, n) && r.phase == Running
    requires r.s.points.Keys <= sites && Separated(sites) && TameRun(isa, n, sites)
    ensures NoRestart(es, sites) && RunEvents(isa, r, es).Some? && NativeCount(isa, r, es) == count
    ensures RunEvents(isa, r, es).value.phase == Running
    ensures Project(RunEvents(isa, r, es).value) == Steps(isa, n, count)
  {
    if count == 0 {
      es := [];
      SimIsProjection(r, n);
    } else {
      var before := EveryNativeStepIsReached(isa, r, n, count - 1, sites);
      Transparency(isa, r, n, before, sites);
      es := before + StepEvents(isa, RunEvents(isa, r, before).value);
      OneMoreStep(isa, r, n, before, sites);
      Transparency(isa, r, n, es, sites);
    }
  }

  lemma OneMoreStep(isa: Isa, r: Run, n: State, es: seq<Event>, sites: set<Word>)
    requires Sim(r, n) && Separated(sites) && TameRun(isa, n, sites)
    requires NoRestart(es, sites) && RunEvents(isa, r, es).Some? && RunEvents(isa, r, es).value.phase == Running
    requires StandsFor(isa, n, RunEvents(isa, r, es).value, NativeCount(isa, r, es), sites)
    ensures var on := es + StepEvents(isa, RunEvents(isa, r, es).value);
            && NoRestart(on, sites) && RunEvents(isa, r, on).Some? && RunEvents(isa, r, on).value.phase == Running
            && NativeCount(isa, r, on) == NativeCount(isa, r, es) + 1
  {
    var here := Steps(isa, n, NativeCount(isa, r, es));
    assert Tame(isa, here, sites);
    StepEventsTakeOneStep(isa, r, es, here, sites);
  }

  /**
   * The overlay survives every run, restarts included, when each state the run stands for is tame:
   * live memory is native memory with 0xCC exactly at the map's keys, and stored words are native.
   */
  lemma {:induction false} OverlayInvariant(isa: Isa, r: Run, es: seq<Event>, sites: set<Word>)
    requires Sim(r, Project(r)) && r.s.points.Keys <= sites && Separated(sites)
    requires forall e :: e in es && e.SetPoint? ==> e.addr in sites
    requires RunEvents(isa, r, es).Some?
    requires forall i :: 0 <= i < |es| && RunEvents(isa, r, es[..i]).Some? ==>
               Tame(isa, Project(RunEvents(isa, r, es[..i]).value), sites)
    ensures var q := RunEvents(isa, r, es).value;
            Sim(q, Project(q)) && Overlay(q.s, Project(q).mem) && q.s.points.Keys <= sites
    decreases |es|
  {
    if es != [] {
      var front, e := es[..|es| - 1], es[|es| - 1];
      assert e in es;
      forall i | 0 <= i < |front| && RunEvents(isa, r, front[..i]).Some?
        ensures Tame(isa, Project(RunEvents(isa, r, front[..i]).value), sites)
      {
        assert front[..i] == es[..i];
      }
      OverlayInvariant(isa, r, front, sites);
      var q := RunEvents(isa, r, front).value;
      var n, t := Project(q), RunEvents(isa, r, es).value;
      assert Tame(isa, n, sites);
      if e.RestartAt? {
        RestartSimulates(isa, q, n, e.addr);
        SimIsProjection(t, n.(regs := q.s.points[e.addr].regs));
      } else {
        EventSimulates(isa, q, n, e, sites);
        SimIsProjection(t, Steps(isa, n, NativeSteps(q, e)));
      }
    }
  }

  /** No hit at `addr` is recorded during the run. */
  predicate NotRecordedAgain(isa: Isa, r: Run, es: seq<Event>, addr: Word)
    decreases |es|
  {
    es == [] ||
    var front, e := es[..|es| - 1], es[|es| - 1];
    && NotRecordedAgain(isa, r, front, addr)
    && (e.Handle? && e.refresh && RunEvents(isa, r, front).Some? ==>
          Add64(RunEvents(isa, r, front).value.s.st.regs.rip, -1) != addr)
  }

  lemma CheckpointKept(isa: Isa, q: Run, e: Event, addr: Word)
    requires addr in q.s.points && Next(isa, q, e).Some?
    requires e.Handle? && e.refresh ==> Add64(q.s.st.regs.rip, -1) != addr
    ensures var t := Next(isa, q, e).value;
            addr in t.s.points && t.s.points[addr] == q.s.points[addr]
  {
  }

  /** A checkpoint stays as it is until a hit at its address is recorded again. */
  lemma {:induction false} CheckpointPersists(isa: Isa, r: Run, es: seq<Event>, addr: Word)
    requires addr in r.s.points && RunEvents(isa, r, es).Some?
    requires NotRecordedAgain(isa, r, es, addr)
    ensures var q := RunEvents(isa, r, es).value;
            addr in q.s.points && q.s.points[addr] == r.s.points[addr]
    decreases |es|
  {
    if es != [] {
      var front, e := es[..|es| - 1], es[|es| - 1];
      CheckpointPersists(isa, r, front, addr);
      CheckpointKept(isa, RunEvents(isa, r, front).value, e, addr);
    }
  }

  /**
   * Restarting at a breakpoint whose hit was recorded puts back exactly the registers the program
   * had on arriving there, whatever ran in between, and leaves memory as it is now.
   */
  lemma RestartReturnsToRecordedHit(isa: Isa, n: State, h: Run, es: seq<Event>, q: Run, t: Run, sites: set<Word>)
    requires HitRecorded(isa, n, h) && h.s.points.Keys <= sites && Separated(sites) && TameRun(isa, n, sites)
    requires NoRestart(es, sites) && RunEvents(isa, h, es) == Some(q) && NotRecordedAgain(isa, h, es, n.regs.rip)
    requires Next(isa, q, RestartAt(n.regs.rip)) == Some(t)
    ensures StandsFor(isa, n, q, 1 + NativeCount(isa, h, es), sites)
    ensures Project(t) == State(n.regs, Project(q).mem)
  {
    AfterRecordedHit(isa, n, h, es, sites);
    CheckpointPersists(isa, h, es, n.regs.rip);
    RestartProjects(isa, q, Project(q), n.regs, t);
  }

  /** The hit at the native state `n` has been handled and its registers recorded. */
  ghost predicate HitRecorded(isa: Isa, n: State, h: Run) {
    Sim(h, Step(isa, n)) && n.regs.rip in h.s.points && h.s.points[n.regs.rip].regs == n.regs
  }

  lemma AfterRecordedHit(isa: Isa, n: State, h: Run, es: seq<Event>, sites: set<Word>)
    requires Sim(h, Step(isa, n)) && h.s.points.Keys <= sites && Separated(sites) && TameRun(isa, n, sites)
    requires NoRestart(es, sites) && RunEvents(isa, h, es).Some?
    ensures StandsFor(isa, n, RunEvents(isa, h, es).value, 1 + NativeCount(isa, h, es), sites)
  {
    TameFromNext(isa, n, sites);
    Transparency(isa, h, Step(isa, n), es, sites);
    StandsForShift(isa, n, RunEvents(isa, h, es).value, NativeCount(isa, h, es), sites);
  }

  lemma StandsForShift(isa: Isa, n: State, q: Run, c: nat, sites: set<Word>)
    requires StandsFor(isa, Step(isa, n), q, c, sites)
    ensures StandsFor(isa, n, q, 1 + c, sites)
  {
    StepsShift(isa, n, c);
  }

  lemma RestartProjects(isa: Isa, q: Run, now: State, regs: Regs, t: Run)
    requires Sim(q, now) && regs.rip in q.s.points && q.s.points[regs.rip].regs == regs
    requires Next(isa, q, RestartAt(regs.rip)) == Some(t)
    ensures Project(t) == State(regs, now.mem)
  {
    RestartSimulates(isa, q, now, regs.rip);
    SimIsProjection(t, now.(regs := regs));
  }

  lemma RecordedHit(isa: Isa, r: Run, n: State, sites: set<Word>)
    requires Sim(r, n) && Hit(r) && r.s.points.Keys <= sites && Separated(sites) && TameRun(isa, n, sites)
    requires Next(isa, r, Handle(true)).Some?
    ensures var h := Next(isa, r, Handle(true)).value;
            HitRecorded(isa, n, h) && h.s.points.Keys == r.s.points.Keys
  {
    assert Tame(isa, Steps(isa, n, 0), sites);
    HandleSimulates(isa, r, n, true, sites);
    assert Steps(isa, n, 1) == Step(isa, Steps(isa, n, 0));
  }

  lemma TameFromNext(isa: Isa, n: State, sites: set<Word>)
    requires TameRun(isa, n, sites)
    ensures TameRun(isa, Step(isa, n), sites)
  {
    forall i: nat
      ensures Tame(isa, Steps(isa, Step(isa, n), i), sites)
    {
      StepsShift(isa, n, i);
      assert Tame(isa, Steps(isa, n, i + 1), sites);
    }
  }

  lemma {:induction false} StepsShift(isa: Isa, n: State, i: nat)
    ensures Steps(isa, Step(isa, n), i) == Steps(isa, n, i + 1)
    decreases i
  {
    assert Steps(isa, n, 0) == n;
    if i > 0 {
      StepsShift(isa, n, i - 1);
    }
  }
}
