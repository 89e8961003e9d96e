/** The traced process: registers, memory and the way the processor runs it. */
module Machine {
  import opened Memory

  const INT3: Byte := 0xCC

  /** The sixteen general registers, indexed by their x86-64 encoding. */
  type Gprs = g: seq<Word> | |g| == 16 witness seq(16, _ => 0)

  const RAX := 0
  const RCX := 1
  const RDX := 2
  const RBX := 3
  const RSP := 4
  const RBP := 5
  const RSI := 6
  const RDI := 7
  const R9 := 9

  /** `user_regs_struct`; `rest` stands for its flags and segment words. */
  datatype Regs = Regs(gpr: Gprs, rip: Word, rest: int)

  datatype State = State(regs: Regs, mem: Mem)

  /** What one instruction other than `int3` does. */
  datatype Isa = Isa(exec: State -> State)
  {
    /** The instruction at `s`; none changes which addresses are mapped. */
    function Do(s: State): (t: State)
      ensures |t.mem| == |s.mem|
    {
      var t := exec(s);
      if |t.mem| == |s.mem| then t else s
    }
  }

  predicate AtInt3(s: State) {
    s.regs.rip < |s.mem| && s.mem[s.regs.rip] == INT3
  }

  function MoveRip(s: State, d: int): State {
    s.(regs := s.regs.(rip := Add64(s.regs.rip, d)))
  }

  /** One step of the processor. An `int3` only advances `rip`; the kernel then reports SIGTRAP. */
  function Step(isa: Isa, s: State): (t: State)
    ensures |t.mem| == |s.mem|
  {
    if AtInt3(s) then MoveRip(s, 1) else isa.Do(s)
  }

  function Steps(isa: Isa, s: State, n: nat): (t: State)
    ensures |t.mem| == |s.mem|
  {
    if n == 0 then s else Step(isa, Steps(isa, s, n - 1))
  }

  datatype Option<+T> = None | Some(value: T)

  /** The state reported by the first SIGTRAP, when it comes within `n` other instructions. */
  function RunToTrap(isa: Isa, s: State, n: nat): (t: Option<State>)
    ensures t.Some? ==> |t.value.mem| == |s.mem|
    decreases n
  {
    if AtInt3(s) then Some(MoveRip(s, 1))
    else if n == 0 then None
    else RunToTrap(isa, isa.Do(s), n - 1)
  }

  /** The states in which the target executes an instruction on the way to that trap, its `int3` included. */
  function RunStates(isa: Isa, s: State, n: nat): seq<State>
    requires RunToTrap(isa, s, n).Some?
    decreases n
  {
    if AtInt3(s) then [s] else [s] + RunStates(isa, isa.Do(s), n - 1)
  }

  lemma TrapAfterStep(isa: Isa, s: State, n: nat)
    requires RunToTrap(isa, s, n).Some?
    ensures AtInt3(s) ==> RunToTrap(isa, s, n).value == Step(isa, s)
    ensures !AtInt3(s) ==> n > 0 && RunToTrap(isa, s, n) == RunToTrap(isa, Step(isa, s), n - 1)
  {
  }

  /** The first stop does not depend on how many further instructions are allowed. */
  lemma {:induction false} FirstTrapIsStable(isa: Isa, s: State, n: nat, m: nat)
    requires n <= m && RunToTrap(isa, s, n).Some?
    ensures RunToTrap(isa, s, m) == RunToTrap(isa, s, n) && RunStates(isa, s, m) == RunStates(isa, s, n)
    decreases n
  {
    if !AtInt3(s) {
      FirstTrapIsStable(isa, isa.Do(s), n - 1, m - 1);
    }
  }

  lemma RipBackAndForth(x: Word)
    ensures Add64(Add64(x, 1), -1) == x && Add64(Add64(x, -1), 1) == x
  {
  }
}
