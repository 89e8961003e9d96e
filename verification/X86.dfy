/** The x86-64 instructions that the injected stubs and the trampoline consist of. */
module X86 {
  import opened Memory
  import opened Machine

  type RegNo = r: int | 0 <= r < 16

  datatype Instr =
    | Push(r: RegNo)
    | Pop(r: RegNo)
    | MovReg(dst: RegNo, src: RegNo)
    | MovImm(dst: RegNo, imm: Word)
    | ZeroReg(r: RegNo)      // xor of a register with itself
    | CallReg(r: RegNo)
    | JmpReg(r: RegNo)
    | Unmodelled

  datatype Decoded = Decoded(instr: Instr, len: nat)

  function ByteAt(m: Mem, a: int): Byte {
    if 0 <= a < |m| then m[a] else 0
  }

  /** Decoding after the REX bits `w`, `r`, `b` have been taken off; `a` is the opcode's address. */
  function DecodeOpcode(m: Mem, a: int, w: bool, r: bool, b: bool): Decoded {
    var op, modrm := ByteAt(m, a), ByteAt(m, a + 1);
    var high := if b then 8 else 0;
    var reg: RegNo := modrm / 8 % 8 + if r then 8 else 0;
    var rm: RegNo := modrm % 8 + high;
    if 0x50 <= op < 0x58 then Decoded(Push(op - 0x50 + high), 1)
    else if 0x58 <= op < 0x60 then Decoded(Pop(op - 0x58 + high), 1)
    else if op == 0x89 && w && modrm >= 0xC0 then Decoded(MovReg(rm, reg), 2)
    else if op == 0x31 && w && modrm >= 0xC0 && rm == reg then Decoded(ZeroReg(rm), 2)
    else if op == 0xFF && modrm >= 0xC0 && modrm / 8 % 8 == 2 then Decoded(CallReg(rm), 2)
    else if op == 0xFF && modrm >= 0xC0 && modrm / 8 % 8 == 4 then Decoded(JmpReg(rm), 2)
    else if 0xB8 <= op < 0xC0 && w && Mapped(m, a + 1, 8) then Decoded(MovImm(op - 0xB8 + high, Read64(m, a + 1)), 9)
    else Decoded(Unmodelled, 1)
  }

  function Decode(m: Mem, a: int): Decoded {
    var rex := ByteAt(m, a);
    if 0x40 <= rex < 0x50 then
      var d := DecodeOpcode(m, a + 1, rex / 8 % 2 == 1, rex / 4 % 2 == 1, rex % 2 == 1);
      d.(len := d.len + 1)
    else DecodeOpcode(m, a, false, false, false)
  }

  /**
   * The routines of the target's libc that the stubs call, and every other instruction. `text` has the
   * code that each routine executes, byte by byte, under the address of its entry.
   */
  datatype World = World(mallocAddr: Word, dlopenAddr: Word, freeAddr: Word, dlcloseAddr: Word,
                         text: map<Word, map<int, Byte>>, routine: Isa, other: Isa)
  {
    predicate Entry(a: Word) {
      a == mallocAddr || a == dlopenAddr || a == freeAddr || a == dlcloseAddr
    }
  }

  function Get(s: State, r: RegNo): Word {
    s.regs.gpr[r]
  }

  function Put(s: State, r: RegNo, v: Word): State {
    s.(regs := s.regs.(gpr := s.regs.gpr[r := v]))
  }

  predicate CanPush(s: State) {
    Mapped(s.mem, Get(s, RSP) - 8, 8)
  }

  function PushWord(s: State, v: Word): (t: State)
    requires CanPush(s)
    ensures |t.mem| == |s.mem|
  {
    var sp: Word := Get(s, RSP) - 8;
    Put(s, RSP, sp).(mem := Write64(s.mem, sp, v))
  }

  /** The effect of a decoded instruction of length `len`; a fault is left to `w.other`. */
  function Execute(w: World, s: State, d: Decoded): (t: State)
    ensures |t.mem| == |s.mem|
  {
    var n := MoveRip(s, d.len);
    match d.instr
    case Push(r) => if CanPush(s) then PushWord(n, Get(s, r)) else w.other.Do(s)
    case Pop(r) =>
      var sp := Get(s, RSP);
      if Mapped(s.mem, sp, 8) then Put(Put(n, RSP, Add64(sp, 8)), r, Read64(s.mem, sp)) else w.other.Do(s)
    case MovReg(dst, src) => Put(n, dst, Get(s, src))
    case MovImm(dst, imm) => Put(n, dst, imm)
    case ZeroReg(r) => Put(n, r, 0)
    case CallReg(r) =>
      if CanPush(s) then
        var t := PushWord(n, n.regs.rip);
        t.(regs := t.regs.(rip := Get(s, r)))
      else w.other.Do(s)
    case JmpReg(r) => s.(regs := s.regs.(rip := Get(s, r)))
    case Unmodelled => w.other.Do(s)
  }

  /** The code that the routine at `r` executes is all there. */
  predicate CodeIntact(w: World, r: Word, m: Mem) {
    r in w.text && forall x :: x in w.text[r] ==> 0 <= x < |m| && m[x] == w.text[r][x]
  }

  /** So is that of every routine whose code is given. */
  predicate TextIntact(w: World, m: Mem) {
    forall r :: r in w.text ==> CodeIntact(w, r, m)
  }

  /** The processor, one instruction at a time. */
  function Instruction(w: World, s: State): (t: State)
    ensures |t.mem| == |s.mem|
  {
    Execute(w, s, Decode(s.mem, s.regs.rip))
  }

  /** The processor: at the entry of a libc routine whose code is all there the routine runs as one step. */
  function Processor(w: World, s: State): (t: State)
    ensures |t.mem| == |s.mem|
  {
    if w.Entry(s.regs.rip) && CodeIntact(w, s.regs.rip, s.mem) then w.routine.Do(s) else Instruction(w, s)
  }

  ghost predicate Runs(isa: Isa, w: World) {
    forall s: State {:trigger Processor(w, s)} :: isa.Do(s) == Processor(w, s)
  }

  /** Those of the states in which a libc routine is entered. */
  function Entered(w: World, states: seq<State>): seq<State> {
    if states == [] then []
    else (if w.Entry(states[0].regs.rip) then [states[0]] else []) + Entered(w, states[1..])
  }

  lemma EnteredFirst(w: World, s: State, states: seq<State>)
    ensures Entered(w, [s] + states) == (if w.Entry(s.regs.rip) then [s] else []) + Entered(w, states)
  {
    assert ([s] + states)[1..] == states;
  }

  lemma {:induction false} EnteredJoin(w: World, a: seq<State>, b: seq<State>)
    ensures Entered(w, a + b) == Entered(w, a) + Entered(w, b)
    decreases |a|
  {
    if a == [] {
      assert a + b == b;
    } else {
      assert a + b == [a[0]] + (a[1..] + b);
      EnteredFirst(w, a[0], a[1..] + b);
      EnteredJoin(w, a[1..], b);
    }
  }
}
