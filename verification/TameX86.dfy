/** Tameness read off an instruction's bytes and operands, for the instructions that are modelled. */
module TameX86 {
  import opened Memory
  import opened Machine
  import opened Breakpoints
  import opened DebugRun
  import opened X86

  /** No fault: the word that the instruction pushes or pops is mapped. */
  predicate Faultless(s: State, i: Instr) {
    match i
    case Push(_) => CanPush(s)
    case CallReg(_) => CanPush(s)
    case Pop(_) => Mapped(s.mem, Get(s, RSP), 8)
    case _ => true
  }

  /** Where that word is. */
  function Operand(s: State, i: Instr): int {
    if i.Push? || i.CallReg? then Get(s, RSP) - 8 else Get(s, RSP)
  }

  predicate Accesses(i: Instr) {
    i.Push? || i.CallReg? || i.Pop?
  }

  /** None of the sites lies inside the instruction, and none of their words meets its operand. */
  predicate Misses(s: State, d: Decoded, sites: set<Word>) {
    && (forall k :: k in sites && s.regs.rip < k ==> s.regs.rip + d.len <= k)
    && (Accesses(d.instr) ==>
          var a := Operand(s, d.instr);
          forall k :: k in sites ==> k + 8 <= a || a + 8 <= k)
  }

  lemma SameOpcode(m: Mem, k: Mem, a: int, x: bool, r: bool, b: bool)
    requires |m| == |k| && !DecodeOpcode(m, a, x, r, b).instr.Unmodelled?
    requires forall y :: a <= y < a + DecodeOpcode(m, a, x, r, b).len && 0 <= y < |m| ==> k[y] == m[y]
    ensures DecodeOpcode(k, a, x, r, b) == DecodeOpcode(m, a, x, r, b)
  {
    assert ByteAt(k, a) == ByteAt(m, a);
    if DecodeOpcode(m, a, x, r, b).len > 1 {
      assert ByteAt(k, a + 1) == ByteAt(m, a + 1);
    }
    if DecodeOpcode(m, a, x, r, b).instr.MovImm? {
      SameValue(m, k, a + 1, 8);
    }
  }

  /** Decoding depends on the instruction's own bytes only. */
  lemma SameDecoded(m: Mem, k: Mem, a: int)
    requires |m| == |k| && !Decode(m, a).instr.Unmodelled?
    requires forall y :: a <= y < a + Decode(m, a).len && 0 <= y < |m| ==> k[y] == m[y]
    ensures Decode(k, a) == Decode(m, a)
  {
    var rex := ByteAt(m, a);
    assert ByteAt(k, a) == rex;
    if 0x40 <= rex < 0x50 {
      SameOpcode(m, k, a + 1, rex / 8 % 2 == 1, rex / 4 % 2 == 1, rex % 2 == 1);
    } else {
      SameOpcode(m, k, a, false, false, false);
    }
  }

  lemma PlantThenStore(m: Mem, keys: set<Word>, a: int, v: Word)
    requires Mapped(m, a, 8) && forall k :: k in keys ==> !(a <= k < a + 8)
    ensures Write64(Plant(m, keys), a, v) == Plant(Write64(m, a, v), keys)
  {
  }

  lemma LoadUnderTraps(m: Mem, keys: set<Word>, a: int)
    requires Mapped(m, a, 8) && forall k :: k in keys ==> !(a <= k < a + 8)
    ensures Read64(Plant(m, keys), a) == Read64(m, a)
  {
    SameValue(m, Plant(m, keys), a, 8);
  }

  /** An instruction that misses the traps does the same under them. */
  lemma ExecuteUnderTraps(w: World, n: State, d: Decoded, keys: set<Word>)
    requires !d.instr.Unmodelled? && Faultless(n, d.instr)
    requires Accesses(d.instr) ==> forall k :: k in keys ==> !(Operand(n, d.instr) <= k < Operand(n, d.instr) + 8)
    ensures Execute(w, Planted(n, keys), d) == Planted(Execute(w, n, d), keys)
  {
    match d.instr
    case Push(r) => PlantThenStore(n.mem, keys, Get(n, RSP) - 8, Get(n, r));
    case CallReg(r) => PlantThenStore(n.mem, keys, Get(n, RSP) - 8, Add64(n.regs.rip, d.len));
    case Pop(r) => LoadUnderTraps(n.mem, keys, Get(n, RSP));
    case MovReg(_, _) =>
    case MovImm(_, _) =>
    case ZeroReg(_) =>
    case JmpReg(_) =>
  }

  lemma ExecuteKeepsWord(w: World, n: State, d: Decoded, k: Word)
    requires !d.instr.Unmodelled? && Faultless(n, d.instr) && Mapped(n.mem, k, 8)
    requires Accesses(d.instr) ==> k + 8 <= Operand(n, d.instr) || Operand(n, d.instr) + 8 <= k
    ensures ReadBytes(Execute(w, n, d).mem, k, 8) == ReadBytes(n.mem, k, 8)
  {
  }

  lemma StepUnderTraps(isa: Isa, w: World, n: State, d: Decoded, keys: set<Word>)
    requires Runs(isa, w) && !w.Entry(n.regs.rip) && d == Decode(n.mem, n.regs.rip) && !d.instr.Unmodelled?
    requires Faultless(n, d.instr) && Misses(n, d, keys) && n.regs.rip !in keys
    ensures Step(isa, Planted(n, keys)) == Planted(Step(isa, n), keys)
  {
    var p := Planted(n, keys);
    SameDecoded(n.mem, p.mem, n.regs.rip);
    assert isa.Do(n) == Processor(w, n) == Execute(w, n, d);
    assert isa.Do(p) == Processor(w, p) == Execute(w, p, d);
    assert !AtInt3(n) && !AtInt3(p);
    ExecuteUnderTraps(w, n, d, keys);
  }

  /** A modelled instruction whose bytes and operand miss the sites is tame for them. */
  lemma MissingIsTame(isa: Isa, w: World, n: State, sites: set<Word>)
    requires Runs(isa, w) && !w.Entry(n.regs.rip) && !Decode(n.mem, n.regs.rip).instr.Unmodelled?
    requires Faultless(n, Decode(n.mem, n.regs.rip).instr) && Misses(n, Decode(n.mem, n.regs.rip), sites)
    ensures Tame(isa, n, sites)
  {
    var d := Decode(n.mem, n.regs.rip);
    forall keys: set<Word> | keys <= sites && n.regs.rip !in keys
      ensures Step(isa, Planted(n, keys)) == Planted(Step(isa, n), keys)
    {
      StepUnderTraps(isa, w, n, d, keys);
    }
    forall k | k in sites && Mapped(n.mem, k, 8)
      ensures ReadBytes(Step(isa, n).mem, k, 8) == ReadBytes(n.mem, k, 8)
    {
      assert isa.Do(n) == Processor(w, n) == Execute(w, n, d);
      assert !AtInt3(n);
      ExecuteKeepsWord(w, n, d, k);
    }
  }
}
