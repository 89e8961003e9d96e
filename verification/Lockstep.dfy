/** The stub inside the target: what each instruction does to the registers and the stack. */
module Lockstep {
  import opened Memory
  import opened Machine
  import opened X86
  import opened Stub

  /** Where the target's libc may write: data of its own, and the stack from `lo` up to its frame. */
  datatype Room = Room(owned: iset<int>, lo: int)

  /** rbx, rbp and r12 to r15 are as they were. */
  predicate KeepsSaved(s: State, t: State) {
    && Get(t, RBX) == Get(s, RBX) && Get(t, RBP) == Get(s, RBP)
    && Get(t, 12) == Get(s, 12) && Get(t, 13) == Get(s, 13) && Get(t, 14) == Get(s, 14) && Get(t, 15) == Get(s, 15)
  }

  /** The saved registers and the ones that carry the injector's arguments to the call. */
  predicate SameArgs(s: State, t: State) {
    KeepsSaved(s, t) && Get(t, RDI) == Get(s, RDI) && Get(t, RCX) == Get(s, RCX)
  }

  /** Memory is the same outside libc's data and the stack below `sp`. */
  ghost predicate SameOutside(m: Mem, k: Mem, room: Room, sp: int) {
    |m| == |k| &&
    forall x :: 0 <= x < |m| && x !in room.owned && !(room.lo <= x < sp) ==> k[x] == m[x]
  }

  /** Memory is the same outside the stack below `sp`. */
  ghost predicate StackOnly(m: Mem, k: Mem, room: Room, sp: int) {
    |m| == |k| && forall x :: 0 <= x < |m| && !(room.lo <= x < sp) ==> k[x] == m[x]
  }

  lemma StackOnlyTwice(m: Mem, k: Mem, l: Mem, room: Room, sp: int)
    requires StackOnly(m, k, room, sp) && StackOnly(k, l, room, sp)
    ensures StackOnly(m, l, room, sp)
  {
  }

  lemma SameOutsideTwice(m: Mem, k: Mem, l: Mem, room: Room, sp: int)
    requires SameOutside(m, k, room, sp) && SameOutside(k, l, room, sp)
    ensures SameOutside(m, l, room, sp)
  {
  }

  /**
   * A call keeps to the System V AMD64 ABI, sections 3.2.1 to 3.2.3: it returns behind its call with
   * the stack pointer popped, keeps rbx, rbp and r12 to r15, and writes only where libc may.
   */
  ghost predicate Conforms(w: World, room: Room, s: State) {
    var t := w.routine.Do(s);
    var sp: int := Get(s, RSP);
    Mapped(s.mem, sp, 8) ==>
      && t.regs.rip == Read64(s.mem, sp)
      && Get(t, RSP) == Add64(Get(s, RSP), 8)
      && KeepsSaved(s, t)
      && SameOutside(s.mem, t.mem, room, sp + 8)
  }

  /** One injected call: the processor, the stub at `base`, and the stack pointer it starts with. */
  datatype Call = Call(isa: Isa, w: World, room: Room, which: Which, code: seq<Byte>, base: int, sp: int, len: nat)

  /** Stub, stack and libc have disjoint places. */
  ghost predicate Placed(c: Call) {
    && Runs(c.isa, c.w) && Faithful(c.code, c.which)
    && c.len <= TWO_64
    && 0 <= c.base && c.base + StubSize(c.which) <= c.len
    && 0 <= c.room.lo && c.room.lo + 64 <= c.sp && c.sp + 8 <= c.len
    && (c.base + StubSize(c.which) <= c.room.lo || c.sp <= c.base)
    && (forall x :: c.base <= x < c.base + StubSize(c.which) || c.room.lo <= x < c.sp ==> x !in c.room.owned)
    && (forall a: Word :: c.w.Entry(a) ==> !(c.base <= a < c.base + StubSize(c.which)))
    && (forall r, x :: r in c.w.text && x in c.w.text[r] ==>
          x !in c.room.owned && !(c.room.lo <= x < c.sp) && !(c.base <= x < c.base + StubSize(c.which)))
  }

  /** The routine's code is given, and it begins with no trap. */
  predicate Callable(w: World, r: Word) {
    w.Entry(r) && r in w.text && r in w.text[r] && w.text[r][r] != INT3
  }

  /** `k` instructions on. */
  function Ahead(isa: Isa, s: State, k: nat): (t: State)
    ensures |t.mem| == |s.mem|
    decreases k
  {
    if k == 0 then s else Ahead(isa, isa.Do(s), k - 1)
  }

  /** The routine that is entered after `k` instructions keeps to the ABI in this call. */
  ghost predicate Good(c: Call, s: State, k: nat) {
    Conforms(c.w, c.room, Ahead(c.isa, s, k))
  }

  /** The words pushed below `sp`, the first one on top of the list. */
  ghost predicate Words(m: Mem, sp: int, ws: seq<Word>) {
    forall i :: 0 <= i < |ws| ==> Mapped(m, sp - 8 * i - 8, 8) && Read64(m, sp - 8 * i - 8) == ws[i]
  }

  /** The stub is executing `off` bytes into its code with the words `ws` on the stack. */
  ghost predicate In(c: Call, s: State, off: nat, ws: seq<Word>) {
    && |s.mem| == c.len
    && HasCode(s.mem, c.base, c.code)
    && s.regs.rip == c.base + off && off < StubSize(c.which)
    && Get(s, RSP) == c.sp - 8 * |ws| && |ws| <= 6
    && Words(s.mem, c.sp, ws)
    && TextIntact(c.w, s.mem)
  }

  // ----- single instructions

  lemma InDecodes(c: Call, s: State, off: nat, ws: seq<Word>)
    requires Placed(c) && In(c, s, off, ws) && !InstrAt(c.which, off).instr.Unmodelled?
    ensures !c.w.Entry(s.regs.rip) && Decode(s.mem, s.regs.rip) == InstrAt(c.which, off)
  {
  }

  lemma ModelledIsNoTrap(s: State)
    requires !Decode(s.mem, s.regs.rip).instr.Unmodelled?
    ensures !AtInt3(s)
  {
  }

  /** `t` follows `s` after `k` instructions, none of them an `int3`; `es` are the libc routines entered. */
  ghost predicate LeadsTo(c: Call, s: State, t: State, k: nat, es: seq<State>)
    decreases k
  {
    if k == 0 then s == t && es == []
    else
      !AtInt3(s) &&
      if c.w.Entry(s.regs.rip) then es != [] && es[0] == s && LeadsTo(c, c.isa.Do(s), t, k - 1, es[1..])
      else LeadsTo(c, c.isa.Do(s), t, k - 1, es)
  }

  /** The run from `s` is stopped by an `int3` in `t`, after at most `n` other instructions. */
  ghost predicate Stops(c: Call, s: State, n: nat, t: State, es: seq<State>) {
    RunToTrap(c.isa, s, n) == Some(t) && Entered(c.w, RunStates(c.isa, s, n)) == es
  }

  lemma {:induction false} LeadsJoin(c: Call, s: State, t: State, k: nat, a: seq<State>, u: State, j: nat,
                                      b: seq<State>)
    requires LeadsTo(c, s, t, k, a) && LeadsTo(c, t, u, j, b)
    ensures LeadsTo(c, s, u, k + j, a + b)
    decreases k
  {
    if k == 0 {
      assert a + b == b;
    } else if c.w.Entry(s.regs.rip) {
      LeadsJoin(c, c.isa.Do(s), t, k - 1, a[1..], u, j, b);
      assert (a + b)[1..] == a[1..] + b;
    } else {
      LeadsJoin(c, c.isa.Do(s), t, k - 1, a, u, j, b);
    }
  }

  /** One of the two parts enters no routine. */
  lemma LeadsOn(c: Call, s: State, t: State, k: nat, u: State, j: nat, es: seq<State>)
    requires (LeadsTo(c, s, t, k, []) && LeadsTo(c, t, u, j, es)) ||
             (LeadsTo(c, s, t, k, es) && LeadsTo(c, t, u, j, []))
    ensures LeadsTo(c, s, u, k + j, es)
  {
    assert [] + es == es == es + [];
    if LeadsTo(c, s, t, k, []) && LeadsTo(c, t, u, j, es) {
      LeadsJoin(c, s, t, k, [], u, j, es);
    } else {
      LeadsJoin(c, s, t, k, es, u, j, []);
    }
  }

  lemma {:induction false} LeadsToStop(c: Call, s: State, t: State, k: nat, a: seq<State>, n: nat, u: State,
                                        b: seq<State>)
    requires LeadsTo(c, s, t, k, a) && Stops(c, t, n, u, b)
    ensures Stops(c, s, k + n, u, a + b)
    decreases k
  {
    if k == 0 {
      assert a + b == b;
    } else {
      var next := c.isa.Do(s);
      var more := if c.w.Entry(s.regs.rip) then a[1..] else a;
      LeadsToStop(c, next, t, k - 1, more, n, u, b);
      EnteredFirst(c.w, s, RunStates(c.isa, next, k - 1 + n));
      if c.w.Entry(s.regs.rip) {
        assert a + b == [s] + (a[1..] + b);
      } else {
        assert [] + (a + b) == a + b;
      }
    }
  }

  lemma LeadsToTrap(c: Call, s: State, t: State, k: nat, n: nat, u: State, es: seq<State>)
    requires (LeadsTo(c, s, t, k, []) && Stops(c, t, n, u, es)) || (LeadsTo(c, s, t, k, es) && Stops(c, t, n, u, []))
    ensures Stops(c, s, k + n, u, es)
  {
    assert [] + es == es == es + [];
    if LeadsTo(c, s, t, k, []) && Stops(c, t, n, u, es) {
      LeadsToStop(c, s, t, k, [], n, u, es);
    } else {
      LeadsToStop(c, s, t, k, es, n, u, []);
    }
  }

  lemma StopsSooner(c: Call, s: State, n: nat, m: nat, t: State, es: seq<State>)
    requires Stops(c, s, n, t, es) && n <= m
    ensures Stops(c, s, m, t, es)
  {
    FirstTrapIsStable(c.isa, s, n, m);
  }

  lemma {:induction false} AheadOn(c: Call, s: State, u: State, k: nat, j: nat)
    requires LeadsTo(c, s, u, k, [])
    ensures Ahead(c.isa, s, k + j) == Ahead(c.isa, u, j)
    decreases k
  {
    if k > 0 {
      AheadOn(c, c.isa.Do(s), u, k - 1, j);
    }
  }

  lemma GoodOn(c: Call, s: State, u: State, k: nat, j: nat)
    requires LeadsTo(c, s, u, k, []) && Good(c, s, k + j)
    ensures Good(c, u, j)
  {
    AheadOn(c, s, u, k, j);
  }

  lemma OneStep(c: Call, s: State, d: Decoded)
    requires Runs(c.isa, c.w) && !c.w.Entry(s.regs.rip)
    requires Decode(s.mem, s.regs.rip) == d && !d.instr.Unmodelled?
    ensures LeadsTo(c, s, Execute(c.w, s, d), 1, [])
  {
    ModelledIsNoTrap(s);
    assert c.isa.Do(s) == Processor(c.w, s);
  }

  lemma RoutineStep(c: Call, s: State)
    requires Runs(c.isa, c.w) && c.w.Entry(s.regs.rip) && CodeIntact(c.w, s.regs.rip, s.mem) && !AtInt3(s)
    ensures LeadsTo(c, s, c.w.routine.Do(s), 1, [s])
  {
    assert c.isa.Do(s) == Processor(c.w, s);
    assert [s][1..] == [];
  }

  function Pushed(s: State, v: Word, rip: Word): State
    requires CanPush(s)
  {
    State(Regs(s.regs.gpr[RSP := Get(s, RSP) - 8], rip, s.regs.rest), Write64(s.mem, Get(s, RSP) - 8, v))
  }

  lemma ExecutePush(w: World, s: State, r: RegNo, len: nat)
    requires CanPush(s)
    ensures Execute(w, s, Decoded(Push(r), len)) == Pushed(s, Get(s, r), Add64(s.regs.rip, len))
  {
  }

  lemma ExecuteCall(w: World, s: State, r: RegNo, len: nat)
    requires CanPush(s)
    ensures Execute(w, s, Decoded(CallReg(r), len)) == Pushed(s, Add64(s.regs.rip, len), Get(s, r))
  {
  }

  // ----- the stack as a list of words

  lemma WordKept(m: Mem, k: Mem, a: int)
    requires |m| == |k| && Mapped(m, a, 8) && forall x :: a <= x < a + 8 ==> k[x] == m[x]
    ensures Read64(k, a) == Read64(m, a)
  {
    SameValue(m, k, a, 8);
  }

  lemma WordsKept(m: Mem, k: Mem, sp: int, ws: seq<Word>)
    requires Words(m, sp, ws) && |k| == |m|
    requires forall x :: 0 <= x < |m| && sp - 8 * |ws| <= x < sp ==> k[x] == m[x]
    ensures Words(k, sp, ws)
  {
    forall i | 0 <= i < |ws|
      ensures Mapped(k, sp - 8 * i - 8, 8) && Read64(k, sp - 8 * i - 8) == ws[i]
    {
      WordKept(m, k, sp - 8 * i - 8);
    }
  }

  /** Storing the next word below the others. */
  lemma WordPushed(m: Mem, sp: int, ws: seq<Word>, v: Word)
    requires Words(m, sp, ws) && Mapped(m, sp - 8 * |ws| - 8, 8)
    ensures Words(Write64(m, sp - 8 * |ws| - 8, v), sp, ws + [v])
  {
    var a := sp - 8 * |ws| - 8;
    var k := Write64(m, a, v);
    WordsKept(m, k, sp, ws);
    ReadWrite64(m, a, v, a);
  }

  /** The stub is not disturbed by a store into its stack. */
  lemma PushKeeps(c: Call, m: Mem, k: Mem)
    requires Placed(c) && |m| == c.len && HasCode(m, c.base, c.code) && TextIntact(c.w, m)
    requires SameOutside(m, k, c.room, c.sp)
    ensures HasCode(k, c.base, c.code) && TextIntact(c.w, k)
  {
    forall r | r in c.w.text
      ensures CodeIntact(c.w, r, k)
    {
      assert CodeIntact(c.w, r, m);
      forall x | x in c.w.text[r]
        ensures 0 <= x < |k| && k[x] == c.w.text[r][x]
      {
        assert x !in c.room.owned;
      }
    }
  }

  lemma PushedIsIn(c: Call, s: State, off: nat, ws: seq<Word>, v: Word, t: State, next: nat)
    requires Placed(c) && In(c, s, off, ws) && |ws| < 6 && CanPush(s) && next < StubSize(c.which)
    requires t == Pushed(s, v, c.base + next)
    ensures In(c, t, next, ws + [v]) && StackOnly(s.mem, t.mem, c.room, c.sp)
  {
    WordPushed(s.mem, c.sp, ws, v);
    PushKeeps(c, s.mem, t.mem);
  }

  lemma NextRip(c: Call, s: State, off: nat, ws: seq<Word>, len: nat)
    requires Placed(c) && In(c, s, off, ws) && off + len < StubSize(c.which)
    ensures Add64(s.regs.rip, len) == c.base + off + len
  {
  }

  /** The stub's instruction is the one that the processor executes. */
  lemma InStep(c: Call, s: State, off: nat, ws: seq<Word>, d: Decoded)
    requires Placed(c) && In(c, s, off, ws) && d == InstrAt(c.which, off) && !d.instr.Unmodelled?
    requires off + d.len < StubSize(c.which)
    ensures LeadsTo(c, s, Execute(c.w, s, d), 1, []) && Add64(s.regs.rip, d.len) == c.base + off + d.len
  {
    InDecodes(c, s, off, ws);
    OneStep(c, s, d);
    NextRip(c, s, off, ws, d.len);
  }

  // ----- the stub's instructions

  lemma PushRuns(c: Call, s: State, off: nat, ws: seq<Word>, r: RegNo, len: nat)
    requires Placed(c) && In(c, s, off, ws) && |ws| < 6
    requires InstrAt(c.which, off) == Decoded(Push(r), len) && off + len < StubSize(c.which)
    ensures CanPush(s)
    ensures LeadsTo(c, s, Pushed(s, Get(s, r), c.base + off + len), 1, [])
  {
    InStep(c, s, off, ws, Decoded(Push(r), len));
    ExecutePush(c.w, s, r, len);
  }

  lemma PushStep(c: Call, s: State, off: nat, ws: seq<Word>, r: RegNo, v: Word, len: nat)
    returns (t: State)
    requires Placed(c) && In(c, s, off, ws) && |ws| < 6 && v == Get(s, r)
    requires InstrAt(c.which, off) == Decoded(Push(r), len) && off + len < StubSize(c.which)
    ensures Get(s, RSP) >= 8 && t.regs.gpr == s.regs.gpr[RSP := Get(s, RSP) - 8]
    ensures LeadsTo(c, s, t, 1, [])
    ensures In(c, t, off + len, ws + [v]) && StackOnly(s.mem, t.mem, c.room, c.sp)
  {
    PushRuns(c, s, off, ws, r, len);
    t := Pushed(s, v, c.base + off + len);
    PushedIsIn(c, s, off, ws, v, t, off + len);
  }

  function PutTo(s: State, r: RegNo, v: Word, rip: Word): State {
    State(Regs(s.regs.gpr[r := v], rip, s.regs.rest), s.mem)
  }

  /** A move or the zeroing idiom that leaves `v` in `r`. */
  predicate Puts(s: State, i: Instr, r: RegNo, v: Word) {
    match i
    case MovReg(dst, src) => dst == r && v == Get(s, src)
    case MovImm(dst, imm) => dst == r && v == imm
    case ZeroReg(dst) => dst == r && v == 0
    case _ => false
  }

  lemma ExecutePut(w: World, s: State, d: Decoded, r: RegNo, v: Word)
    requires Puts(s, d.instr, r, v)
    ensures Execute(w, s, d) == PutTo(s, r, v, Add64(s.regs.rip, d.len))
  {
  }

  lemma PutRuns(c: Call, s: State, off: nat, ws: seq<Word>, r: RegNo, v: Word)
    requires Placed(c) && In(c, s, off, ws) && Puts(s, InstrAt(c.which, off).instr, r, v)
    requires off + InstrAt(c.which, off).len < StubSize(c.which)
    ensures LeadsTo(c, s, PutTo(s, r, v, c.base + off + InstrAt(c.which, off).len), 1, [])
  {
    var d := InstrAt(c.which, off);
    InStep(c, s, off, ws, d);
    ExecutePut(c.w, s, d, r, v);
  }

  /** Nothing but registers changed, and not the stack pointer. */
  lemma StaysIn(c: Call, s: State, off: nat, ws: seq<Word>, t: State, next: nat)
    requires Placed(c) && In(c, s, off, ws) && next < StubSize(c.which)
    requires t.mem == s.mem && t.regs.rip == c.base + next && Get(t, RSP) == Get(s, RSP)
    ensures In(c, t, next, ws)
  {
  }

  lemma PutStep(c: Call, s: State, off: nat, ws: seq<Word>, r: RegNo, v: Word) returns (t: State)
    requires Placed(c) && In(c, s, off, ws) && r != RSP
    requires Puts(s, InstrAt(c.which, off).instr, r, v)
    requires off + InstrAt(c.which, off).len < StubSize(c.which)
    ensures t.mem == s.mem && t.regs.gpr == s.regs.gpr[r := v]
    ensures In(c, t, off + InstrAt(c.which, off).len, ws)
    ensures LeadsTo(c, s, t, 1, [])
  {
    PutRuns(c, s, off, ws, r, v);
    var next := off + InstrAt(c.which, off).len;
    t := PutTo(s, r, v, c.base + next);
    StaysIn(c, s, off, ws, t, next);
  }

  function PopTo(s: State, r: RegNo, v: Word, rip: Word): State
    requires Get(s, RSP) + 8 < TWO_64
  {
    State(Regs(s.regs.gpr[RSP := Get(s, RSP) + 8][r := v], rip, s.regs.rest), s.mem)
  }

  lemma ExecutePop(w: World, s: State, r: RegNo, len: nat)
    requires Mapped(s.mem, Get(s, RSP), 8) && Get(s, RSP) + 8 < TWO_64
    ensures Execute(w, s, Decoded(Pop(r), len))
         == PopTo(s, r, Read64(s.mem, Get(s, RSP)), Add64(s.regs.rip, len))
  {
  }

  lemma TopWord(c: Call, s: State, off: nat, ws: seq<Word>)
    requires Placed(c) && In(c, s, off, ws) && ws != []
    ensures Mapped(s.mem, Get(s, RSP), 8) && Read64(s.mem, Get(s, RSP)) == ws[|ws| - 1]
    ensures Get(s, RSP) + 8 < TWO_64
  {
    var i := |ws| - 1;
    assert Read64(s.mem, c.sp - 8 * i - 8) == ws[i];
  }

  lemma PopRuns(c: Call, s: State, off: nat, ws: seq<Word>, r: RegNo, len: nat)
    requires Placed(c) && In(c, s, off, ws) && ws != []
    requires InstrAt(c.which, off) == Decoded(Pop(r), len) && off + len < StubSize(c.which)
    ensures Get(s, RSP) + 8 < TWO_64
    ensures LeadsTo(c, s, PopTo(s, r, ws[|ws| - 1], c.base + off + len), 1, [])
  {
    TopWord(c, s, off, ws);
    InStep(c, s, off, ws, Decoded(Pop(r), len));
    ExecutePop(c.w, s, r, len);
  }

  lemma PoppedIsIn(c: Call, s: State, off: nat, ws: seq<Word>, t: State, next: nat)
    requires Placed(c) && In(c, s, off, ws) && ws != [] && next < StubSize(c.which)
    requires t.mem == s.mem && t.regs.rip == c.base + next && Get(t, RSP) == Get(s, RSP) + 8
    ensures In(c, t, next, ws[..|ws| - 1])
  {
  }

  /** Popping hands out the word pushed last. */
  lemma PopStep(c: Call, s: State, off: nat, ws: seq<Word>, v: Word, r: RegNo, len: nat)
    returns (t: State)
    requires Placed(c) && In(c, s, off, ws + [v]) && r != RSP
    requires InstrAt(c.which, off) == Decoded(Pop(r), len) && off + len < StubSize(c.which)
    ensures Get(s, RSP) + 8 < TWO_64 && t.mem == s.mem
    ensures t.regs.gpr == s.regs.gpr[RSP := Get(s, RSP) + 8][r := v]
    ensures LeadsTo(c, s, t, 1, [])
    ensures In(c, t, off + len, ws)
  {
    PopRuns(c, s, off, ws + [v], r, len);
    t := PopTo(s, r, v, c.base + off + len);
    PoppedIsIn(c, s, off, ws + [v], t, off + len);
    assert (ws + [v])[..|ws + [v]| - 1] == ws;
  }

  lemma EntryIsNoTrap(c: Call, s: State, off: nat, ws: seq<Word>, v: Word, a: Word)
    requires Placed(c) && In(c, s, off, ws) && |ws| < 6 && CanPush(s) && Callable(c.w, a)
    ensures !AtInt3(Pushed(s, v, a)) && CodeIntact(c.w, a, Pushed(s, v, a).mem)
  {
    var t := Pushed(s, v, a);
    PushKeeps(c, s.mem, t.mem);
    assert CodeIntact(c.w, a, t.mem);
    assert t.mem[a] == c.w.text[a][a];
  }

  lemma CallRuns(c: Call, s: State, off: nat, ws: seq<Word>, r: RegNo, len: nat)
    requires Placed(c) && In(c, s, off, ws) && |ws| < 6
    requires InstrAt(c.which, off) == Decoded(CallReg(r), len) && off + len < StubSize(c.which)
    ensures CanPush(s)
    ensures LeadsTo(c, s, Pushed(s, c.base + off + len, Get(s, r)), 1, [])
  {
    InStep(c, s, off, ws, Decoded(CallReg(r), len));
    ExecuteCall(c.w, s, r, len);
  }

  lemma CallReturns(c: Call, s: State, off: nat, ws: seq<Word>, e: State, next: nat)
    requires Placed(c) && In(c, s, off, ws) && |ws| < 6 && CanPush(s) && next < StubSize(c.which)
    requires Conforms(c.w, c.room, e)
    requires e == Pushed(s, c.base + next, e.regs.rip)
    ensures var t := c.w.routine.Do(e);
            In(c, t, next, ws) && KeepsSaved(s, t) && SameOutside(s.mem, t.mem, c.room, c.sp)
  {
    var t := c.w.routine.Do(e);
    var sp := Get(s, RSP) - 8;
    ReadWrite64(s.mem, sp, c.base + next, sp);
    assert SameOutside(s.mem, t.mem, c.room, c.sp - 8 * |ws|);
    WordsKept(s.mem, t.mem, c.sp, ws);
    PushKeeps(c, s.mem, t.mem);
  }

  lemma EnterAndReturn(c: Call, s: State, off: nat, ws: seq<Word>, r: RegNo, len: nat)
    returns (e: State, t: State)
    requires Placed(c) && In(c, s, off, ws) && |ws| < 6 && Callable(c.w, Get(s, r)) && Good(c, s, 1)
    requires InstrAt(c.which, off) == Decoded(CallReg(r), len) && off + len < StubSize(c.which)
    ensures CanPush(s) && e == Pushed(s, c.base + off + len, Get(s, r)) && t == c.w.routine.Do(e)
    ensures LeadsTo(c, s, t, 2, [e]) && Conforms(c.w, c.room, e)
  {
    CallRuns(c, s, off, ws, r, len);
    e := Pushed(s, c.base + off + len, Get(s, r));
    t := c.w.routine.Do(e);
    EntryIsNoTrap(c, s, off, ws, c.base + off + len, Get(s, r));
    GoodOn(c, s, e, 1, 0);
    RoutineStep(c, e);
    LeadsOn(c, s, e, 1, t, 1, [e]);
  }

  /** A call of a libc routine and its return: the stack is as before, and so are the saved registers. */
  lemma CallStep(c: Call, s: State, off: nat, ws: seq<Word>, r: RegNo, len: nat)
    returns (e: State, t: State)
    requires Placed(c) && In(c, s, off, ws) && |ws| < 6 && Callable(c.w, Get(s, r)) && Good(c, s, 1)
    requires InstrAt(c.which, off) == Decoded(CallReg(r), len) && off + len < StubSize(c.which)
    ensures Get(s, RSP) >= 8 && e.regs.gpr == s.regs.gpr[RSP := Get(s, RSP) - 8] && e.regs.rip == Get(s, r)
    ensures StackOnly(s.mem, e.mem, c.room, c.sp) && t == c.w.routine.Do(e)
    ensures LeadsTo(c, s, t, 2, [e])
    ensures In(c, t, off + len, ws) && KeepsSaved(s, t) && SameOutside(s.mem, t.mem, c.room, c.sp)
  {
    e, t := EnterAndReturn(c, s, off, ws, r, len);
    CallReturns(c, s, off, ws, e, off + len);
  }

  /** An `int3` of the stub is where the run stops, with `rip` behind it. */
  lemma StopStep(c: Call, s: State, off: nat, ws: seq<Word>) returns (t: State)
    requires Placed(c) && In(c, s, off, ws) && StopAt(c.which, off)
    ensures t.mem == s.mem && t.regs.gpr == s.regs.gpr
    ensures Stops(c, s, 0, t, [])
    ensures off + 1 < StubSize(c.which) ==> In(c, t, off + 1, ws)
  {
    t := MoveRip(s, 1);
    if off + 1 < StubSize(c.which) {
      StaysIn(c, s, off, ws, t, off + 1);
    }
  }

  // ----- from stop to stop

  lemma PushTwo(c: Call, s: State, ws: seq<Word>, dlopen: Word, r9: Word) returns (t: State)
    requires Placed(c) && c.which == Inject && In(c, s, 2, ws) && |ws| <= 2
    requires dlopen == Get(s, RDX) && r9 == Get(s, R9)
    ensures LeadsTo(c, s, t, 2, []) && StackOnly(s.mem, t.mem, c.room, c.sp) && SameArgs(s, t)
    ensures In(c, t, 5, ws + [dlopen] + [r9])
  {
    var s1 := PushStep(c, s, 2, ws, RDX, dlopen, 1);
    t := PushStep(c, s1, 3, ws + [dlopen], R9, r9, 2);
    LeadsOn(c, s, s1, 1, t, 1, []);
    StackOnlyTwice(s.mem, s1.mem, t.mem, c.room, c.sp);
  }

  lemma LoadForMalloc(c: Call, s: State, ws: seq<Word>) returns (t: State)
    requires Placed(c) && c.which == Inject && In(c, s, 5, ws)
    ensures LeadsTo(c, s, t, 2, []) && In(c, t, 11, ws) && t.mem == s.mem && KeepsSaved(s, t)
    ensures Get(t, R9) == Get(s, RDI) && Get(t, RDI) == Get(s, RCX) && Get(t, RSP) == Get(s, RSP)
  {
    var s1 := PutStep(c, s, 5, ws, R9, Get(s, RDI));
    t := PutStep(c, s1, 8, ws, RDI, Get(s, RCX));
    LeadsOn(c, s, s1, 1, t, 1, []);
  }

  /** malloc is called with the length as its argument. */
  lemma CallMalloc(c: Call, s: State, ws: seq<Word>) returns (e: State, t: State)
    requires Placed(c) && c.which == Inject && In(c, s, 5, ws) && |ws| <= 4
    requires Callable(c.w, Get(s, RDI)) && Good(c, s, 3)
    ensures LeadsTo(c, s, t, 4, [e]) && In(c, t, 14, ws)
    ensures e.regs.rip == Get(s, RDI) && Get(e, RDI) == Get(s, RCX) && t == c.w.routine.Do(e)
    ensures SameOutside(s.mem, t.mem, c.room, c.sp) && KeepsSaved(s, t)
    ensures Get(e, RSP) == c.sp - 8 * |ws| - 8
  {
    var s2 := LoadForMalloc(c, s, ws);
    GoodOn(c, s, s2, 2, 1);
    e, t := CallStep(c, s2, 11, ws, R9, 3);
    LeadsOn(c, s, s2, 2, t, 2, [e]);
  }

  /** Up to the entry of malloc nothing depends on what libc is. */
  lemma ReachMalloc(c: Call, s: State, ws: seq<Word>) returns (e: State)
    requires Placed(c) && c.which == Inject && In(c, s, 5, ws) && |ws| <= 4
    ensures LeadsTo(c, s, e, 3, []) && e.regs.rip == Get(s, RDI) && StackOnly(s.mem, e.mem, c.room, c.sp)
  {
    var s2 := LoadForMalloc(c, s, ws);
    CallRuns(c, s2, 11, ws, R9, 3);
    e := Pushed(s2, c.base + 14, Get(s2, R9));
    LeadsOn(c, s, s2, 2, e, 1, []);
  }

  lemma ReachCall(c: Call, s: State, ws: seq<Word>) returns (t: State)
    requires Placed(c) && c.which == Inject && In(c, s, 1, ws) && |ws| <= 1
    ensures LeadsTo(c, s, t, 3, []) && In(c, t, 5, ws + [Get(s, RSI)] + [Get(s, RDX)] + [Get(s, R9)])
    ensures StackOnly(s.mem, t.mem, c.room, c.sp) && Get(t, RDI) == Get(s, RDI) && Get(t, RAX) == Get(s, RAX)
  {
    var s1 := PushStep(c, s, 1, ws, RSI, Get(s, RSI), 1);
    var s2 := PushStep(c, s1, 2, ws + [Get(s, RSI)], RDX, Get(s, RDX), 1);
    LeadsOn(c, s, s1, 1, s2, 1, []);
    t := PushStep(c, s2, 3, ws + [Get(s, RSI)] + [Get(s, RDX)], R9, Get(s, R9), 2);
    LeadsOn(c, s, s2, 2, t, 1, []);
  }

  lemma ReachMallocFromOne(c: Call, s: State, ws: seq<Word>) returns (e: State)
    requires Placed(c) && c.which == Inject && In(c, s, 1, ws) && |ws| <= 1
    ensures LeadsTo(c, s, e, 6, []) && e.regs.rip == Get(s, RDI) && StackOnly(s.mem, e.mem, c.room, c.sp)
  {
    var t := ReachCall(c, s, ws);
    e := ReachMalloc(c, t, ws + [Get(s, RSI)] + [Get(s, RDX)] + [Get(s, R9)]);
    LeadsOn(c, s, t, 3, e, 3, []);
    StackOnlyTwice(s.mem, t.mem, e.mem, c.room, c.sp);
  }

  lemma ReachMallocFrom(c: Call, s: State, off: nat) returns (e: State)
    requires Placed(c) && c.which == Inject && In(c, s, off, []) && (off == 0 || off == 1)
    ensures LeadsTo(c, s, e, 7 - off, []) && e.regs.rip == Get(s, RDI) && StackOnly(s.mem, e.mem, c.room, c.sp)
  {
    if off == 0 {
      var ws := [] + [Get(s, RBP)];
      var u := PushStep(c, s, 0, [], RBP, Get(s, RBP), 1);
      e := ReachMallocFromOne(c, u, ws);
      LeadsOn(c, s, u, 1, e, 6, []);
      StackOnlyTwice(s.mem, u.mem, e.mem, c.room, c.sp);
    } else {
      e := ReachMallocFromOne(c, s, []);
    }
  }

  /** r9 gets its value back and the stub stops. */
  lemma PopR9AndStop(c: Call, s: State, off: nat, ws: seq<Word>, r9: Word) returns (t: State)
    requires Placed(c) && c.which == Inject && In(c, s, off, ws + [r9]) && (off == 14 || off == 39)
    ensures Stops(c, s, 1, t, []) && In(c, t, off + 3, ws)
    ensures t.mem == s.mem && KeepsSaved(s, t) && Get(t, RAX) == Get(s, RAX) && Get(t, R9) == r9
    ensures Words(t.mem, c.sp, ws + [r9])
  {
    var u := PopStep(c, s, off, ws, r9, R9, 2);
    t := StopStep(c, u, off + 2, ws);
    LeadsToTrap(c, s, u, 1, 0, t, []);
  }

  lemma FromByteTwo(c: Call, s: State, ws: seq<Word>, dlopen: Word, r9: Word) returns (e: State, t: State)
    requires Placed(c) && c.which == Inject && In(c, s, 2, ws) && |ws| <= 2
    requires Callable(c.w, Get(s, RDI)) && Good(c, s, 5)
    requires dlopen == Get(s, RDX) && r9 == Get(s, R9)
    ensures Stops(c, s, 7, t, [e])
    ensures e.regs.rip == Get(s, RDI) && Get(e, RDI) == Get(s, RCX)
    ensures Get(t, RAX) == Get(c.w.routine.Do(e), RAX) && Get(t, R9) == r9
    ensures In(c, t, 17, ws + [dlopen]) && SameOutside(s.mem, t.mem, c.room, c.sp) && KeepsSaved(s, t)
    ensures Get(e, RSP) == c.sp - 8 * |ws| - 24
    ensures Words(t.mem, c.sp, ws + [dlopen] + [r9])
  {
    var u := PushTwo(c, s, ws, dlopen, r9);
    var v;
    GoodOn(c, s, u, 2, 3);
    e, v := CallMalloc(c, u, ws + [dlopen] + [r9]);
    t := PopR9AndStop(c, v, 14, ws + [dlopen], r9);
    LeadsOn(c, s, u, 2, v, 4, [e]);
    LeadsToTrap(c, s, v, 6, 1, t, [e]);
    SameOutsideTwice(s.mem, u.mem, v.mem, c.room, c.sp);
  }

  lemma PushFree(c: Call, s: State, ws: seq<Word>, free: Word) returns (t: State)
    requires Placed(c) && c.which == Inject && In(c, s, 1, ws) && |ws| <= 1 && free == Get(s, RSI)
    ensures LeadsTo(c, s, t, 1, []) && In(c, t, 2, ws + [free]) && StackOnly(s.mem, t.mem, c.room, c.sp)
    ensures SameArgs(s, t) && Get(t, RDX) == Get(s, RDX) && Get(t, R9) == Get(s, R9)
  {
    t := PushStep(c, s, 1, ws, RSI, free, 1);
  }

  /**
   * The first stop: malloc has been called with the length in its first argument register, and the
   * addresses of __libc_dlopen_mode and free are on top of the stack.
   */
  lemma FirstStop(c: Call, s: State, ws: seq<Word>) returns (e: State, t: State)
    requires Placed(c) && c.which == Inject && In(c, s, 1, ws) && |ws| <= 1
    requires Callable(c.w, Get(s, RDI)) && Good(c, s, 6)
    ensures Stops(c, s, 8, t, [e])
    ensures e.regs.rip == Get(s, RDI) && Get(e, RDI) == Get(s, RCX)
    ensures Get(t, RAX) == Get(c.w.routine.Do(e), RAX) && Get(t, R9) == Get(s, R9)
    ensures In(c, t, 17, ws + [Get(s, RSI)] + [Get(s, RDX)])
    ensures SameOutside(s.mem, t.mem, c.room, c.sp) && KeepsSaved(s, t)
    ensures Get(e, RSP) == c.sp - 8 * |ws| - 32
    ensures Words(t.mem, c.sp, ws + [Get(s, RSI)] + [Get(s, RDX)] + [Get(s, R9)])
  {
    var free, dlopen, r9 := Get(s, RSI), Get(s, RDX), Get(s, R9);
    var s1 := PushFree(c, s, ws, free);
    GoodOn(c, s, s1, 1, 5);
    e, t := FromByteTwo(c, s1, ws + [free], dlopen, r9);
    LeadsToTrap(c, s, s1, 1, 7, t, [e]);
    SameOutsideTwice(s.mem, s1.mem, t.mem, c.room, c.sp);
  }

  /** pop %rdx; push %r9. */
  lemma TakeDlopen(c: Call, s: State, ws: seq<Word>, dlopen: Word, r9: Word) returns (t: State)
    requires Placed(c) && c.which == Inject && In(c, s, 17, ws + [dlopen]) && |ws| <= 2 && r9 == Get(s, R9)
    ensures LeadsTo(c, s, t, 2, []) && In(c, t, 20, ws + [r9])
    ensures Get(t, RDX) == dlopen && Get(t, RAX) == Get(s, RAX) && KeepsSaved(s, t)
    ensures StackOnly(s.mem, t.mem, c.room, c.sp)
  {
    var s1 := PopStep(c, s, 17, ws, dlopen, RDX, 1);
    t := PushStep(c, s1, 18, ws, R9, r9, 2);
    LeadsOn(c, s, s1, 1, t, 1, []);
  }

  /** __libc_dlopen_mode is called with the buffer and RTLD_LAZY as its arguments. */
  lemma CallDlopen(c: Call, s: State, ws: seq<Word>, dlopen: Word, r9: Word) returns (e: State, t: State)
    requires Placed(c) && c.which == Inject && In(c, s, 17, ws + [dlopen]) && |ws| <= 2
    requires Callable(c.w, dlopen) && Good(c, s, 6)
    requires r9 == Get(s, R9)
    ensures LeadsTo(c, s, t, 7, [e]) && In(c, t, 39, ws + [r9])
    ensures e.regs.rip == dlopen && Get(e, RDI) == Get(s, RAX) && Get(e, RSI) == 1 && t == c.w.routine.Do(e)
    ensures StackOnly(s.mem, e.mem, c.room, c.sp)
    ensures SameOutside(s.mem, t.mem, c.room, c.sp) && KeepsSaved(s, t)
    ensures Get(e, RSP) == c.sp - 8 * |ws| - 16
  {
    var s2 := TakeDlopen(c, s, ws, dlopen, r9);
    GoodOn(c, s, s2, 2, 4);
    e, t := LoadAndCallDlopen(c, s2, ws + [r9], dlopen);
    LeadsOn(c, s, s2, 2, t, 5, [e]);
  }

  lemma LoadForDlopen(c: Call, s: State, ws: seq<Word>, dlopen: Word) returns (t: State)
    requires Placed(c) && c.which == Inject && In(c, s, 20, ws) && dlopen == Get(s, RDX)
    ensures LeadsTo(c, s, t, 3, []) && In(c, t, 36, ws)
    ensures Get(t, R9) == dlopen && Get(t, RDI) == Get(s, RAX) && Get(t, RSI) == 1
    ensures t.mem == s.mem && KeepsSaved(s, t) && Get(t, RSP) == Get(s, RSP)
  {
    var s1 := PutStep(c, s, 20, ws, R9, dlopen);
    var s2 := PutStep(c, s1, 23, ws, RDI, Get(s, RAX));
    LeadsOn(c, s, s1, 1, s2, 1, []);
    t := PutStep(c, s2, 26, ws, RSI, 1);
    LeadsOn(c, s, s2, 2, t, 1, []);
  }

  /** Up to the entry of __libc_dlopen_mode nothing depends on what libc is. */
  lemma ReachDlopen(c: Call, s: State, ws: seq<Word>, dlopen: Word) returns (e: State)
    requires Placed(c) && c.which == Inject && In(c, s, 17, ws + [dlopen]) && |ws| <= 2
    ensures LeadsTo(c, s, e, 6, []) && e.regs.rip == dlopen && StackOnly(s.mem, e.mem, c.room, c.sp)
  {
    var r9 := ws + [Get(s, R9)];
    var s1 := TakeDlopen(c, s, ws, dlopen, Get(s, R9));
    var s2 := LoadForDlopen(c, s1, r9, dlopen);
    LeadsOn(c, s, s1, 2, s2, 3, []);
    CallRuns(c, s2, 36, r9, R9, 3);
    e := Pushed(s2, c.base + 39, Get(s2, R9));
    LeadsOn(c, s, s2, 5, e, 1, []);
  }

  lemma LoadAndCallDlopen(c: Call, s: State, ws: seq<Word>, dlopen: Word) returns (e: State, t: State)
    requires Placed(c) && c.which == Inject && In(c, s, 20, ws) && |ws| <= 3
    requires dlopen == Get(s, RDX) && Callable(c.w, dlopen) && Good(c, s, 4)
    ensures LeadsTo(c, s, t, 5, [e]) && In(c, t, 39, ws)
    ensures e.regs.rip == dlopen && Get(e, RDI) == Get(s, RAX) && Get(e, RSI) == 1 && t == c.w.routine.Do(e)
    ensures StackOnly(s.mem, e.mem, c.room, c.sp)
    ensures SameOutside(s.mem, t.mem, c.room, c.sp) && KeepsSaved(s, t)
    ensures Get(e, RSP) == c.sp - 8 * |ws| - 8
  {
    var s3 := LoadForDlopen(c, s, ws, dlopen);
    GoodOn(c, s, s3, 3, 1);
    e, t := CallStep(c, s3, 36, ws, R9, 3);
    LeadsOn(c, s, s3, 3, t, 2, [e]);
  }

  /** The second stop: __libc_dlopen_mode has been called with the buffer that malloc returned. */
  lemma SecondStop(c: Call, s: State, ws: seq<Word>, dlopen: Word) returns (e: State, t: State)
    requires Placed(c) && c.which == Inject && In(c, s, 17, ws + [dlopen]) && |ws| <= 2
    requires Callable(c.w, dlopen) && Good(c, s, 6)
    ensures Stops(c, s, 8, t, [e])
    ensures e.regs.rip == dlopen && Get(e, RDI) == Get(s, RAX) && Get(e, RSI) == 1
    ensures StackOnly(s.mem, e.mem, c.room, c.sp)
    ensures Get(t, RAX) == Get(c.w.routine.Do(e), RAX) && Get(t, R9) == Get(s, R9)
    ensures In(c, t, 42, ws) && SameOutside(s.mem, t.mem, c.room, c.sp) && KeepsSaved(s, t)
    ensures Get(e, RSP) == c.sp - 8 * |ws| - 16
    ensures Words(t.mem, c.sp, ws + [Get(s, R9)])
  {
    var v;
    e, v := CallDlopen(c, s, ws, dlopen, Get(s, R9));
    t := PopR9AndStop(c, v, 39, ws, Get(s, R9));
    LeadsToTrap(c, s, v, 7, 1, t, [e]);
  }

  /** A store into the last word but one. */
  lemma WordReplaced(m: Mem, sp: int, ws: seq<Word>, gone: Word, last: Word, v: Word)
    requires Words(m, sp, ws + [gone] + [last])
    ensures Mapped(m, sp - 8 * |ws| - 8, 8) && Words(Write64(m, sp - 8 * |ws| - 8, v), sp, ws + [v] + [last])
  {
    var n, was, now := |ws|, ws + [gone] + [last], ws + [v] + [last];
    assert was[n] == gone;
    var k := Write64(m, sp - 8 * n - 8, v);
    forall i | 0 <= i < n + 2
      ensures Mapped(k, sp - 8 * i - 8, 8) && Read64(k, sp - 8 * i - 8) == now[i]
    {
      assert Read64(m, sp - 8 * i - 8) == was[i];
      ReadWrite64(m, sp - 8 * n - 8, v, sp - 8 * i - 8);
    }
  }

  /** mov %rax,%rdi; pop %rsi. */
  lemma TakeFree(c: Call, s: State, ws: seq<Word>, free: Word) returns (t: State)
    requires Placed(c) && c.which == Inject && In(c, s, 42, ws + [free])
    ensures LeadsTo(c, s, t, 2, []) && In(c, t, 46, ws) && t.mem == s.mem
    ensures Get(t, RSI) == free && Get(t, RDI) == Get(s, RAX) && Get(t, RBX) == Get(s, RBX)
  {
    var s1 := PutStep(c, s, 42, ws + [free], RDI, Get(s, RAX));
    t := PopStep(c, s1, 45, ws, free, RSI, 1);
    LeadsOn(c, s, s1, 1, t, 1, []);
  }

  lemma PushReplaces(s: State, sp: int, ws: seq<Word>, gone: Word, last: Word, v: Word, rip: Word)
    requires CanPush(s) && Get(s, RSP) == sp - 8 * |ws| && Words(s.mem, sp, ws + [gone] + [last])
    ensures Words(Pushed(s, v, rip).mem, sp, ws + [v] + [last])
  {
    WordReplaced(s.mem, sp, ws, gone, last, v);
  }

  /** push %rbx, over the word just popped. */
  lemma PushRbx(c: Call, s: State, ws: seq<Word>, free: Word, r9: Word) returns (t: State)
    requires Placed(c) && c.which == Inject && In(c, s, 46, ws) && |ws| <= 2
    requires Words(s.mem, c.sp, ws + [free] + [r9])
    ensures LeadsTo(c, s, t, 1, []) && In(c, t, 47, ws + [Get(s, RBX)])
    ensures Get(t, RSI) == Get(s, RSI) && Get(t, RDI) == Get(s, RDI)
    ensures StackOnly(s.mem, t.mem, c.room, c.sp) && Words(t.mem, c.sp, ws + [Get(s, RBX)] + [r9])
  {
    PushRuns(c, s, 46, ws, RBX, 1);
    t := Pushed(s, Get(s, RBX), c.base + 47);
    PushedIsIn(c, s, 46, ws, Get(s, RBX), t, 47);
    PushReplaces(s, c.sp, ws, free, r9, Get(s, RBX), c.base + 47);
  }

  lemma FetchFree(c: Call, s: State, ws: seq<Word>, free: Word, r9: Word) returns (t: State)
    requires Placed(c) && c.which == Inject && In(c, s, 42, ws + [free]) && |ws| <= 2
    requires Words(s.mem, c.sp, ws + [free] + [r9])
    ensures LeadsTo(c, s, t, 3, []) && In(c, t, 47, ws + [Get(s, RBX)])
    ensures Get(t, RSI) == free && Get(t, RDI) == Get(s, RAX)
    ensures StackOnly(s.mem, t.mem, c.room, c.sp) && Words(t.mem, c.sp, ws + [Get(s, RBX)] + [r9])
  {
    var u := TakeFree(c, s, ws, free);
    t := PushRbx(c, u, ws, free, r9);
    LeadsOn(c, s, u, 2, t, 1, []);
  }

  lemma LoadFree(c: Call, s: State, ws: seq<Word>, free: Word) returns (t: State)
    requires Placed(c) && c.which == Inject && In(c, s, 47, ws) && free == Get(s, RSI)
    ensures Stops(c, s, 2, t, []) && In(c, t, 54, ws) && t.mem == s.mem
    ensures Get(t, RBX) == free && Get(t, RSI) == 0 && Get(t, RDI) == Get(s, RDI)
  {
    var s1 := PutStep(c, s, 47, ws, RBX, free);
    var s2 := PutStep(c, s1, 50, ws, RSI, 0);
    LeadsOn(c, s, s1, 1, s2, 1, []);
    t := StopStep(c, s2, 53, ws);
    LeadsToTrap(c, s, s2, 2, 0, t, []);
  }

  lemma NextIsFree(c: Call, s: State, ws: seq<Word>)
    requires Placed(c) && c.which == Inject && In(c, s, 54, ws)
    ensures Decode(s.mem, s.regs.rip) == Decoded(CallReg(RBX), 2)
  {
    InDecodes(c, s, 54, ws);
  }

  /**
   * The third stop comes before the call of free: rbx holds its address, and the next instruction
   * is `callq *%rbx`. The old rbx has taken the place of free's address on the stack, and r9 is below it.
   */
  lemma ThirdStop(c: Call, s: State, ws: seq<Word>, free: Word, r9: Word) returns (t: State)
    requires Placed(c) && c.which == Inject && In(c, s, 42, ws + [free]) && |ws| <= 2
    requires Words(s.mem, c.sp, ws + [free] + [r9])
    ensures Stops(c, s, 5, t, [])
    ensures In(c, t, 54, ws + [Get(s, RBX)]) && Decode(t.mem, t.regs.rip) == Decoded(CallReg(RBX), 2)
    ensures Get(t, RBX) == free && Get(t, RSI) == 0 && Get(t, RDI) == Get(s, RAX)
    ensures StackOnly(s.mem, t.mem, c.room, c.sp) && Words(t.mem, c.sp, ws + [Get(s, RBX)] + [r9])
  {
    var u := FetchFree(c, s, ws, free, r9);
    t := LoadFree(c, u, ws + [Get(s, RBX)], free);
    LeadsToTrap(c, s, u, 3, 2, t, []);
    NextIsFree(c, t, ws + [Get(s, RBX)]);
  }

  // ----- starting at byte 2

  /**
   * The first stop when the stub starts at its third byte: the push of free is skipped, so the word
   * `top` that the interrupted code had on its stack is in its place.
   */
  lemma FirstStopFromByteTwo(c: Call, s: State, top: Word) returns (e: State, t: State)
    requires Placed(c) && c.which == Inject && In(c, s, 2, [top]) && Callable(c.w, Get(s, RDI)) && Good(c, s, 5)
    ensures Stops(c, s, 7, t, [e])
    ensures Get(t, RAX) == Get(c.w.routine.Do(e), RAX)
    ensures In(c, t, 17, [top] + [Get(s, RDX)])
    ensures SameOutside(s.mem, t.mem, c.room, c.sp) && KeepsSaved(s, t)
  {
    e, t := FromByteTwo(c, s, [top], Get(s, RDX), Get(s, R9));
  }

  // ----- the eject stub

  lemma CallDlclose(c: Call, s: State, ws: seq<Word>) returns (e: State, t: State)
    requires Placed(c) && c.which == Eject && In(c, s, 3, ws) && |ws| <= 2
    requires Callable(c.w, Get(s, RDI)) && Good(c, s, 3)
    ensures LeadsTo(c, s, t, 4, [e]) && In(c, t, 12, ws)
    ensures e.regs.rip == Get(s, RDI) && Get(e, RDI) == Get(s, RCX) && t == c.w.routine.Do(e)
    ensures SameOutside(s.mem, t.mem, c.room, c.sp)
  {
    var s1 := PutStep(c, s, 3, ws, R9, Get(s, RDI));
    var s2 := PutStep(c, s1, 6, ws, RDI, Get(s, RCX));
    LeadsOn(c, s, s1, 1, s2, 1, []);
    GoodOn(c, s, s2, 2, 1);
    e, t := CallStep(c, s2, 9, ws, R9, 3);
    LeadsOn(c, s, s2, 2, t, 2, [e]);
  }

  lemma PopTwo(c: Call, s: State, rbp: Word, r9: Word) returns (t: State)
    requires Placed(c) && c.which == Eject && In(c, s, 12, [rbp] + [r9])
    ensures LeadsTo(c, s, t, 2, []) && In(c, t, 15, []) && t.mem == s.mem && Get(t, RAX) == Get(s, RAX)
  {
    var s1 := PopStep(c, s, 12, [rbp], r9, R9, 2);
    assert [rbp] == [] + [rbp];
    t := PopStep(c, s1, 14, [], rbp, RBP, 1);
    LeadsOn(c, s, s1, 1, t, 1, []);
  }

  lemma PopTwoAndStop(c: Call, s: State, rbp: Word, r9: Word) returns (t: State)
    requires Placed(c) && c.which == Eject && In(c, s, 12, [rbp] + [r9])
    ensures Stops(c, s, 2, t, []) && t.mem == s.mem && Get(t, RAX) == Get(s, RAX)
  {
    var u := PopTwo(c, s, rbp, r9);
    t := StopStep(c, u, 15, []);
    LeadsToTrap(c, s, u, 2, 0, t, []);
  }

  lemma FinishEject(c: Call, s: State, u: State, k: nat, rbp: Word, r9: Word) returns (t: State, e: State)
    requires Placed(c) && c.which == Eject && LeadsTo(c, s, u, k, []) && In(c, u, 3, [rbp] + [r9])
    requires Callable(c.w, Get(u, RDI)) && Good(c, u, 3) && StackOnly(s.mem, u.mem, c.room, c.sp)
    ensures Stops(c, s, k + 6, t, [e])
    ensures e.regs.rip == Get(u, RDI) && Get(e, RDI) == Get(u, RCX)
    ensures Get(t, RAX) == Get(c.w.routine.Do(e), RAX) && SameOutside(s.mem, t.mem, c.room, c.sp)
    ensures Mapped(t.mem, c.sp - 8, 8) && Read64(t.mem, c.sp - 8) == rbp
  {
    var v;
    e, v := CallDlclose(c, u, [rbp] + [r9]);
    assert ([rbp] + [r9])[0] == rbp;
    t := PopTwoAndStop(c, v, rbp, r9);
    LeadsOn(c, s, u, k, v, 4, [e]);
    LeadsToTrap(c, s, v, k + 4, 2, t, [e]);
    SameOutsideTwice(s.mem, u.mem, v.mem, c.room, c.sp);
  }

  lemma PushRbpAndR9(c: Call, s: State, rbp: Word, r9: Word) returns (t: State)
    requires Placed(c) && c.which == Eject && In(c, s, 0, []) && rbp == Get(s, RBP) && r9 == Get(s, R9)
    ensures LeadsTo(c, s, t, 2, []) && In(c, t, 3, [rbp] + [r9]) && StackOnly(s.mem, t.mem, c.room, c.sp)
    ensures Get(t, RDI) == Get(s, RDI) && Get(t, RCX) == Get(s, RCX)
  {
    var s1 := PushStep(c, s, 0, [], RBP, rbp, 1);
    assert [] + [rbp] == [rbp];
    t := PushStep(c, s1, 1, [rbp], R9, r9, 2);
    LeadsOn(c, s, s1, 1, t, 1, []);
  }

  /** The stop of the eject stub from its first byte: dlclose has been called with the handle. */
  lemma EjectStop(c: Call, s: State) returns (e: State, t: State)
    requires Placed(c) && c.which == Eject && In(c, s, 0, []) && Callable(c.w, Get(s, RDI)) && Good(c, s, 5)
    ensures Stops(c, s, 8, t, [e])
    ensures e.regs.rip == Get(s, RDI) && Get(e, RDI) == Get(s, RCX)
    ensures Get(t, RAX) == Get(c.w.routine.Do(e), RAX) && SameOutside(s.mem, t.mem, c.room, c.sp)
  {
    var u := PushRbpAndR9(c, s, Get(s, RBP), Get(s, R9));
    GoodOn(c, s, u, 2, 3);
    t, e := FinishEject(c, s, u, 2, Get(s, RBP), Get(s, R9));
  }

  /**
   * The stop of the eject stub from its third byte, where the push of r9 without its prefix is a push
   * of rcx: dlclose has been called all the same, and no word of the interrupted stack is written.
   */
  lemma EjectStopFromByteTwo(c: Call, s: State, top: Word) returns (e: State, t: State)
    requires Placed(c) && c.which == Eject && In(c, s, 2, [top]) && Callable(c.w, Get(s, RDI)) && Good(c, s, 4)
    ensures Stops(c, s, 7, t, [e])
    ensures e.regs.rip == Get(s, RDI) && Get(e, RDI) == Get(s, RCX)
    ensures Get(t, RAX) == Get(c.w.routine.Do(e), RAX)
    ensures SameOutside(s.mem, t.mem, c.room, c.sp)
    ensures Mapped(t.mem, c.sp - 8, 8) && Read64(t.mem, c.sp - 8) == top
  {
    var u := PushStep(c, s, 2, [top], RCX, Get(s, RCX), 1);
    GoodOn(c, s, u, 1, 3);
    t, e := FinishEject(c, s, u, 1, top, Get(s, RCX));
  }
}
