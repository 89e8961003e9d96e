/** The injector's side: `pdlopen` and `pdlclose` of `hot_swap.cpp`. */
module HotSwap {
  import opened Memory
  import opened Machine
  import opened Ptrace
  import opened X86
  import opened Stub
  import opened Lockstep

  // ----- the trampoline

  /** 48 b8 imm64 ff e0: movabs $f,%rax; jmpq *%rax. */
  function Trampoline(f: Word): (b: seq<Byte>)
    ensures |b| == 12
  {
    [0x48, 0xB8] + Bytes(f, 8) + [0xFF, 0xE0]
  }

  predicate HasTrampoline(m: Mem, a: int, f: Word) {
    Mapped(m, a, 12) && m[a..a + 12] == Trampoline(f)
  }

  lemma TrampolineDecodes(m: Mem, a: int, f: Word)
    requires HasTrampoline(m, a, f)
    ensures Decode(m, a) == Decoded(MovImm(RAX, f), 10)
    ensures Decode(m, a + 10) == Decoded(JmpReg(RAX), 2)
  {
    var b := Trampoline(f);
    forall i | 0 <= i < 12
      ensures m[a + i] == b[i]
    {
      assert m[a..a + 12][i] == m[a + i];
    }
    assert m[a + 0] == 0x48 && m[a + 1] == 0xB8 && m[a + 10] == 0xFF && m[a + 11] == 0xE0;
    forall i | 0 <= i < 8
      ensures m[a + 2 + i] == Digit(f, i)
    {
      assert m[a + (i + 2)] == b[i + 2];
    }
    Pow256Values();
    ValueOfDigits(m, a + 2, 8, f);
    assert Read64(m, a + 2) == f;
  }

  /** The bytes written over a function lead to the replacement in two steps, with only rax changed. */
  lemma TrampolineJumps(isa: Isa, w: World, s: State, f: Word)
    requires Runs(isa, w) && HasTrampoline(s.mem, s.regs.rip, f) && s.regs.rip + 12 <= TWO_64
    requires !w.Entry(s.regs.rip) && forall a: Word :: a == s.regs.rip + 10 ==> !w.Entry(a)
    ensures Steps(isa, s, 2) == State(Regs(s.regs.gpr[RAX := f], f, s.regs.rest), s.mem)
  {
    TrampolineDecodes(s.mem, s.regs.rip, f);
    var t := State(Regs(s.regs.gpr[RAX := f], s.regs.rip + 10, s.regs.rest), s.mem);
    ModelledIsNoTrap(s);
    ModelledIsNoTrap(t);
    assert Processor(w, s) == t;
    assert Processor(w, t) == State(Regs(t.regs.gpr, f, t.regs.rest), t.mem);
    assert Steps(isa, s, 1) == Step(isa, Steps(isa, s, 0));
  }

  // ----- what the injector puts into the target

  /** The buffer `newcode`: all but the last byte of the compiled stub, its RET replaced by an INT 3. */
  function NewCode(code: seq<Byte>, ret: nat): (b: seq<Byte>)
    requires 0 < |code| && ret < |code|
    ensures |b| == |code|
  {
    (code[..|code| - 1] + [0])[ret := INT3]
  }

  /**
   * The compiled function is the assembly of the stub, its RET (0xC3) at `ret`, and padding up to whole
   * words. The eject stub goes up to the trap that takes the place of its RET.
   */
  ghost predicate Compiled(code: seq<Byte>, ret: nat, which: Which) {
    && |code| % 8 == 0 && ret + 1 < |code| && code[ret] == 0xC3
    && (if which.Inject? then 58 <= ret else ret == 15)
    && forall i :: 0 <= i < StubSize(which) && i != ret ==> code[i] == Code(which)[i]
  }

  /** With its RET overwritten by the trap, what is written to the target begins with the stub. */
  lemma NewCodeIsStub(code: seq<Byte>, ret: nat, which: Which)
    requires Compiled(code, ret, which)
    ensures StubSize(which) < |code| && NewCode(code, ret)[ret] == 0xCC
    ensures forall i :: 0 <= i < StubSize(which) ==> NewCode(code, ret)[i] == Code(which)[i]
  {
  }

  /** Memory is the same outside `f`. */
  ghost predicate SameBut(m: Mem, k: Mem, f: iset<int>) {
    |m| == |k| && forall x :: 0 <= x < |m| && x !in f ==> k[x] == m[x]
  }

  predicate Within(x: int, a: int, n: int) {
    a <= x < a + n
  }

  ghost function Range(a: int, n: int): iset<int> {
    iset x: int | Within(x, a, n)
  }

  /** libc's data and the stack below the interrupted stack pointer. */
  ghost function LibcAndStack(room: Room, sp: int): iset<int> {
    iset x: int | x in room.owned || room.lo <= x < sp
  }

  lemma SameButTwice(m: Mem, k: Mem, l: Mem, f: iset<int>)
    requires SameBut(m, k, f) && SameBut(k, l, f)
    ensures SameBut(m, l, f)
  {
  }

  lemma WriteIsLocal(m: Mem, a: int, d: seq<Byte>, f: iset<int>)
    requires Mapped(m, a, |d|) && forall x :: a <= x < a + |d| ==> x in f
    ensures SameBut(m, WriteBytes(m, a, d), f)
  {
  }

  /** After the backup is written back, nothing of the stub's place is changed any more. */
  lemma RestoredFrame(m: Mem, k: Mem, base: int, n: nat, f: iset<int>)
    requires Mapped(m, base, n) && SameBut(m, k, f + Range(base, n))
    ensures SameBut(m, WriteBytes(k, base, ReadBytes(m, base, n)), f)
  {
    forall x | 0 <= x < |m| && x !in f
      ensures WriteBytes(k, base, ReadBytes(m, base, n))[x] == m[x]
    {
    }
  }

  /** A store that misses the stub, its stack and libc's entries leaves the stub where it is. */
  lemma StoreKeepsIn(c: Call, s: State, off: nat, ws: seq<Word>, a: int, d: seq<Byte>)
    requires Placed(c) && In(c, s, off, ws) && Mapped(s.mem, a, |d|) && Clear(c, a, |d|)
    ensures In(c, s.(mem := WriteBytes(s.mem, a, d)), off, ws)
  {
    WordsKept(s.mem, WriteBytes(s.mem, a, d), c.sp, ws);
  }

  /** The range misses the stub's code, the stack below `sp` and the code of libc. */
  ghost predicate Clear(c: Call, a: int, n: nat) {
    && (a + n <= c.base || c.base + StubSize(c.which) <= a)
    && (a + n <= c.room.lo || c.sp <= a)
    && forall r, x :: r in c.w.text && x in c.w.text[r] ==> !(a <= x < a + n)
  }

  /** The stub has just been installed and is about to run from `off`, with `ws` on the stack. */
  lemma Installed(c: Call, m: Mem, code: seq<Byte>, ret: nat, s: State, off: nat, ws: seq<Word>)
    requires Placed(c) && Compiled(code, ret, c.which) && c.code == Code(c.which) && |m| == c.len
    requires Mapped(m, c.base, |code|) && TextIntact(c.w, m)
    requires forall r, x :: r in c.w.text && x in c.w.text[r] ==> !(c.base <= x < c.base + |code|)
    requires s.mem == WriteBytes(m, c.base, NewCode(code, ret))
    requires s.regs.rip == c.base + off && off < StubSize(c.which)
    requires Get(s, RSP) == c.sp - 8 * |ws| && |ws| <= 6 && Words(s.mem, c.sp, ws)
    ensures In(c, s, off, ws)
  {
    NewCodeIsStub(code, ret, c.which);
  }

  lemma StoreKeepsWords(c: Call, m: Mem, ws: seq<Word>, a: int, d: seq<Byte>)
    requires Placed(c) && |m| == c.len && Words(m, c.sp, ws) && |ws| <= 6 && Mapped(m, a, |d|) && Clear(c, a, |d|)
    ensures Words(WriteBytes(m, a, d), c.sp, ws)
  {
    WordsKept(m, WriteBytes(m, a, d), c.sp, ws);
  }

  lemma PushRbp(c: Call, s: State) returns (t: State)
    requires Placed(c) && c.which == Inject && In(c, s, 0, [])
    ensures LeadsTo(c, s, t, 1, []) && In(c, t, 1, [] + [Get(s, RBP)]) && StackOnly(s.mem, t.mem, c.room, c.sp)
    ensures SameArgs(s, t) && Get(t, RSI) == Get(s, RSI) && Get(t, RDX) == Get(s, RDX) && Get(t, R9) == Get(s, R9)
  {
    t := PushStep(c, s, 0, [], RBP, Get(s, RBP), 1);
  }

  /** The first stop of the inject stub for either entry point. */
  lemma StopOne(c: Call, s: State, off: nat) returns (e: State, t: State, ws: seq<Word>)
    requires Placed(c) && c.which == Inject && In(c, s, off, []) && (off == 0 || off == 1)
    requires Callable(c.w, Get(s, RDI)) && Good(c, s, 7 - off)
    ensures Stops(c, s, 9, t, [e])
    ensures e.regs.rip == Get(s, RDI) && Get(e, RDI) == Get(s, RCX)
    ensures Get(t, RAX) == Get(c.w.routine.Do(e), RAX) && Get(t, R9) == Get(s, R9)
    ensures ws == (if off == 0 then [Get(s, RBP)] else [])
    ensures In(c, t, 17, ws + [Get(s, RSI)] + [Get(s, RDX)])
    ensures SameOutside(s.mem, t.mem, c.room, c.sp) && KeepsSaved(s, t)
    ensures Get(e, RSP) == c.sp - 8 * |ws| - 32
    ensures Words(t.mem, c.sp, ws + [Get(s, RSI)] + [Get(s, RDX)] + [Get(s, R9)])
  {
    if off == 0 {
      e, t, ws := StopFromZero(c, s);
    } else {
      ws := [];
      e, t := FirstStop(c, s, []);
      StopsSooner(c, s, 8, 9, t, [e]);
    }
  }

  lemma StopFromZero(c: Call, s: State) returns (e: State, t: State, ws: seq<Word>)
    requires Placed(c) && c.which == Inject && In(c, s, 0, []) && Callable(c.w, Get(s, RDI)) && Good(c, s, 7)
    ensures Stops(c, s, 9, t, [e])
    ensures e.regs.rip == Get(s, RDI) && Get(e, RDI) == Get(s, RCX)
    ensures Get(t, RAX) == Get(c.w.routine.Do(e), RAX) && Get(t, R9) == Get(s, R9)
    ensures ws == [Get(s, RBP)] && In(c, t, 17, ws + [Get(s, RSI)] + [Get(s, RDX)])
    ensures SameOutside(s.mem, t.mem, c.room, c.sp) && KeepsSaved(s, t) && Get(e, RSP) == c.sp - 40
    ensures Words(t.mem, c.sp, ws + [Get(s, RSI)] + [Get(s, RDX)] + [Get(s, R9)])
  {
    var u := PushRbp(c, s);
    ws := [] + [Get(s, RBP)];
    GoodOn(c, s, u, 1, 6);
    e, t := FirstStop(c, u, ws);
    LeadsToTrap(c, s, u, 1, 8, t, [e]);
    SameOutsideTwice(s.mem, u.mem, t.mem, c.room, c.sp);
  }

  // ----- pdlopen

  /** `symaddr_t`: an absolute address, or an offset from the executable's base for ET_DYN. */
  datatype Symbol = Symbol(addr: Word, dynamic: bool)

  /** `orig_func_addr`, as `pdlopen` computes it from the address that the stub was put at. */
  function OrigFunc(f: Symbol, base: Word): Word {
    if f.dynamic then Add64(Add64(f.addr, base), -8) else f.addr
  }

  /** Where the function is in a target whose executable is mapped at `start`. */
  function SiteOf(f: Symbol, start: Word): Word {
    if f.dynamic then Add64(start, f.addr) else f.addr
  }

  /** The stub stands one word above that. */
  lemma OrigFuncIsSite(f: Symbol, start: Word, base: Word)
    requires base == start + 8
    ensures OrigFunc(f, base) == SiteOf(f, start)
  {
    var x: int := f.addr + start;
    assert f.addr + base == x + 8;
    assert ((x + 8) % TWO_64 - 8) % TWO_64 == x % TWO_64;
  }

  datatype Outcome = Exited | Returned(handle: Word)

  /** The registers that the target is started with. */
  function InjectRegs(was: Regs, w: World, rip: Word, len: Word): Regs {
    Regs(was.gpr[RDI := w.mallocAddr][RSI := w.freeAddr][RDX := w.dlopenAddr][RCX := len], rip, was.rest)
  }

  /**
   * The words that `pdlopen` leaves right below the stack pointer, in the red zone of the interrupted
   * function: what the stub pushed there last, as far as it came.
   */
  function Residue(w: World, was: Regs, atStart: bool, buf: Word, handle: Word): seq<Word> {
    (if atStart then [was.gpr[RBP]] else []) + Left(w, was, buf, handle)
  }

  function Left(w: World, was: Regs, buf: Word, handle: Word): seq<Word> {
    if buf == 0 then [w.freeAddr, w.dlopenAddr, was.gpr[R9]]
    else if handle == 0 then [w.freeAddr, was.gpr[R9]]
    else [was.gpr[RBX], was.gpr[R9]]
  }

  /**
   * Everything in its place for `pdlopen`: the stub as compiled, its place free of libc and stack, and
   * the replaced function.
   */
  ghost predicate Ready(c: Call, m: Mem, code: seq<Byte>, ret: nat, site: Word) {
    && c.which == Inject && c.code == INJECT && c.len == |m| && Placed(c)
    && Callable(c.w, c.w.mallocAddr) && Callable(c.w, c.w.dlopenAddr)
    && Compiled(code, ret, Inject) && c.base + |code| <= |m|
    && TextIntact(c.w, m)
    && (forall r, x :: r in c.w.text && x in c.w.text[r] ==> !(c.base <= x < c.base + |code|))
    && (c.base + |code| <= c.room.lo || c.sp <= c.base)
    && Mapped(m, site, 16) && Clear(c, site, 16)
    && (site + 16 <= c.base || c.base + |code| <= site)
  }

  // ----- the two calls that are made

  /** The target when the stub, installed in `st`, is about to run from `off`. */
  function StubState(c: Call, st: State, code: seq<Byte>, ret: nat, off: nat, len: Word): State
    requires 0 < |code| && ret < |code| && Mapped(st.mem, c.base, |code|) && c.base + off < TWO_64
  {
    State(InjectRegs(st.regs, c.w, c.base + off, len), WriteBytes(st.mem, c.base, NewCode(code, ret)))
  }

  /** What malloc returns: rax at the first stop. */
  function BufferAt(c: Call, s: State): Word {
    var stop := RunToTrap(c.isa, s, 9);
    if stop.None? then 0 else Get(stop.value, RAX)
  }

  /** The target at its first stop, with the path in the buffer. */
  function PathStored(c: Call, s: State, path: seq<Byte>): State
    requires BufferAt(c, s) + |path| <= |s.mem| && RunToTrap(c.isa, s, 9).Some?
  {
    var t := RunToTrap(c.isa, s, 9).value;
    t.(mem := WriteBytes(t.mem, BufferAt(c, s), path))
  }

  /**
   * In the states in which the stub enters them, malloc and dlopen keep to the ABI and write only where
   * libc may, and what malloc returns is null or a buffer of its own.
   */
  ghost predicate GoodCalls(c: Call, s: State, off: nat, path: seq<Byte>)
    requires off <= 1
  {
    && Good(c, s, 7 - off)
    && (RunToTrap(c.isa, s, 9).Some? && BufferAt(c, s) != 0 ==>
          && BufferAt(c, s) + |path| <= |s.mem| && Clear(c, BufferAt(c, s), |path|)
          && Good(c, PathStored(c, s, path), 6))
  }

  /** Where `pdlopen` may leave changes: libc's data, the stack below rsp, the buffer, the replaced function. */
  ghost function Footprint(c: Call, buf: Word, n: nat, site: Word, patched: bool): iset<int> {
    LibcAndStack(c.room, c.sp) + (if buf == 0 then iset{} else Range(buf, n)) +
    (if patched then Range(site, 16) else iset{})
  }

  method InstallStub(target: Tracee, base: Word, code: seq<Byte>, ret: nat) returns (ok: bool, backup: array<Byte>)
    requires target.stopped && 0 < |code| && ret < |code| && |code| % 8 == 0
    modifies target`mem
    ensures ok <==> Readable(old(target.mem), base, |code|)
    ensures !ok ==> target.mem == old(target.mem)
    ensures fresh(backup) && backup.Length == |code|
    ensures ok ==> backup[..] == ReadBytes(old(target.mem), base, |code|)
    ensures ok ==> target.mem == WriteBytes(old(target.mem), base, NewCode(code, ret))
  {
    backup := new Byte[|code|](i => 0);
    ok := target.PtraceRead(base, backup, |code|);
    if !ok {
      return;
    }
    assert backup[..] == backup[..|code|];
    var newcode := new Byte[|code|](i requires 0 <= i < |code| => if i < |code| - 1 then code[i] else 0);
    newcode[ret] := INT3;
    assert newcode[..|code|] == NewCode(code, ret);
    ok := target.PtraceWrite(base, newcode, |code|);
  }

  /** The stub's place and what `pdlopen` may change for good. */
  ghost function Busy(c: Call, size: nat, f: iset<int>): iset<int> {
    f + Range(c.base, size)
  }

  lemma LibcIsLocal(c: Call, m: Mem, k: Mem, f: iset<int>)
    requires SameOutside(m, k, c.room, c.sp) && LibcAndStack(c.room, c.sp) <= f
    ensures SameBut(m, k, f)
  {
    forall x | 0 <= x < |m| && x !in f
      ensures k[x] == m[x]
    {
      assert x !in LibcAndStack(c.room, c.sp);
    }
  }

  /** From the installation to the first stop. */
  lemma PhaseOne(c: Call, m: Mem, code: seq<Byte>, ret: nat, s: State, off: nat, f: iset<int>)
    returns (e: State, t: State, ws: seq<Word>)
    requires Placed(c) && c.which == Inject && c.code == INJECT && Compiled(code, ret, Inject) && |m| == c.len
    requires Mapped(m, c.base, |code|) && TextIntact(c.w, m)
    requires forall r, x :: r in c.w.text && x in c.w.text[r] ==> !(c.base <= x < c.base + |code|)
    requires s.mem == WriteBytes(m, c.base, NewCode(code, ret)) && Get(s, RSP) == c.sp
    requires s.regs.rip == c.base + off && (off == 0 || off == 1) && Callable(c.w, Get(s, RDI))
    requires Good(c, s, 7 - off) && LibcAndStack(c.room, c.sp) <= f
    ensures Stops(c, s, 9, t, [e])
    ensures e.regs.rip == Get(s, RDI) && Get(e, RDI) == Get(s, RCX)
    ensures Get(t, RAX) == Get(c.w.routine.Do(e), RAX) && Get(t, R9) == Get(s, R9) && KeepsSaved(s, t)
    ensures ws == if off == 0 then [Get(s, RBP)] else []
    ensures In(c, t, 17, ws + [Get(s, RSI)] + [Get(s, RDX)])
    ensures SameBut(m, t.mem, Busy(c, |code|, f))
    ensures Get(e, RSP) == c.sp - 8 * |ws| - 32
    ensures Words(t.mem, c.sp, ws + [Get(s, RSI)] + [Get(s, RDX)] + [Get(s, R9)])
  {
    Installed(c, m, code, ret, s, off, []);
    e, t, ws := StopOne(c, s, off);
    var b := Busy(c, |code|, f);
    WriteIsLocal(m, c.base, NewCode(code, ret), b);
    LibcIsLocal(c, s.mem, t.mem, b);
    SameButTwice(m, s.mem, t.mem, b);
  }

  /** A store of the injector and what the routines do after it stay within `b`. */
  lemma StoreThenLibc(c: Call, m: Mem, k: Mem, l: Mem, a: int, d: seq<Byte>, b: iset<int>)
    requires SameBut(m, k, b) && Mapped(k, a, |d|) && LibcAndStack(c.room, c.sp) + Range(a, |d|) <= b
    requires SameOutside(WriteBytes(k, a, d), l, c.room, c.sp)
    ensures SameBut(m, l, b)
  {
    assert forall x :: a <= x < a + |d| ==> Within(x, a, |d|);
    WriteIsLocal(k, a, d, b);
    SameButTwice(m, k, WriteBytes(k, a, d), b);
    LibcIsLocal(c, WriteBytes(k, a, d), l, b);
    SameButTwice(m, WriteBytes(k, a, d), l, b);
  }

  /** The stub's own pushes leave a store of the injector alone. */
  lemma BufferKept(c: Call, m: Mem, k: Mem, a: int, d: seq<Byte>)
    requires Mapped(m, a, |d|) && Clear(c, a, |d|) && StackOnly(WriteBytes(m, a, d), k, c.room, c.sp)
    ensures Mapped(k, a, |d|) && ReadBytes(k, a, |d|) == d
  {
    assert forall x :: a <= x < a + |d| ==> Within(x, a, |d|);
  }

  /** From storing the path in the buffer to the second stop. */
  lemma PhaseTwo(c: Call, m: Mem, s: State, ws: seq<Word>, free: Word, dlopen: Word, buf: Word, path: seq<Byte>,
                 b: iset<int>)
    returns (e: State, t: State)
    requires Placed(c) && c.which == Inject && In(c, s, 17, ws + [free] + [dlopen]) && |ws| <= 1
    requires Callable(c.w, dlopen)
    requires Mapped(s.mem, buf, |path|) && Clear(c, buf, |path|) && Good(c, s.(mem := WriteBytes(s.mem, buf, path)), 6)
    requires SameBut(m, s.mem, b) && LibcAndStack(c.room, c.sp) + Range(buf, |path|) <= b
    ensures Stops(c, s.(mem := WriteBytes(s.mem, buf, path)), 8, t, [e])
    ensures e.regs.rip == dlopen && Get(e, RDI) == Get(s, RAX) && Get(e, RSI) == 1
    ensures Mapped(e.mem, buf, |path|) && ReadBytes(e.mem, buf, |path|) == path
    ensures Get(t, RAX) == Get(c.w.routine.Do(e), RAX) && KeepsSaved(s, t)
    ensures In(c, t, 42, ws + [free]) && SameBut(m, t.mem, b)
    ensures Words(t.mem, c.sp, ws + [free] + [Get(s, R9)])
    ensures Get(e, RSP) == c.sp - 8 * |ws| - 24
  {
    var k := WriteBytes(s.mem, buf, path);
    StoreKeepsIn(c, s, 17, ws + [free] + [dlopen], buf, path);
    e, t := SecondStop(c, s.(mem := k), ws + [free], dlopen);
    BufferKept(c, s.mem, e.mem, buf, path);
    StoreThenLibc(c, m, s.mem, t.mem, buf, path, b);
  }

  /** From the second stop, with or without the trampoline, to the third. */
  lemma PhaseThree(c: Call, m: Mem, s: State, ws: seq<Word>, free: Word, r9: Word, site: Word, tramp: seq<Byte>,
                   b: iset<int>)
    returns (t: State)
    requires Placed(c) && c.which == Inject && In(c, s, 42, ws + [free]) && |ws| <= 1
    requires Words(s.mem, c.sp, ws + [free] + [r9])
    requires Mapped(s.mem, site, |tramp|) && Clear(c, site, |tramp|)
    requires SameBut(m, s.mem, b) && LibcAndStack(c.room, c.sp) + Range(site, |tramp|) <= b
    ensures Stops(c, s.(mem := WriteBytes(s.mem, site, tramp)), 5, t, [])
    ensures Get(t, RBX) == free && Decode(t.mem, t.regs.rip) == Decoded(CallReg(RBX), 2)
    ensures In(c, t, 54, ws + [Get(s, RBX)])
    ensures SameBut(m, t.mem, b) && ReadBytes(t.mem, site, |tramp|) == tramp
    ensures Words(t.mem, c.sp, ws + [Get(s, RBX)] + [r9])
  {
    var k := WriteBytes(s.mem, site, tramp);
    StoreKeepsIn(c, s, 42, ws + [free], site, tramp);
    StoreKeepsWords(c, s.mem, ws + [free] + [r9], site, tramp);
    t := ThirdStop(c, s.(mem := k), ws, free, r9);
    BufferKept(c, s.mem, t.mem, site, tramp);
    StoreThenLibc(c, m, s.mem, t.mem, site, tramp, b);
  }

  lemma SameButMore(m: Mem, k: Mem, f: iset<int>, g: iset<int>)
    requires SameBut(m, k, f) && f <= g
    ensures SameBut(m, k, g)
  {
  }

  /** `ptrace_cont`, with the routines that the target enters before its next stop. */
  method Continue(target: Tracee, ghost c: Call, ghost n: nat, ghost t: State, ghost es: seq<State>)
    requires target.stopped && c.isa == target.isa && Stops(c, target.Now(), n, t, es)
    modifies target
    ensures target.stopped && target.Now() == t
    ensures Entered(c.w, target.trace) == Entered(c.w, old(target.trace)) + es
  {
    EnteredJoin(c.w, target.trace, RunStates(target.isa, target.Now(), n));
    var ok := target.PtraceCont(n);
  }

  /** The same for what `pdlopen` has prepared. */
  lemma PhaseOneReady(c: Call, m: Mem, code: seq<Byte>, ret: nat, site: Word, s: State, was: Regs, off: nat, len: Word,
                      f: iset<int>)
    returns (e: State, t: State, ws: seq<Word>)
    requires Ready(c, m, code, ret, site) && (off == 0 || off == 1) && c.base + off < TWO_64 && c.sp == was.gpr[RSP]
    requires s == State(InjectRegs(was, c.w, c.base + off, len), WriteBytes(m, c.base, NewCode(code, ret)))
    requires Good(c, s, 7 - off) && LibcAndStack(c.room, c.sp) <= f
    ensures Stops(c, s, 9, t, [e]) && e.regs.rip == c.w.mallocAddr && Get(e, RDI) == len
    ensures Get(t, RAX) == Get(c.w.routine.Do(e), RAX) && Get(t, RBX) == was.gpr[RBX] && Get(t, R9) == was.gpr[R9]
    ensures ws == if off == 0 then [was.gpr[RBP]] else []
    ensures In(c, t, 17, ws + [c.w.freeAddr] + [c.w.dlopenAddr]) && Get(e, RSP) == c.sp - 8 * |ws| - 32
    ensures Words(t.mem, c.sp, ws + [c.w.freeAddr] + [c.w.dlopenAddr] + [was.gpr[R9]])
    ensures SameBut(m, t.mem, Busy(c, |code|, f))
  {
    StartRegs(s, was, c.w, c.base + off, len);
    e, t, ws := PhaseOne(c, m, code, ret, s, off, f);
  }

  lemma StartRegs(s: State, was: Regs, w: World, rip: Word, len: Word)
    requires s.regs == InjectRegs(was, w, rip, len)
    ensures Get(s, RDI) == w.mallocAddr && Get(s, RSI) == w.freeAddr
    ensures Get(s, RDX) == w.dlopenAddr && Get(s, RCX) == len
    ensures Get(s, RBX) == was.gpr[RBX] && Get(s, RBP) == was.gpr[RBP] && Get(s, R9) == was.gpr[R9]
    ensures Get(s, RSP) == was.gpr[RSP] && s.regs.rip == rip
  {
  }

  /** With registers set and stub installed, the target is run to its first stop. */
  method RunMalloc(target: Tracee, w: World, code: seq<Byte>, ret: nat, off: nat, pathLength: Word,
                   ghost c: Call, ghost m: Mem, ghost was: Regs, ghost site: Word, ghost f: iset<int>)
    returns (ghost e: State, ghost ws: seq<Word>)
    requires target.stopped && c.isa == target.isa && c.w == w && c.sp == was.gpr[RSP]
    requires Ready(c, m, code, ret, site) && (off == 0 || off == 1) && c.base + off < TWO_64
    requires target.mem == WriteBytes(m, c.base, NewCode(code, ret))
    requires target.regs == InjectRegs(was, w, c.base + off, pathLength) && Good(c, target.Now(), 7 - off)
    requires LibcAndStack(c.room, c.sp) <= f
    modifies target
    ensures target.stopped && e.regs.rip == w.mallocAddr && Get(e, RDI) == pathLength
    ensures Get(target.Now(), RAX) == Get(w.routine.Do(e), RAX)
    ensures Get(e, RSP) == c.sp - 8 * |ws| - 32
    ensures ws == if off == 0 then [was.gpr[RBP]] else []
    ensures In(c, target.Now(), 17, ws + [w.freeAddr] + [w.dlopenAddr])
    ensures target.regs.gpr[RBX] == was.gpr[RBX] && target.regs.gpr[R9] == was.gpr[R9]
    ensures Words(target.mem, c.sp, ws + [w.freeAddr] + [w.dlopenAddr] + [was.gpr[R9]])
    ensures SameBut(m, target.mem, Busy(c, |code|, f))
    ensures RunToTrap(c.isa, old(target.Now()), 9) == Some(target.Now())
    ensures Entered(w, target.trace) == Entered(w, old(target.trace)) + [e]
  {
    ghost var t;
    e, t, ws := PhaseOneReady(c, m, code, ret, site, target.Now(), was, off, pathLength, f);
    Continue(target, c, 9, t, [e]);
  }

  /** Registers set, stub installed, and the target run to its first stop. */
  method StartStub(target: Tracee, w: World, code: seq<Byte>, ret: nat, base: Word, injectOffset: nat, rewind: nat,
                   pathLength: Word, ghost c: Call, ghost site: Word, ghost f: iset<int>)
    returns (ok: bool, backup: array<Byte>, ghost e: State, ghost ws: seq<Word>)
    requires target.stopped && c.isa == target.isa && c.w == w && c.base == base && c.sp == Get(target.Now(), RSP)
    requires Ready(c, target.mem, code, ret, site)
    requires (injectOffset == rewind || injectOffset == rewind + 1) && base + injectOffset < TWO_64
    requires LibcAndStack(c.room, c.sp) <= f
    requires Good(c, StubState(c, target.Now(), code, ret, injectOffset - rewind, pathLength),
                  7 - (injectOffset - rewind))
    modifies target
    ensures target.stopped && (ok <==> Readable(old(target.mem), base, |code|))
    ensures !ok ==> target.mem == old(target.mem) && target.regs.rip == base + injectOffset
    ensures !ok ==> target.trace == old(target.trace)
    ensures fresh(backup) && backup.Length == |code|
    ensures ok ==> backup[..] == ReadBytes(old(target.mem), base, |code|)
    ensures ok ==> e.regs.rip == w.mallocAddr && Get(e, RDI) == pathLength
    ensures ok ==> Get(target.Now(), RAX) == Get(w.routine.Do(e), RAX)
    ensures ok ==> Get(e, RSP) == c.sp - 8 * |ws| - 32
    ensures ok ==> ws == if injectOffset == rewind then [old(target.regs).gpr[RBP]] else []
    ensures ok ==> In(c, target.Now(), 17, ws + [w.freeAddr] + [w.dlopenAddr])
    ensures ok ==> target.regs.gpr[RBX] == old(target.regs).gpr[RBX] && target.regs.gpr[R9] == old(target.regs).gpr[R9]
    ensures ok ==> Words(target.mem, c.sp, ws + [w.freeAddr] + [w.dlopenAddr] + [old(target.regs).gpr[R9]])
    ensures ok ==> SameBut(old(target.mem), target.mem, Busy(c, |code|, f))
    ensures ok ==>
              RunToTrap(c.isa, StubState(c, old(target.Now()), code, ret, injectOffset - rewind, pathLength), 9) ==
              Some(target.Now())
    ensures ok ==> Entered(w, target.trace) == Entered(w, old(target.trace)) + [e]
  {
    ghost var m, was := target.mem, target.regs;
    ghost var s0 := StubState(c, target.Now(), code, ret, injectOffset - rewind, pathLength);
    ok := target.SetRegs(InjectRegs(target.regs, w, base + injectOffset, pathLength));
    ok, backup := InstallStub(target, base, code, ret);
    e, ws := target.Now(), [];
    if !ok {
      return;
    }
    target.regs := target.regs.(rip := Add64(target.regs.rip, -(rewind as int)));
    assert target.Now() == s0;
    e, ws := RunMalloc(target, w, code, ret, injectOffset - rewind, pathLength, c, m, was, site, f);
  }

  /** The path stored in the buffer and the target run to its second stop. */
  method RunDlopen(target: Tracee, buf: Word, path: array<Byte>, pathLength: Word,
                   ghost c: Call, ghost m: Mem, ghost ws: seq<Word>, ghost b: iset<int>)
    returns (ghost e: State)
    requires target.stopped && Placed(c) && c.which == Inject && c.isa == target.isa && |ws| <= 1
    requires In(c, target.Now(), 17, ws + [c.w.freeAddr] + [c.w.dlopenAddr])
    requires 0 < pathLength && path.Length == RoundUp(pathLength) && Get(target.Now(), RAX) == buf
    requires Mapped(target.mem, buf, path.Length) && Clear(c, buf, path.Length) && Callable(c.w, c.w.dlopenAddr)
    requires Good(c, target.Now().(mem := WriteBytes(target.mem, buf, path[..])), 6)
    requires SameBut(m, target.mem, b) && LibcAndStack(c.room, c.sp) + Range(buf, path.Length) <= b
    modifies target
    ensures target.stopped && e.regs.rip == c.w.dlopenAddr && Get(e, RDI) == buf && Get(e, RSI) == 1
    ensures Mapped(e.mem, buf, path.Length) && ReadBytes(e.mem, buf, path.Length) == path[..]
    ensures Get(target.Now(), RAX) == Get(c.w.routine.Do(e), RAX) && KeepsSaved(old(target.Now()), target.Now())
    ensures In(c, target.Now(), 42, ws + [c.w.freeAddr]) && SameBut(m, target.mem, b)
    ensures Words(target.mem, c.sp, ws + [c.w.freeAddr] + [old(target.regs).gpr[R9]])
    ensures Get(e, RSP) == c.sp - 8 * |ws| - 24
    ensures Entered(c.w, target.trace) == Entered(c.w, old(target.trace)) + [e]
  {
    ghost var t;
    e, t := PhaseTwo(c, m, target.Now(), ws, c.w.freeAddr, c.w.dlopenAddr, buf, path[..], b);
    assert path[..path.Length] == path[..];
    var ok := target.PtraceWrite(buf, path, pathLength);
    Continue(target, c, 8, t, [e]);
  }

  /** Twelve bytes of code; ptrace writes whole words, so what lies behind the buffer goes along. */
  method WriteTrampoline(target: Tracee, site: Word, loaded: Word, junk: seq<Byte>)
    requires target.stopped && Mapped(target.mem, site, 16) && |junk| == 4
    modifies target`mem
    ensures target.mem == WriteBytes(old(target.mem), site, Trampoline(loaded) + junk)
  {
    var bytes := Trampoline(loaded) + junk;
    var buf := new Byte[16](i requires 0 <= i < 16 => bytes[i]);
    assert buf[..16] == bytes;
    var ok := target.PtraceWrite(site, buf, 12);
  }

  /** The trampoline written over the old function, if there is a new one, and the third stop. */
  method PatchAndRun(target: Tracee, site: Word, loaded: Word, junk: seq<Byte>,
                     ghost c: Call, ghost m: Mem, ghost ws: seq<Word>, ghost r9: Word, ghost b: iset<int>)
    requires target.stopped && Placed(c) && c.which == Inject && c.isa == target.isa && |ws| <= 1 && |junk| == 4
    requires In(c, target.Now(), 42, ws + [c.w.freeAddr]) && Words(target.mem, c.sp, ws + [c.w.freeAddr] + [r9])
    requires Mapped(target.mem, site, 16) && Clear(c, site, 16)
    requires SameBut(m, target.mem, b) && LibcAndStack(c.room, c.sp) <= b && (loaded != 0 ==> Range(site, 16) <= b)
    modifies target
    ensures target.stopped && SameBut(m, target.mem, b) && Get(target.Now(), RBX) == c.w.freeAddr
    ensures In(c, target.Now(), 54, ws + [old(target.regs).gpr[RBX]])
    ensures loaded != 0 ==> Patched(target.mem, site, loaded, junk)
    ensures Words(target.mem, c.sp, ws + [old(target.regs).gpr[RBX]] + [r9])
    ensures Entered(c.w, target.trace) == Entered(c.w, old(target.trace))
  {
    ghost var tramp := PatchBytes(loaded, junk);
    assert Range(site, 0) == iset{};
    ghost var t := PhaseThree(c, m, target.Now(), ws, c.w.freeAddr, r9, site, tramp, b);
    Patch(target, site, loaded, junk);
    Continue(target, c, 5, t, []);
  }

  /** What is written over the old function. */
  function PatchBytes(loaded: Word, junk: seq<Byte>): (b: seq<Byte>)
    ensures loaded != 0 ==> b == Trampoline(loaded) + junk
    ensures loaded == 0 ==> b == []
  {
    if loaded != 0 then Trampoline(loaded) + junk else []
  }

  method Patch(target: Tracee, site: Word, loaded: Word, junk: seq<Byte>)
    requires target.stopped && Mapped(target.mem, site, 16) && |junk| == 4
    modifies target`mem
    ensures target.mem == WriteBytes(old(target.mem), site, PatchBytes(loaded, junk))
  {
    if loaded != 0 {
      WriteTrampoline(target, site, loaded, junk);
    } else {
      assert WriteBytes(target.mem, site, []) == target.mem;
    }
  }

  /** The words that the trampoline is written as: its twelve bytes and what lay behind their buffer. */
  predicate Patched(m: Mem, site: int, f: Word, junk: seq<Byte>) {
    Mapped(m, site, 16) && m[site..site + 16] == Trampoline(f) + junk
  }

  lemma TrampolineOf(m: Mem, site: Word, f: Word, junk: seq<Byte>)
    requires Patched(m, site, f, junk)
    ensures HasTrampoline(m, site, f)
  {
    assert m[site..site + 12] == m[site..site + 16][..12] == Trampoline(f);
  }

  /** `restoreStates` on every way out. */
  method Finish(target: Tracee, base: Word, backup: array<Byte>, oldregs: Regs,
                ghost c: Call, ghost m: Mem, ghost ws: seq<Word>, ghost f: iset<int>)
    requires target.stopped && c.base == base && Mapped(m, base, backup.Length)
    requires 0 < backup.Length && backup.Length % 8 == 0 && backup[..] == ReadBytes(m, base, backup.Length)
    requires SameBut(m, target.mem, Busy(c, backup.Length, f))
    requires (base + backup.Length <= c.room.lo || c.sp <= base) && c.room.lo + 64 <= c.sp
    requires |ws| <= 6 && Words(target.mem, c.sp, ws)
    modifies target`regs, target`mem
    ensures target.regs == oldregs && SameBut(m, target.mem, f) && Words(target.mem, c.sp, ws)
    ensures |target.mem| == old(|target.mem|)
    ensures forall x :: 0 <= x < |target.mem| && !(base <= x < base + backup.Length) ==>
              target.mem[x] == old(target.mem)[x]
  {
    RestoredFrame(m, target.mem, base, backup.Length, f);
    assert backup[..backup.Length] == backup[..];
    ghost var k := target.mem;
    var ok := target.RestoreStates(base, backup, backup.Length, oldregs);
    WordsKept(k, target.mem, c.sp, ws);
  }

  method PatchAndFinish(target: Tracee, site: Word, loaded: Word, junk: seq<Byte>, base: Word, backup: array<Byte>,
                        oldregs: Regs, ghost c: Call, ghost m: Mem, ghost ws: seq<Word>, ghost r9: Word,
                        ghost f: iset<int>)
    requires target.stopped && Placed(c) && c.which == Inject && c.isa == target.isa && |ws| <= 1 && |junk| == 4
    requires In(c, target.Now(), 42, ws + [c.w.freeAddr]) && Words(target.mem, c.sp, ws + [c.w.freeAddr] + [r9])
    requires Mapped(target.mem, site, 16) && Clear(c, site, 16)
    requires site + 16 <= base || base + backup.Length <= site
    requires base + backup.Length <= c.room.lo || c.sp <= base
    requires c.base == base && Mapped(m, base, backup.Length) && 0 < backup.Length && backup.Length % 8 == 0
    requires backup[..] == ReadBytes(m, base, backup.Length)
    requires SameBut(m, target.mem, Busy(c, backup.Length, f))
    requires LibcAndStack(c.room, c.sp) <= f && (loaded != 0 ==> Range(site, 16) <= f)
    modifies target
    ensures target.stopped && target.regs == oldregs && SameBut(m, target.mem, f)
    ensures loaded != 0 ==> Patched(target.mem, site, loaded, junk)
    ensures Words(target.mem, c.sp, ws + [old(target.regs).gpr[RBX]] + [r9])
    ensures Entered(c.w, target.trace) == Entered(c.w, old(target.trace))
  {
    ghost var rbx := target.regs.gpr[RBX];
    PatchAndRun(target, site, loaded, junk, c, m, ws, r9, Busy(c, backup.Length, f));
    ghost var k := target.mem;
    Finish(target, base, backup, oldregs, c, m, ws + [rbx] + [r9], f);
    if loaded != 0 {
      PatchKept(k, target.mem, site, loaded, junk);
    }
  }

  /** The calls made in the target: malloc for the path, then dlopen of the path in that buffer. */
  ghost predicate CallsMade(w: World, path: seq<Byte>, len: Word, buf: Word, handle: Word, calls: seq<State>) {
    && |calls| >= 1 && calls[0].regs.rip == w.mallocAddr && Get(calls[0], RDI) == len
    && buf == Get(w.routine.Do(calls[0]), RAX)
    && (buf == 0 ==> |calls| == 1 && handle == 0)
    && (buf != 0 ==>
          && |calls| == 2 && calls[1].regs.rip == w.dlopenAddr
          && Get(calls[1], RDI) == buf && Get(calls[1], RSI) == 1
          && Get(calls[1], RSP) == Get(calls[0], RSP) + 8
          && Mapped(calls[1].mem, buf, |path|) && ReadBytes(calls[1].mem, buf, |path|) == path
          && handle == Get(w.routine.Do(calls[1]), RAX))
  }

  lemma OnlyMalloc(w: World, path: seq<Byte>, len: Word, e: State)
    requires e.regs.rip == w.mallocAddr && Get(e, RDI) == len && Get(w.routine.Do(e), RAX) == 0
    ensures CallsMade(w, path, len, 0, 0, [e])
  {
  }

  lemma MallocAndDlopen(w: World, path: seq<Byte>, len: Word, e: State, d: State)
    requires e.regs.rip == w.mallocAddr && Get(e, RDI) == len && Get(w.routine.Do(e), RAX) != 0
    requires d.regs.rip == w.dlopenAddr && Get(d, RDI) == Get(w.routine.Do(e), RAX) && Get(d, RSI) == 1
    requires Get(d, RSP) == Get(e, RSP) + 8
    requires Mapped(d.mem, Get(d, RDI), |path|) && ReadBytes(d.mem, Get(d, RDI), |path|) == path
    ensures CallsMade(w, path, len, Get(w.routine.Do(e), RAX), Get(w.routine.Do(d), RAX), [e, d])
  {
  }

  /** The stack alignment that section 3.2.2 of the ABI asks for at the entry of a function. */
  predicate Aligned(e: State) {
    (Get(e, RSP) + 8) % 16 == 0
  }

  /** The stub can never give both of its calls the alignment of the ABI. */
  lemma NeverAlignedTwice(w: World, path: seq<Byte>, len: Word, buf: Word, handle: Word, calls: seq<State>)
    requires CallsMade(w, path, len, buf, handle, calls) && buf != 0
    ensures !(Aligned(calls[0]) && Aligned(calls[1]))
  {
    assert Get(calls[1], RSP) + 8 == Get(calls[0], RSP) + 8 + 8;
  }

  lemma PatchKept(m: Mem, k: Mem, site: Word, f: Word, junk: seq<Byte>)
    requires Patched(m, site, f, junk) && |k| == |m| && forall x :: site <= x < site + 16 ==> k[x] == m[x]
    ensures Patched(k, site, f, junk)
  {
    assert m[site..site + 16] == k[site..site + 16];
  }

  /** `pdlopen` from the buffer that malloc returned on. */
  method LoadAndPatch(target: Tracee, buf: Word, path: array<Byte>, pathLength: Word, site: Word, loaded: Word,
                      junk: seq<Byte>, base: Word, backup: array<Byte>, oldregs: Regs,
                      ghost c: Call, ghost m: Mem, ghost ws: seq<Word>, ghost e: State)
    returns (handle: Word, ghost d: State)
    requires target.stopped && Placed(c) && c.which == Inject && c.isa == target.isa && |ws| <= 1 && |junk| == 4
    requires In(c, target.Now(), 17, ws + [c.w.freeAddr] + [c.w.dlopenAddr])
    requires e.regs.rip == c.w.mallocAddr && Get(e, RDI) == pathLength && Get(e, RSP) == c.sp - 8 * |ws| - 32
    requires buf != 0 && Get(target.Now(), RAX) == Get(c.w.routine.Do(e), RAX) == buf
    requires target.regs.gpr[RBX] == oldregs.gpr[RBX] && target.regs.gpr[R9] == oldregs.gpr[R9]
    requires 0 < pathLength && path.Length == RoundUp(pathLength)
    requires Mapped(target.mem, buf, path.Length) && Clear(c, buf, path.Length) && Callable(c.w, c.w.dlopenAddr)
    requires Good(c, target.Now().(mem := WriteBytes(target.mem, buf, path[..])), 6)
    requires Mapped(target.mem, site, 16) && Clear(c, site, 16)
    requires site + 16 <= base || base + backup.Length <= site
    requires base + backup.Length <= c.room.lo || c.sp <= base
    requires c.base == base && Mapped(m, base, backup.Length) && 0 < backup.Length && backup.Length % 8 == 0
    requires backup[..] == ReadBytes(m, base, backup.Length)
    requires SameBut(m, target.mem, Busy(c, backup.Length, Footprint(c, buf, path.Length, site, false)))
    modifies target
    ensures target.stopped && target.regs == oldregs
    ensures SameBut(m, target.mem, Footprint(c, buf, path.Length, site, handle != 0 && loaded != 0))
    ensures handle != 0 && loaded != 0 ==> Patched(target.mem, site, loaded, junk)
    ensures CallsMade(c.w, path[..], pathLength, buf, handle, [e, d])
    ensures Words(target.mem, c.sp, ws + [if handle == 0 then c.w.freeAddr else oldregs.gpr[RBX]] + [oldregs.gpr[R9]])
    ensures Entered(c.w, target.trace) == Entered(c.w, old(target.trace)) + [d]
  {
    ghost var g := Footprint(c, buf, path.Length, site, false);
    ghost var free, r9 := c.w.freeAddr, oldregs.gpr[R9];
    d := RunDlopen(target, buf, path, pathLength, c, m, ws, Busy(c, backup.Length, g));
    MallocAndDlopen(c.w, path[..], pathLength, e, d);
    handle := Get(target.Now(), RAX);
    if handle == 0 {
      Finish(target, base, backup, oldregs, c, m, ws + [free] + [r9], g);
      return;
    }
    ghost var h := Footprint(c, buf, path.Length, site, loaded != 0);
    SameButMore(m, target.mem, Busy(c, backup.Length, g), Busy(c, backup.Length, h));
    PatchAndFinish(target, site, loaded, junk, base, backup, oldregs, c, m, ws, r9, h);
  }

  lemma ResidueWords(m: Mem, sp: int, ws: seq<Word>, a: Word, b: Word)
    requires Words(m, sp, ws + [a] + [b])
    ensures Words(m, sp, ws + [a, b])
  {
    assert ws + [a] + [b] == ws + [a, b];
  }

  lemma FirstCall(before: seq<State>, e: State, calls: seq<State>)
    requires |calls| > 0 && calls[0] == e
    ensures before + [e] + calls[1..] == before + calls
  {
    assert calls == [e] + calls[1..];
  }

  /** `pdlopen` from the first stop on. */
  method AfterMalloc(target: Tracee, w: World, path: array<Byte>, pathLength: Word, site: Word, loaded: Word,
                     junk: seq<Byte>, base: Word, backup: array<Byte>, oldregs: Regs, ghost code: seq<Byte>,
                     ghost ret: nat, ghost c: Call, ghost m: Mem, ghost ws: seq<Word>, ghost e: State)
    returns (handle: Word, ghost buf: Word, ghost calls: seq<State>)
    requires target.stopped && c.isa == target.isa && c.w == w && c.base == base && |ws| <= 1 && |junk| == 4
    requires Ready(c, m, code, ret, site) && |m| == |target.mem|
    requires 0 < pathLength && path.Length == RoundUp(pathLength) && backup.Length == |code|
    requires backup[..] == ReadBytes(m, base, |code|)
    requires In(c, target.Now(), 17, ws + [w.freeAddr] + [w.dlopenAddr])
    requires e.regs.rip == w.mallocAddr && Get(e, RDI) == pathLength && Get(e, RSP) == c.sp - 8 * |ws| - 32
    requires Get(target.Now(), RAX) == Get(w.routine.Do(e), RAX)
    requires target.regs.gpr[RBX] == oldregs.gpr[RBX] && target.regs.gpr[R9] == oldregs.gpr[R9]
    requires Words(target.mem, c.sp, ws + [w.freeAddr] + [w.dlopenAddr] + [oldregs.gpr[R9]])
    requires SameBut(m, target.mem, Busy(c, |code|, LibcAndStack(c.room, c.sp)))
    requires Get(target.Now(), RAX) != 0 ==>
               && Mapped(target.mem, Get(target.Now(), RAX), path.Length)
               && Clear(c, Get(target.Now(), RAX), path.Length)
               && Good(c, target.Now().(mem := WriteBytes(target.mem, Get(target.Now(), RAX), path[..])), 6)
    modifies target
    ensures target.stopped && target.regs == oldregs
    ensures SameBut(m, target.mem, Footprint(c, buf, RoundUp(pathLength), site, handle != 0 && loaded != 0))
    ensures handle != 0 && loaded != 0 ==> Patched(target.mem, site, loaded, junk)
    ensures CallsMade(w, path[..], pathLength, buf, handle, calls)
    ensures Words(target.mem, c.sp, ws + Left(w, oldregs, buf, handle))
    ensures buf == old(Get(target.Now(), RAX)) && |calls| > 0 && calls[0] == e
    ensures Entered(w, target.trace) == Entered(w, old(target.trace)) + calls[1..]
  {
    ghost var n := RoundUp(pathLength);
    ghost var f := LibcAndStack(c.room, c.sp);
    calls := [e];
    var targetBuf := Get(target.Now(), RAX);
    buf := targetBuf;
    if targetBuf == 0 {
      ghost var g := Footprint(c, 0, n, site, false);
      SameButMore(m, target.mem, Busy(c, |code|, f), Busy(c, |code|, g));
      Finish(target, base, backup, oldregs, c, m, ws + [w.freeAddr] + [w.dlopenAddr] + [oldregs.gpr[R9]], g);
      assert ws + [w.freeAddr] + [w.dlopenAddr] + [oldregs.gpr[R9]] == ws + Left(w, oldregs, 0, 0);
      OnlyMalloc(w, path[..], pathLength, e);
      return 0, buf, calls;
    }
    SameButMore(m, target.mem, Busy(c, |code|, f), Busy(c, |code|, Footprint(c, buf, n, site, false)));
    ghost var d;
    handle, d := LoadAndPatch(target, targetBuf, path, pathLength, site, loaded, junk, base, backup, oldregs,
                              c, m, ws, e);
    ResidueWords(target.mem, c.sp, ws, if handle == 0 then w.freeAddr else oldregs.gpr[RBX], oldregs.gpr[R9]);
    calls := [e, d];
    assert calls[1..] == [d];
  }

  /** `pdlopen` once the addresses are known. */
  method OpenAt(target: Tracee, w: World, code: seq<Byte>, ret: nat, base: Word, injectOffset: nat, rewind: nat,
                 path: array<Byte>, pathLength: Word, site: Word, loaded: Word, junk: seq<Byte>, ghost c: Call)
    returns (r: Outcome, ghost buf: Word, ghost calls: seq<State>)
    requires target.stopped && c.isa == target.isa && c.w == w && c.base == base && c.sp == Get(target.Now(), RSP)
    requires Ready(c, target.mem, code, ret, site)
    requires (injectOffset == rewind || injectOffset == rewind + 1) && base + injectOffset < TWO_64
    requires 0 < pathLength && path.Length == RoundUp(pathLength) && |junk| == 4
    requires var off := injectOffset - rewind;
             GoodCalls(c, StubState(c, target.Now(), code, ret, off, pathLength), off, path[..])
    modifies target
    ensures target.stopped && (r.Exited? <==> !Readable(old(target.mem), base, |code|))
    ensures r.Exited? ==> target.mem == old(target.mem) && target.regs.rip == base + injectOffset && calls == []
    ensures r.Returned? ==> target.regs == old(target.regs)
    ensures r.Returned? ==>
              SameBut(old(target.mem), target.mem,
                      Footprint(c, buf, RoundUp(pathLength), site, r.handle != 0 && loaded != 0))
    ensures r.Returned? && r.handle != 0 && loaded != 0 ==>
              Patched(target.mem, site, loaded, junk) &&
              HasTrampoline(target.mem, site, loaded)
    ensures r.Returned? ==> CallsMade(w, path[..], pathLength, buf, r.handle, calls)
    ensures r.Returned? ==>
              buf == BufferAt(c, StubState(c, old(target.Now()), code, ret, injectOffset - rewind, pathLength))
    ensures r.Returned? ==>
              Words(target.mem, c.sp, Residue(w, old(target.regs), injectOffset == rewind, buf, r.handle))
    ensures Entered(w, target.trace) == Entered(w, old(target.trace)) + calls
  {
    buf, calls := 0, [];
    ghost var m := target.mem;
    var oldregs := target.regs;
    var ok, backup;
    ghost var e, ws;
    ghost var f := LibcAndStack(c.room, c.sp);
    ok, backup, e, ws := StartStub(target, w, code, ret, base, injectOffset, rewind, pathLength, c, site, f);
    if !ok {
      return Exited, buf, calls;
    }
    var handle;
    handle, buf, calls := AfterMalloc(target, w, path, pathLength, site, loaded, junk, base, backup, oldregs,
                                      code, ret, c, m, ws, e);
    FirstCall(Entered(w, old(target.trace)), e, calls);
    if handle != 0 && loaded != 0 {
      TrampolineOf(target.mem, site, loaded, junk);
    }
    return Returned(handle), buf, calls;
  }

  /**
   * `pdlopen`. `start` is where `freespaceaddr` finds the executable mapped, `loaded` what `checkloaded`
   * finds for the function, 0 if the library is not mapped; `junk` is what lies behind the trampoline's
   * buffer; `rewind` is how far the kernel takes `rip` back when the target was stopped inside a system
   * call that it restarts.
   */
  method Pdlopen(target: Tracee, w: World, code: seq<Byte>, ret: nat, start: Word, injectOffset: nat, rewind: nat,
                 path: array<Byte>, pathLength: Word, func: Symbol, loaded: Word, junk: seq<Byte>, ghost c: Call)
    returns (r: Outcome, ghost buf: Word, ghost calls: seq<State>)
    requires target.stopped && c.isa == target.isa && c.w == w && c.base == start + 8 && c.sp == Get(target.Now(), RSP)
    requires Ready(c, target.mem, code, ret, SiteOf(func, start))
    requires (injectOffset == rewind || injectOffset == rewind + 1) && start + 8 + injectOffset < TWO_64
    requires 0 < pathLength && path.Length == RoundUp(pathLength) && |junk| == 4
    requires var off := injectOffset - rewind;
             GoodCalls(c, StubState(c, target.Now(), code, ret, off, pathLength), off, path[..])
    modifies target
    ensures target.stopped && (r.Exited? <==> !Readable(old(target.mem), start + 8, |code|))
    ensures r.Exited? ==> target.mem == old(target.mem) && target.regs.rip == start + 8 + injectOffset && calls == []
    ensures r.Returned? ==> target.regs == old(target.regs)
    ensures r.Returned? ==>
              SameBut(old(target.mem), target.mem,
                      Footprint(c, buf, RoundUp(pathLength), SiteOf(func, start), r.handle != 0 && loaded != 0))
    ensures r.Returned? && r.handle != 0 && loaded != 0 ==>
              Patched(target.mem, SiteOf(func, start), loaded, junk) &&
              HasTrampoline(target.mem, if func.dynamic then Add64(start, func.addr) else func.addr, loaded)
    ensures r.Returned? ==> CallsMade(w, path[..], pathLength, buf, r.handle, calls)
    ensures r.Returned? ==>
              buf == BufferAt(c, StubState(c, old(target.Now()), code, ret, injectOffset - rewind, pathLength))
    ensures r.Returned? ==>
              Words(target.mem, c.sp, Residue(w, old(target.regs), injectOffset == rewind, buf, r.handle))
    ensures Entered(w, target.trace) == Entered(w, old(target.trace)) + calls
  {
    var base: Word := start + 8;
    OrigFuncIsSite(func, start, base);
    r, buf, calls := OpenAt(target, w, code, ret, base, injectOffset, rewind, path, pathLength, OrigFunc(func, base),
                            loaded, junk, c);
  }

  // ----- the red zone

  /**
   * The words right below the stack pointer belong to the interrupted function too, by section 3.2.2 of
   * the ABI. Those that `pdlopen` is known to leave are as before exactly when they held the very same
   * words. For the whole red zone that is necessary only: below them lie the return addresses and frames
   * of the routines.
   */
  lemma RedZoneKeptIff(m: Mem, k: Mem, sp: int, ws: seq<Word>)
    requires Words(k, sp, ws) && |m| == |k|
    ensures (forall x :: 0 <= x < |m| && sp - 8 * |ws| <= x < sp ==> k[x] == m[x]) <==> Words(m, sp, ws)
  {
    if Words(m, sp, ws) {
      forall x | 0 <= x < |m| && sp - 8 * |ws| <= x < sp
        ensures k[x] == m[x]
      {
        var i := (sp - 1 - x) / 8;
        assert Read64(m, sp - 8 * i - 8) == ws[i] == Read64(k, sp - 8 * i - 8);
        SameWordSameBytes(m, k, sp - 8 * i - 8);
      }
    } else if forall x :: 0 <= x < |m| && sp - 8 * |ws| <= x < sp ==> k[x] == m[x] {
      WordsKept(k, m, sp, ws);
      assert false;
    }
  }

  lemma SameWordSameBytes(m: Mem, k: Mem, a: int)
    requires Mapped(m, a, 8) && Mapped(k, a, 8) && Read64(m, a) == Read64(k, a)
    ensures forall x :: a <= x < a + 8 ==> m[x] == k[x]
  {
    forall x | a <= x < a + 8
      ensures m[x] == k[x]
    {
      DigitOfValue(m, a, 8, x - a);
      DigitOfValue(k, a, 8, x - a);
    }
  }

  // ----- why byte 2 is no entry point for pdlopen

  /** malloc and dlopen keep to the ABI in the states in which the stub enters them from its third byte. */
  ghost predicate GoodFromByteTwo(c: Call, s: State, buf: int, path: seq<Byte>)
    requires Mapped(s.mem, buf, |path|)
  {
    var stop := RunToTrap(c.isa, s, 7);
    Good(c, s, 5) && (stop.Some? ==> Good(c, stop.value.(mem := WriteBytes(stop.value.mem, buf, path)), 6))
  }

  lemma ByteTwoToSecondStop(c: Call, s: State, top: Word, buf: int, path: seq<Byte>, b: iset<int>)
    returns (e: State, t1: State, d: State, t2: State, r9: Word)
    requires Placed(c) && c.which == Inject && In(c, s, 2, [top])
    requires Callable(c.w, Get(s, RDI)) && Callable(c.w, Get(s, RDX))
    requires Mapped(s.mem, buf, |path|) && Clear(c, buf, |path|)
    requires LibcAndStack(c.room, c.sp) + Range(buf, |path|) <= b && GoodFromByteTwo(c, s, buf, path)
    ensures Stops(c, s, 7, t1, [e]) && |t1.mem| == |s.mem|
    ensures Stops(c, t1.(mem := WriteBytes(t1.mem, buf, path)), 8, t2, [d])
    ensures In(c, t2, 42, [top]) && KeepsSaved(s, t2) && SameBut(s.mem, t2.mem, b)
    ensures Words(t2.mem, c.sp, [top] + [r9])
  {
    e, t1 := FirstStopFromByteTwo(c, s, top);
    StoreKeepsIn(c, t1, 17, [top] + [Get(s, RDX)], buf, path);
    d, t2 := SecondStop(c, t1.(mem := WriteBytes(t1.mem, buf, path)), [top], Get(s, RDX));
    r9 := Get(t1, R9);
    LibcIsLocal(c, s.mem, t1.mem, b);
    StoreThenLibc(c, s.mem, t1.mem, t2.mem, buf, path, b);
  }

  lemma OnlyWord(c: Call, s: State, off: nat, word: Word)
    requires In(c, s, off, [] + [word])
    ensures Mapped(s.mem, c.sp - 8, 8) && Read64(s.mem, c.sp - 8) == word
  {
    assert ([] + [word])[0] == word;
  }

  lemma ByteTwoToThirdStop(c: Call, m: Mem, t2: State, top: Word, r9: Word, site: int, tramp: seq<Byte>, b: iset<int>)
    returns (t3: State)
    requires Placed(c) && c.which == Inject && In(c, t2, 42, [top]) && Words(t2.mem, c.sp, [top] + [r9])
    requires Mapped(t2.mem, site, |tramp|) && Clear(c, site, |tramp|)
    requires SameBut(m, t2.mem, b) && LibcAndStack(c.room, c.sp) + Range(site, |tramp|) <= b
    ensures Stops(c, t2.(mem := WriteBytes(t2.mem, site, tramp)), 5, t3, [])
    ensures Mapped(t3.mem, c.sp - 8, 8) && Read64(t3.mem, c.sp - 8) == Get(t2, RBX) && SameBut(m, t3.mem, b)
  {
    assert [top] == [] + [top];
    StoreKeepsIn(c, t2, 42, [top], site, tramp);
    StoreKeepsWords(c, t2.mem, [top] + [r9], site, tramp);
    t3 := ThirdStop(c, t2.(mem := WriteBytes(t2.mem, site, tramp)), [], top, r9);
    OnlyWord(c, t3, 54, Get(t2, RBX));
    StoreThenLibc(c, m, t2.mem, t3.mem, site, tramp, b);
  }

  lemma TopWordKeptIff(c: Call, s: State, k: Mem, top: Word, v: Word)
    requires In(c, s, 2, [top]) && |k| == |s.mem| && Mapped(k, c.sp - 8, 8) && Read64(k, c.sp - 8) == v
    ensures (forall x :: c.sp - 8 <= x < c.sp ==> k[x] == s.mem[x]) <==> v == top
  {
    assert Read64(s.mem, c.sp - 8) == [top][0];
    if v == top {
      SameWordSameBytes(k, s.mem, c.sp - 8);
    } else if forall x :: c.sp - 8 <= x < c.sp ==> k[x] == s.mem[x] {
      WordKept(s.mem, k, c.sp - 8);
      assert false;
    }
  }

  /**
   * A run of the inject stub that really starts at its third byte, whatever the injector stores in
   * between, leaves rbx in the word on top of the interrupted stack, at `c.sp - 8`. All else from there
   * on is kept but for the injector's own stores, so the stack is intact exactly when that word was rbx.
   */
  lemma ByteTwoOverwritesStackTop(c: Call, s: State, top: Word, buf: int, path: seq<Byte>, site: int, tramp: seq<Byte>)
    returns (e: State, t1: State, d: State, t2: State, t3: State)
    requires Placed(c) && c.which == Inject && In(c, s, 2, [top])
    requires Callable(c.w, Get(s, RDI)) && Callable(c.w, Get(s, RDX))
    requires Mapped(s.mem, buf, |path|) && Clear(c, buf, |path|) && GoodFromByteTwo(c, s, buf, path)
    requires Mapped(s.mem, site, |tramp|) && Clear(c, site, |tramp|)
    ensures Stops(c, s, 7, t1, [e])
    ensures Stops(c, t1.(mem := WriteBytes(t1.mem, buf, path)), 8, t2, [d])
    ensures Stops(c, t2.(mem := WriteBytes(t2.mem, site, tramp)), 5, t3, [])
    ensures Mapped(t3.mem, c.sp - 8, 8) && Read64(t3.mem, c.sp - 8) == Get(s, RBX)
    ensures SameBut(s.mem, t3.mem, LibcAndStack(c.room, c.sp) + Range(buf, |path|) + Range(site, |tramp|))
    ensures (forall x :: c.sp - 8 <= x < c.sp ==> t3.mem[x] == s.mem[x]) <==> Get(s, RBX) == top
  {
    var b := LibcAndStack(c.room, c.sp) + Range(buf, |path|) + Range(site, |tramp|);
    var r9;
    e, t1, d, t2, r9 := ByteTwoToSecondStop(c, s, top, buf, path, b);
    t3 := ByteTwoToThirdStop(c, s.mem, t2, top, r9, site, tramp, b);
    TopWordKeptIff(c, s, t3.mem, top, Get(s, RBX));
  }

  // ----- pdlclose

  /** Everything in its place for `pdlclose`. */
  ghost predicate ReadyToClose(c: Call, m: Mem, code: seq<Byte>, ret: nat) {
    && c.which == Eject && c.code == EJECT && c.len == |m| && Placed(c) && Callable(c.w, c.w.dlcloseAddr)
    && Compiled(code, ret, Eject) && c.base + |code| <= |m|
    && (c.base + |code| <= c.room.lo || c.sp <= c.base)
    && TextIntact(c.w, m)
    && forall r, x :: r in c.w.text && x in c.w.text[r] ==> !(c.base <= x < c.base + |code|)
  }

  lemma EjectFromByteTwo(c: Call, s: State, sp: Word, b: iset<int>) returns (e: State, t: State)
    requires Placed(c) && c.which == Eject && Callable(c.w, Get(s, RDI)) && sp == Get(s, RSP)
    requires Mapped(s.mem, sp, 8) && In(c, s, 2, [Read64(s.mem, sp)]) && Good(c, s, 4)
    requires c.sp == sp + 8 && LibcAndStack(c.room, sp) <= b
    ensures Stops(c, s, 8, t, [e])
    ensures e.regs.rip == Get(s, RDI) && Get(e, RDI) == Get(s, RCX)
    ensures Get(t, RAX) == Get(c.w.routine.Do(e), RAX) && SameBut(s.mem, t.mem, b)
  {
    e, t := EjectStopFromByteTwo(c, s, Read64(s.mem, sp));
    StopsSooner(c, s, 7, 8, t, [e]);
    SameWordSameBytes(s.mem, t.mem, sp);
    LibcBelow(c, s.mem, t.mem, sp, b);
  }

  /** From the installation to the stop, for the first and for the third byte as entry point. */
  lemma EjectPhase(c: Call, m: Mem, code: seq<Byte>, ret: nat, s: State, off: nat, sp: Word, b: iset<int>)
    returns (e: State, t: State)
    requires ReadyToClose(c, m, code, ret) && sp == Get(s, RSP) && Callable(c.w, Get(s, RDI))
    requires s.mem == WriteBytes(m, c.base, NewCode(code, ret)) && s.regs.rip == c.base + off
    requires (off == 0 && c.sp == sp && Good(c, s, 5)) || (off == 2 && c.sp == sp + 8 && Good(c, s, 4))
    requires Busy(c, |code|, LibcAndStack(c.room, sp)) <= b
    ensures Stops(c, s, 8, t, [e])
    ensures e.regs.rip == Get(s, RDI) && Get(e, RDI) == Get(s, RCX)
    ensures Get(t, RAX) == Get(c.w.routine.Do(e), RAX) && SameBut(m, t.mem, b)
  {
    WriteIsLocal(m, c.base, NewCode(code, ret), b);
    if off == 0 {
      Installed(c, m, code, ret, s, 0, []);
      e, t := EjectStop(c, s);
      LibcIsLocal(c, s.mem, t.mem, b);
    } else {
      var top := Read64(s.mem, sp);
      Installed(c, m, code, ret, s, 2, [top]);
      e, t := EjectFromByteTwo(c, s, sp, b);
    }
    SameButTwice(m, s.mem, t.mem, b);
  }

  lemma LibcBelow(c: Call, m: Mem, k: Mem, sp: int, b: iset<int>)
    requires SameOutside(m, k, c.room, c.sp) && c.sp == sp + 8 && LibcAndStack(c.room, sp) <= b
    requires forall x :: sp <= x < sp + 8 && 0 <= x < |m| ==> k[x] == m[x]
    ensures SameBut(m, k, b)
  {
    forall x | 0 <= x < |m| && x !in b
      ensures k[x] == m[x]
    {
      assert x !in LibcAndStack(c.room, sp);
    }
  }

  /** The target when the eject stub, installed in `st`, is about to run from `off`. */
  function CloseState(c: Call, st: State, code: seq<Byte>, ret: nat, off: nat, handle: Word): State
    requires 0 < |code| && ret < |code| && Mapped(st.mem, c.base, |code|) && c.base + off < TWO_64
  {
    State(Regs(st.regs.gpr[RDI := c.w.dlcloseAddr][RCX := handle], c.base + off, st.regs.rest),
          WriteBytes(st.mem, c.base, NewCode(code, ret)))
  }

  /** With registers set and stub installed, the target is run to the stop behind dlclose. */
  method RunDlclose(target: Tracee, code: seq<Byte>, ret: nat, off: nat, handle: Word, ghost c: Call, ghost st: State)
    returns (ghost e: State)
    requires target.stopped && c.isa == target.isa && ReadyToClose(c, st.mem, code, ret) && c.base + off < TWO_64
    requires target.Now() == CloseState(c, st, code, ret, off, handle)
    requires (off == 0 && c.sp == Get(st, RSP) && Good(c, target.Now(), 5)) ||
             (off == 2 && c.sp == Get(st, RSP) + 8 && Good(c, target.Now(), 4))
    modifies target
    ensures target.stopped && e.regs.rip == c.w.dlcloseAddr && Get(e, RDI) == handle
    ensures Get(target.Now(), RAX) == Get(c.w.routine.Do(e), RAX)
    ensures SameBut(st.mem, target.mem, Busy(c, |code|, LibcAndStack(c.room, Get(st, RSP))))
    ensures Entered(c.w, target.trace) == Entered(c.w, old(target.trace)) + [e]
  {
    ghost var t;
    e, t := EjectPhase(c, st.mem, code, ret, target.Now(), off, Get(st, RSP),
                       Busy(c, |code|, LibcAndStack(c.room, Get(st, RSP))));
    Continue(target, c, 8, t, [e]);
  }

  /**
   * `pdlclose`. It always starts the target two bytes into the stub; the kernel takes `rewind`, 0 or
   * 2, off `rip` again. Either way dlclose is called with the handle and the target is as before.
   */
  method Pdlclose(target: Tracee, w: World, code: seq<Byte>, ret: nat, start: Word, rewind: nat, handle: Word,
                  ghost c: Call)
    returns (r: Outcome, ghost e: State)
    requires target.stopped && c.isa == target.isa && c.w == w && c.base == start + 8 && (rewind == 0 || rewind == 2)
    requires c.sp == Get(target.Now(), RSP) + (if rewind == 0 then 8 else 0)
    requires ReadyToClose(c, target.mem, code, ret) && start + 10 < TWO_64
    requires Good(c, CloseState(c, target.Now(), code, ret, 2 - rewind, handle), if rewind == 2 then 5 else 4)
    modifies target
    ensures target.stopped && (r.Exited? <==> !Readable(old(target.mem), start + 8, |code|))
    ensures r.Returned? ==> target.regs == old(target.regs)
    ensures r.Returned? ==>
              SameBut(old(target.mem), target.mem, LibcAndStack(c.room, old(Get(target.Now(), RSP))))
    ensures r.Returned? ==> e.regs.rip == w.dlcloseAddr && Get(e, RDI) == handle
    ensures Entered(w, target.trace) == Entered(w, old(target.trace)) + if r.Returned? then [e] else []
    ensures r.Returned? ==> r.handle == if Get(w.routine.Do(e), RAX) != 0 then 1 else 0
  {
    var base: Word := start + 8;
    e := target.Now();
    ghost var st := target.Now();
    var oldregs := target.regs;
    var ok := target.SetRegs(Regs(oldregs.gpr[RDI := w.dlcloseAddr][RCX := handle], base + 2, oldregs.rest));
    var backup;
    ok, backup := InstallStub(target, base, code, ret);
    if !ok {
      return Exited, e;
    }
    target.regs := target.regs.(rip := Add64(target.regs.rip, -(rewind as int)));
    e := RunDlclose(target, code, ret, 2 - rewind, handle, c, st);
    var dlcloseRet := Get(target.Now(), RAX);
    Finish(target, base, backup, oldregs, c, st.mem, [], LibcAndStack(c.room, Get(st, RSP)));
    return Returned(if dlcloseRet != 0 then 1 else 0), e;
  }
}
