/** The assembly of `injectSharedLibrary` and `ejectSharedLibrary`, byte by byte. */
module Stub {
  import opened Memory
  import opened Machine
  import opened X86

  /** The part of `injectSharedLibrary` that calls malloc. */
  const CALL_MALLOC: seq<Byte> := [
    0x55,                                      //  0 push %rbp
    0x56,                                      //  1 push %rsi
    0x52,                                      //  2 push %rdx
    0x41, 0x51,                                //  3 push %r9
    0x49, 0x89, 0xF9,                          //  5 mov %rdi,%r9
    0x48, 0x89, 0xCF,                          //  8 mov %rcx,%rdi
    0x41, 0xFF, 0xD1,                          // 11 callq *%r9
    0x41, 0x59,                                // 14 pop %r9
    0xCC                                       // 16 int $3
  ]

  /** The part that calls __libc_dlopen_mode. */
  const CALL_DLOPEN: seq<Byte> := [
    0x5A,                                      //  0 pop %rdx
    0x41, 0x51,                                //  1 push %r9
    0x49, 0x89, 0xD1,                          //  3 mov %rdx,%r9
    0x48, 0x89, 0xC7,                          //  6 mov %rax,%rdi
    0x48, 0xBE, 1, 0, 0, 0, 0, 0, 0, 0,        //  9 movabs $1,%rsi
    0x41, 0xFF, 0xD1,                          // 19 callq *%r9
    0x41, 0x59,                                // 22 pop %r9
    0xCC                                       // 24 int $3
  ]

  /** The part that gets ready to call free. */
  const CALL_FREE: seq<Byte> := [
    0x48, 0x89, 0xC7,                          //  0 mov %rax,%rdi
    0x5E,                                      //  3 pop %rsi
    0x53,                                      //  4 push %rbx
    0x48, 0x89, 0xF3,                          //  5 mov %rsi,%rbx
    0x48, 0x31, 0xF6,                          //  8 xor %rsi,%rsi
    0xCC,                                      // 11 int $3
    0xFF, 0xD3,                                // 12 callq *%rbx
    0x5B,                                      // 14 pop %rbx
    0x5D                                       // 15 pop %rbp
  ]

  /** `injectSharedLibrary` without its RET. */
  const INJECT: seq<Byte> := CALL_MALLOC + CALL_DLOPEN + CALL_FREE

  /** `ejectSharedLibrary`, with its RET already overwritten by an INT 3. */
  const EJECT: seq<Byte> := [
    0x55,                                      //  0 push %rbp
    0x41, 0x51,                                //  1 push %r9
    0x49, 0x89, 0xF9,                          //  3 mov %rdi,%r9
    0x48, 0x89, 0xCF,                          //  6 mov %rcx,%rdi
    0x41, 0xFF, 0xD1,                          //  9 callq *%r9
    0x41, 0x59,                                // 12 pop %r9
    0x5D,                                      // 14 pop %rbp
    0xCC                                       // 15 int $3, was ret
  ]

  /** The bytes of `code` are in memory at `base`. */
  ghost predicate HasCode(m: Mem, base: int, code: seq<Byte>) {
    Mapped(m, base, |code|) && forall x :: base <= x < base + |code| ==> m[x] == code[x - base]
  }

  datatype Which = Inject | Eject

  function Code(which: Which): seq<Byte> {
    if which.Inject? then INJECT else EJECT
  }

  function StubSize(which: Which): nat {
    if which.Inject? then 58 else 16
  }

  const NOT_AN_INSTRUCTION := Decoded(Unmodelled, 1)

  /** The stubs as programs: the instruction that starts `off` bytes into the stub. */
  function InstrAt(which: Which, off: nat): Decoded {
    match which
    case Inject =>
      if off == 0 then Decoded(Push(RBP), 1)
      else if off == 1 then Decoded(Push(RSI), 1)
      else if off == 2 then Decoded(Push(RDX), 1)
      else if off == 3 then Decoded(Push(R9), 2)
      else if off == 5 then Decoded(MovReg(R9, RDI), 3)
      else if off == 8 then Decoded(MovReg(RDI, RCX), 3)
      else if off == 11 then Decoded(CallReg(R9), 3)
      else if off == 14 then Decoded(Pop(R9), 2)
      else if off == 17 then Decoded(Pop(RDX), 1)
      else if off == 18 then Decoded(Push(R9), 2)
      else if off == 20 then Decoded(MovReg(R9, RDX), 3)
      else if off == 23 then Decoded(MovReg(RDI, RAX), 3)
      else if off == 26 then Decoded(MovImm(RSI, 1), 10)
      else if off == 36 then Decoded(CallReg(R9), 3)
      else if off == 39 then Decoded(Pop(R9), 2)
      else if off == 42 then Decoded(MovReg(RDI, RAX), 3)
      else if off == 45 then Decoded(Pop(RSI), 1)
      else if off == 46 then Decoded(Push(RBX), 1)
      else if off == 47 then Decoded(MovReg(RBX, RSI), 3)
      else if off == 50 then Decoded(ZeroReg(RSI), 3)
      else if off == 54 then Decoded(CallReg(RBX), 2)
      else NOT_AN_INSTRUCTION
    case Eject =>
      if off == 0 then Decoded(Push(RBP), 1)
      else if off == 1 then Decoded(Push(R9), 2)
      else if off == 2 then Decoded(Push(RCX), 1)    // the push of r9 without its REX prefix
      else if off == 3 then Decoded(MovReg(R9, RDI), 3)
      else if off == 6 then Decoded(MovReg(RDI, RCX), 3)
      else if off == 9 then Decoded(CallReg(R9), 3)
      else if off == 12 then Decoded(Pop(R9), 2)
      else if off == 14 then Decoded(Pop(RBP), 1)
      else NOT_AN_INSTRUCTION
  }

  predicate StopAt(which: Which, off: nat) {
    match which
    case Inject => off == 16 || off == 41 || off == 53
    case Eject => off == 15
  }

  lemma MallocPartDecodes(m: Mem, base: int, off: nat)
    requires HasCode(m, base, CALL_MALLOC) && off < 17 && !InstrAt(Inject, off).instr.Unmodelled?
    ensures Decode(m, base + off) == InstrAt(Inject, off)
  {
  }

  lemma DlopenPartDecodes(m: Mem, base: int, off: nat)
    requires HasCode(m, base + 17, CALL_DLOPEN) && 17 <= off < 42 && !InstrAt(Inject, off).instr.Unmodelled?
    ensures Decode(m, base + off) == InstrAt(Inject, off)
  {
    if off == 26 {
      MovabsDecodes(m, base + 17);
    }
  }

  lemma MovabsDecodes(m: Mem, a: int)
    requires HasCode(m, a, CALL_DLOPEN)
    ensures Decode(m, a + 9) == Decoded(MovImm(RSI, 1), 10)
  {
    ImmediateOne(m, a);
  }

  lemma FreePartDecodes(m: Mem, base: int, off: nat)
    requires HasCode(m, base + 42, CALL_FREE) && 42 <= off && !InstrAt(Inject, off).instr.Unmodelled?
    ensures Decode(m, base + off) == InstrAt(Inject, off)
  {
  }

  lemma EjectDecodes(m: Mem, base: int, off: nat)
    requires HasCode(m, base, EJECT) && !InstrAt(Eject, off).instr.Unmodelled?
    ensures Decode(m, base + off) == InstrAt(Eject, off)
  {
  }

  lemma ImmediateOne(m: Mem, a: int)
    requires HasCode(m, a, CALL_DLOPEN)
    ensures Mapped(m, a + 11, 8) && Read64(m, a + 11) == 1
  {
    forall i | 0 <= i < 8
      ensures m[a + 11 + i] == Digit(1, i)
    {
      assert m[a + 11 + i] == CALL_DLOPEN[11 + i];
      if i > 0 {
        ZeroDigits(i - 1);
      }
    }
    Pow256Values();
    ValueOfDigits(m, a + 11, 8, 1);
  }

  lemma {:induction false} ZeroDigits(i: nat)
    ensures Digit(0, i) == 0
  {
    if i > 0 {
      ZeroDigits(i - 1);
    }
  }

  lemma InjectParts(m: Mem, base: int)
    requires HasCode(m, base, INJECT)
    ensures HasCode(m, base, CALL_MALLOC) && HasCode(m, base + 17, CALL_DLOPEN) && HasCode(m, base + 42, CALL_FREE)
  {
    assert |CALL_MALLOC| == 17 && |CALL_DLOPEN| == 25 && |CALL_FREE| == 16;
    forall x | base + 17 <= x < base + 42
      ensures m[x] == CALL_DLOPEN[x - (base + 17)]
    {
      assert m[x] == INJECT[x - base];
    }
    forall x | base + 42 <= x < base + 58
      ensures m[x] == CALL_FREE[x - (base + 42)]
    {
      assert m[x] == INJECT[x - base];
    }
  }

  /** The code decodes to the program of the stub, wherever it is put. */
  ghost predicate Faithful(code: seq<Byte>, which: Which) {
    && |code| == StubSize(which)
    && (forall m: Mem, base: int, a: int {:trigger HasCode(m, base, code), Decode(m, a)} ::
          HasCode(m, base, code) && a >= base && !InstrAt(which, a - base).instr.Unmodelled? ==>
            Decode(m, a) == InstrAt(which, a - base))
    && (forall m: Mem, base: int, off: nat {:trigger HasCode(m, base, code), StopAt(which, off)} ::
          HasCode(m, base, code) && StopAt(which, off) ==> off < |code| && m[base + off] == INT3)
  }

  lemma StubDecodes(which: Which, m: Mem, base: int, off: nat)
    requires HasCode(m, base, Code(which)) && !InstrAt(which, off).instr.Unmodelled?
    ensures Decode(m, base + off) == InstrAt(which, off)
  {
    match which
    case Inject =>
      InjectParts(m, base);
      if off < 17 {
        MallocPartDecodes(m, base, off);
      } else if off < 42 {
        DlopenPartDecodes(m, base, off);
      } else {
        FreePartDecodes(m, base, off);
      }
    case Eject => EjectDecodes(m, base, off);
  }

  lemma StubStops(which: Which, m: Mem, base: int, off: nat)
    requires HasCode(m, base, Code(which)) && StopAt(which, off)
    ensures off < StubSize(which) == |Code(which)| && m[base + off] == INT3
  {
    if which.Inject? {
      InjectParts(m, base);
    }
  }

  /** The bytes of each stub decode to its program. */
  lemma StubIsFaithful(which: Which)
    ensures Faithful(Code(which), which)
  {
    forall m: Mem, base: int, a: int |
      HasCode(m, base, Code(which)) && a >= base && !InstrAt(which, a - base).instr.Unmodelled?
      ensures Decode(m, a) == InstrAt(which, a - base)
    {
      StubDecodes(which, m, base, a - base);
    }
    forall m: Mem, base: int, off: nat | HasCode(m, base, Code(which)) && StopAt(which, off)
      ensures off < |Code(which)| && m[base + off] == INT3
    {
      StubStops(which, m, base, off);
    }
  }
}
