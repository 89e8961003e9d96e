/** Word-granular access to a traced process, `libs/ptrace.c`. */
module Ptrace {
  import opened Memory
  import opened Machine

  const WORD_BYTES: nat := 8

  /** `len` rounded up to whole words: how many bytes a transfer of `len` bytes really moves. */
  function RoundUp(len: nat): (r: nat)
    ensures len <= r < len + WORD_BYTES && r % WORD_BYTES == 0
  {
    (len + 7) / 8 * 8
  }

  /** PTRACE_PEEKTEXT reports an error as the word -1, so a word of that value reads as an error. */
  predicate AllOnes(m: Mem, a: int)
    requires Mapped(m, a, 8)
  {
    forall x :: a <= x < a + 8 ==> m[x] == 0xFF
  }

  /** Every word of the transfer is mapped. */
  predicate Reachable(m: Mem, a: int, len: nat) {
    len == 0 || Mapped(m, a, RoundUp(len))
  }

  /** Every word of the transfer is mapped and none is all ones. */
  predicate Readable(m: Mem, a: int, len: nat) {
    Reachable(m, a, len) &&
    forall j :: 0 <= j < RoundUp(len) / 8 ==> !AllOnes(m, a + 8 * j)
  }

  lemma {:induction false} DigitsOfOnes(n: nat, v: nat, i: nat)
    requires v == Pow256(n) - 1 && i < n
    ensures Digit(v, i) == 0xFF
    decreases n
  {
    assert v % 0x100 == 0xFF && v / 0x100 == Pow256(n - 1) - 1;
    if i > 0 {
      DigitsOfOnes(n - 1, v / 0x100, i - 1);
    }
  }

  lemma AllOnesIff(m: Mem, a: int)
    requires Mapped(m, a, 8)
    ensures AllOnes(m, a) <==> Read64(m, a) == 0xFFFF_FFFF_FFFF_FFFF
  {
    Pow256Values();
    forall i | 0 <= i < 8
      ensures Digit(0xFFFF_FFFF_FFFF_FFFF, i) == 0xFF
    {
      DigitsOfOnes(8, 0xFFFF_FFFF_FFFF_FFFF, i);
    }
    if AllOnes(m, a) {
      ValueOfDigits(m, a, 8, 0xFFFF_FFFF_FFFF_FFFF);
    } else if Read64(m, a) == 0xFFFF_FFFF_FFFF_FFFF {
      var x :| a <= x < a + 8 && m[x] != 0xFF;
      DigitOfValue(m, a, 8, x - a);
      assert false;
    }
  }

  /** The word that starts `o` bytes into the transfer can be peeked at, and its value is not taken for an error. */
  predicate Peekable(m: Mem, a: int, o: nat) {
    Mapped(m, a + o, 8) && Read64(m, a + o) != 0xFFFF_FFFF_FFFF_FFFF
  }

  /** A write reaches memory when every word that begins before its end is mapped. */
  lemma ReachableIff(m: Mem, a: int, len: nat)
    ensures Reachable(m, a, len) <==> forall j: nat :: 8 * j < len ==> Mapped(m, a + 8 * j, 8)
  {
    var n := RoundUp(len) / 8;
    if Reachable(m, a, len) {
      forall j: nat | 8 * j < len
        ensures Mapped(m, a + 8 * j, 8)
      {
      }
    }
    if len > 0 && forall j: nat :: 8 * j < len ==> Mapped(m, a + 8 * j, 8) {
      assert Mapped(m, a + 8 * 0, 8) && Mapped(m, a + 8 * (n - 1), 8);
    }
  }

  /** A read succeeds when every such word is mapped and has another value than -1. */
  lemma ReadableIff(m: Mem, a: int, len: nat)
    ensures Readable(m, a, len) <==> forall j: nat :: 8 * j < len ==> Peekable(m, a, 8 * j)
  {
    ReachableIff(m, a, len);
    if Readable(m, a, len) {
      forall j: nat | 8 * j < len
        ensures Peekable(m, a, 8 * j)
      {
        AllOnesIff(m, a + 8 * j);
      }
    }
    if forall j: nat :: 8 * j < len ==> Peekable(m, a, 8 * j) {
      forall j: nat | 8 * j < len
        ensures Mapped(m, a + 8 * j, 8) && !AllOnes(m, a + 8 * j)
      {
        assert Peekable(m, a, 8 * j);
        AllOnesIff(m, a + 8 * j);
      }
    }
  }

  lemma OneWord(m: Mem, a: int)
    ensures Readable(m, a, 8) <==> Peekable(m, a, 0)
  {
    ReadableIff(m, a, 8);
    assert Peekable(m, a, 8 * 0) <==> Peekable(m, a, 0);
  }

  /** What a write leaves that failed at its first unmapped word, number `k`. */
  ghost predicate WrittenPrefix(m: Mem, r: Mem, a: int, data: seq<Byte>, k: nat) {
    8 * k < |data| && !Mapped(m, a + 8 * k, 8) &&
    if k == 0 then r == m else Mapped(m, a, 8 * k) && r == WriteBytes(m, a, data[..8 * k])
  }

  lemma BadWord(m: Mem, a: int, len: nat, j: nat)
    requires j < RoundUp(len) / 8
    requires !Mapped(m, a + 8 * j, 8) || AllOnes(m, a + 8 * j)
    ensures !Readable(m, a, len)
  {
    assert 8 * j + 8 <= RoundUp(len);
  }

  lemma WriteOneMore(m: Mem, addr: int, b: seq<Byte>, k: nat)
    requires k + 8 <= |b| && Mapped(m, addr, k + 8)
    ensures WriteBytes(WriteBytes(m, addr, b[..k]), addr + k, b[k..k + 8]) == WriteBytes(m, addr, b[..k + 8])
    ensures WriteBytes(m, addr, b[..0]) == m
  {
  }

  class Tracee {
    const isa: Isa
    var regs: Regs
    var mem: Mem
    /** ptrace refuses everything while the target is executing. */
    var stopped: bool
    /** The states in which the target has executed an instruction. */
    ghost var trace: seq<State>

    constructor (isa: Isa, s: State)
      ensures this.isa == isa && Now() == s && stopped && trace == []
    {
      this.isa := isa;
      regs, mem, stopped, trace := s.regs, s.mem, true, [];
    }

    function Now(): State
      reads this
    {
      State(regs, mem)
    }

    /** `ptrace_read`: false stands for the `exit(1)` of the debugger. */
    method PtraceRead(addr: int, buf: array<Byte>, len: nat) returns (ok: bool)
      requires RoundUp(len) <= buf.Length
      modifies buf
      ensures ok <==> Readable(mem, addr, len) && (stopped || len == 0)
      ensures ok && len > 0 ==> buf[..RoundUp(len)] == ReadBytes(mem, addr, RoundUp(len))
      ensures forall i :: RoundUp(len) <= i < buf.Length ==> buf[i] == old(buf[i])
    {
      var bytesRead := 0;
      while bytesRead < len
        invariant bytesRead <= RoundUp(len) && bytesRead % 8 == 0 && (stopped || bytesRead == 0)
        invariant Reachable(mem, addr, bytesRead)
        invariant forall j :: 0 <= j < bytesRead / 8 ==> !AllOnes(mem, addr + 8 * j)
        invariant forall i :: 0 <= i < bytesRead ==> buf[i] == mem[addr + i]
        invariant forall i :: RoundUp(len) <= i < buf.Length ==> buf[i] == old(buf[i])
      {
        var at := addr + bytesRead;
        if !stopped {
          return false;
        }
        if !Mapped(mem, at, 8) || AllOnes(mem, at) {
          BadWord(mem, addr, len, bytesRead / 8);
          return false;
        }
        forall i | 0 <= i < 8 {
          buf[bytesRead + i] := mem[at + i];
        }
        bytesRead := bytesRead + 8;
      }
      return true;
    }

    /** `ptrace_write`: whole words are taken from the buffer, also past `len`. */
    method PtraceWrite(addr: int, buf: array<Byte>, len: nat) returns (ok: bool)
      requires RoundUp(len) <= buf.Length
      modifies this`mem
      ensures |mem| == old(|mem|)
      ensures ok <==> Reachable(old(mem), addr, len) && (stopped || len == 0)
      ensures ok ==> mem == if len == 0 then old(mem) else WriteBytes(old(mem), addr, buf[..RoundUp(len)])
      ensures !ok && stopped ==> exists k: nat :: WrittenPrefix(old(mem), mem, addr, buf[..RoundUp(len)], k)
      ensures !stopped ==> mem == old(mem)
    {
      var byteCount := 0;
      while byteCount < len
        invariant byteCount <= RoundUp(len) && byteCount % 8 == 0 && (stopped || byteCount == 0)
        invariant |mem| == old(|mem|) && Reachable(mem, addr, byteCount)
        invariant mem == if byteCount == 0 then old(mem) else WriteBytes(old(mem), addr, buf[..byteCount])
      {
        var at := addr + byteCount;
        if !stopped {
          return false;
        }
        if !Mapped(mem, at, 8) {
          assert buf[..RoundUp(len)][..byteCount] == buf[..byteCount];
          assert WrittenPrefix(old(mem), mem, addr, buf[..RoundUp(len)], byteCount / 8);
          return false;
        }
        WriteOneMore(old(mem), addr, buf[..], byteCount);
        assert buf[..][..byteCount] == buf[..byteCount];
        assert buf[..][byteCount..byteCount + 8] == buf[byteCount..byteCount + 8];
        assert buf[..][..byteCount + 8] == buf[..byteCount + 8];
        mem := WriteBytes(mem, at, buf[byteCount..byteCount + 8]);
        byteCount := byteCount + 8;
      }
      return true;
    }

    /** `ptrace_getregs`. */
    method GetRegs() returns (ok: bool, r: Regs)
      ensures ok == stopped && (ok ==> r == regs)
    {
      return stopped, regs;
    }

    /** `ptrace_setregs`. */
    method SetRegs(r: Regs) returns (ok: bool)
      modifies this`regs
      ensures ok == stopped && regs == if ok then r else old(regs)
    {
      ok := stopped;
      if ok {
        regs := r;
      }
    }

    /** `restoreStates`. */
    method RestoreStates(addr: int, backup: array<Byte>, size: nat, oldregs: Regs) returns (ok: bool)
      requires RoundUp(size) <= backup.Length
      modifies this`mem, this`regs
      ensures |mem| == old(|mem|)
      ensures ok <==> stopped && Reachable(old(mem), addr, size)
      ensures ok ==> regs == oldregs
      ensures ok ==> mem == if size == 0 then old(mem) else WriteBytes(old(mem), addr, backup[..RoundUp(size)])
    {
      ok := PtraceWrite(addr, backup, size);
      if ok {
        ok := SetRegs(oldregs);
      }
    }

    /** The target executes one instruction. */
    method Execute()
      modifies this`regs, this`mem, this`trace
      ensures Now() == Step(isa, old(Now())) && trace == old(trace) + [old(Now())]
    {
      var t := Step(isa, Now());
      trace := trace + [Now()];
      regs, mem := t.regs, t.mem;
    }

    /** PTRACE_SINGLESTEP and the wait for it. */
    method SingleStep() returns (ok: bool)
      modifies this`regs, this`mem, this`trace
      ensures ok == stopped
      ensures Now() == if ok then Step(isa, old(Now())) else old(Now())
    {
      ok := stopped;
      if ok {
        Execute();
      }
    }

    /** `ptrace_letgo`. */
    method PtraceLetgo() returns (ok: bool)
      modifies this`stopped
      ensures ok == old(stopped) && !stopped
    {
      ok := stopped;
      stopped := false;
    }

    /** PTRACE_CONT and the wait for SIGTRAP; `n` bounds the instructions before the trap. */
    method PtraceCont(ghost n: nat) returns (ok: bool)
      requires RunToTrap(isa, Now(), n).Some?
      modifies this
      ensures ok == old(stopped) == stopped
      ensures ok ==> Now() == RunToTrap(isa, old(Now()), n).value
      ensures ok ==> trace == old(trace) + RunStates(isa, old(Now()), n)
      ensures !ok ==> Now() == old(Now()) && trace == old(trace)
    {
      ok := PtraceLetgo();
      if !ok {
        return;
      }
      ghost var left, stop, states := n, RunToTrap(isa, Now(), n), RunStates(isa, Now(), n);
      while !AtInt3(Now())
        invariant RunToTrap(isa, Now(), left) == stop && old(trace) + states == trace + RunStates(isa, Now(), left)
        decreases left
      {
        TrapAfterStep(isa, Now(), left);
        Execute();
        left := left - 1;
      }
      TrapAfterStep(isa, Now(), left);
      Execute();
      stopped := true;
    }

    /** `ptrace_detach`. */
    method PtraceDetach() returns (ok: bool)
      modifies this`stopped
      ensures ok == old(stopped) && !stopped
    {
      ok := stopped;
      stopped := false;
    }
  }

  /** Reading a range, changing it at will and restoring it is the identity on it. */
  lemma RestoreAfterOverwrite(m: Mem, k: Mem, addr: int, len: nat)
    requires Readable(m, addr, len) && len > 0
    requires |k| == |m| && forall x :: 0 <= x < |m| && !(addr <= x < addr + RoundUp(len)) ==> k[x] == m[x]
    ensures WriteBytes(k, addr, ReadBytes(m, addr, RoundUp(len))) == m
  {
    WriteBack(m, k, addr, RoundUp(len));
  }
}
