/** What the breakpoint operations of `ddb.cpp` do to the traced process, on values. */
module Breakpoints {
  import opened Memory
  import opened Machine
  import opened Ptrace

  /** `checkpoint_t`. */
  datatype Checkpoint = Checkpoint(origCode: Word, regs: Regs)

  /** `break_point_map`. */
  type Points = map<Word, Checkpoint>

  /** The traced process together with the debugger's map. */
  datatype Session = Session(st: State, points: Points)

  /** `(orig & ~0xff) | 0xcc`. */
  function TrapWord(orig: Word): Word {
    orig - orig % 0x100 + INT3
  }

  /** The traps of `keys` laid over the memory `m`. */
  function Plant(m: Mem, keys: set<Word>): (r: Mem)
    ensures |r| == |m|
  {
    seq(|m|, i requires 0 <= i < |m| => if i in keys then INT3 else m[i])
  }

  function Planted(n: State, keys: set<Word>): State {
    n.(mem := Plant(n.mem, keys))
  }

  // ----- the operations; None stands for the debugger's exit(1)

  /** `set_breakpoint_at_addr`; `regs` is what the new checkpoint's register field holds. */
  function Set(s: Session, addr: Word, regs: Regs): Option<Session> {
    if !Readable(s.st.mem, addr, 8) then None
    else
      var orig := Read64(s.st.mem, addr);
      Some(Session(s.st.(mem := Write64(s.st.mem, addr, TrapWord(orig))),
                   if addr in s.points then s.points else s.points[addr := Checkpoint(orig, regs)]))
  }

  /** `reset_breakpoint`; `h` is the register set of the debugger's handle. */
  function Reset(isa: Isa, s: Session, addr: Word, h: Regs, refresh: bool): Option<Session> {
    if addr !in s.points then Some(s)
    else if !Mapped(s.st.mem, addr, 8) then None
    else
      var orig := s.points[addr].origCode;
      var taken := s.st.regs.(rip := Add64(s.st.regs.rip, -1));
      var points := if refresh then s.points[addr := Checkpoint(orig, taken)] else s.points;
      var t := Step(isa, State(h, Write64(s.st.mem, addr, orig)));
      Some(Session(t.(mem := Write64(t.mem, addr, TrapWord(orig))), points))
  }

  /** The SIGTRAP branch of the main loop. */
  function HandleTrap(isa: Isa, s: Session, refresh: bool): Option<Session> {
    var h := s.st.regs.(rip := Add64(s.st.regs.rip, -1));
    Reset(isa, s, h.rip, h, refresh)
  }

  /** `restart_curr_frame` at an address that has a checkpoint. */
  function Restart(s: Session, addr: Word): Option<Session>
    requires addr in s.points
  {
    var regs := s.points[addr].regs;
    if !Readable(s.st.mem, regs.rip, 8) then None else Some(s.(st := s.st.(regs := regs)))
  }

  /** The loop of `restore_breakpoints`, for the order in which the map is walked. */
  function RestoreWords(m: Mem, points: Points, order: seq<Word>): (r: Mem)
    requires forall k :: k in order ==> k in points && Mapped(m, k, 8)
    ensures |r| == |m|
    decreases |order|
  {
    if order == [] then m
    else
      var last := |order| - 1;
      var k := order[last];
      assert k in order;
      var rest := RestoreWords(m, points, order[..last]);
      assert Mapped(m, k, 8);
      assert |rest| == |m|;
      Write64(rest, k, points[k].origCode)
  }

  predicate Distinct(order: seq<Word>) {
    forall i, j :: 0 <= i < j < |order| ==> order[i] != order[j]
  }

  /** `order` visits every entry of the map exactly once. */
  predicate Walks(order: seq<Word>, keys: set<Word>) {
    Distinct(order) && (forall k :: k in order ==> k in keys) && (forall k :: k in keys ==> k in order)
  }

  // ----- the overlay invariant

  /** Live memory is native memory with a trap at every key, and every stored word is native. */
  ghost predicate Overlay(s: Session, native: Mem) {
    && s.st.mem == Plant(native, s.points.Keys)
    && forall k :: k in s.points ==> Mapped(native, k, 8) && Read64(native, k) == s.points[k].origCode
  }

  predicate Separated(keys: set<Word>) {
    forall a, b :: a in keys && b in keys && a != b ==> a + 8 <= b || b + 8 <= a
  }

  /** No key lies in the seven bytes after `addr`, unless the program has its own trap there. */
  predicate ClearAbove(native: Mem, keys: set<Word>, addr: Word) {
    forall k :: k in keys && addr < k < addr + 8 && k < |native| ==> native[k] == INT3
  }

  // ----- word-level effects

  lemma StoreTrap(m: Mem, native: Mem, a: int)
    requires Mapped(m, a, 8) && Mapped(native, a, 8)
    ensures var r := Write64(m, a, TrapWord(Read64(native, a)));
            |r| == |m| && forall x :: 0 <= x < |m| ==>
              r[x] == if x == a then INT3 else if a < x < a + 8 then native[x] else m[x]
  {
    var orig := Read64(native, a);
    var trap, r := TrapWord(orig), Write64(m, a, TrapWord(orig));
    assert trap % 0x100 == INT3 && trap / 0x100 == orig / 0x100;
    forall x | a <= x < a + 8
      ensures r[x] == if x == a then INT3 else native[x]
    {
      assert r[x] == Digit(trap, x - a);
      DigitOfValue(native, a, 8, x - a);
    }
  }

  /** The keys inside the word at `addr`. */
  function KeysIn(keys: set<Word>, addr: Word): set<Word> {
    set k | k in keys && addr <= k < addr + 8
  }

  /** Putting a stored word back lifts the traps of every key inside that word. */
  lemma LiftTraps(native: Mem, keys: set<Word>, addr: Word)
    requires Mapped(native, addr, 8)
    ensures Write64(Plant(native, keys), addr, Read64(native, addr)) == Plant(native, keys - KeysIn(keys, addr))
  {
    WriteRead64(Plant(native, keys), addr, native);
  }

  /** Arming a word again plants the trap of `addr`, but of no other key inside the word. */
  lemma Rearm(native: Mem, before: Mem, keys: set<Word>, addr: Word)
    requires |before| == |native| && Mapped(native, addr, 8)
    requires ReadBytes(native, addr, 8) == ReadBytes(before, addr, 8)
    ensures Write64(Plant(native, keys - KeysIn(keys, addr)), addr, TrapWord(Read64(before, addr)))
         == Plant(native, keys - KeysIn(keys, addr) + {addr})
  {
    var rest := keys - KeysIn(keys, addr);
    StoreTrap(Plant(native, rest), before, addr);
    forall x | addr < x < addr + 8
      ensures before[x] == native[x]
    {
      assert ReadBytes(native, addr, 8)[x - addr] == ReadBytes(before, addr, 8)[x - addr];
    }
  }

  /** Which traps are missing is visible exactly when a key above `addr` had its own. */
  lemma PlantWithoutAbove(native: Mem, keys: set<Word>, addr: Word)
    requires addr in keys && forall k :: k in keys ==> k < |native|
    ensures Plant(native, keys - KeysIn(keys, addr) + {addr}) == Plant(native, keys)
       <==> ClearAbove(native, keys, addr)
  {
    var p, q := Plant(native, keys - KeysIn(keys, addr) + {addr}), Plant(native, keys);
    if p == q {
      forall k | k in keys && addr < k < addr + 8 && k < |native|
        ensures native[k] == INT3
      {
        assert p[k] == native[k] && q[k] == INT3;
      }
    }
  }

  // ----- the debugger's operations and the overlay

  /** The word read for a new breakpoint is native exactly when no trap lies above it. */
  lemma WordReadIsNativeIff(native: Mem, keys: set<Word>, addr: Word)
    requires Mapped(native, addr, 8) && addr !in keys
    ensures Read64(Plant(native, keys), addr) == Read64(native, addr) <==> ClearAbove(native, keys, addr)
  {
    var live := Plant(native, keys);
    if Read64(live, addr) == Read64(native, addr) {
      forall k | k in keys && addr < k < addr + 8 && k < |native|
        ensures native[k] == INT3
      {
        DigitOfValue(live, addr, 8, k - addr);
        DigitOfValue(native, addr, 8, k - addr);
      }
    } else if ClearAbove(native, keys, addr) {
      SameValue(live, native, addr, 8);
    }
  }

  /**
   * A new breakpoint keeps the overlay exactly when no key lies in the seven bytes above it:
   * otherwise its stored word contains the trap of that key.
   */
  lemma SetKeepsOverlayIff(s: Session, native: Mem, addr: Word, regs: Regs)
    requires Overlay(s, native) && Readable(s.st.mem, addr, 8) && addr !in s.points
    ensures Overlay(Set(s, addr, regs).value, native) <==> ClearAbove(native, s.points.Keys, addr)
  {
    var t := Set(s, addr, regs).value;
    assert t.points.Keys == s.points.Keys + {addr};
    SetPlants(s, native, addr, regs);
    WordReadIsNativeIff(native, s.points.Keys, addr);
    assert t.points[addr].origCode == Read64(s.st.mem, addr);
  }

  /** Live memory gains the one trap, whatever lies nearby and also when it was there before. */
  lemma SetPlants(s: Session, native: Mem, addr: Word, regs: Regs)
    requires s.st.mem == Plant(native, s.points.Keys) && Readable(s.st.mem, addr, 8)
    ensures Set(s, addr, regs).value.st.mem == Plant(native, s.points.Keys + {addr})
  {
    var m := s.st.mem;
    StoreTrap(m, m, addr);
  }

  /** A second set at the same address changes nothing: `emplace` keeps the first checkpoint. */
  lemma SetAgainIsIdentity(s: Session, native: Mem, addr: Word, regs: Regs)
    requires Overlay(s, native) && addr in s.points && Readable(s.st.mem, addr, 8)
    ensures Set(s, addr, regs) == Some(s)
  {
    SetPlants(s, native, addr, regs);
    assert s.points.Keys + {addr} == s.points.Keys;
  }
}
