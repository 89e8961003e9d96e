/** Leaving the target: `restore_breakpoints` and the handler of SIGINT. */
module Detach {
  import opened Memory
  import opened Machine
  import opened Ptrace
  import opened Breakpoints
  import opened DebugRun

  ghost predicate AllMapped(m: Mem, points: Points) {
    forall k :: k in points ==> Mapped(m, k, 8)
  }

  /** The target after `restore_breakpoints`, when the map is walked in this order. */
  function DetachState(st: State, points: Points, atTrap: bool, order: seq<Word>): State
    requires AllMapped(st.mem, points) && Walks(order, points.Keys)
  {
    State(if atTrap then st.regs.(rip := Add64(st.regs.rip, -1)) else st.regs, RestoreWords(st.mem, points, order))
  }

  predicate Covered(order: seq<Word>, x: int) {
    exists k :: k in order && k <= x < k + 8
  }

  /** Memory `m`, but native wherever a word of `order` is. */
  ghost predicate WrittenBack(r: Mem, m: Mem, native: Mem, order: seq<Word>) {
    |r| == |m| == |native| &&
    forall x :: 0 <= x < |r| ==> r[x] == if Covered(order, x) then native[x] else m[x]
  }

  lemma CoveredByOneMore(front: seq<Word>, k: Word, x: int)
    ensures Covered(front + [k], x) <==> Covered(front, x) || k <= x < k + 8
  {
    if Covered(front + [k], x) {
      var j :| j in front + [k] && j <= x < j + 8;
      assert j in front || j == k;
    }
    if Covered(front, x) {
      var j :| j in front && j <= x < j + 8;
      assert j in front + [k];
    }
    assert k in front + [k];
  }

  lemma RestoreOneMore(r: Mem, m: Mem, native: Mem, front: seq<Word>, k: Word)
    requires WrittenBack(r, m, native, front) && Mapped(native, k, 8)
    ensures WrittenBack(Write64(r, k, Read64(native, k)), m, native, front + [k])
  {
    WriteRead64(r, k, native);
    forall x | 0 <= x < |m|
      ensures Covered(front + [k], x) <==> Covered(front, x) || k <= x < k + 8
    {
      CoveredByOneMore(front, k, x);
    }
  }

  /** The walk makes memory native under the stored words and changes nothing else, whatever memory was. */
  lemma {:induction false} RestoreCovers(m: Mem, native: Mem, points: Points, order: seq<Word>)
    requires |m| == |native|
    requires forall k :: k in order ==> k in points && Mapped(m, k, 8) && Read64(native, k) == points[k].origCode
    ensures WrittenBack(RestoreWords(m, points, order), m, native, order)
    decreases |order|
  {
    if order != [] {
      var front, k := order[..|order| - 1], order[|order| - 1];
      assert order == front + [k];
      assert k in order;
      RestoreCovers(m, native, points, front);
      RestoreOneMore(RestoreWords(m, points, front), m, native, front, k);
    }
  }

  /** Whatever the order of the walk and whichever traps are lifted already, memory is native again. */
  lemma RestoreIsNative(m: Mem, native: Mem, points: Points, keys: set<Word>, order: seq<Word>)
    requires m == Plant(native, keys) && keys <= points.Keys && Walks(order, points.Keys)
    requires AllMapped(m, points)
    requires forall k :: k in points ==> Mapped(native, k, 8) && Read64(native, k) == points[k].origCode
    ensures RestoreWords(m, points, order) == native
  {
    RestoreCovers(m, native, points, order);
  }

  function WithRip(n: State, d: int): State {
    n.(regs := n.regs.(rip := Add64(n.regs.rip, d)))
  }

  /**
   * A stopped target at any moment: native memory under some traps, which need not be those of the map,
   * and rip `off` beyond the native one. The stored words are native.
   */
  ghost predicate Shows(st: State, points: Points, n: State, traps: set<Word>, off: int) {
    && st == State(WithRip(n, off).regs, Plant(n.mem, traps))
    && forall k :: k in points ==> Mapped(n.mem, k, 8) && Read64(n.mem, k) == points[k].origCode
  }

  /** The traps that no stored word covers. */
  function Uncovered(points: Points, traps: set<Word>): set<Word> {
    set a | a in traps && forall k :: k in points ==> !(k <= a && a - k < 8)
  }

  /** What the handler takes off rip. */
  function Rewind(atTrap: bool): int {
    if atTrap then 1 else 0
  }

  lemma WithRipTwice(n: State, a: int, b: int)
    ensures WithRip(WithRip(n, a), b) == WithRip(n, a + b)
  {
    var x: int := n.regs.rip;
    var sum: int := x + a;
    assert (sum % TWO_64 + b) % TWO_64 == (sum + b) % TWO_64;
  }

  lemma RestoreLeaves(m: Mem, native: Mem, points: Points, traps: set<Word>, order: seq<Word>)
    requires m == Plant(native, traps) && Walks(order, points.Keys) && AllMapped(m, points)
    requires forall k :: k in points ==> Mapped(native, k, 8) && Read64(native, k) == points[k].origCode
    ensures RestoreWords(m, points, order) == Plant(native, Uncovered(points, traps))
  {
    RestoreCovers(m, native, points, order);
    forall x: Word | x in traps
      ensures x in Uncovered(points, traps) <==> !Covered(order, x)
    {
    }
  }

  /** Detaching lifts every trap that a stored word covers and no other, and rip may be off. */
  lemma DetachLeaves(st: State, points: Points, atTrap: bool, n: State, traps: set<Word>, off: int, order: seq<Word>)
    requires Shows(st, points, n, traps, off) && Walks(order, points.Keys)
    ensures AllMapped(st.mem, points)
    ensures DetachState(st, points, atTrap, order) ==
            State(WithRip(n, off - Rewind(atTrap)).regs, Plant(n.mem, Uncovered(points, traps)))
  {
    RestoreLeaves(st.mem, n.mem, points, traps, order);
    WithRipTwice(n, off, -1);
  }

  /** None of the traps makes a difference. */
  predicate Invisible(m: Mem, traps: set<Word>) {
    forall a :: a in traps && a < |m| ==> m[a] == INT3
  }

  lemma PlantIsNativeIff(m: Mem, traps: set<Word>)
    ensures Plant(m, traps) == m <==> Invisible(m, traps)
  {
    if Plant(m, traps) == m {
      forall a | a in traps && a < |m|
        ensures m[a] == INT3
      {
        assert Plant(m, traps)[a] == INT3;
      }
    }
  }

  /**
   * Detaching is exact exactly when `at_trap` is what rip is off by and every trap that is left was the
   * program's own.
   */
  lemma DetachIsNativeIff(st: State, points: Points, atTrap: bool, n: State, traps: set<Word>, off: int,
                          order: seq<Word>)
    requires Shows(st, points, n, traps, off) && Walks(order, points.Keys) && -1 <= off <= 1
    ensures AllMapped(st.mem, points)
    ensures DetachState(st, points, atTrap, order) == n <==>
            off == Rewind(atTrap) && Invisible(n.mem, Uncovered(points, traps))
  {
    DetachLeaves(st, points, atTrap, n, traps, off, order);
    PlantIsNativeIff(n.mem, Uncovered(points, traps));
  }

  // ----- between the debugger's operations

  function HitOff(r: Run): int {
    if Hit(r) then 1 else 0
  }

  /** Between its operations the session has just the traps of the map, and rip is off at a hit. */
  lemma LoopShows(r: Run, n: State)
    requires Sim(r, n)
    ensures Shows(r.s.st, r.s.points, n, r.s.points.Keys, HitOff(r))
    ensures Uncovered(r.s.points, r.s.points.Keys) == {}
  {
    RipBackAndForth(r.s.st.regs.rip);
  }

  /**
   * There `at_trap` has to say whether a planted trap has been hit and not been reset: it is missing right
   * after the report of a trap, and too much after the reset of the breakpoint or at a trap of the
   * program's own.
   */
  lemma DetachFromLoopIff(r: Run, n: State, order: seq<Word>)
    requires Sim(r, n) && Walks(order, r.s.points.Keys)
    ensures AllMapped(r.s.st.mem, r.s.points)
    ensures DetachState(r.s.st, r.s.points, AtTrap(r.phase), order) == n <==> (AtTrap(r.phase) <==> Hit(r))
  {
    LoopShows(r, n);
    DetachIsNativeIff(r.s.st, r.s.points, AtTrap(r.phase), n, r.s.points.Keys, HitOff(r), order);
  }

  // ----- inside set_breakpoint_at_addr

  /** The trap is written and the map does not know it yet. */
  function TrapWritten(s: Session, addr: Word): State
    requires Readable(s.st.mem, addr, 8)
  {
    s.st.(mem := Write64(s.st.mem, addr, TrapWord(Read64(s.st.mem, addr))))
  }

  lemma SetShows(r: Run, n: State, addr: Word)
    requires Sim(r, n) && Readable(r.s.st.mem, addr, 8)
    ensures Shows(TrapWritten(r.s, addr), r.s.points, n, r.s.points.Keys + {addr}, HitOff(r))
  {
    LoopShows(r, n);
    SetPlants(r.s, n.mem, addr, r.s.st.regs);
  }

  /**
   * The new trap is left behind, unless the stored word of another breakpoint covers it or the program has
   * its own trap there.
   */
  lemma DetachDuringSetIff(r: Run, n: State, addr: Word, order: seq<Word>)
    requires Sim(r, n) && r.phase == Stopped && Readable(r.s.st.mem, addr, 8) && Walks(order, r.s.points.Keys)
    ensures var t := TrapWritten(r.s, addr);
            AllMapped(t.mem, r.s.points) && addr < |n.mem| &&
            (DetachState(t, r.s.points, false, order) == n <==>
             n.mem[addr] == INT3 || exists k :: k in r.s.points && k <= addr < k + 8)
  {
    var keys := r.s.points.Keys;
    SetShows(r, n, addr);
    DetachIsNativeIff(TrapWritten(r.s, addr), r.s.points, false, n, keys + {addr}, 0, order);
    LeftByOne(r.s.points, addr);
  }

  /** The traps of the map cover each other, so at most the new one is left. */
  lemma LeftByOne(points: Points, addr: Word)
    ensures Uncovered(points, points.Keys + {addr}) ==
            if exists k :: k in points && k <= addr < k + 8 then {} else {addr}
  {
    forall a | a in points.Keys
      ensures a !in Uncovered(points, points.Keys + {addr})
    {
    }
  }

  // ----- inside reset_breakpoint

  /** Where `reset_breakpoint` is: nothing done, word restored, registers set, instruction executed. */
  datatype Stage = Begun | Restored | Rewound | Stepped

  function ResetUntil(isa: Isa, s: Session, addr: Word, h: Regs, stage: Stage): State
    requires addr in s.points && Mapped(s.st.mem, addr, 8)
  {
    var m := Write64(s.st.mem, addr, s.points[addr].origCode);
    match stage
    case Begun => s.st
    case Restored => s.st.(mem := m)
    case Rewound => State(h, m)
    case Stepped => Step(isa, State(h, m))
  }

  /** The native state that the target then shows, and how far its rip is off. */
  function NativeAt(isa: Isa, n: State, stage: Stage): State {
    if stage == Stepped then Step(isa, n) else n
  }

  function OffAt(stage: Stage): int {
    if stage == Begun || stage == Restored then 1 else 0
  }

  function TrapsAt(points: Points, addr: Word, stage: Stage): set<Word> {
    if stage == Begun then points.Keys else points.Keys - KeysIn(points.Keys, addr)
  }

  lemma ResetShows(isa: Isa, r: Run, n: State, stage: Stage)
    requires Sim(r, n) && Hit(r) && Tame(isa, n, r.s.points.Keys)
    ensures n.regs.rip in r.s.points && Mapped(r.s.st.mem, n.regs.rip, 8)
    ensures Shows(ResetUntil(isa, r.s, n.regs.rip, n.regs, stage), r.s.points, NativeAt(isa, n, stage),
                  TrapsAt(r.s.points, n.regs.rip, stage), OffAt(stage))
  {
    var keys, addr := r.s.points.Keys, n.regs.rip;
    LoopShows(r, n);
    RipBackAndForth(r.s.st.regs.rip);
    LiftTraps(n.mem, keys, addr);
    var lifted := keys - KeysIn(keys, addr);
    assert State(n.regs, Plant(n.mem, lifted)) == Planted(n, lifted);
    if stage == Stepped {
      WordsKept(isa, n, r.s.points);
    }
  }

  /** The handler inside a reset: exact until the registers are set, one too low from then on. */
  lemma DetachDuringReset(isa: Isa, r: Run, n: State, stage: Stage, order: seq<Word>)
    requires Sim(r, n) && r.phase == Trapped && Hit(r) && Walks(order, r.s.points.Keys)
    requires Tame(isa, n, r.s.points.Keys)
    ensures n.regs.rip in r.s.points && Mapped(r.s.st.mem, n.regs.rip, 8)
    ensures var t := ResetUntil(isa, r.s, n.regs.rip, n.regs, stage);
            AllMapped(t.mem, r.s.points) &&
            DetachState(t, r.s.points, true, order) == WithRip(NativeAt(isa, n, stage), OffAt(stage) - 1)
  {
    var traps := TrapsAt(r.s.points, n.regs.rip, stage);
    ResetShows(isa, r, n, stage);
    LoopShows(r, n);
    assert Uncovered(r.s.points, traps) <= Uncovered(r.s.points, r.s.points.Keys);
    var native := NativeAt(isa, n, stage);
    PlantIsNativeIff(native.mem, {});
    DetachLeaves(ResetUntil(isa, r.s, n.regs.rip, n.regs, stage), r.s.points, true, native, traps, OffAt(stage), order);
  }

  // ----- words that overlap

  /** Breakpoints set one after the other, none recorded, on a target without any. */
  function SetMany(st: State, addrs: seq<Word>): Option<Session>
    decreases |addrs|
  {
    if addrs == [] then Some(Session(st, map[]))
    else
      var s := SetMany(st, addrs[..|addrs| - 1]);
      if s.None? then None else Set(s.value, addrs[|addrs| - 1], st.regs)
  }

  function Elements(addrs: seq<Word>): set<Word> {
    set a | a in addrs
  }

  lemma PlantNone(m: Mem)
    ensures Plant(m, {}) == m
  {
  }

  lemma {:induction false} SetManyPlants(st: State, addrs: seq<Word>)
    requires SetMany(st, addrs).Some?
    ensures var s := SetMany(st, addrs).value;
            && s.points.Keys == Elements(addrs) && s.st == Planted(st, Elements(addrs))
            && AllMapped(st.mem, s.points)
    decreases |addrs|
  {
    if addrs == [] {
      PlantNone(st.mem);
    } else {
      var front, a := addrs[..|addrs| - 1], addrs[|addrs| - 1];
      SetManyPlants(st, front);
      SetPlants(SetMany(st, front).value, st.mem, a, st.regs);
      assert Elements(addrs) == Elements(front) + {a};
    }
  }

  /** A set at a new address stores the word as it is now, and keeps the other checkpoints. */
  lemma SetReads(s: Session, a: Word, regs: Regs)
    requires Set(s, a, regs).Some?
    ensures var t := Set(s, a, regs).value;
            && Mapped(s.st.mem, a, 8) && a in t.points
            && (a !in s.points ==> t.points[a].origCode == Read64(s.st.mem, a))
            && forall k :: k in s.points ==> k in t.points && t.points[k] == s.points[k]
  {
  }

  /** The stored word of the i-th breakpoint holds the traps of the ones set before it. */
  lemma LastSetWord(st: State, addrs: seq<Word>)
    requires SetMany(st, addrs).Some? && Distinct(addrs) && addrs != []
    ensures var s := SetMany(st, addrs).value;
            var last := |addrs| - 1;
            && addrs[last] in s.points && Mapped(st.mem, addrs[last], 8)
            && s.points[addrs[last]].origCode == Read64(Plant(st.mem, Elements(addrs[..last])), addrs[last])
  {
    var last := |addrs| - 1;
    SetManyPlants(st, addrs[..last]);
    SetReads(SetMany(st, addrs[..last]).value, addrs[last], st.regs);
    assert addrs[last] !in Elements(addrs[..last]);
  }

  lemma {:induction false} SetManyWord(st: State, addrs: seq<Word>, i: nat)
    requires SetMany(st, addrs).Some? && Distinct(addrs) && i < |addrs|
    ensures var s := SetMany(st, addrs).value;
            && addrs[i] in s.points && Mapped(st.mem, addrs[i], 8)
            && s.points[addrs[i]].origCode == Read64(Plant(st.mem, Elements(addrs[..i])), addrs[i])
    decreases |addrs|
  {
    var last := |addrs| - 1;
    LastSetWord(st, addrs);
    if i < last {
      var front := addrs[..last];
      SetManyWord(st, front, i);
      SetReads(SetMany(st, front).value, addrs[last], st.regs);
      assert front[..i] == addrs[..i];
    }
  }

  function Reverse(addrs: seq<Word>): (r: seq<Word>)
    ensures |r| == |addrs|
    ensures forall k :: k in r <==> k in addrs
    decreases |addrs|
  {
    if addrs == [] then [] else [addrs[|addrs| - 1]] + Reverse(addrs[..|addrs| - 1])
  }

  lemma {:induction false} RestoreFirst(m: Mem, points: Points, a: Word, rest: seq<Word>)
    requires a in points && Mapped(m, a, 8)
    requires forall k :: k in rest ==> k in points && Mapped(m, k, 8)
    ensures RestoreWords(m, points, [a] + rest)
         == RestoreWords(Write64(m, a, points[a].origCode), points, rest)
    decreases |rest|
  {
    var all := [a] + rest;
    assert a in all;
    if rest == [] {
      assert all[..0] == [];
    } else {
      var front := rest[..|rest| - 1];
      assert all[..|all| - 1] == [a] + front;
      RestoreFirst(m, points, a, front);
    }
  }

  lemma {:induction false} RestoreDependsOnOrder(m: Mem, p: Points, q: Points, order: seq<Word>)
    requires forall k :: k in order ==> k in p && k in q && p[k] == q[k] && Mapped(m, k, 8)
    ensures RestoreWords(m, p, order) == RestoreWords(m, q, order)
    decreases |order|
  {
    if order != [] {
      RestoreDependsOnOrder(m, p, q, order[..|order| - 1]);
    }
  }

  /** Undoing sets in reverse order is exact even when their words overlap. */
  lemma {:induction false} ReverseOrderIsExact(st: State, addrs: seq<Word>)
    requires SetMany(st, addrs).Some? && Distinct(addrs)
    ensures var s := SetMany(st, addrs).value;
            && AllMapped(s.st.mem, s.points) && s.points.Keys == Elements(addrs)
            && RestoreWords(s.st.mem, s.points, Reverse(addrs)) == st.mem
    decreases |addrs|
  {
    SetManyPlants(st, addrs);
    if addrs != [] {
      var front, a := addrs[..|addrs| - 1], addrs[|addrs| - 1];
      var s, before := SetMany(st, addrs).value, SetMany(st, front).value;
      SetManyPlants(st, front);
      ReverseOrderIsExact(st, front);
      WriteRead64(s.st.mem, a, before.st.mem);
      assert Write64(s.st.mem, a, s.points[a].origCode) == before.st.mem;
      RestoreFirst(s.st.mem, s.points, a, Reverse(front));
      RestoreDependsOnOrder(before.st.mem, s.points, before.points, Reverse(front));
    }
  }

  /** `b` lies inside the word at `a`, after its first byte. */
  predicate Below(a: Word, b: Word) {
    a < b && b - a < 8
  }

  /** No address was set within the seven bytes below an address set before it. */
  predicate NeverBelowEarlier(native: Mem, addrs: seq<Word>) {
    forall i, j :: 0 <= i < j < |addrs| && Below(addrs[j], addrs[i]) && addrs[i] < |native| ==>
      native[addrs[i]] == INT3
  }

  lemma {:induction false} SetManyOverlay(st: State, addrs: seq<Word>)
    requires SetMany(st, addrs).Some? && Distinct(addrs) && NeverBelowEarlier(st.mem, addrs)
    ensures Overlay(SetMany(st, addrs).value, st.mem)
    decreases |addrs|
  {
    SetManyPlants(st, addrs);
    if addrs != [] {
      var front, a := addrs[..|addrs| - 1], addrs[|addrs| - 1];
      SetManyPlants(st, front);
      SetManyOverlay(st, front);
      SetKeepsOverlayIff(SetMany(st, front).value, st.mem, a, st.regs);
    }
  }

  /** With one address restored last, its stored word decides the bytes it covers. */
  lemma LastRestoredDecides(st: State, addrs: seq<Word>, i: nat, j: nat)
    returns (order: seq<Word>)
    requires SetMany(st, addrs).Some? && Distinct(addrs)
    requires i < j < |addrs| && Below(addrs[j], addrs[i])
    ensures Walks(order, Elements(addrs)) && SetMany(st, addrs).value.points.Keys == Elements(addrs)
    ensures AllMapped(SetMany(st, addrs).value.st.mem, SetMany(st, addrs).value.points)
    ensures var s := SetMany(st, addrs).value;
            addrs[i] < |s.st.mem| && RestoreWords(s.st.mem, s.points, order)[addrs[i]] == INT3
  {
    SetManyPlants(st, addrs);
    SetManyWord(st, addrs, j);
    var s := SetMany(st, addrs).value;
    order := LastInOrder(addrs, j);
    var front := order[..|order| - 1];
    var seen := Plant(st.mem, Elements(addrs[..j]));
    assert addrs[..j][i] == addrs[i];
    assert forall k :: k in front ==> k in order;
    WriteRead64(RestoreWords(s.st.mem, s.points, front), addrs[j], seen);
  }

  /** Some order of the walk ends with any given address. */
  lemma LastInOrder(addrs: seq<Word>, j: nat) returns (order: seq<Word>)
    requires j < |addrs| && Distinct(addrs)
    ensures Walks(order, Elements(addrs)) && |order| > 0 && order[|order| - 1] == addrs[j]
  {
    order := addrs[..j] + addrs[j + 1..] + [addrs[j]];
    forall a | a in Elements(addrs)
      ensures a in order
    {
      var k :| 0 <= k < |addrs| && addrs[k] == a;
      assert order[if k < j then k else if k == j then |addrs| - 1 else k - 1] == a;
    }
  }

  /** Detaching is exact for every order of the walk exactly when no set was below an earlier one. */
  lemma EveryOrderIsExactIff(st: State, addrs: seq<Word>)
    requires SetMany(st, addrs).Some? && Distinct(addrs)
    ensures var s := SetMany(st, addrs).value;
            && AllMapped(s.st.mem, s.points)
            && ((forall order :: Walks(order, s.points.Keys) ==> RestoreWords(s.st.mem, s.points, order) == st.mem)
                <==> NeverBelowEarlier(st.mem, addrs))
  {
    SetManyPlants(st, addrs);
    var s := SetMany(st, addrs).value;
    if NeverBelowEarlier(st.mem, addrs) {
      SetManyOverlay(st, addrs);
      forall order | Walks(order, s.points.Keys)
        ensures RestoreWords(s.st.mem, s.points, order) == st.mem
      {
        RestoreIsNative(s.st.mem, st.mem, s.points, s.points.Keys, order);
      }
    } else {
      var i, j :| 0 <= i < j < |addrs| && Below(addrs[j], addrs[i]) && addrs[i] < |st.mem| &&
                  st.mem[addrs[i]] != INT3;
      var order := LastRestoredDecides(st, addrs, i, j);
      assert Walks(order, s.points.Keys);
    }
  }
}
