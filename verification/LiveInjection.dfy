/** `handle_injection`: replacing a function of a target that has breakpoints set. */
module LiveInjection {
  import opened Memory
  import opened Machine
  import opened Ptrace
  import opened Breakpoints
  import opened Debugger
  import opened X86
  import opened Lockstep
  import opened HotSwap
  import opened LibcBreakpoint

  /** Native memory after the bytes of `f` became those of `k`. */
  ghost function Merge(native: Mem, k: Mem, f: iset<int>): (r: Mem)
    requires |k| == |native|
    ensures SameBut(native, r, f)
  {
    seq(|native|, i requires 0 <= i < |native| => if i in f then k[i] else native[i])
  }

  /** No word of a breakpoint meets `f`. */
  ghost predicate WordsMiss(points: Points, f: iset<int>) {
    forall k, x :: k in points && x in f ==> !(k <= x < k + 8)
  }

  /** A change outside the breakpoints' words is a change of native memory under the same overlay. */
  lemma OverlayUnderChange(s: Session, native: Mem, t: Session, f: iset<int>)
    requires Overlay(s, native) && t.points == s.points && WordsMiss(s.points, f)
    requires SameBut(s.st.mem, t.st.mem, f)
    ensures Overlay(t, Merge(native, t.st.mem, f))
  {
    var now := Merge(native, t.st.mem, f);
    forall k | k in s.points
      ensures Mapped(now, k, 8) && Read64(now, k) == s.points[k].origCode
    {
      assert Mapped(native, k, 8);
      SameValue(native, now, k, 8);
    }
    assert t.st.mem == Plant(now, t.points.Keys);
  }

  /**
   * Breakpoints keep off the code that libc executes. Their words keep off libc's data, the stack below
   * rsp and the buffer that malloc returns.
   */
  ghost predicate PointsApart(points: Points, c: Call, buf: Word, n: nat) {
    && (forall k, r :: k in points && r in c.w.text ==> k !in c.w.text[r])
    && WordsMiss(points, LibcAndStack(c.room, c.sp))
    && (buf == 0 || WordsMiss(points, Range(buf, n)))
  }

  /** Traps that stand nowhere in libc's code do not get into the way of an injection. */
  lemma ReadyUnderTraps(c: Call, native: Mem, keys: set<Word>, code: seq<Byte>, ret: nat, site: Word)
    requires Ready(c, native, code, ret, site) && forall k, r :: k in keys && r in c.w.text ==> k !in c.w.text[r]
    ensures Ready(c, Plant(native, keys), code, ret, site)
  {
    forall r | r in c.w.text
      ensures CodeIntact(c.w, r, Plant(native, keys))
    {
      CodeIntactIff(c.w, r, native, keys);
    }
  }

  // ----- the trampoline and breakpoints near it

  predicate InWord(points: Points, x: int) {
    exists k :: k in points && k <= x && x - k < 8
  }

  /** What `t` has inside the words of the breakpoints is what live memory held there. */
  predicate SameInWords(s: Session, t: Session) {
    |t.st.mem| == |s.st.mem| && forall x :: 0 <= x < |t.st.mem| && InWord(s.points, x) ==> t.st.mem[x] == s.st.mem[x]
  }

  /** The bytes of an overlay inside the words are the stored words and the traps. */
  lemma OverlayInWords(s: Session, native: Mem, t: Session, now: Mem, x: nat)
    requires Overlay(s, native) && Overlay(t, now) && t.points == s.points && InWord(s.points, x)
    ensures x < |s.st.mem| && x < |t.st.mem| && t.st.mem[x] == s.st.mem[x]
  {
    var k :| k in s.points && k <= x && x - k < 8;
    DigitOfValue(native, k, 8, x - k);
    DigitOfValue(now, k, 8, x - k);
  }

  /** After a change of memory some native memory is under the overlay exactly when no breakpoint's word changed. */
  lemma OverlayIff(s: Session, native: Mem, t: Session)
    requires Overlay(s, native) && t.points == s.points && |t.st.mem| == |s.st.mem|
    ensures (exists now :: Overlay(t, now)) <==> SameInWords(s, t)
  {
    if SameInWords(s, t) {
      OverlayUnderChange(s, native, t, OutsideWords(s.points));
    } else if now :| Overlay(t, now) {
      forall x | 0 <= x < |t.st.mem| && InWord(s.points, x)
        ensures t.st.mem[x] == s.st.mem[x]
      {
        OverlayInWords(s, native, t, now, x);
      }
      assert false;
    }
  }

  ghost function OutsideWords(points: Points): iset<int> {
    iset x: int | !InWord(points, x)
  }

  /** The 16 bytes of the trampoline agree with live memory on every word of a breakpoint. */
  predicate PatchFits(points: Points, live: Mem, site: int, f: Word, junk: seq<Byte>)
    requires |junk| == 4 && Mapped(live, site, 16)
  {
    forall x :: site <= x < site + 16 && InWord(points, x) ==> (Trampoline(f) + junk)[x - site] == live[x]
  }

  /** When nothing else has changed inside the words, it is up to the trampoline. */
  lemma FitsIffSame(s: Session, t: Session, f: iset<int>, site: int, func: Word, junk: seq<Byte>)
    requires |junk| == 4 && Patched(t.st.mem, site, func, junk) && t.points == s.points && WordsMiss(s.points, f)
    requires SameBut(s.st.mem, t.st.mem, f + Range(site, 16))
    ensures SameInWords(s, t) <==> PatchFits(s.points, s.st.mem, site, func, junk)
  {
    var tramp := Trampoline(func) + junk;
    forall x | site <= x < site + 16
      ensures t.st.mem[x] == tramp[x - site]
    {
      assert t.st.mem[site..site + 16][x - site] == t.st.mem[x];
    }
    forall x | 0 <= x < |t.st.mem| && InWord(s.points, x) && !(site <= x < site + 16)
      ensures t.st.mem[x] == s.st.mem[x]
    {
      var k :| k in s.points && k <= x && x - k < 8;
      assert x !in f;
    }
  }

  /** A word that reaches to the function's first byte does not fit: that byte becomes 0x48. */
  lemma FirstByteDoesNotFit(points: Points, live: Mem, site: nat, f: Word, junk: seq<Byte>)
    requires |junk| == 4 && Mapped(live, site, 16) && InWord(points, site) && live[site] != 0x48
    ensures !PatchFits(points, live, site, f, junk)
  {
    assert (Trampoline(f) + junk)[site - site] == 0x48;
  }

  /** A breakpoint on the replaced function itself never does. */
  lemma TrampolineTakesTrap(s: Session, native: Mem, site: Word, f: Word, junk: seq<Byte>)
    requires Overlay(s, native) && site in s.points && |junk| == 4 && Mapped(s.st.mem, site, 16)
    ensures !PatchFits(s.points, s.st.mem, site, f, junk)
  {
    assert s.st.mem[site] == INT3;
    FirstByteDoesNotFit(s.points, s.st.mem, site, f, junk);
  }

  // ----- injection

  ghost predicate NothingInWords(s: Session, t: Session, f: iset<int>) {
    t.points == s.points && SameBut(s.st.mem, t.st.mem, f) && SameInWords(s, t)
  }

  lemma OverlayUnderFit(s: Session, native: Mem, t: Session, f: iset<int>) returns (now: Mem)
    requires Overlay(s, native) && NothingInWords(s, t, f)
    ensures Overlay(t, now) && SameBut(native, now, f)
  {
    var g := iset x: int | x in f && !InWord(s.points, x);
    OverlayUnderChange(s, native, t, g);
    now := Merge(native, t.st.mem, g);
  }

  lemma MissesFootprint(points: Points, c: Call, buf: Word, n: nat, site: Word)
    requires PointsApart(points, c, buf, n)
    ensures WordsMiss(points, Footprint(c, buf, n, site, false))
  {
  }

  lemma UntouchedWords(s: Session, t: Session, f: iset<int>)
    requires t.points == s.points && WordsMiss(s.points, f) && SameBut(s.st.mem, t.st.mem, f)
    ensures SameInWords(s, t)
  {
  }

  /** What an injection has written to the replaced function fits the breakpoints, or nothing was written. */
  predicate Fits(points: Points, live: Mem, site: int, loaded: Word, junk: seq<Byte>, patched: bool)
    requires |junk| == 4 && Mapped(live, site, 16)
  {
    patched ==> PatchFits(points, live, site, loaded, junk)
  }

  /** The words are the same exactly when the trampoline fits. */
  lemma WordsAfterInjection(s: Session, t: Session, c: Call, buf: Word, n: nat, site: Word, loaded: Word,
                            junk: seq<Byte>, patched: bool)
    requires t.points == s.points && |junk| == 4 && Mapped(s.st.mem, site, 16) && PointsApart(s.points, c, buf, n)
    requires SameBut(s.st.mem, t.st.mem, Footprint(c, buf, n, site, patched))
    requires patched ==> Patched(t.st.mem, site, loaded, junk)
    ensures SameInWords(s, t) <==> Fits(s.points, s.st.mem, site, loaded, junk, patched)
  {
    var f := Footprint(c, buf, n, site, false);
    MissesFootprint(s.points, c, buf, n, site);
    if patched {
      FitsIffSame(s, t, f, site, loaded, junk);
    } else {
      UntouchedWords(s, t, f);
    }
  }

  /**
   * Injection under the debugger, even with armed breakpoints inside the stub's place. The overlay holds
   * on exactly when the trampoline fits the breakpoints near the replaced function; native memory has
   * then changed only where `pdlopen` may leave changes.
   */
  method InjectUnderPtrace(d: Debugger, w: World, code: seq<Byte>, ret: nat, start: Word, path: array<Byte>,
                           pathLength: Word, func: Symbol, loaded: Word, junk: seq<Byte>, ghost c: Call,
                           ghost native: Mem)
    returns (r: Outcome, ghost now: Mem, ghost buf: Word, ghost calls: seq<State>)
    requires d.target.stopped && c.isa == d.target.isa && c.w == w && c.base == start + 8
    requires c.sp == Get(d.target.Now(), RSP)
    requires Ready(c, native, code, ret, SiteOf(func, start))
    requires 0 < pathLength && path.Length == RoundUp(pathLength) && |junk| == 4 && start + 9 < TWO_64
    requires Overlay(d.Now(), native)
    requires var first := StubState(c, d.target.Now(), code, ret, 1, pathLength);
             GoodCalls(c, first, 1, path[..]) && PointsApart(d.points, c, BufferAt(c, first), RoundUp(pathLength))
    modifies d.target
    ensures d.points == old(d.points) && d.target.stopped
    ensures r.Exited? ==> Overlay(d.Now(), native)
    ensures r.Returned? ==> d.target.regs == old(d.target.regs)
    ensures r.Returned? ==> CallsMade(w, path[..], pathLength, buf, r.handle, calls)
    ensures r.Returned? ==>
              ((exists k :: Overlay(d.Now(), k)) <==>
               Fits(d.points, old(d.target.mem), SiteOf(func, start), loaded, junk, r.handle != 0 && loaded != 0))
    ensures r.Returned? && (exists k :: Overlay(d.Now(), k)) ==>
              Overlay(d.Now(), now) &&
              SameBut(native, now,
                      Footprint(c, buf, RoundUp(pathLength), SiteOf(func, start), r.handle != 0 && loaded != 0))
    ensures r.Returned? && r.handle != 0 && loaded != 0 ==>
              HasTrampoline(d.target.mem, if func.dynamic then Add64(start, func.addr) else func.addr, loaded)
  {
    ghost var s := d.Now();
    var site := SiteOf(func, start);
    ReadyUnderTraps(c, native, d.points.Keys, code, ret, site);
    r, buf, calls := Pdlopen(d.target, w, code, ret, start, 1, 0, path, pathLength, func, loaded, junk, c);
    now := native;
    if r.Returned? {
      ghost var patched := r.handle != 0 && loaded != 0;
      WordsAfterInjection(s, d.Now(), c, buf, RoundUp(pathLength), site, loaded, junk, patched);
      OverlayIff(s, native, d.Now());
      if SameInWords(s, d.Now()) {
        now := OverlayUnderFit(s, native, d.Now(), Footprint(c, buf, RoundUp(pathLength), site, patched));
      }
    }
  }
}
