/** The library counts of `Lifecycle`, read off the libc calls that the target has really made. */
module LoaderTrace {
  import opened Memory
  import opened Machine
  import opened X86
  import opened HotSwap
  import opened Lifecycle

  predicate DistinctEntries(w: World) {
    w.mallocAddr != w.dlopenAddr && w.mallocAddr != w.dlcloseAddr && w.dlopenAddr != w.dlcloseAddr
  }

  /** What one call makes of the libraries that are open, by its result. */
  function AfterCall(w: World, opens: multiset<Word>, e: State): multiset<Word> {
    var rax := X86.Get(w.routine.Do(e), RAX);
    if e.regs.rip == w.dlopenAddr && rax != 0 then opens + multiset{rax}
    else if e.regs.rip == w.dlcloseAddr && rax == 0 then opens - multiset{X86.Get(e, RDI)}
    else opens
  }

  /** The open libraries after the calls of a run that began with `own` open. */
  function OpensIn(w: World, own: multiset<Word>, calls: seq<State>): multiset<Word>
    decreases |calls|
  {
    if calls == [] then own else AfterCall(w, OpensIn(w, own, calls[..|calls| - 1]), calls[|calls| - 1])
  }

  lemma OneMoreCall(w: World, own: multiset<Word>, calls: seq<State>, e: State)
    ensures OpensIn(w, own, calls + [e]) == AfterCall(w, OpensIn(w, own, calls), e)
  {
    assert (calls + [e])[..|calls + [e]| - 1] == calls;
  }

  /** The calls of `pdlopen` open exactly the library that it returns. */
  lemma PdlopenIsDlopen(w: World, own: multiset<Word>, before: seq<State>, calls: seq<State>, path: seq<Byte>,
                        len: Word, buf: Word, handle: Word, t: Loaded, func: string, found: bool)
    requires DistinctEntries(w) && CallsMade(w, path, len, buf, handle, calls) && t.opens == OpensIn(w, own, before)
    ensures (if handle == 0 then t else Dlopen(t, func, handle, found)).opens == OpensIn(w, own, before + calls)
  {
    OneMoreCall(w, own, before, calls[0]);
    if buf == 0 {
      assert calls == [calls[0]];
    } else {
      assert calls == [calls[0]] + [calls[1]];
      assert before + calls == before + [calls[0]] + [calls[1]];
      OneMoreCall(w, own, before + [calls[0]], calls[1]);
    }
  }

  /** dlclose succeeds exactly on a library that is open. */
  predicate HonestClose(w: World, opens: multiset<Word>, e: State) {
    e.regs.rip == w.dlcloseAddr ==> (X86.Get(w.routine.Do(e), RAX) == 0 <==> X86.Get(e, RDI) in opens)
  }

  /** The call of `pdlclose` closes exactly the library it is given, and 1 says that it was not open. */
  lemma PdlcloseIsDlclose(w: World, own: multiset<Word>, before: seq<State>, e: State, handle: Word, ret: Word,
                          t: Loaded)
    requires DistinctEntries(w) && t.opens == OpensIn(w, own, before) && HonestClose(w, t.opens, e)
    requires e.regs.rip == w.dlcloseAddr && X86.Get(e, RDI) == handle
    requires ret == if X86.Get(w.routine.Do(e), RAX) != 0 then 1 else 0
    ensures ret == if handle in t.opens then 0 else 1
    ensures (if handle in t.opens then Dlclose(t, handle) else t).opens == OpensIn(w, own, before + [e])
  {
    OneMoreCall(w, own, before, e);
  }
}
