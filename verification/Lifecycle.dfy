/** `FunctionInjector`: which libraries are recorded, which are open in the target, and where functions lead. */
module Lifecycle {
  import opened Memory
  import Machine

  type Option<+T> = Machine.Option<T>

  /** `path` is null when the compiler has left no library; `handle` is 0 before the first injection. */
  datatype FuncInfo = FuncInfo(path: Option<string>, handle: Word)

  type Functions = map<string, FuncInfo>

  /** `compiled_functions` points to the entry of `sources` for the current source. */
  datatype Records = Records(sources: map<string, Functions>, current: Option<string>)

  /** How often each library is open in the target, and the library that each replaced function leads to. */
  datatype Loaded = Loaded(opens: multiset<Word>, sites: map<string, Word>)

  datatype Status = Status(rec: Records, target: Loaded)

  /**
   * What the user asks for. `handle` is what dlopen will return, 0 if it or malloc fails; `found` says
   * whether the library then shows up in the memory map, without which no trampoline is written.
   */
  datatype Request =
    | Assign(src: string)
    | Compile(func: string, path: Option<string>)
    | Inject(func: string, handle: Word, found: bool)

  function AssignSource(rec: Records, src: string): Records {
    Records(if src in rec.sources then rec.sources else rec.sources[src := map[]], Machine.Some(src))
  }

  predicate Known(rec: Records, src: string, func: string) {
    src in rec.sources && func in rec.sources[src]
  }

  predicate CurrentKnown(rec: Records, func: string) {
    rec.current.Some? && Known(rec, rec.current.value, func)
  }

  function Put(rec: Records, src: string, func: string, info: FuncInfo): Records
    requires src in rec.sources
  {
    rec.(sources := rec.sources[src := rec.sources[src][func := info]])
  }

  /** A function compiled before keeps its entry. */
  function CompileFunc(rec: Records, func: string, path: Option<string>): Records
    requires Valid(rec)
  {
    if rec.current.None? || CurrentKnown(rec, func) then rec else Put(rec, rec.current.value, func, FuncInfo(path, 0))
  }

  /** dlclose succeeds on a library that is open. */
  function Dlclose(t: Loaded, handle: Word): Loaded {
    t.(opens := t.opens - multiset{handle})
  }

  function Dlopen(t: Loaded, func: string, handle: Word, found: bool): Loaded {
    Loaded(t.opens + multiset{handle}, if found then t.sites[func := handle] else t.sites)
  }

  /** `strlen` of a null path: the debugger is killed. */
  const CRASHED := -11

  /** What `inject_func` does and its result code. */
  function Injected(s: Status, func: string, handle: Word, found: bool): (Status, int) {
    if !CurrentKnown(s.rec, func) then (s, 1)
    else
      var src := s.rec.current.value;
      var info := s.rec.sources[src][func];
      if info.handle != 0 && info.handle !in s.target.opens then (s, 3)
      else
        var t := if info.handle != 0 then Dlclose(s.target, info.handle) else s.target;
        if info.path.None? then (s.(target := t), CRASHED)
        else if handle == 0 then (s.(target := t), 3)
        else (Status(Put(s.rec, src, func, info.(handle := handle)), Dlopen(t, func, handle, found)), 0)
  }

  predicate Valid(rec: Records) {
    rec.current.Some? ==> rec.current.value in rec.sources
  }

  function Serve(s: Status, q: Request): (t: Status)
    requires Valid(s.rec)
    ensures Valid(t.rec)
  {
    match q
    case Assign(src) => s.(rec := AssignSource(s.rec, src))
    case Compile(func, path) => s.(rec := CompileFunc(s.rec, func, path))
    case Inject(func, handle, found) => Injected(s, func, handle, found).0
  }

  function ServeAll(s: Status, qs: seq<Request>): (t: Status)
    requires Valid(s.rec)
    ensures Valid(t.rec)
    decreases |qs|
  {
    if qs == [] then s else Serve(ServeAll(s, qs[..|qs| - 1]), qs[|qs| - 1])
  }

  // ----- conservation of handles

  /** The entries that record a library. */
  function Holders(rec: Records, h: Word): set<(string, string)> {
    set src, func | src in rec.sources && func in rec.sources[src] && rec.sources[src][func].handle == h :: (src, func)
  }

  /** The library that the current entry records, 0 if none. */
  function Recorded(s: Status, func: string): Word {
    if CurrentKnown(s.rec, func) then s.rec.sources[s.rec.current.value][func].handle else 0
  }

  /** There is no path to open. */
  predicate NoPath(s: Status, func: string) {
    CurrentKnown(s.rec, func) && s.rec.sources[s.rec.current.value][func].path.None?
  }

  /** The request closes library `h` and gets none in its place. */
  predicate Loses(s: Status, q: Request, h: Word) {
    h != 0 && q.Inject? && (q.handle == 0 || NoPath(s, q.func)) && Recorded(s, q.func) == h && h in s.target.opens
  }

  function TimesLost(s: Status, qs: seq<Request>, h: Word): nat
    requires Valid(s.rec)
    decreases |qs|
  {
    if qs == [] then 0
    else
      var before := qs[..|qs| - 1];
      TimesLost(s, before, h) + (if Loses(ServeAll(s, before), qs[|qs| - 1], h) then 1 else 0)
  }

  /** Recording `h` in an entry adds it to the holders; what it held before goes. */
  lemma HoldersAfterPut(rec: Records, src: string, func: string, info: FuncInfo, h: Word)
    requires src in rec.sources
    ensures Holders(Put(rec, src, func, info), h) ==
            Holders(rec, h) - {(src, func)} + (if info.handle == h then {(src, func)} else {})
  {
  }

  function One(b: bool): nat {
    if b then 1 else 0
  }

  lemma CountAfterPut(rec: Records, src: string, func: string, info: FuncInfo, h: Word)
    requires src in rec.sources
    ensures |Holders(Put(rec, src, func, info), h)| ==
            |Holders(rec, h)| - One(func in rec.sources[src] && rec.sources[src][func].handle == h)
            + One(info.handle == h)
  {
    HoldersAfterPut(rec, src, func, info, h);
    assert (src, func) in Holders(rec, h) <==> func in rec.sources[src] && rec.sources[src][func].handle == h;
  }

  lemma InjectionConserves(s: Status, func: string, handle: Word, found: bool, h: Word)
    requires CurrentKnown(s.rec, func) && h != 0
    ensures var t := Injected(s, func, handle, found).0;
            |Holders(t.rec, h)| + s.target.opens[h] ==
            |Holders(s.rec, h)| + t.target.opens[h] + One(Loses(s, Inject(func, handle, found), h))
  {
    var src := s.rec.current.value;
    CountAfterPut(s.rec, src, func, s.rec.sources[src][func].(handle := handle), h);
  }

  /** One request keeps the difference between entries and open libraries, but for a library it loses. */
  lemma RequestConserves(s: Status, q: Request, h: Word)
    requires Valid(s.rec) && h != 0
    ensures var t := Serve(s, q);
            |Holders(t.rec, h)| + s.target.opens[h] ==
            |Holders(s.rec, h)| + t.target.opens[h] + One(Loses(s, q, h))
  {
    match q
    case Assign(src) =>
      assert Holders(AssignSource(s.rec, src), h) == Holders(s.rec, h);
    case Compile(func, path) =>
      if s.rec.current.Some? && !CurrentKnown(s.rec, func) {
        CountAfterPut(s.rec, s.rec.current.value, func, FuncInfo(path, 0), h);
      }
    case Inject(func, handle, found) =>
      if CurrentKnown(s.rec, func) {
        InjectionConserves(s, func, handle, found, h);
      }
  }

  /**
   * Over every run: a library is open as often as it was before the run and entries record it since, less
   * the times it was closed for a replacement that could not be opened.
   */
  lemma {:induction false} HandlesConserved(s: Status, qs: seq<Request>, h: Word)
    requires Valid(s.rec) && h != 0
    ensures var t := ServeAll(s, qs);
            |Holders(t.rec, h)| + s.target.opens[h] ==
            |Holders(s.rec, h)| + t.target.opens[h] + TimesLost(s, qs, h)
    decreases |qs|
  {
    if qs != [] {
      var before := qs[..|qs| - 1];
      HandlesConserved(s, before, h);
      RequestConserves(ServeAll(s, before), qs[|qs| - 1], h);
    }
  }

  // ----- trampolines into open libraries

  /** Open libraries are those that entries record, and the target's `own`. */
  ghost predicate Balanced(s: Status, own: multiset<Word>) {
    forall h: Word :: h != 0 ==> s.target.opens[h] == own[h] + |Holders(s.rec, h)|
  }

  predicate HeldBy(rec: Records, src: string, func: string, h: Word) {
    Known(rec, src, func) && rec.sources[src][func].handle == h
  }

  /** Every trampoline leads into a library that an entry for that function records. */
  ghost predicate SitesHeld(s: Status) {
    forall f :: f in s.target.sites ==> s.target.sites[f] != 0 && exists src :: HeldBy(s.rec, src, f, s.target.sites[f])
  }

  ghost predicate SitesOpen(s: Status) {
    forall f :: f in s.target.sites ==> s.target.sites[f] in s.target.opens
  }

  lemma HeldIsOpen(s: Status, own: multiset<Word>)
    requires Balanced(s, own) && SitesHeld(s)
    ensures SitesOpen(s)
  {
    forall f | f in s.target.sites
      ensures s.target.sites[f] in s.target.opens
    {
      var h := s.target.sites[f];
      var src :| HeldBy(s.rec, src, f, h);
      assert (src, f) in Holders(s.rec, h);
    }
  }

  /** The request closes a library and opens none in its place. */
  predicate LosesSome(s: Status, q: Request) {
    q.Inject? && Loses(s, q, Recorded(s, q.func))
  }

  /** The request replaces a library that the function's trampoline leads to, but writes no trampoline. */
  ghost predicate Orphans(s: Status, q: Request) {
    q.Inject? && Injected(s, q.func, q.handle, q.found).1 == 0 && !q.found && q.func in s.target.sites &&
    var h := s.target.sites[q.func];
    Recorded(s, q.func) == h != q.handle && forall src :: HeldBy(s.rec, src, q.func, h) ==> src == s.rec.current.value
  }

  lemma BalancedIff(s: Status, q: Request, own: multiset<Word>)
    requires Valid(s.rec) && Balanced(s, own)
    ensures Balanced(Serve(s, q), own) <==> !LosesSome(s, q)
  {
    var t := Serve(s, q);
    forall h: Word | h != 0
      ensures t.target.opens[h] + One(Loses(s, q, h)) == own[h] + |Holders(t.rec, h)|
    {
      RequestConserves(s, q, h);
    }
  }

  lemma StillHeld(s: Status, q: Request, src: string, f: string, h: Word)
    requires Valid(s.rec) && HeldBy(s.rec, src, f, h)
    requires !q.Inject? || Injected(s, q.func, q.handle, q.found).1 != 0 || f != q.func ||
             src != s.rec.current.value || h == q.handle
    ensures HeldBy(Serve(s, q).rec, src, f, h)
  {
  }

  lemma SiteHeldAfter(s: Status, q: Request, f: string)
    requires Valid(s.rec) && SitesHeld(s) && !Orphans(s, q) && f in Serve(s, q).target.sites
    ensures var t := Serve(s, q);
            t.target.sites[f] != 0 && exists src :: HeldBy(t.rec, src, f, t.target.sites[f])
  {
    var t := Serve(s, q);
    if q.Inject? && Injected(s, q.func, q.handle, q.found).1 == 0 && q.found && f == q.func {
      assert HeldBy(t.rec, s.rec.current.value, f, q.handle);
    } else {
      var h := s.target.sites[f];
      assert t.target.sites[f] == h;
      var src :| HeldBy(s.rec, src, f, h) &&
                 (!q.Inject? || Injected(s, q.func, q.handle, q.found).1 != 0 || f != q.func ||
                  src != s.rec.current.value || h == q.handle);
      StillHeld(s, q, src, f, h);
    }
  }

  /** A request takes the library away from under a trampoline exactly when it orphans it. */
  lemma SitesHeldIff(s: Status, q: Request)
    requires Valid(s.rec) && SitesHeld(s)
    ensures SitesHeld(Serve(s, q)) <==> !Orphans(s, q)
  {
    var t := Serve(s, q);
    if Orphans(s, q) {
      var h := s.target.sites[q.func];
      assert t.target.sites[q.func] == h;
      forall src
        ensures !HeldBy(t.rec, src, q.func, h)
      {
        assert HeldBy(t.rec, src, q.func, h) && src != s.rec.current.value ==> HeldBy(s.rec, src, q.func, h);
      }
    } else {
      forall f | f in t.target.sites
        ensures t.target.sites[f] != 0 && exists src :: HeldBy(t.rec, src, f, t.target.sites[f])
      {
        SiteHeldAfter(s, q, f);
      }
    }
  }

  /** Neither failure happens at any point of the run. */
  ghost predicate RunsWell(s: Status, qs: seq<Request>)
    requires Valid(s.rec)
    decreases |qs|
  {
    qs == [] ||
    var before := qs[..|qs| - 1];
    RunsWell(s, before) && !LosesSome(ServeAll(s, before), qs[|qs| - 1]) && !Orphans(ServeAll(s, before), qs[|qs| - 1])
  }

  /** A new injector, on a target that has its own libraries open. */
  function Fresh(own: multiset<Word>): Status {
    Status(Records(map[], Machine.None), Loaded(own, map[]))
  }

  /** In such a run every trampoline leads into an open library, and no library stays open unrecorded. */
  lemma {:induction false} TrampolinesStayValid(own: multiset<Word>, qs: seq<Request>)
    requires RunsWell(Fresh(own), qs)
    ensures var t := ServeAll(Fresh(own), qs);
            Balanced(t, own) && SitesHeld(t) && SitesOpen(t)
    decreases |qs|
  {
    if qs == [] {
      assert Balanced(Fresh(own), own) by {
        forall h: Word ensures Holders(Fresh(own).rec, h) == {} {}
      }
    } else {
      var before := qs[..|qs| - 1];
      TrampolinesStayValid(own, before);
      BalancedIff(ServeAll(Fresh(own), before), qs[|qs| - 1], own);
      SitesHeldIff(ServeAll(Fresh(own), before), qs[|qs| - 1]);
    }
    HeldIsOpen(ServeAll(Fresh(own), qs), own);
  }

  // ----- what is recorded after a run

  /** The source assigned last. */
  function LastAssigned(qs: seq<Request>): Option<string>
    decreases |qs|
  {
    if qs == [] then Machine.None
    else if qs[|qs| - 1].Assign? then Machine.Some(qs[|qs| - 1].src)
    else LastAssigned(qs[..|qs| - 1])
  }

  /** Request `i` compiles the function while that source is the one assigned last. */
  predicate CompiledBy(qs: seq<Request>, i: nat, src: string, func: string) {
    i < |qs| && qs[i].Compile? && qs[i].func == func && LastAssigned(qs[..i]) == Machine.Some(src)
  }

  predicate EverCompiled(qs: seq<Request>, src: string, func: string) {
    exists i: nat :: i < |qs| && CompiledBy(qs, i, src, func)
  }

  /** No request before `i` does. */
  predicate FirstCompiledBy(qs: seq<Request>, i: nat, src: string, func: string) {
    CompiledBy(qs, i, src, func) && forall j: nat :: j < i ==> !CompiledBy(qs, j, src, func)
  }

  /** The records say what was assigned and compiled in the run, and where the first compiler left its library. */
  ghost predicate Faithful(rec: Records, qs: seq<Request>) {
    && rec.current == LastAssigned(qs)
    && (forall src, func :: Known(rec, src, func) <==> EverCompiled(qs, src, func))
    && (forall i: nat, src, func :: FirstCompiledBy(qs, i, src, func) ==>
          Known(rec, src, func) && rec.sources[src][func].path == qs[i].path)
  }

  lemma CompiledBefore(qs: seq<Request>, i: nat, src: string, func: string)
    requires qs != [] && i < |qs| - 1
    ensures CompiledBy(qs, i, src, func) <==> CompiledBy(qs[..|qs| - 1], i, src, func)
  {
    assert qs[..|qs| - 1][..i] == qs[..i];
  }

  lemma EverCompiledStep(qs: seq<Request>, src: string, func: string)
    requires qs != []
    ensures EverCompiled(qs, src, func) <==>
            EverCompiled(qs[..|qs| - 1], src, func) || CompiledBy(qs, |qs| - 1, src, func)
  {
    var before := qs[..|qs| - 1];
    if EverCompiled(qs, src, func) {
      var i: nat :| i < |qs| && CompiledBy(qs, i, src, func);
      if i < |qs| - 1 {
        CompiledBefore(qs, i, src, func);
      }
    }
    if EverCompiled(before, src, func) {
      var i: nat :| i < |before| && CompiledBy(before, i, src, func);
      CompiledBefore(qs, i, src, func);
    }
  }

  lemma FirstCompiledStep(qs: seq<Request>, i: nat, src: string, func: string)
    requires qs != [] && FirstCompiledBy(qs, i, src, func)
    ensures if i < |qs| - 1 then FirstCompiledBy(qs[..|qs| - 1], i, src, func)
            else i == |qs| - 1 && !EverCompiled(qs[..|qs| - 1], src, func)
  {
    var before := qs[..|qs| - 1];
    forall j: nat | j < i
      ensures !CompiledBy(before, j, src, func)
    {
      CompiledBefore(qs, j, src, func);
    }
    if i < |qs| - 1 {
      CompiledBefore(qs, i, src, func);
    }
  }

  /** What one request adds to the entries and their paths, on the maps. */
  ghost predicate Adds(s: Records, t: Records, q: Request, src: string, func: string) {
    && t.current == (if q.Assign? then Machine.Some(q.src) else s.current)
    && (Known(t, src, func) <==>
        Known(s, src, func) || (q.Compile? && q.func == func && s.current == Machine.Some(src)))
    && (Known(s, src, func) && Known(t, src, func) ==> t.sources[src][func].path == s.sources[src][func].path)
    && (Known(t, src, func) && !Known(s, src, func) && q.Compile? ==> t.sources[src][func] == FuncInfo(q.path, 0))
  }

  lemma EntryAfter(s: Status, q: Request, src: string, func: string)
    requires Valid(s.rec)
    ensures Adds(s.rec, Serve(s, q).rec, q, src, func)
  {
    match q
    case Assign(_) => EntryAssigned(s.rec, q.src, src, func);
    case Compile(_, _) => EntryCompiled(s.rec, q.func, q.path, src, func);
    case Inject(_, _, _) => EntryInjected(s, q.func, q.handle, q.found, src, func);
  }

  lemma EntryAssigned(rec: Records, name: string, src: string, func: string)
    requires Valid(rec)
    ensures Adds(rec, AssignSource(rec, name), Assign(name), src, func)
  {
  }

  lemma EntryCompiled(rec: Records, compiled: string, path: Option<string>, src: string, func: string)
    requires Valid(rec)
    ensures Adds(rec, CompileFunc(rec, compiled, path), Compile(compiled, path), src, func)
  {
  }

  lemma EntryInjected(s: Status, injected: string, handle: Word, found: bool, src: string, func: string)
    requires Valid(s.rec)
    ensures Adds(s.rec, Injected(s, injected, handle, found).0.rec, Inject(injected, handle, found), src, func)
  {
  }

  /** After every run of a new injector. */
  lemma {:induction false} RecordsAreFaithful(own: multiset<Word>, qs: seq<Request>)
    ensures Faithful(ServeAll(Fresh(own), qs).rec, qs)
    decreases |qs|
  {
    if qs != [] {
      var last := |qs| - 1;
      var s := ServeAll(Fresh(own), qs[..last]);
      RecordsAreFaithful(own, qs[..last]);
      RecordsStayFaithful(s, qs);
    }
  }

  lemma RecordsStayFaithful(s: Status, qs: seq<Request>)
    requires Valid(s.rec) && qs != [] && Faithful(s.rec, qs[..|qs| - 1])
    ensures Faithful(Serve(s, qs[|qs| - 1]).rec, qs)
  {
    var last := |qs| - 1;
    var t := Serve(s, qs[last]);
    EntryAfter(s, qs[last], "", "");
    forall src, func
      ensures Known(t.rec, src, func) <==> EverCompiled(qs, src, func)
    {
      EntryAfter(s, qs[last], src, func);
      EverCompiledStep(qs, src, func);
    }
    forall i: nat, src, func | FirstCompiledBy(qs, i, src, func)
      ensures Known(t.rec, src, func) && t.rec.sources[src][func].path == qs[i].path
    {
      EntryAfter(s, qs[last], src, func);
      FirstCompiledStep(qs, i, src, func);
    }
  }

  /**
   * After every run: an injection is refused with 1 exactly if the function was never compiled from the
   * source assigned last. If its first compilation left a library, it never kills the debugger, and it
   * succeeds exactly when dlopen returns a handle and the library it replaces, if any, is open.
   */
  lemma InjectionAfterRun(own: multiset<Word>, qs: seq<Request>, func: string, handle: Word, found: bool)
    ensures var s := ServeAll(Fresh(own), qs);
            var code := Injected(s, func, handle, found).1;
            && (code == 1 <==> LastAssigned(qs).None? || !EverCompiled(qs, LastAssigned(qs).value, func))
            && forall i: nat :: LastAssigned(qs).Some? && FirstCompiledBy(qs, i, LastAssigned(qs).value, func) ==>
                 var src := LastAssigned(qs).value;
                 && Known(s.rec, src, func)
                 && (qs[i].path.None? ==> code == 3 || code == -11)
                 && (qs[i].path.Some? ==> code == 3 || code == 0)
                 && (qs[i].path.Some? ==>
                       var h := s.rec.sources[src][func].handle;
                       (code == 0 <==> handle != 0 && (h == 0 || h in s.target.opens)))
  {
    RecordsAreFaithful(own, qs);
  }

  // ----- a handle that is no longer valid

  /** The entry records a library that is not open. */
  predicate Stale(s: Status, src: string, func: string, h: Word) {
    h != 0 && HeldBy(s.rec, src, func, h) && h !in s.target.opens
  }

  /** A replacement that cannot be opened leaves the entry with the closed library. */
  lemma LosingTheLastMakesStale(s: Status, q: Request)
    requires Valid(s.rec) && LosesSome(s, q) && s.target.opens[Recorded(s, q.func)] == 1
    ensures Stale(Serve(s, q), s.rec.current.value, q.func, Recorded(s, q.func))
  {
  }

  lemma StaleKept(s: Status, q: Request, src: string, func: string, h: Word)
    requires Valid(s.rec) && Stale(s, src, func, h) && (q.Inject? ==> q.handle != h)
    ensures Stale(Serve(s, q), src, func, h)
  {
    assert q.Inject? && q.func == func && s.rec.current == Machine.Some(src) ==>
        Injected(s, func, q.handle, q.found) == (s, 3);
    StillHeld(s, q, src, func, h);
  }

  lemma StaleIsRefused(s: Status, src: string, func: string, h: Word, handle: Word, found: bool)
    requires Stale(s, src, func, h) && s.rec.current == Machine.Some(src)
    ensures Injected(s, func, handle, found) == (s, 3)
  {
  }

  /** From then on no request for that function succeeds, until dlopen happens to return the same handle. */
  lemma {:induction false} StaleForEver(s: Status, qs: seq<Request>, src: string, func: string, h: Word)
    requires Valid(s.rec) && Stale(s, src, func, h)
    requires forall i :: 0 <= i < |qs| && qs[i].Inject? ==> qs[i].handle != h
    ensures var t := ServeAll(s, qs);
            Stale(t, src, func, h) &&
            (t.rec.current == Machine.Some(src) ==>
               forall handle, found :: Injected(t, func, handle, found) == (t, 3))
    decreases |qs|
  {
    if qs != [] {
      var before := qs[..|qs| - 1];
      StaleForEver(s, before, src, func, h);
      StaleKept(ServeAll(s, before), qs[|qs| - 1], src, func, h);
    }
    forall handle, found | ServeAll(s, qs).rec.current == Machine.Some(src)
      ensures Injected(ServeAll(s, qs), func, handle, found) == (ServeAll(s, qs), 3)
    {
      StaleIsRefused(ServeAll(s, qs), src, func, h, handle, found);
    }
  }

  // ----- the program's objects

  /** What the target's loader and code look like from outside. */
  class Target {
    var opens: multiset<Word>
    var sites: map<string, Word>

    function Now(): Loaded
      reads this
    {
      Loaded(opens, sites)
    }

    /** `pdlclose`: 0, or 1 if dlclose fails. */
    method Pdlclose(handle: Word) returns (ret: int)
      modifies this
      ensures ret == if handle in old(opens) then 0 else 1
      ensures Now() == if handle in old(opens) then Dlclose(old(Now()), handle) else old(Now())
    {
      if handle !in opens {
        return 1;
      }
      opens := opens - multiset{handle};
      return 0;
    }

    /** `pdlopen`: the handle that dlopen returns, 0 if malloc or dlopen fails. */
    method Pdlopen(func: string, handle: Word, found: bool) returns (lib: Word)
      modifies this
      ensures lib == handle
      ensures Now() == if handle == 0 then old(Now()) else Dlopen(old(Now()), func, handle, found)
    {
      if handle != 0 {
        opens := opens + multiset{handle};
        if found {
          sites := sites[func := handle];
        }
      }
      return handle;
    }
  }

  class FunctionInjector {
    const target: Target
    var sources: map<string, Functions>
    var current: Option<string>

    constructor (target: Target)
      ensures this.target == target && sources == map[] && current == Machine.None
    {
      this.target := target;
      sources, current := map[], Machine.None;
    }

    function Now(): Status
      reads this, target
    {
      Status(Records(sources, current), target.Now())
    }

    method AssignSource(src: string)
      requires Valid(Now().rec)
      modifies this
      ensures Now() == Serve(old(Now()), Assign(src))
      ensures current == Machine.Some(src)
      ensures sources == if src in old(sources) then old(sources) else old(sources)[src := map[]]
    {
      if src !in sources {
        sources := sources[src := map[]];
      }
      current := Machine.Some(src);
    }

    /** `path` is the library that the compiler leaves, null if it fails; null also without a source. */
    method CompileFunc(func: string, path: Option<string>) returns (r: Option<string>)
      requires Valid(Now().rec)
      modifies this
      ensures Now() == Serve(old(Now()), Compile(func, path))
      ensures r == if old(current).None? then Machine.None else path
      ensures current == old(current) && (current.None? ==> sources == old(sources))
      ensures current.Some? ==>
                var src := current.value;
                sources == old(sources)[src := sources[src]] && func in sources[src] &&
                sources[src] == if func in old(sources)[src] then old(sources)[src]
                                else old(sources)[src][func := FuncInfo(path, 0)]
    {
      if current.None? {
        return Machine.None;
      }
      if func !in sources[current.value] {
        sources := sources[current.value := sources[current.value][func := FuncInfo(path, 0)]];
      }
      return path;
    }

    method InjectFuncMain(info: FuncInfo, func: string, handle: Word, found: bool) returns (lib: Word, crashed: bool)
      modifies target
      ensures var was := old(target.Now());
              if info.handle != 0 && info.handle !in was.opens then !crashed && lib == 0 && target.Now() == was
              else
                var t := if info.handle != 0 then Dlclose(was, info.handle) else was;
                crashed == info.path.None? &&
                if crashed then target.Now() == t
                else lib == handle && target.Now() == if handle == 0 then t else Dlopen(t, func, handle, found)
    {
      crashed := false;
      if info.handle != 0 {
        var ret := target.Pdlclose(info.handle);
        if ret == 1 {
          return 0, false;
        }
      }
      if info.path.None? {
        return 0, true;
      }
      lib := target.Pdlopen(func, handle, found);
    }

    method InjectFunc(func: string, handle: Word, found: bool) returns (code: int)
      requires Valid(Now().rec)
      modifies this, target
      ensures (Now(), code) == Injected(old(Now()), func, handle, found)
      ensures current == old(current)
      ensures code == 1 <==> old(current).None? || func !in old(sources)[old(current).value]
      ensures code == 1 ==> Now() == old(Now())
      ensures code != 1 ==>
                var info := old(sources)[old(current).value][func];
                var open := info.handle == 0 || info.handle in old(target.opens);
                && (code == -11 <==> open && info.path.None?)
                && (code == 0 <==> open && info.path.Some? && handle != 0)
                && (code != 0 && code != -11 ==> code == 3)
                && (code != 0 ==> sources == old(sources) && target.sites == old(target.sites))
                && (code == 0 ==>
                      && target.opens == (if info.handle == 0 then old(target.opens)
                                          else old(target.opens) - multiset{info.handle}) + multiset{handle}
                      && target.sites == (if found then old(target.sites)[func := handle] else old(target.sites))
                      && sources == old(sources)[old(current).value :=
                                      old(sources)[old(current).value][func := info.(handle := handle)]])
    {
      if current.None? || func !in sources[current.value] {
        return 1;
      }
      var info := sources[current.value][func];
      var lib, crashed := InjectFuncMain(info, func, handle, found);
      if crashed {
        return CRASHED;
      }
      if lib == 0 {
        return 3;
      }
      sources := sources[current.value := sources[current.value][func := info.(handle := lib)]];
      return 0;
    }
  }
}
