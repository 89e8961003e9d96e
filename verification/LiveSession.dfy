/** A whole session with the debugger, in which functions are replaced on the way. */
module LiveSession {
  import opened Memory
  import opened Machine
  import opened Breakpoints
  import opened DebugRun

  /** What happens next: an event of the main loop, or an injection after which native memory is `now`. */
  datatype SessionEvent = Plain(event: Event) | Inject(now: Mem)

  /** The stored words are those of the memory. */
  predicate StoredIn(points: Points, m: Mem) {
    forall k :: k in points ==> Mapped(m, k, 8) && Read64(m, k) == points[k].origCode
  }

  function NextInSession(isa: Isa, r: Run, e: SessionEvent): Option<Run> {
    match e
    case Plain(event) => Next(isa, r, event)
    case Inject(now) =>
      if r.phase != Stopped || |now| != |r.s.st.mem| || !StoredIn(r.s.points, now) then None
      else Some(Run(r.s.(st := r.s.st.(mem := Plant(now, r.s.points.Keys))), Stopped))
  }

  function SessionRun(isa: Isa, r: Run, es: seq<SessionEvent>): Option<Run>
    decreases |es|
  {
    if es == [] then Some(r)
    else
      var q := SessionRun(isa, r, es[..|es| - 1]);
      if q.None? then None else NextInSession(isa, q.value, es[|es| - 1])
  }

  /** What the event is for the program without a debugger: its own steps, or a patch. */
  function NativeNext(isa: Isa, n: State, q: Run, e: SessionEvent): State {
    match e
    case Plain(event) => Steps(isa, n, NativeSteps(q, event))
    case Inject(now) => n.(mem := now)
  }

  /** The native program, patched at the same moments. */
  function NativeRun(isa: Isa, n: State, r: Run, es: seq<SessionEvent>): State
    requires SessionRun(isa, r, es).Some?
    decreases |es|
  {
    if es == [] then n
    else
      var front := es[..|es| - 1];
      NativeNext(isa, NativeRun(isa, n, r, front), SessionRun(isa, r, front).value, es[|es| - 1])
  }

  /** Every native state on the way is tame. */
  ghost predicate TameAlong(isa: Isa, n: State, r: Run, es: seq<SessionEvent>, sites: set<Word>)
    requires SessionRun(isa, r, es).Some?
    decreases |es|
  {
    Tame(isa, NativeRun(isa, n, r, es), sites) &&
    (es == [] || TameAlong(isa, n, r, es[..|es| - 1], sites))
  }

  predicate Admitted(e: SessionEvent, sites: set<Word>) {
    e.Plain? ==> !e.event.RestartAt? && (e.event.SetPoint? ==> e.event.addr in sites)
  }

  /** `pdlopen` under the debugger, where it keeps an overlay, is such an event. */
  lemma InjectionIsEvent(isa: Isa, s: Session, t: Session, now: Mem)
    requires Overlay(t, now) && t.points == s.points && t.st.regs == s.st.regs && |now| == |s.st.mem|
    ensures NextInSession(isa, Run(s, Stopped), Inject(now)) == Some(Run(t, Stopped))
  {
  }

  lemma EventInSession(isa: Isa, q: Run, n: State, e: SessionEvent, p: Run, sites: set<Word>)
    requires Sim(q, n) && q.s.points.Keys <= sites && Separated(sites) && Tame(isa, n, sites)
    requires Admitted(e, sites) && NextInSession(isa, q, e) == Some(p)
    ensures Sim(p, NativeNext(isa, n, q, e)) && p.s.points.Keys <= sites
  {
    if e.Plain? {
      EventSimulates(isa, q, n, e.event, sites);
    }
  }

  /**
   * Transparency of the whole session: whatever is run, hit, set and injected, the debugged program is the
   * native one patched at the same moments, with the traps laid over it.
   */
  lemma {:induction false} SessionIsTransparent(isa: Isa, r: Run, n: State, es: seq<SessionEvent>, sites: set<Word>)
    requires Sim(r, n) && r.s.points.Keys <= sites && Separated(sites)
    requires SessionRun(isa, r, es).Some? && forall e :: e in es ==> Admitted(e, sites)
    requires TameAlong(isa, n, r, es, sites)
    ensures var q := SessionRun(isa, r, es).value;
            Sim(q, NativeRun(isa, n, r, es)) && Project(q) == NativeRun(isa, n, r, es) && q.s.points.Keys <= sites
    decreases |es|
  {
    if es != [] {
      var front, e := es[..|es| - 1], es[|es| - 1];
      assert e in es;
      SessionIsTransparent(isa, r, n, front, sites);
      EventInSession(isa, SessionRun(isa, r, front).value, NativeRun(isa, n, r, front), e,
                     SessionRun(isa, r, es).value, sites);
    }
    SimIsProjection(SessionRun(isa, r, es).value, NativeRun(isa, n, r, es));
  }
}
