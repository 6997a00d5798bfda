/** What the monitor does over whole runs from module insertion on: whether and when the
    initialisation ends, what it answers to afterwards, and which calls it makes. */
module MonitorRuns {
  import opened MonitorModel

  // ---------- registered and removed

  /** Timer and notifier are registered by the initialisation and gone after the removal. */
  predicate Registered(s: State, env: Env) {
    match s.pc
    case AtEntry => !s.armed && !s.notified
    case AtTimer => !s.armed && !s.notified && s.interval == env.every
    case AtNotifier => !s.notified && s.interval == env.every
    case Returned(false) => true
    case Removed => !s.armed && !s.notified && s.interval == s.address == 0 && s.size == s.hash == 0
    case _ => s.notified && s.interval == env.every
  }

  lemma RegisteredStep(w: World, e: Event, env: Env)
    requires Registered(w.s, env) && Enabled(w, e)
    ensures Registered(Next(w, e, env).s, env)
  {
    hide HashAt, Distance;
  }

  lemma {:induction false} RegisteredRun(w: World, es: seq<Event>, env: Env)
    requires Registered(w.s, env) && Runnable(w, es, env)
    ensures Registered(Run(w, es, env).s, env)
    decreases |es|
  {
    hide Registered, Next, Enabled;
    if es == [] {
    } else {
      RegisteredStep(w, es[0], env);
      RegisteredRun(Next(w, es[0], env), es[1..], env);
    }
  }

  /** After the removal the monitor answers to nothing, and every static variable but the handler
      is cleared. */
  lemma RemovedIsOff(mem: Memory, es: seq<Event>, env: Env)
    requires Runnable(Fresh(mem), es, env) && Run(Fresh(mem), es, env).s.pc == Removed
    ensures var w := Run(Fresh(mem), es, env);
      && !Enabled(w, InitStep) && !Enabled(w, TimerTick) && !Enabled(w, ModuleLive) && !Enabled(w, Shutdown)
      && w.s.interval == w.s.address == w.s.size == w.s.hash == 0
  {
    hide Run, Runnable;
    RegisteredRun(Fresh(mem), es, env);
  }

  // ---------- the initialisation ends

  function InitSteps(es: seq<Event>): nat {
    if es == [] then 0 else (if es[0].InitStep? then 1 else 0) + InitSteps(es[1..])
  }

  predicate Possible(env: Env) {
    env.every > 0 && env.table != 0 && env.nextSymbol != 0
  }

  /** How many steps the initialisation takes: all nine, or as many as it needs to find out that
      the interval is 0, that there is no table, or that no symbol follows it. */
  function StepsNeeded(env: Env): nat {
    if env.every == 0 then 1 else if env.table == 0 then 4 else if env.nextSymbol == 0 then 5 else 9
  }

  function StepsDone(pc: Pc, env: Env): nat {
    match pc
    case AtEntry => 0
    case AtTimer => 1
    case AtNotifier => 2
    case AtLookup => 3
    case AtFindNext => 4
    case AtSize => 5
    case AtHash => 6
    case AtName => 7
    case AtHandler => 8
    case _ => StepsNeeded(env)
  }

  /** The place in the initialisation can be reached with these arguments. */
  predicate Reached(pc: Pc, env: Env) {
    match pc
    case Returned(ok) => ok == Possible(env)
    case Removed => Possible(env)
    case _ => StepsDone(pc, env) < StepsNeeded(env)
  }

  lemma ProgressStep(w: World, e: Event, env: Env)
    requires Reached(w.s.pc, env) && Enabled(w, e)
    ensures var pc := Next(w, e, env).s.pc;
      Reached(pc, env) && StepsDone(pc, env) == StepsDone(w.s.pc, env) + if e.InitStep? then 1 else 0
  {
    hide HashAt, Distance;
  }

  lemma {:induction false} ProgressRun(w: World, es: seq<Event>, env: Env)
    requires Reached(w.s.pc, env) && Runnable(w, es, env)
    ensures var pc := Run(w, es, env).s.pc;
      Reached(pc, env) && StepsDone(pc, env) == StepsDone(w.s.pc, env) + InitSteps(es)
    decreases |es|
  {
    hide Reached, StepsDone, Next, Enabled;
    if es == [] {
    } else {
      ProgressStep(w, es[0], env);
      ProgressRun(Next(w, es[0], env), es[1..], env);
    }
  }

  /** Over every run from insertion on the initialisation goes on until it has taken its steps, and
      then it has succeeded, if and only if interval, table and next symbol are there. */
  lemma InitialisationEnds(mem: Memory, es: seq<Event>, env: Env)
    requires Runnable(Fresh(mem), es, env)
    ensures var pc := Run(Fresh(mem), es, env).s.pc;
      && InitSteps(es) <= StepsNeeded(env)
      && (InitSteps(es) < StepsNeeded(env) ==> !pc.Returned? && Enabled(Run(Fresh(mem), es, env), InitStep))
      && (InitSteps(es) == StepsNeeded(env) ==>
            if env.every > 0 && env.table != 0 && env.nextSymbol != 0 then pc == Returned(true) || pc == Removed
            else pc == Returned(false))
  {
    hide Run, Runnable;
    ProgressRun(Fresh(mem), es, env);
  }

  predicate NoShutdown(es: seq<Event>) {
    forall i :: 0 <= i < |es| ==> es[i] != Shutdown
  }

  lemma {:induction false} NotRemoved(w: World, es: seq<Event>, env: Env)
    requires NoShutdown(es) && w.s.pc != Removed
    ensures Run(w, es, env).s.pc != Removed
    decreases |es|
  {
    hide HashAt, Distance;
    if es == [] {
    } else {
      NotRemoved(Next(w, es[0], env), es[1..], env);
    }
  }

  /** From insertion to alarm: with an interval, a table and a next symbol, nine steps, however
      interleaved with ticks, module events and other calls, leave the monitor on: it answers to
      ticks and module events, and reports an overwrite of the table at the next tick, if and only
      if the watched bytes hash differently. */
  lemma NineStepsStartTheMonitor(mem: Memory, es: seq<Event>, env: Env, mem': Memory)
    requires env.every > 0 && env.table != 0 && env.nextSymbol != 0
    requires Runnable(Fresh(mem), es, env) && NoOverwrite(es) && NoShutdown(es) && InitSteps(es) == 9
    ensures var w := Run(Fresh(mem), es, env);
      && w.s.pc == Returned(true) && w.s.handler && w.s.interval == env.every
      && Enabled(w, TimerTick) && Enabled(w, ModuleLive) && Enabled(w, Shutdown)
      && w.s.address == env.table && w.s.size == (env.nextSymbol - env.table) % 0x1_0000_0000
    ensures CheckerCalls(Run(Fresh(mem), Tampered(es, mem'), env).s.calls) ==
      if HashAt(mem', env.table, (env.nextSymbol - env.table) % 0x1_0000_0000)
         != HashAt(mem, env.table, (env.nextSymbol - env.table) % 0x1_0000_0000) then 1 else 0
  {
    hide HashAt, Run, Runnable, Tampered, CheckerCalls;
    InitialisationEnds(mem, es, env);
    NotRemoved(Fresh(mem), es, env);
    InitialisedWatches(mem, es, env);
    OfEnvRun(Fresh(mem), es, env);
    RegisteredRun(Fresh(mem), es, env);
    OverwriteIsReportedIff(mem, es, env, mem');
  }

  // ---------- the calls

  /** The reasons of the calls that the checker did not make, in order. */
  function OutsideReasons(calls: seq<Call>): seq<int> {
    if calls == [] then []
    else
      var last := calls[|calls| - 1];
      OutsideReasons(calls[..|calls| - 1]) + if last.byChecker then [] else [last.why]
  }

  /** The reason that an event gives for a call: 2 after a module event. */
  function RequestOf(e: Event): seq<int> {
    match e
    case ModuleLive => [2]
    case External(why) => [why]
    case _ => []
  }

  /** The reasons that the events of a run give, in order. */
  function Requested(es: seq<Event>): seq<int> {
    if es == [] then []
    else RequestOf(es[0]) + Requested(es[1..])
  }

  lemma OneMoreReason(s: State, why: int, byChecker: bool)
    ensures OutsideReasons(Carbonite(s, why, byChecker).calls) == OutsideReasons(s.calls) + if byChecker then [] else [why]
  {
    var calls := Carbonite(s, why, byChecker).calls;
    assert calls[..|calls| - 1] == s.calls;
  }

  lemma RequestedStep(w: World, e: Event, env: Env)
    ensures OutsideReasons(Next(w, e, env).s.calls) == OutsideReasons(w.s.calls) + RequestOf(e)
  {
    hide HashAt, Distance, OutsideReasons;
    match e {
      case TimerTick => OneMoreReason(w.s, AFTER_INCIDENT, true);
      case ModuleLive => OneMoreReason(w.s, AFTER_MODULE_INIT, false);
      case External(why) => OneMoreReason(w.s, why, false);
      case _ =>
    }
  }

  lemma {:induction false} RequestedRun(w: World, es: seq<Event>, env: Env)
    ensures OutsideReasons(Run(w, es, env).s.calls) == OutsideReasons(w.s.calls) + Requested(es)
    decreases |es|
  {
    hide Next, OutsideReasons, RequestOf;
    if es == [] {
    } else {
      var v := Next(w, es[0], env);
      RequestedStep(w, es[0], env);
      RequestedRun(v, es[1..], env);
      var a, b, c := OutsideReasons(w.s.calls), RequestOf(es[0]), Requested(es[1..]);
      assert (a + b) + c == a + (b + c);
    }
  }

  /** Every module event and every other call is served, once and in order; other calls may come at
      any time. */
  lemma CallsAreEvents(mem: Memory, es: seq<Event>, env: Env)
    ensures OutsideReasons(Run(Fresh(mem), es, env).s.calls) == Requested(es)
    ensures forall why :: Enabled(Run(Fresh(mem), es, env), External(why))
  {
    hide Run;
    RequestedRun(Fresh(mem), es, env);
  }

  /** The checker's own calls report incidents. */
  predicate CheckerReportsIncidents(calls: seq<Call>) {
    forall i :: 0 <= i < |calls| && calls[i].byChecker ==> calls[i].why == 1
  }

  lemma {:induction false} CheckerReportsRun(w: World, es: seq<Event>, env: Env)
    requires CheckerReportsIncidents(w.s.calls)
    ensures CheckerReportsIncidents(Run(w, es, env).s.calls)
    decreases |es|
  {
    hide HashAt, Distance;
    if es == [] {
    } else {
      CheckerReportsRun(Next(w, es[0], env), es[1..], env);
    }
  }

  /** Over every run a call takes a snapshot if and only if it is not an incident call (1) right
      behind a call after a module event (2); the calls of the checker are incident calls. */
  lemma SnapshotIff(mem: Memory, es: seq<Event>, env: Env, i: nat)
    requires i < |Run(Fresh(mem), es, env).s.calls|
    ensures var calls := Run(Fresh(mem), es, env).s.calls;
      && (calls[i].snapshot <==> !(calls[i].why == 1 && i > 0 && calls[i - 1].why == 2))
      && (calls[i].byChecker ==> calls[i].why == 1)
  {
    hide Run;
    SnapshotRuleRun(Fresh(mem), es, env);
    CheckerReportsRun(Fresh(mem), es, env);
    assert RuleAt(Run(Fresh(mem), es, env).s.calls, i);
  }
}
