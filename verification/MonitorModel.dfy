/** The monitor of the system call table as a state machine:
    the-drip-dry-carbonite/src/sys-call-table-integrity-check.c and the dispatch in
    the-drip-dry-carbonite/src/carbonite.c.  Initialisation advances one assignment at a time,
    so that a timer tick can fall between any two of them. */
module MonitorModel {
  import opened Words
  import opened FastHash
  import Kallsyms

  const NONE := -1
  const AFTER_INCIDENT := 1
  const AFTER_MODULE_INIT := 2

  type Memory = nat -> byte

  /** One call of `carbonite`: why, whether it took a snapshot, and whether the checker made it. */
  datatype Call = Call(why: int, snapshot: bool, byChecker: bool)

  /** The next assignment of init_sys_call_table_integrity_checker. */
  datatype Pc =
    | AtEntry | AtTimer | AtNotifier | AtLookup | AtFindNext | AtSize | AtHash | AtName | AtHandler
    | Returned(ok: bool)
    | Removed   // behind destroy_sys_call_table_integrity_checker

  datatype State = State(
    pc: Pc, interval: nat, armed: bool, notified: bool,
    address: nat, next: nat, size: word, hash: word, handler: bool,
    previousReason: int, calls: seq<Call>)

  /** The arguments of the initialisation and what the symbol table answers. */
  datatype Env = Env(every: nat, table: nat, nextSymbol: nat)

  function BytesAt(mem: Memory, address: nat, size: word): seq<byte> {
    seq(size, i requires 0 <= i => mem(address + i))
  }

  /** super_fast_hash of a piece of memory; the hash of a NULL pointer is 0. */
  function HashAt(mem: Memory, address: nat, size: word): word {
    if address == 0 then 0 else Hash(BytesAt(mem, address, size))
  }

  predicate Differs(s: State, mem: Memory) {
    s.hash != HashAt(mem, s.address, s.size)
  }

  /** An `unsigned int` takes the low 32 bits of the distance. */
  function Distance(next: nat, address: nat): word {
    (next - address) % M32
  }

  // ---------- steps

  function Carbonite(s: State, why: int, byChecker: bool): State {
    var snapshot := !(s.previousReason == AFTER_MODULE_INIT && why == AFTER_INCIDENT);
    s.(previousReason := why, calls := s.calls + [Call(why, snapshot, byChecker)])
  }

  function Init(s: State, env: Env, mem: Memory): State {
    match s.pc
    case AtEntry => if env.every == 0 then s.(pc := Returned(false)) else s.(pc := AtTimer, interval := env.every)
    case AtTimer => s.(pc := AtNotifier, armed := s.armed || s.interval > 0)
    case AtNotifier => s.(pc := AtLookup, notified := true)
    case AtLookup => s.(pc := if env.table == 0 then Returned(false) else AtFindNext, address := env.table)
    case AtFindNext => s.(pc := if env.nextSymbol == 0 then Returned(false) else AtSize, next := env.nextSymbol)
    case AtSize => s.(pc := AtHash, size := Distance(s.next, s.address))
    case AtHash => s.(pc := AtName, hash := HashAt(mem, s.address, s.size))
    case AtName => s.(pc := AtHandler)
    case AtHandler => s.(pc := Returned(true), handler := true)
    case _ => s
  }

  /** sys_call_table_integrity_checker; the timer that fired is registered again. */
  function Tick(s: State, mem: Memory): State {
    var t := if Differs(s, mem) && s.handler then Carbonite(s, AFTER_INCIDENT, true).(handler := false) else s;
    t.(armed := s.interval > 0)
  }

  /** destroy_sys_call_table_integrity_checker leaves the handler as it is. */
  function Destroy(s: State): State {
    s.(pc := Removed, interval := 0, armed := false, notified := false, address := 0, size := 0, hash := 0)
  }

  datatype Event =
    | InitStep
    | TimerTick
    | ModuleLive             // another module has gone live
    | External(why: int)     // carbonite called on demand or by another module
    | Overwrite(mem: Memory) // the memory has changed
    | Shutdown               // the module is removed

  datatype World = World(s: State, mem: Memory)

  function Next(w: World, e: Event, env: Env): World {
    match e
    case InitStep => w.(s := Init(w.s, env, w.mem))
    case TimerTick => w.(s := Tick(w.s, w.mem))
    case ModuleLive => w.(s := Carbonite(w.s, AFTER_MODULE_INIT, false))
    case External(why) => w.(s := Carbonite(w.s, why, false))
    case Overwrite(mem) => w.(mem := mem)
    case Shutdown => w.(s := Destroy(w.s))
  }

  /** Ticks come from an armed timer, the notifier calls the handler unguarded, and only a module
      that has been initialised is removed. */
  predicate Enabled(w: World, e: Event) {
    match e
    case InitStep => !w.s.pc.Returned? && !w.s.pc.Removed?
    case TimerTick => w.s.armed
    case ModuleLive => w.s.notified && w.s.handler
    case External(_) => true
    case Overwrite(_) => true
    case Shutdown => w.s.pc == Returned(true)
  }

  function Run(w: World, es: seq<Event>, env: Env): World
    decreases |es|
  {
    if es == [] then w else Run(Next(w, es[0], env), es[1..], env)
  }

  predicate Runnable(w: World, es: seq<Event>, env: Env)
    decreases |es|
  {
    es != [] ==> Enabled(w, es[0]) && Runnable(Next(w, es[0], env), es[1..], env)
  }

  function Fresh(mem: Memory): World {
    World(State(AtEntry, 0, false, false, 0, 0, 0, 0, false, NONE, []), mem)
  }

  function CheckerCalls(calls: seq<Call>): nat {
    if calls == [] then 0
    else CheckerCalls(calls[..|calls| - 1]) + if calls[|calls| - 1].byChecker then 1 else 0
  }

  lemma OneMoreCall(s: State, why: int, byChecker: bool)
    ensures CheckerCalls(Carbonite(s, why, byChecker).calls) == CheckerCalls(s.calls) + if byChecker then 1 else 0
  {
    var calls := Carbonite(s, why, byChecker).calls;
    assert calls[..|calls| - 1] == s.calls;
  }

  /** A step makes at most one call. */
  predicate Makes(w: World, e: Event, env: Env) {
    |Next(w, e, env).s.calls| > |w.s.calls|
  }

  lemma AtMostOneCall(w: World, e: Event, env: Env)
    ensures var calls := Next(w, e, env).s.calls;
      if Makes(w, e, env) then |calls| == |w.s.calls| + 1 && calls[..|w.s.calls|] == w.s.calls else calls == w.s.calls
  {
    hide HashAt, Distance;
  }

  // ---------- start-up

  /** Before the stored hash is computed the checker compares 0 with the hash of nothing. */
  predicate StartingUp(s: State, mem: Memory) {
    match s.pc
    case AtEntry => s.address == 0 && s.size == 0 && s.hash == 0
    case AtTimer => s.address == 0 && s.size == 0 && s.hash == 0
    case AtNotifier => s.address == 0 && s.size == 0 && s.hash == 0
    case AtLookup => s.address == 0 && s.size == 0 && s.hash == 0
    case AtFindNext => s.size == 0 && s.hash == 0
    case AtSize => s.size == 0 && s.hash == 0
    case AtHash => s.hash == 0
    case _ => !Differs(s, mem)
  }

  lemma EmptyHash(mem: Memory, address: nat)
    ensures HashAt(mem, address, 0) == 0
  {
    assert BytesAt(mem, address, 0) == [];
  }

  lemma StartingUpDifference(s: State, mem: Memory)
    requires StartingUp(s, mem)
    ensures Differs(s, mem) <==> s.pc == AtHash && HashAt(mem, s.address, s.size) != 0
  {
    hide Hash;
    EmptyHash(mem, s.address);
  }

  lemma StartingUpStep(w: World, e: Event, env: Env)
    requires StartingUp(w.s, w.mem) && Enabled(w, e) && !e.Overwrite?
    ensures StartingUp(Next(w, e, env).s, w.mem) && Next(w, e, env).mem == w.mem
  {
    hide HashAt, Distance;
    EmptyHash(w.mem, 0);
    EmptyHash(w.mem, w.s.address);
    EmptyHash(w.mem, env.table);
  }

  predicate NoOverwrite(es: seq<Event>) {
    forall i :: 0 <= i < |es| ==> !es[i].Overwrite?
  }

  lemma {:induction false} StartingUpRun(w: World, es: seq<Event>, env: Env)
    requires StartingUp(w.s, w.mem) && Runnable(w, es, env) && NoOverwrite(es)
    ensures StartingUp(Run(w, es, env).s, w.mem) && Run(w, es, env).mem == w.mem
    decreases |es|
  {
    if es == [] {
    } else {
      StartingUpStep(w, es[0], env);
      StartingUpRun(Next(w, es[0], env), es[1..], env);
    }
  }

  /** On an unmodified table, over every run from module insertion on, a tick would see a
      difference only in the one gap between the assignments of size and hash, and there exactly
      if the table does not hash to 0. */
  lemma DifferenceOnlyBeforeHash(mem: Memory, es: seq<Event>, env: Env)
    requires Runnable(Fresh(mem), es, env) && NoOverwrite(es)
    ensures var s := Run(Fresh(mem), es, env).s;
      Differs(s, mem) <==> s.pc == AtHash && HashAt(mem, s.address, s.size) != 0
  {
    hide HashAt;
    StartingUpRun(Fresh(mem), es, env);
    StartingUpDifference(Run(Fresh(mem), es, env).s, mem);
  }

  /** The handler is set only when the initialisation is over. */
  predicate HandlerLast(s: State) {
    s.handler ==> s.pc == Returned(true) || s.pc == Removed
  }

  lemma {:induction false} NoDispatchWhileUnmodified(w: World, es: seq<Event>, env: Env)
    requires StartingUp(w.s, w.mem) && Runnable(w, es, env) && NoOverwrite(es)
    requires HandlerLast(w.s)
    ensures CheckerCalls(Run(w, es, env).s.calls) == CheckerCalls(w.s.calls)
    decreases |es|
  {
    hide HashAt;
    if es == [] {
    } else {
      var v := Next(w, es[0], env);
      StartingUpStep(w, es[0], env);
      StartingUpDifference(w.s, w.mem);
      match es[0] {
        case ModuleLive => OneMoreCall(w.s, AFTER_MODULE_INIT, false);
        case External(why) => OneMoreCall(w.s, why, false);
        case _ =>
      }
      NoDispatchWhileUnmodified(v, es[1..], env);
    }
  }

  /** No false dispatch: from the fresh static state and on an unmodified table, no interleaving
      of the initialisation with ticks, module events and other calls, however it ends, makes
      the checker call the handler. */
  lemma NoFalseDispatch(mem: Memory, es: seq<Event>, env: Env)
    requires Runnable(Fresh(mem), es, env) && NoOverwrite(es)
    ensures CheckerCalls(Run(Fresh(mem), es, env).s.calls) == 0
  {
    NoDispatchWhileUnmodified(Fresh(mem), es, env);
  }

  /** Initialising once more after a destroy. */
  function Restart(s: State): State {
    Destroy(s).(pc := AtEntry)
  }

  /** The initialisation up to the gap, and a tick in it. */
  const GAP_RUN: seq<Event> := [InitStep, InitStep, InitStep, InitStep, InitStep, InitStep, TimerTick]

  predicate Misfires(s: State, env: Env, mem: Memory) {
    && s.handler && env.every > 0 && env.table != 0 && env.nextSymbol != 0
    && HashAt(mem, env.table, Distance(env.nextSymbol, env.table)) != 0
  }

  lemma RunCons(w: World, e: Event, es: seq<Event>, env: Env)
    ensures Run(w, [e] + es, env) == Run(Next(w, e, env), es, env)
    ensures Runnable(w, [e] + es, env) <==> Enabled(w, e) && Runnable(Next(w, e, env), es, env)
  {
    assert ([e] + es)[1..] == es;
  }

  lemma GapRun(w: World, env: Env)
    requires env.every > 0 && env.table != 0 && env.nextSymbol != 0 && w.s.pc == AtEntry
    ensures Runnable(w, GAP_RUN, env)
    ensures var t := State(AtHash, env.every, true, true, env.table, env.nextSymbol,
                           Distance(env.nextSymbol, env.table), w.s.hash, w.s.handler, w.s.previousReason, w.s.calls);
      Run(w, GAP_RUN, env) == World(Tick(t, w.mem), w.mem)
  {
    hide Tick, Distance;
    var es1 := [TimerTick];
    var es2 := [InitStep] + es1;
    var es3 := [InitStep] + es2;
    var es4 := [InitStep] + es3;
    var es5 := [InitStep] + es4;
    var es6 := [InitStep] + es5;
    assert GAP_RUN == [InitStep] + es6;
    var v1 := Next(w, InitStep, env);
    RunCons(w, InitStep, es6, env);
    var v2 := Next(v1, InitStep, env);
    RunCons(v1, InitStep, es5, env);
    var v3 := Next(v2, InitStep, env);
    RunCons(v2, InitStep, es4, env);
    var v4 := Next(v3, InitStep, env);
    RunCons(v3, InitStep, es3, env);
    var v5 := Next(v4, InitStep, env);
    RunCons(v4, InitStep, es2, env);
    var v6 := Next(v5, InitStep, env);
    RunCons(v5, InitStep, es1, env);
    assert es1 == [TimerTick] + [];
    RunCons(v6, TimerTick, [], env);
  }

  predicate InitAndTicks(es: seq<Event>) {
    forall i :: 0 <= i < |es| ==> es[i].InitStep? || es[i].TimerTick?
  }

  /** What the initialisation has stored comes from the arguments of this initialisation. */
  predicate OfEnv(s: State, env: Env) {
    match s.pc
    case AtEntry => true
    case AtTimer => env.every > 0
    case AtNotifier => env.every > 0
    case AtLookup => env.every > 0
    case AtFindNext => s.address == env.table != 0 && env.every > 0
    case AtSize => s.address == env.table != 0 && s.next == env.nextSymbol != 0 && env.every > 0
    case Returned(false) => true
    case Removed => true
    case _ => s.address == env.table != 0 && env.nextSymbol != 0 && env.every > 0 && s.size == Distance(env.nextSymbol, env.table)
  }

  lemma OfEnvStep(w: World, e: Event, env: Env)
    requires OfEnv(w.s, env) && Enabled(w, e)
    ensures OfEnv(Next(w, e, env).s, env)
  {
    hide HashAt, Distance;
  }

  lemma {:induction false} OfEnvRun(w: World, es: seq<Event>, env: Env)
    requires OfEnv(w.s, env) && Runnable(w, es, env)
    ensures OfEnv(Run(w, es, env).s, env)
    decreases |es|
  {
    hide OfEnv, Next, Enabled;
    if es == [] {
    } else {
      OfEnvStep(w, es[0], env);
      OfEnvRun(Next(w, es[0], env), es[1..], env);
    }
  }

  predicate QuietHandler(s: State, env: Env, mem: Memory) {
    s.handler && !s.pc.Returned? ==> !Misfires(s, env, mem)
  }

  lemma {:induction false} RestartIsQuiet(w: World, es: seq<Event>, env: Env)
    requires StartingUp(w.s, w.mem) && Runnable(w, es, env) && InitAndTicks(es)
    requires OfEnv(w.s, env) && QuietHandler(w.s, env, w.mem)
    ensures CheckerCalls(Run(w, es, env).s.calls) == CheckerCalls(w.s.calls)
    decreases |es|
  {
    hide HashAt, Distance;
    if es == [] {
    } else {
      StartingUpStep(w, es[0], env);
      StartingUpDifference(w.s, w.mem);
      RestartIsQuiet(Next(w, es[0], env), es[1..], env);
    }
  }

  /** Why the static state has to be fresh, as it is when the module calls the initialisation
      once, at insertion: initialising again after a destroy that left the handler set could raise
      a false alarm, exactly when the table does not hash to 0. */
  lemma RestartMisfiresIff(s: State, env: Env, mem: Memory)
    ensures Misfires(s, env, mem) <==>
      exists es :: Runnable(World(Restart(s), mem), es, env) && InitAndTicks(es) &&
        CheckerCalls(Run(World(Restart(s), mem), es, env).s.calls) > CheckerCalls(s.calls)
  {
    hide HashAt;
    var w := World(Restart(s), mem);
    if Misfires(s, env, mem) {
      GapRun(w, env);
      var t := State(AtHash, env.every, true, true, env.table, env.nextSymbol,
                     Distance(env.nextSymbol, env.table), 0, true, s.previousReason, s.calls);
      OneMoreCall(t, AFTER_INCIDENT, true);
      assert InitAndTicks(GAP_RUN);
      assert CheckerCalls(Run(w, GAP_RUN, env).s.calls) > CheckerCalls(s.calls);
    } else {
      forall es | Runnable(w, es, env) && InitAndTicks(es)
        ensures CheckerCalls(Run(w, es, env).s.calls) == CheckerCalls(s.calls)
      {
        RestartIsQuiet(w, es, env);
      }
    }
  }

  // ---------- incidents

  predicate Initialised(s: State) {
    s.pc == Returned(true) || s.pc == Removed
  }

  /** Once the initialisation has succeeded the handler waits for the first dispatch; there is
      neither a handler nor a dispatch before, and no timer after the removal. */
  predicate HandlerMatches(s: State) {
    && CheckerCalls(s.calls) <= (if Initialised(s) then 1 else 0)
    && (s.handler <==> Initialised(s) && CheckerCalls(s.calls) == 0)
    && (s.pc == Removed ==> !s.armed)
  }

  /** An event that must raise the alarm: a tick that finds the table different when the
      initialisation is over. */
  predicate MustDispatch(w: World, e: Event) {
    e.TimerTick? && w.s.pc == Returned(true) && Differs(w.s, w.mem)
  }

  lemma HandlerStep(w: World, e: Event, env: Env)
    requires HandlerMatches(w.s) && Enabled(w, e)
    ensures HandlerMatches(Next(w, e, env).s)
    ensures CheckerCalls(Next(w, e, env).s.calls) == 1 <==> CheckerCalls(w.s.calls) == 1 || MustDispatch(w, e)
  {
    hide HashAt, Distance, CheckerCalls;
    match e {
      case TimerTick => OneMoreCall(w.s, AFTER_INCIDENT, true);
      case ModuleLive => OneMoreCall(w.s, AFTER_MODULE_INIT, false);
      case External(why) => OneMoreCall(w.s, why, false);
      case _ =>
    }
  }

  lemma {:induction false} RunSplit(w: World, es: seq<Event>, k: nat, env: Env)
    requires k <= |es| && Runnable(w, es, env)
    ensures Run(w, es, env) == Run(Run(w, es[..k], env), es[k..], env)
    ensures Runnable(w, es[..k], env) && Runnable(Run(w, es[..k], env), es[k..], env)
    decreases k
  {
    if k == 0 {
      assert es[..0] == [] && es[0..] == es;
    } else {
      RunSplit(Next(w, es[0], env), es[1..], k - 1, env);
      assert es[..k][1..] == es[1..][..k - 1] && es[1..][k - 1..] == es[k..];
    }
  }

  /** A run through its k-th event. */
  lemma RunStep(w: World, es: seq<Event>, k: nat, env: Env)
    requires k < |es| && Runnable(w, es, env)
    ensures Runnable(w, es[..k], env) && Enabled(Run(w, es[..k], env), es[k])
    ensures Run(w, es[..k + 1], env) == Next(Run(w, es[..k], env), es[k], env)
    ensures Run(w, es, env) == Run(Run(w, es[..k + 1], env), es[k + 1..], env)
    ensures Runnable(Run(w, es[..k + 1], env), es[k + 1..], env)
  {
    hide Next, Enabled;
    RunSplit(w, es, k, env);
    RunSplit(w, es, k + 1, env);
    assert es[k..][1..] == es[k + 1..];
    RunSplit(w, es[..k + 1], k, env);
    assert es[..k + 1][..k] == es[..k] && es[..k + 1][k..] == [es[k]];
    RunCons(Run(w, es[..k], env), es[k], [], env);
    assert [es[k]] == [es[k]] + [];
  }

  /** The k-th event of a run from module insertion on must raise the alarm. */
  predicate IncidentAt(mem: Memory, es: seq<Event>, k: nat, env: Env)
    requires k < |es|
  {
    MustDispatch(Run(Fresh(mem), es[..k], env), es[k])
  }

  lemma FreshMatches(mem: Memory, env: Env)
    ensures HandlerMatches(Fresh(mem).s) && CheckerCalls(Fresh(mem).s.calls) == 0 && Run(Fresh(mem), [], env) == Fresh(mem)
  {
  }

  lemma {:induction false} DispatchedSoFar(mem: Memory, es: seq<Event>, n: nat, env: Env)
    requires Runnable(Fresh(mem), es, env) && n <= |es|
    ensures var s := Run(Fresh(mem), es[..n], env).s;
      HandlerMatches(s) && (CheckerCalls(s.calls) == 1 <==> exists k :: 0 <= k < n && IncidentAt(mem, es, k, env))
  {
    hide Runnable, Next, Enabled, MustDispatch, HandlerMatches;
    if n == 0 {
      FreshMatches(mem, env);
      assert es[..0] == [];
    } else {
      DispatchedSoFar(mem, es, n - 1, env);
      RunStep(Fresh(mem), es, n - 1, env);
      HandlerStep(Run(Fresh(mem), es[..n - 1], env), es[n - 1], env);
      assert IncidentAt(mem, es, n - 1, env) <==> MustDispatch(Run(Fresh(mem), es[..n - 1], env), es[n - 1]);
    }
  }

  /** Over every run from module insertion on, start-up, overwrites and removal included, the
      checker dispatches at most once. */
  lemma IncidentAtMostOnce(mem: Memory, es: seq<Event>, env: Env)
    requires Runnable(Fresh(mem), es, env)
    ensures CheckerCalls(Run(Fresh(mem), es, env).s.calls) <= 1
  {
    DispatchedSoFar(mem, es, |es|, env);
    assert es[..|es|] == es;
  }

  /** No missed and no false alarm: over every such run an incident is dispatched if and only if
      some tick finds the table different when the initialisation is over. */
  lemma DispatchIffDifference(mem: Memory, es: seq<Event>, env: Env)
    requires Runnable(Fresh(mem), es, env)
    ensures CheckerCalls(Run(Fresh(mem), es, env).s.calls) == 1 <==> exists k :: 0 <= k < |es| && IncidentAt(mem, es, k, env)
  {
    hide Run, Runnable, IncidentAt, HandlerMatches;
    DispatchedSoFar(mem, es, |es|, env);
    assert es[..|es|] == es;
  }

  /** And the dispatch happens exactly at the first such tick, with a snapshot unless a module
      event was the reason of the call before. */
  lemma DispatchAtFirstDifference(mem: Memory, es: seq<Event>, k: nat, env: Env)
    requires Runnable(Fresh(mem), es, env) && k < |es| && IncidentAt(mem, es, k, env)
    requires forall j :: 0 <= j < k ==> !IncidentAt(mem, es, j, env)
    ensures var before, after := Run(Fresh(mem), es[..k], env).s, Run(Fresh(mem), es[..k + 1], env).s;
      && before.handler && CheckerCalls(before.calls) == 0 && !after.handler
      && after.calls == before.calls + [Call(AFTER_INCIDENT, before.previousReason != AFTER_MODULE_INIT, true)]
    ensures CheckerCalls(Run(Fresh(mem), es, env).s.calls) == 1
  {
    hide HashAt, Run, Runnable;
    DispatchIffDifference(mem, es, env);
    DispatchedSoFar(mem, es, k, env);
    RunStep(Fresh(mem), es, k, env);
  }

  // ---------- overwriting the table

  /** The timer runs from its registration to the removal. */
  predicate TimerRuns(s: State) {
    match s.pc
    case AtEntry => true
    case AtTimer => s.interval > 0
    case Returned(false) => true
    case Removed => true
    case _ => s.interval > 0 && s.armed
  }

  lemma {:induction false} TimerRunsOn(w: World, es: seq<Event>, env: Env)
    requires TimerRuns(w.s) && Runnable(w, es, env)
    ensures TimerRuns(Run(w, es, env).s)
    decreases |es|
  {
    hide HashAt, Distance;
    if es == [] {
    } else {
      TimerRunsOn(Next(w, es[0], env), es[1..], env);
    }
  }

  /** After a successful initialisation on an unmodified table, whatever came between its steps,
      the monitor is on: the stored hash is right, the handler waits and the timer runs. */
  lemma InitialisedWatches(mem: Memory, es: seq<Event>, env: Env)
    requires Runnable(Fresh(mem), es, env) && NoOverwrite(es) && Run(Fresh(mem), es, env).s.pc == Returned(true)
    ensures var w := Run(Fresh(mem), es, env);
      && w.mem == mem && !Differs(w.s, mem) && w.s.handler && w.s.armed && CheckerCalls(w.s.calls) == 0
  {
    hide Run, Runnable, Differs;
    DispatchedSoFar(mem, es, |es|, env);
    assert es[..|es|] == es;
    StartingUpRun(Fresh(mem), es, env);
    NoFalseDispatch(mem, es, env);
    TimerRunsOn(Fresh(mem), es, env);
  }

  /** An overwrite and the tick after it. */
  function Tampered(es: seq<Event>, mem: Memory): seq<Event> {
    es + [Overwrite(mem), TimerTick]
  }

  lemma {:induction false} RunAppend(w: World, es: seq<Event>, fs: seq<Event>, env: Env)
    ensures Run(w, es + fs, env) == Run(Run(w, es, env), fs, env)
    ensures Runnable(w, es + fs, env) <==> Runnable(w, es, env) && Runnable(Run(w, es, env), fs, env)
    decreases |es|
  {
    hide Next, Enabled;
    if es == [] {
      assert es + fs == fs;
    } else {
      RunAppend(Next(w, es[0], env), es[1..], fs, env);
      assert (es + fs)[1..] == es[1..] + fs;
    }
  }

  lemma OverwriteAndTick(w: World, mem: Memory, env: Env)
    ensures Run(w, [Overwrite(mem), TimerTick], env) == World(Tick(w.s, mem), mem)
    ensures Runnable(w, [Overwrite(mem), TimerTick], env) <==> w.s.armed
  {
    hide Tick;
    var v := Next(w, Overwrite(mem), env);
    assert [Overwrite(mem), TimerTick] == [Overwrite(mem)] + ([TimerTick] + []);
    RunCons(w, Overwrite(mem), [TimerTick] + [], env);
    RunCons(v, TimerTick, [], env);
  }

  /** From insertion to alarm: when the table is overwritten after a successful initialisation,
      the next tick dispatches if and only if the watched bytes now hash differently. */
  lemma OverwriteIsReportedIff(mem: Memory, es: seq<Event>, env: Env, mem': Memory)
    requires Runnable(Fresh(mem), es, env) && NoOverwrite(es) && Run(Fresh(mem), es, env).s.pc == Returned(true)
    ensures Runnable(Fresh(mem), Tampered(es, mem'), env)
    ensures var s := Run(Fresh(mem), es, env).s;
      CheckerCalls(Run(Fresh(mem), Tampered(es, mem'), env).s.calls) ==
        if HashAt(mem', s.address, s.size) != HashAt(mem, s.address, s.size) then 1 else 0
  {
    hide HashAt;
    InitialisedWatches(mem, es, env);
    var w := Run(Fresh(mem), es, env);
    RunAppend(Fresh(mem), es, [Overwrite(mem'), TimerTick], env);
    OverwriteAndTick(w, mem', env);
    OneMoreCall(w.s, AFTER_INCIDENT, true);
  }

  predicate Unreported(mem: Memory, es: seq<Event>, env: Env, mem': Memory) {
    CheckerCalls(Run(Fresh(mem), Tampered(es, mem'), env).s.calls) == 0
  }

  // ---------- snapshots

  /** A call takes a snapshot unless it reports the incident right behind a module event. */
  predicate RuleAt(calls: seq<Call>, i: nat)
    requires i < |calls|
  {
    calls[i].snapshot <==> !(calls[i].why == AFTER_INCIDENT && i > 0 && calls[i - 1].why == AFTER_MODULE_INIT)
  }

  predicate SnapshotRule(s: State) {
    && s.previousReason == (if s.calls == [] then NONE else s.calls[|s.calls| - 1].why)
    && forall i :: 0 <= i < |s.calls| ==> RuleAt(s.calls, i)
  }

  lemma SnapshotRuleOfCall(s: State, why: int, byChecker: bool)
    requires SnapshotRule(s)
    ensures SnapshotRule(Carbonite(s, why, byChecker))
  {
    var calls := Carbonite(s, why, byChecker).calls;
    forall i | 0 <= i < |calls|
      ensures RuleAt(calls, i)
    {
      assert i < |s.calls| ==> RuleAt(s.calls, i);
    }
  }

  lemma TickKeepsSnapshotRule(s: State, mem: Memory)
    requires SnapshotRule(s)
    ensures SnapshotRule(Tick(s, mem))
  {
    hide HashAt;
    SnapshotRuleOfCall(s, AFTER_INCIDENT, true);
  }

  lemma InitKeepsSnapshotRule(s: State, env: Env, mem: Memory)
    requires SnapshotRule(s)
    ensures SnapshotRule(Init(s, env, mem))
  {
    hide HashAt, Distance;
  }

  lemma DestroyKeepsSnapshotRule(s: State)
    requires SnapshotRule(s)
    ensures SnapshotRule(Destroy(s))
  {
  }

  lemma {:induction false} SnapshotRuleRun(w: World, es: seq<Event>, env: Env)
    requires SnapshotRule(w.s)
    ensures SnapshotRule(Run(w, es, env).s)
    decreases |es|
  {
    hide HashAt, SnapshotRule, Carbonite;
    if es == [] {
    } else {
      var v := Next(w, es[0], env);
      assert SnapshotRule(v.s) by {
        match es[0] {
          case TimerTick => TickKeepsSnapshotRule(w.s, w.mem);
          case ModuleLive => SnapshotRuleOfCall(w.s, AFTER_MODULE_INIT, false);
          case External(why) => SnapshotRuleOfCall(w.s, why, false);
          case InitStep => InitKeepsSnapshotRule(w.s, env, w.mem);
          case Shutdown => DestroyKeepsSnapshotRule(w.s);
          case Overwrite(_) =>
        }
      }
      SnapshotRuleRun(v, es[1..], env);
    }
  }

  lemma DocumentedByRule(s: State, i: nat)
    requires SnapshotRule(s) && i < |s.calls| && s.calls[i].why == AFTER_INCIDENT
    ensures s.calls[i].snapshot || (i > 0 && s.calls[i - 1].why == AFTER_MODULE_INIT && s.calls[i - 1].snapshot)
  {
    assert RuleAt(s.calls, i);
    assert i > 0 ==> RuleAt(s.calls, i - 1);
  }

  /** Every incident is documented: over every run, either the incident call or the call right
      before it, by the module event, takes a snapshot. */
  lemma IncidentIsDocumented(mem: Memory, es: seq<Event>, env: Env, i: nat)
    requires var calls := Run(Fresh(mem), es, env).s.calls;
      i < |calls| && calls[i].why == AFTER_INCIDENT
    ensures var calls := Run(Fresh(mem), es, env).s.calls;
      calls[i].snapshot || (i > 0 && calls[i - 1].why == AFTER_MODULE_INIT && calls[i - 1].snapshot)
  {
    hide HashAt, Run;
    SnapshotRuleRun(Fresh(mem), es, env);
    DocumentedByRule(Run(Fresh(mem), es, env).s, i);
  }

  // ---------- what the checker watches

  lemma NextSymbolRange(symbols: seq<nat>, table: nat, next: nat)
    requires Kallsyms.Ascending(symbols) && table in symbols && next == Kallsyms.NextSymbol(symbols, table, false) != 0
    requires next - table < M32
    ensures table < next && next in symbols && forall b :: b in symbols ==> b <= table || b >= next
    ensures table + Distance(next, table) == next
  {
    Kallsyms.NextSymbolIsLeastAbove(symbols, table);
  }

  /** What is watched: when the initialisation has succeeded on an unmodified table, whatever came
      between its steps, the stored hash is the hash of exactly the bytes from the table to the
      next distinct symbol. */
  lemma HashedRange(mem: Memory, es: seq<Event>, env: Env, symbols: seq<nat>)
    requires Runnable(Fresh(mem), es, env) && NoOverwrite(es) && Run(Fresh(mem), es, env).s.pc == Returned(true)
    requires Kallsyms.Ascending(symbols) && env.table in symbols
    requires env.nextSymbol == Kallsyms.NextSymbol(symbols, env.table, false) && env.nextSymbol - env.table < M32
    ensures var s := Run(Fresh(mem), es, env).s;
      && s.address == env.table < env.nextSymbol == s.address + s.size
      && (forall b :: b in symbols ==> b <= env.table || b >= env.nextSymbol)
      && s.hash == Hash(seq(env.nextSymbol - env.table, i requires 0 <= i => mem(env.table + i)))
  {
    hide Hash, Distance, Run, Runnable;
    StartingUpRun(Fresh(mem), es, env);
    OfEnvRun(Fresh(mem), es, env);
    NextSymbolRange(symbols, env.table, env.nextSymbol);
    var s := Run(Fresh(mem), es, env).s;
    assert BytesAt(mem, s.address, s.size) == seq(env.nextSymbol - env.table, i requires 0 <= i => mem(env.table + i));
  }

  /** Two bytes of memory overwritten with a halfword. */
  function OverwriteHalf(mem: Memory, a: nat, w: word): Memory
    requires w < 0x10000
  {
    x => if x == a then w % 256 else if x == a + 1 then w / 256 else mem(x)
  }

  lemma BytesOfOverwritten(mem: Memory, address: nat, size: word, p: nat, w: word)
    requires p + 2 <= size && w < 0x10000
    ensures BytesAt(OverwriteHalf(mem, address + p, w), address, size) == SetHalf(BytesAt(mem, address, size), p, w)
  {
  }

  lemma BytesHaveSize(mem: Memory, address: nat, size: word)
    ensures |BytesAt(mem, address, size)| == size
  {
  }

  lemma UnnoticedHashesAlike(s: State, mem: Memory, p: nat, w: word)
    requires s.address != 0 && p + 2 <= s.size && w < 0x10000
    requires !Differs(s, OverwriteHalf(mem, s.address + p, w))
    ensures Hash(SetHalf(BytesAt(mem, s.address, s.size), p, w)) == s.hash
  {
    hide Hash, SetHalf, BytesAt, OverwriteHalf;
    BytesOfOverwritten(mem, s.address, s.size, p, w);
    BytesHaveSize(mem, s.address, s.size);
  }

  lemma EvenInBlock(p: nat)
    requires p % 2 == 0
    ensures (p % 4 == 0 || p % 4 == 2) && p + 2 <= p - p % 4 + 4
  {
  }

  /** Of the 65536 values that a halfword of the watched bytes can be overwritten with, at most
      2^(m+4) go unnoticed by the next tick, where m blocks of four bytes follow its block; twice
      that if the size is not a multiple of four. */
  lemma UnnoticedOverwrites(s: State, mem: Memory, p: nat, ws: set<word>)
    requires s.address != 0 && p % 2 == 0 && p - p % 4 + 4 <= s.size
    requires forall w :: w in ws ==> w < 0x10000 && !Differs(s, OverwriteHalf(mem, s.address + p, w))
    ensures |ws| <= Pow2(s.size / 4 - p / 4 - 1 + 4) * (if s.size % 4 == 0 then 1 else 2)
  {
    hide Hash, HashAt, SetHalf, BytesAt, OverwriteHalf, Pow2, Differs;
    var d := BytesAt(mem, s.address, s.size);
    BytesHaveSize(mem, s.address, s.size);
    EvenInBlock(p);
    forall w | w in ws
      ensures Hash(SetHalf(d, p, w)) == s.hash
    {
      UnnoticedHashesAlike(s, mem, p, w);
    }
    HalfwordCollisions(d, p, ws, s.hash);
  }

  lemma LastBlock(size: nat)
    requires size >= 4 && size % 4 == 0
    ensures (size - 2) % 2 == 0 && (size - 2) % 4 == 2 && size / 4 - (size - 2) / 4 - 1 + 4 == 4
  {
    var k := size / 4 - 1;
    assert size - 2 == 4 * k + 2;
    assert (4 * k + 2) / 4 == k && (4 * k + 2) % 4 == 2;
  }

  /** The last halfword: at most 16 of its 65536 values, the original included. */
  lemma UnnoticedLastHalfword(s: State, mem: Memory, ws: set<word>)
    requires s.address != 0 && s.size >= 4 && s.size % 4 == 0
    requires forall w :: w in ws ==> w < 0x10000 && !Differs(s, OverwriteHalf(mem, s.address + (s.size - 2), w))
    ensures |ws| <= 16
  {
    hide Differs, OverwriteHalf;
    LastBlock(s.size);
    assert Pow2(4) == 16;
    UnnoticedOverwrites(s, mem, s.size - 2, ws);
  }

  /** From insertion to alarm: after a successful initialisation on an unmodified table, at most 16
      of the values that its last halfword can be overwritten with get past the next tick. */
  lemma UnreportedLastHalfword(mem: Memory, es: seq<Event>, env: Env, ws: set<word>)
    requires Runnable(Fresh(mem), es, env) && NoOverwrite(es) && Run(Fresh(mem), es, env).s.pc == Returned(true)
    requires var s := Run(Fresh(mem), es, env).s;
      && s.size >= 4 && s.size % 4 == 0
      && forall w :: w in ws ==> w < 0x10000 && Unreported(mem, es, env, OverwriteHalf(mem, s.address + (s.size - 2), w))
    ensures |ws| <= 16
  {
    hide Run, Runnable, OverwriteHalf, HashAt, Tampered, CheckerCalls;
    var s := Run(Fresh(mem), es, env).s;
    OfEnvRun(Fresh(mem), es, env);
    InitialisedWatches(mem, es, env);
    forall w | w in ws
      ensures w < 0x10000 && !Differs(s, OverwriteHalf(mem, s.address + (s.size - 2), w))
    {
      OverwriteIsReportedIff(mem, es, env, OverwriteHalf(mem, s.address + (s.size - 2), w));
    }
    UnnoticedLastHalfword(s, mem, ws);
  }
}
