/** The static state of the monitor and the code that updates it:
    the-drip-dry-carbonite/src/sys-call-table-integrity-check.c and
    the-drip-dry-carbonite/src/carbonite.c.  Each method is one atomic step; its effect is the
    step of the state machine in MonitorModel. */
module Monitor {
  import opened Basics
  import opened Words
  import opened FastHash
  import opened TaskDumpLists
  import M = MonitorModel

  datatype ModuleState = Coming | Live | Going | Unknown

  /** What a snapshot finds for one process: its dump, or None if there was no memory for it, and
      whether there is memory for its node in the list. */
  datatype Attempt = Attempt(dump: Option<TaskDump>, haveMemory: bool)

  /** What the attempts leave in the list. */
  function Kept(dumps: seq<Attempt>): seq<Option<TaskDump>> {
    if dumps == [] then []
    else
      var last := dumps[|dumps| - 1];
      Kept(dumps[..|dumps| - 1]) + if last.haveMemory then [last.dump] else []
  }

  /** The processes before the i-th that have memory for their node. */
  function WithMemory(dumps: seq<Attempt>, i: nat): set<nat>
    requires i <= |dumps|
  {
    set j: nat | j < i && dumps[j].haveMemory
  }

  lemma OneMoreWithMemory(dumps: seq<Attempt>, i: nat)
    requires i < |dumps|
    ensures WithMemory(dumps, i + 1) == WithMemory(dumps, i) + if dumps[i].haveMemory then {i} else {}
    ensures |WithMemory(dumps, i + 1)| == |WithMemory(dumps, i)| + if dumps[i].haveMemory then 1 else 0
  {
  }

  lemma NoneWithMemory(dumps: seq<Attempt>)
    ensures WithMemory(dumps, 0) == {}
  {
  }

  lemma {:induction false} KeptCounts(dumps: seq<Attempt>, n: nat)
    requires n <= |dumps|
    ensures |Kept(dumps[..n])| == |WithMemory(dumps, n)|
  {
    hide WithMemory;
    if n == 0 {
      assert WithMemory(dumps, 0) == {} by {
        NoneWithMemory(dumps);
      }
    } else {
      assert dumps[..n][..n - 1] == dumps[..n - 1];
      KeptCounts(dumps, n - 1);
      OneMoreWithMemory(dumps, n - 1);
    }
  }

  lemma {:induction false} KeptGrows(dumps: seq<Attempt>, i: nat, n: nat)
    requires i <= n <= |dumps|
    ensures Kept(dumps[..i]) <= Kept(dumps[..n])
  {
    if i == n {
    } else {
      assert dumps[..n][..n - 1] == dumps[..n - 1];
      KeptGrows(dumps, i, n - 1);
    }
  }

  /** A snapshot leaves in the list, for every process with memory for its node, its dump, at the
      place that the processes with memory before it give; and nothing else. */
  lemma KeptByPosition(dumps: seq<Attempt>, i: nat)
    requires i < |dumps|
    ensures |Kept(dumps)| == |WithMemory(dumps, |dumps|)|
    ensures var n := |WithMemory(dumps, i)|; dumps[i].haveMemory ==> n < |Kept(dumps)| && Kept(dumps)[n] == dumps[i].dump
  {
    hide WithMemory;
    assert dumps[..|dumps|] == dumps;
    KeptCounts(dumps, |dumps|);
    if dumps[i].haveMemory {
      KeptCounts(dumps, i);
      KeptGrows(dumps, i + 1, |dumps|);
      assert dumps[..i + 1][..i] == dumps[..i];
    }
  }

  /** With memory for all, the list gains one dump for each process, in their order. */
  lemma {:induction false} KeptAll(dumps: seq<Attempt>)
    requires forall i :: 0 <= i < |dumps| ==> dumps[i].haveMemory
    ensures |Kept(dumps)| == |dumps| && forall i :: 0 <= i < |dumps| ==> Kept(dumps)[i] == dumps[i].dump
  {
    if dumps == [] {
    } else {
      KeptAll(dumps[..|dumps| - 1]);
    }
  }

  /** What the last call, if one has just been made, leaves in the list. */
  function Taken(calls: seq<M.Call>, made: bool, dumps: seq<Attempt>): seq<Option<TaskDump>>
    requires made ==> calls != []
  {
    if made && calls[|calls| - 1].snapshot then Kept(dumps) else []
  }

  class Checker {
    var pc: M.Pc
    var timerInterval: nat
    var timerArmed: bool
    var notifierRegistered: bool
    var sysCallTableAddress: nat
    var nextSymbol: nat
    var sysCallTableSize: word
    var sysCallTableHash: word
    var incidentHandler: bool
    var previousReason: int
    const dumpList: TaskDumpList

    ghost var calls: seq<M.Call>   // the calls of `carbonite` so far

    ghost function View(): M.State
      reads this
    {
      M.State(pc, timerInterval, timerArmed, notifierRegistered, sysCallTableAddress, nextSymbol,
              sysCallTableSize, sysCallTableHash, incidentHandler, previousReason, calls)
    }

    constructor (ghost mem: M.Memory)
      ensures View() == M.Fresh(mem).s && fresh(dumpList) && dumpList.Valid() && dumpList.Contents() == []
    {
      pc := M.AtEntry;
      timerInterval, timerArmed, notifierRegistered := 0, false, false;
      sysCallTableAddress, nextSymbol, sysCallTableSize, sysCallTableHash := 0, 0, 0, 0;
      incidentHandler := false;
      previousReason := M.NONE;
      calls := [];
      dumpList := new TaskDumpList();
    }

    method RegisterTimerInterrupt()
      modifies this`timerArmed
      ensures timerArmed == (old(timerArmed) || timerInterval > 0)
    {
      if timerInterval <= 0 {
        return;
      }
      timerArmed := true;
    }

    /** The snapshot loop, in the order of the process list; a process whose dump cannot be added
        does not stop it. */
    method DumpTasks(dumps: seq<Attempt>)
      requires dumpList.Valid()
      modifies dumpList, dumpList.tail
      ensures dumpList.Valid() && dumpList.Contents() == old(dumpList.Contents()) + Kept(dumps)
      ensures dumpList.tail == old(dumpList.tail) || fresh(dumpList.tail)
    {
      var i := 0;
      while i < |dumps|
        invariant 0 <= i <= |dumps| && dumpList.Valid()
        invariant dumpList.Contents() == old(dumpList.Contents()) + Kept(dumps[..i])
        invariant dumpList.tail == old(dumpList.tail) || fresh(dumpList.tail)
      {
        assert dumps[..i + 1][..i] == dumps[..i];
        var ok := dumpList.Add(dumps[i].dump, dumps[i].haveMemory);
        i := i + 1;
      }
      assert dumps[..i] == dumps;
    }

    /** carbonite; `dumps` are those of the processes that exist at the time of the call. */
    method Carbonite(why: int, dumps: seq<Attempt>, ghost byChecker: bool)
      requires dumpList.Valid()
      modifies this`previousReason, this`calls, dumpList, dumpList.tail
      ensures View() == M.Carbonite(old(View()), why, byChecker)
      ensures dumpList.Valid() && (dumpList.tail == old(dumpList.tail) || fresh(dumpList.tail))
      ensures dumpList.Contents() == old(dumpList.Contents()) + if calls[|calls| - 1].snapshot then Kept(dumps) else []
    {
      calls := M.Carbonite(View(), why, byChecker).calls;
      if previousReason == M.AFTER_MODULE_INIT && why == M.AFTER_INCIDENT {
        previousReason := why;
        return;
      }
      DumpTasks(dumps);
      previousReason := why;
    }

    /** sys_call_table_integrity_checker, run by the timer. */
    method Tick(mem: M.Memory, dumps: seq<Attempt>)
      requires dumpList.Valid()
      modifies this, dumpList, dumpList.tail
      ensures View() == M.Tick(old(View()), mem)
      ensures dumpList.Valid() && (dumpList.tail == old(dumpList.tail) || fresh(dumpList.tail))
      ensures dumpList.Contents() == old(dumpList.Contents()) + Taken(calls, |calls| > |old(calls)|, dumps)
    {
      hide Hash, M.HashAt, Kept;
      timerArmed := false;
      var modified := false;
      var hash := HashTable(mem);
      if sysCallTableHash != hash {
        modified := true;
      }
      if modified {
        if incidentHandler {
          Carbonite(M.AFTER_INCIDENT, dumps, true);
          incidentHandler := false;
        }
      }
      RegisterTimerInterrupt();
    }

    method HashTable(mem: M.Memory) returns (hash: word)
      ensures hash == M.HashAt(mem, sysCallTableAddress, sysCallTableSize)
    {
      if sysCallTableAddress == 0 {
        return 0;
      }
      hash := SuperFastHash(M.BytesAt(mem, sysCallTableAddress, sysCallTableSize));
    }

    /** the_drip_dry_carbonite_module_event; `self` is this module.  The handler is called
        unguarded. */
    method ModuleEvent(state: ModuleState, self: bool, dumps: seq<Attempt>)
      requires dumpList.Valid()
      requires state == Live && !self ==> incidentHandler
      modifies this`previousReason, this`calls, dumpList, dumpList.tail
      ensures View() == if state == Live && !self then M.Carbonite(old(View()), M.AFTER_MODULE_INIT, false) else old(View())
      ensures dumpList.Valid() && (dumpList.tail == old(dumpList.tail) || fresh(dumpList.tail))
      ensures dumpList.Contents() == old(dumpList.Contents()) + if state == Live && !self then Kept(dumps) else []
    {
      match state {
        case Live =>
          if self {
            return;
          }
          Carbonite(M.AFTER_MODULE_INIT, dumps, false);
        case _ =>
      }
    }

    /** The next assignment of init_sys_call_table_integrity_checker. */
    method InitStep(env: M.Env, mem: M.Memory)
      modifies this
      ensures View() == M.Init(old(View()), env, mem) && calls == old(calls)
    {
      hide Hash, M.HashAt, Kept;
      match pc {
        case AtEntry =>
          if env.every <= 0 {
            pc := M.Returned(false);
            return;
          }
          timerInterval := env.every;
          pc := M.AtTimer;
        case AtTimer =>
          RegisterTimerInterrupt();
          pc := M.AtNotifier;
        case AtNotifier =>
          notifierRegistered := true;
          pc := M.AtLookup;
        case AtLookup =>
          sysCallTableAddress := env.table;
          pc := if sysCallTableAddress == 0 then M.Returned(false) else M.AtFindNext;
        case AtFindNext =>
          nextSymbol := env.nextSymbol;
          pc := if nextSymbol == 0 then M.Returned(false) else M.AtSize;
        case AtSize =>
          sysCallTableSize := (nextSymbol - sysCallTableAddress) % M32;
          pc := M.AtHash;
        case AtHash =>
          sysCallTableHash := HashTable(mem);
          pc := M.AtName;
        case AtName =>
          pc := M.AtHandler;
        case AtHandler =>
          incidentHandler := true;
          pc := M.Returned(true);
        case _ =>
      }
    }

    /** destroy_sys_call_table_integrity_checker */
    method Destroy()
      modifies this
      ensures View() == M.Destroy(old(View()))
    {
      pc := M.Removed;
      notifierRegistered := false;
      timerArmed := false;
      timerInterval, sysCallTableAddress, sysCallTableSize, sysCallTableHash := 0, 0, 0, 0;
    }
  }

  // ---------- whole runs

  /** The dumps at hand at each call of a run, in call order; `dumps` are those at each event. */
  function CallDumps(w: M.World, es: seq<M.Event>, env: M.Env, dumps: seq<seq<Attempt>>): seq<seq<Attempt>>
    requires |es| == |dumps|
    decreases |es|
  {
    if es == [] then []
    else (if M.Makes(w, es[0], env) then [dumps[0]] else []) + CallDumps(M.Next(w, es[0], env), es[1..], env, dumps[1..])
  }

  /** What the calls put into the list: the dumps of those that take a snapshot. */
  function Snapshots(calls: seq<M.Call>, dumps: seq<seq<Attempt>>): seq<Option<TaskDump>>
    requires |calls| == |dumps|
  {
    if calls == [] then []
    else
      var n := |calls| - 1;
      Snapshots(calls[..n], dumps[..n]) + if calls[n].snapshot then Kept(dumps[n]) else []
  }

  /** From `w` at event `i` the run ends in `final`, and the dumps of the calls so far and of those
      to come are `all`. */
  ghost predicate Ahead(w: M.World, es: seq<M.Event>, i: nat, env: M.Env, dumps: seq<seq<Attempt>>,
                  made: seq<seq<Attempt>>, final: M.World, all: seq<seq<Attempt>>)
    requires i <= |es| == |dumps|
  {
    && M.Runnable(w, es[i..], env) && M.Run(w, es[i..], env) == final
    && made + CallDumps(w, es[i..], env, dumps[i..]) == all
  }

  lemma AllAhead(w: M.World, es: seq<M.Event>, env: M.Env, dumps: seq<seq<Attempt>>)
    requires |es| == |dumps| && M.Runnable(w, es, env)
    ensures Ahead(w, es, 0, env, dumps, [], M.Run(w, es, env), CallDumps(w, es, env, dumps))
  {
    assert es[0..] == es && dumps[0..] == dumps;
    assert [] + CallDumps(w, es, env, dumps) == CallDumps(w, es, env, dumps);
  }

  lemma NextAhead(w: M.World, es: seq<M.Event>, i: nat, env: M.Env, dumps: seq<seq<Attempt>>,
                  made: seq<seq<Attempt>>, final: M.World, all: seq<seq<Attempt>>)
    requires i < |es| == |dumps| && Ahead(w, es, i, env, dumps, made, final, all)
    ensures M.Enabled(w, es[i])
    ensures Ahead(M.Next(w, es[i], env), es, i + 1, env, dumps, made + (if M.Makes(w, es[i], env) then [dumps[i]] else []), final, all)
  {
    hide M.Next, M.Enabled, M.Makes;
    assert es[i..][1..] == es[i + 1..] && dumps[i..][1..] == dumps[i + 1..];
  }

  lemma NothingAhead(w: M.World, es: seq<M.Event>, env: M.Env, dumps: seq<seq<Attempt>>,
                     made: seq<seq<Attempt>>, final: M.World, all: seq<seq<Attempt>>)
    requires |es| == |dumps| && Ahead(w, es, |es|, env, dumps, made, final, all)
    ensures w == final && made == all
  {
    assert made + [] == made;
  }

  /** One event adds at most one call, and its dumps if it takes a snapshot. */
  lemma SnapshotStep(before: seq<M.Call>, after: seq<M.Call>, n: nat, made: seq<seq<Attempt>>, d: seq<Attempt>, makes: bool)
    requires |before| == n + |made|
    requires if makes then |after| == |before| + 1 && after[..|before|] == before else after == before
    ensures var now := made + (if makes then [d] else []);
      && |after| == n + |now| && after[..n] == before[..n]
      && Snapshots(after[n..], now) == Snapshots(before[n..], made) + Taken(after, makes, d)
  {
    hide Kept;
    if makes {
      var c := after[|before|];
      var calls, now := before[n..] + [c], made + [d];
      assert after[n..] == calls && after[..n] == after[..|before|][..n];
      assert calls[..|made|] == before[n..] && now[..|made|] == made;
    } else {
      assert made + [] == made;
    }
  }

  lemma NoSnapshots(calls: seq<M.Call>)
    ensures calls[|calls|..] == [] && Snapshots([], []) == []
  {
  }

  method DriveOne(c: Checker, e: M.Event, env: M.Env, mem0: M.Memory, dumps: seq<Attempt>) returns (mem: M.Memory)
    requires c.dumpList.Valid() && M.Enabled(M.World(c.View(), mem0), e)
    modifies c, c.dumpList, c.dumpList.tail
    ensures M.World(c.View(), mem) == M.Next(old(M.World(c.View(), mem0)), e, env)
    ensures c.dumpList.Valid() && (c.dumpList.tail == old(c.dumpList.tail) || fresh(c.dumpList.tail))
    ensures c.dumpList.Contents() == old(c.dumpList.Contents()) + Taken(c.calls, |c.calls| > |old(c.calls)|, dumps)
  {
    hide Hash, M.HashAt, Kept, M.Init;
    mem := mem0;
    match e {
      case InitStep =>
        c.InitStep(env, mem);
      case TimerTick =>
        c.Tick(mem, dumps);
      case ModuleLive =>
        c.ModuleEvent(Live, false, dumps);
      case External(why) =>
        c.Carbonite(why, dumps, false);
      case Overwrite(written) =>
        mem := written;
      case Shutdown =>
        c.Destroy();
    }
  }

  /** Over every run of the monitor the static variables follow the state machine, and the list of
      dumps holds, behind what it held before, the dumps of exactly the calls that took a snapshot,
      in call order. */
  method Drive(c: Checker, es: seq<M.Event>, env: M.Env, mem0: M.Memory, dumps: seq<seq<Attempt>>)
    requires c.dumpList.Valid() && |es| == |dumps|
    requires M.Runnable(M.World(c.View(), mem0), es, env)
    modifies c, c.dumpList, c.dumpList.tail
    ensures c.View() == M.Run(old(M.World(c.View(), mem0)), es, env).s
    ensures c.dumpList.Valid()
    ensures var made := CallDumps(old(M.World(c.View(), mem0)), es, env, dumps);
      && |c.calls| == |old(c.calls)| + |made| && c.calls[..|old(c.calls)|] == old(c.calls)
      && c.dumpList.Contents() == old(c.dumpList.Contents()) + Snapshots(c.calls[|old(c.calls)|..], made)
  {
    hide M.Run, M.Next, M.Enabled, CallDumps, Snapshots, Ahead, Taken, Kept;
    var mem := mem0;
    ghost var w0 := M.World(c.View(), mem0);
    ghost var final, all := M.Run(w0, es, env), CallDumps(w0, es, env, dumps);
    ghost var made: seq<seq<Attempt>> := [];
    ghost var n := |c.calls|;
    AllAhead(w0, es, env, dumps);
    NoSnapshots(c.calls);
    var i := 0;
    while i < |es|
      invariant 0 <= i <= |es| && c.dumpList.Valid()
      invariant c.dumpList.tail == old(c.dumpList.tail) || fresh(c.dumpList.tail)
      invariant Ahead(M.World(c.View(), mem), es, i, env, dumps, made, final, all)
      invariant |c.calls| == n + |made| && c.calls[..n] == old(c.calls)
      invariant c.dumpList.Contents() == old(c.dumpList.Contents()) + Snapshots(c.calls[n..], made)
    {
      ghost var w := M.World(c.View(), mem);
      NextAhead(w, es, i, env, dumps, made, final, all);
      M.AtMostOneCall(w, es[i], env);
      mem := DriveOne(c, es[i], env, mem, dumps[i]);
      SnapshotStep(w.s.calls, c.calls, n, made, dumps[i], M.Makes(w, es[i], env));
      made := made + if M.Makes(w, es[i], env) then [dumps[i]] else [];
      i := i + 1;
    }
    NothingAhead(M.World(c.View(), mem), es, env, dumps, made, final, all);
  }
}
