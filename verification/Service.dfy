/** Whole runs of the configured module: any sequence of insertions by `do_whitelist`,
    configuration writes, configuration reads and lookups, served by the operations of Netlog one
    after the other, and what becomes of the mirror. */
module Service {
  import opened Basics
  import opened CStrings
  import opened Connections
  import opened ConnectionStrings
  import opened ConfigText
  import opened WhitelistModel
  import opened Netlog

  datatype Request =
    | Insert(mem: string)
    | WriteFile(user: string, count: nat, stack: string)
    | ReadFile(bufferLength: nat)
    | Ask(path: Option<string>, ip: Option<string>, port: int)

  /** The list, the text in the buffer and the recorded size of the text. */
  datatype Config = Config(model: Model, text: string, size: nat)

  /** What each request asks of its environment: inserted strings stay in their memory and fit
      the buffer, segments fit theirs, reads find a text; only a refused write leaves a size that
      is not that of the text. */
  predicate Servable(c: Config, r: Request) {
    match r
    case Insert(mem) =>
      && Terminated(mem, 0) && CommaFree(CStr(mem))
      && (|c.model.entries| < MAX_WHITELIST_SIZE ==> !Parse(mem).Overrun?)
      && c.size == |c.text| && |c.text| + |Added(c.model, CallOf(mem))| < PROCFS_MAX_SIZE
    case WriteFile(user, count, stack) =>
      && 1 <= count
      && (count < PROCFS_MAX_SIZE ==> count <= |user| && Loadable(WrittenText(user, count)) && StackEnds(stack))
    case ReadFile(bufferLength) =>
      c.size > 0 && (bufferLength >= c.size ==> c.size == |c.text|)
    case Ask(_, _, _) => true
  }

  function Served(c: Config, r: Request): Config
    requires Servable(c, r)
  {
    match r
    case Insert(mem) =>
      var text := c.text + Added(c.model, CallOf(mem));
      Config(Admit(c.model, CallOf(mem)), text, |text|)
    case WriteFile(user, count, stack) =>
      if count >= PROCFS_MAX_SIZE then c.(size := count)
      else Rebuilt(Load(EMPTY, Calls(WrittenText(user, count), stack)))
    case ReadFile(bufferLength) =>
      if bufferLength < c.size then c else c.(text := TrimComma(c.text), size := |TrimComma(c.text)|)
    case Ask(_, _, _) => c
  }

  function Rebuilt(m: Model): Config {
    Config(m, Mirror(m.texts), |Mirror(m.texts)|)
  }

  /** The configuration after a run; a request that is not servable leaves it alone. */
  function After(c: Config, rs: seq<Request>): Config
    decreases |rs|
  {
    if rs == [] then c
    else
      var before := After(c, rs[..|rs| - 1]);
      if Servable(before, rs[|rs| - 1]) then Served(before, rs[|rs| - 1]) else before
  }

  predicate AllServable(c: Config, rs: seq<Request>) {
    forall k :: 0 <= k < |rs| ==> Servable(After(c, rs[..k]), rs[k])
  }

  function Answer(m: Model, r: Request): int
    requires r.Ask?
  {
    if Lookup(m, r.path, r.ip, r.port) then 1 else 0
  }

  lemma StartOfRun(c: Config, rs: seq<Request>)
    ensures After(c, rs[..0]) == c && rs[..|rs|] == rs
  {
    assert rs[..0] == [];
  }

  lemma AfterStep(c: Config, rs: seq<Request>, i: nat)
    requires i < |rs| && Servable(After(c, rs[..i]), rs[i])
    ensures After(c, rs[..i + 1]) == Served(After(c, rs[..i]), rs[i])
  {
    hide Servable, Served;
    assert rs[..i + 1][..i] == rs[..i];
  }

  lemma FrontIsServable(c: Config, rs: seq<Request>, n: nat)
    requires n <= |rs| && AllServable(c, rs)
    ensures AllServable(c, rs[..n])
    ensures n < |rs| ==> Servable(After(c, rs[..n]), rs[n])
  {
    hide Servable, After;
    var front := rs[..n];
    forall k | 0 <= k < |front|
      ensures Servable(After(c, front[..k]), front[k])
    {
      assert front[..k] == rs[..k];
    }
  }

  // ---------- the list as a set of rules

  /** What a request does to the list. */
  function EventOf(r: Request): seq<Event> {
    match r
    case Insert(mem) => [Whitelist(mem)]
    case WriteFile(user, count, stack) =>
      if 1 <= count <= |user| && count < PROCFS_MAX_SIZE then [Write(WrittenText(user, count), stack)] else []
    case _ => []
  }

  function EventsOf(rs: seq<Request>): seq<Event> {
    if rs == [] then [] else EventsOf(rs[..|rs| - 1]) + EventOf(rs[|rs| - 1])
  }

  lemma StepIsEvent(c: Config, r: Request, m: Model, es: seq<Event>)
    requires Servable(c, r) && c.model == Run(m, es)
    ensures Served(c, r).model == Run(m, es + EventOf(r))
  {
    hide Parse, CStr, Admit, Added, Load, StackEnds, OnStack, Loadable, Run;
    if EventOf(r) == [] {
      assert es + [] == es;
    } else {
      RunAppend(m, es, EventOf(r)[0]);
    }
  }

  lemma {:induction false} AfterIsRun(c: Config, rs: seq<Request>)
    requires AllServable(c, rs)
    ensures After(c, rs).model == Run(c.model, EventsOf(rs))
    decreases |rs|
  {
    hide Servable, Served, EventOf;
    if rs == [] {
      assert Run(c.model, []) == c.model;
    } else {
      var n := |rs| - 1;
      FrontIsServable(c, rs, n);
      AfterIsRun(c, rs[..n]);
      StepIsEvent(After(c, rs[..n]), rs[n], c.model, EventsOf(rs[..n]));
    }
  }

  /** The question of a lookup belongs to the set of rules. */
  ghost predicate InRules(rules: Rules, r: Request)
    requires r.Ask?
  {
    && r.path.Some? && r.ip.Some? && 1 <= |r.path.value| <= 949
    && Query(r.path.value, r.ip.value, r.port) in rules.allowed
  }

  /** Every lookup of a run is answered for the set of rules taken since the last accepted write. */
  lemma AnswerIsMembership(c: Config, rs: seq<Request>, k: nat)
    requires Consistent(c.model) && AllServable(c, rs) && k < |rs| && rs[k].Ask?
    ensures Answer(After(c, rs[..k]).model, rs[k]) ==
      if InRules(RuleRun(View(c.model), EventsOf(rs[..k])), rs[k]) then 1 else 0
  {
    hide Consistent, After, Run, RuleRun, EventsOf, AllServable, Lookup;
    FrontIsServable(c, rs, k);
    AfterIsRun(c, rs[..k]);
    RunRefines(c.model, EventsOf(rs[..k]));
    LookupIsMembership(After(c, rs[..k]).model, rs[k].path, rs[k].ip, rs[k].port);
  }

  // ---------- strings that close their IP fields

  predicate ClosedRequest(r: Request) {
    match r
    case Insert(mem) => IpFieldClosed(CStr(mem))
    case WriteFile(user, count, _) =>
      1 <= count <= |user| && count < PROCFS_MAX_SIZE ==> ClosedText(WrittenText(user, count))
    case _ => true
  }

  predicate ClosedText(text: string) {
    forall i :: 0 <= i < |Split(text)| ==> IpFieldClosed(Split(text)[i])
  }

  lemma InsertKeepsReloadable(m: Model, mem: string)
    requires Reloadable(m) && Terminated(mem, 0) && IpFieldClosed(CStr(mem))
    ensures Reloadable(Admit(m, CallOf(mem)))
  {
    hide Parse, IpFieldClosed, Reloadable, Admit;
    MemOfCStr(mem);
    ParseIsOfTheString(CStr(mem), mem[|CStr(mem)| + 1..]);
    AdmitKeepsReloadable(m, CallOf(mem));
  }

  lemma ClosedTextIsReloadable(text: string, stack: string)
    requires NulFree(text) && ClosedText(text)
    ensures Reloadable(Load(EMPTY, Calls(text, stack)))
  {
    hide IpFieldClosed, Load, OnStack, Split;
    SegmentsAreClean(text);
    ClosedCallsOnStack(stack, Split(text));
    LoadKeepsReloadable(EMPTY, Calls(text, stack));
  }

  lemma StepKeepsReloadable(c: Config, r: Request)
    requires Reloadable(c.model) && Servable(c, r) && ClosedRequest(r)
    ensures Reloadable(Served(c, r).model)
  {
    hide Reloadable, Parse, CStr, Admit, Added, Load, Calls, StackEnds, IpFieldClosed, ClosedText, Mirror;
    match r
    case Insert(mem) => InsertKeepsReloadable(c.model, mem);
    case WriteFile(user, count, stack) =>
      if count < PROCFS_MAX_SIZE {
        ClosedTextIsReloadable(WrittenText(user, count), stack);
      }
    case _ =>
  }

  /** Every list reached through strings that close their IP fields parses as before wherever its
      strings stand. */
  lemma {:induction false} ClosedRunIsReloadable(c: Config, rs: seq<Request>)
    requires Reloadable(c.model) && AllServable(c, rs) && forall k :: 0 <= k < |rs| ==> ClosedRequest(rs[k])
    ensures Reloadable(After(c, rs).model)
    decreases |rs|
  {
    hide Servable, Served, ClosedRequest, Reloadable;
    if rs == [] {
    } else {
      var n := |rs| - 1;
      FrontIsServable(c, rs, n);
      ClosedRunIsReloadable(c, rs[..n]);
      StepKeepsReloadable(After(c, rs[..n]), rs[n]);
    }
  }

  // ---------- what becomes of the mirror

  /** The buffer mirrors the list. */
  predicate Whole(c: Config) {
    c.size == |c.text| < PROCFS_MAX_SIZE && PlainTexts(c.model) && Mirrors(c.model, c.text)
  }

  predicate Repairs(r: Request) {
    r.WriteFile? && r.count < PROCFS_MAX_SIZE
  }

  /** Once a read has cut off the last comma, the next accepted string runs into the one before
      it, and another read cuts into the separators if the last string is empty.  A refused write
      records a wrong size. */
  predicate Damages(c: Config, r: Request) {
    match r
    case Insert(mem) => c.text != Mirror(c.model.texts) && Admits(c.model, CallOf(mem)) && CStr(mem) != ""
    case WriteFile(_, count, _) => count >= PROCFS_MAX_SIZE
    case ReadFile(bufferLength) =>
      bufferLength >= c.size && c.text != Mirror(c.model.texts) && c.model.texts != [] && LastText(c.model) == ""
    case Ask(_, _, _) => false
  }

  /** Some request has damaged the mirror, and no write after it has been accepted. */
  predicate Damaged(c: Config, rs: seq<Request>) {
    exists k :: 0 <= k < |rs| && Damages(After(c, rs[..k]), rs[k]) && NoRepair(rs, k + 1)
  }

  predicate NoRepair(rs: seq<Request>, k: nat) {
    forall j :: k <= j < |rs| ==> !Repairs(rs[j])
  }

  /** The text is behind what it should be; nothing but a write can make up for that. */
  predicate Lost(c: Config) {
    && PlainTexts(c.model) && |c.text| < PROCFS_MAX_SIZE
    && (c.size > |c.text| || (c.model.texts != [] && |c.text| <= |Join(c.model.texts)| && c.text != Join(c.model.texts)))
  }

  lemma LostIsNotWhole(c: Config)
    requires Lost(c)
    ensures !Whole(c)
  {
    hide Mirror, Join, PlainTexts;
    if c.model.texts != [] {
      JoinedTextFits(c.model);
    }
  }

  lemma {:induction false} JoinAppend(ss: seq<string>, s: string)
    requires ss != []
    ensures Join(ss + [s]) == Join(ss) + ("," + s)
  {
    if |ss| == 1 {
      assert (ss + [s])[1..] == [s];
    } else {
      JoinAppend(ss[1..], s);
      assert (ss + [s])[1..] == ss[1..] + [s];
    }
  }

  /** A comma in front of a comma-free text is not a comma behind it, unless the text is empty. */
  lemma CommaMoves(t: string, s: string)
    requires CommaFree(s)
    ensures t + (s + ",") == t + ("," + s) <==> s == ""
  {
    if s != "" {
      assert (t + (s + ","))[|t|] == s[0] && (t + ("," + s))[|t|] == ',';
    }
  }

  /** Inserting: harmless unless the comma that was cut off is now missing. */
  lemma InsertIntoWhole(c: Config, mem: string)
    requires Whole(c) && Servable(c, Insert(mem))
    ensures var d := Served(c, Insert(mem)); if Damages(c, Insert(mem)) then Lost(d) else Whole(d)
  {
    hide Mirror, Join, Parse, CStr, Admits;
    var call := CallOf(mem);
    MemOfCStr(mem);
    MirrorOfAdmit(c.model, call);
    AdmitKeepsPlainTexts(c.model, call);
    if !Admits(c.model, call) {
      assert c.text + Added(c.model, call) == c.text;
    } else if c.text != Mirror(c.model.texts) {
      JoinAppend(c.model.texts, call.text);
      CommaMoves(c.text, call.text);
      JoinedTextFits(Admit(c.model, call));
    }
  }

  lemma ReadOfWhole(c: Config, bufferLength: nat)
    requires Whole(c) && Servable(c, ReadFile(bufferLength))
    ensures var d := Served(c, ReadFile(bufferLength)); if Damages(c, ReadFile(bufferLength)) then Lost(d) else Whole(d)
  {
    hide Mirror, Join, PlainTexts;
    TrimKeepsMirrorIff(c.model, c.text);
  }

  lemma {:induction false} LoadKeepsPlainTexts(m: Model, cs: seq<Call>)
    requires PlainTexts(m) && forall i :: 0 <= i < |cs| ==> NulFree(cs[i].text) && CommaFree(cs[i].text)
    ensures PlainTexts(Load(m, cs))
    decreases |cs|
  {
    hide Admits, PlainTexts, CommaFree, NulFree;
    if cs == [] {
    } else {
      AdmitKeepsPlainTexts(m, cs[0]);
      LoadKeepsPlainTexts(Admit(m, cs[0]), cs[1..]);
    }
  }

  /** An accepted write makes the mirror whole, whatever was there before. */
  lemma WriteRepairs(c: Config, r: Request)
    requires Servable(c, r) && Repairs(r)
    ensures Whole(Served(c, r))
  {
    hide Mirror, Join, Load, PlainTexts, StackEnds, OnStack, Split;
    var text := WrittenText(r.user, r.count);
    SegmentsAreClean(text);
    assert NulFree(text);
    EmptyMirror();
    forall i | 0 <= i < |Split(text)|
      ensures var t := Calls(text, r.stack)[i].text; NulFree(t) && CommaFree(t)
    {
      assert Calls(text, r.stack)[i].text == Split(text)[i];
    }
    LoadKeepsPlainTexts(EMPTY, Calls(text, r.stack));
    WrittenTextIsShort(r.user, r.count);
    LoadedMirrorFits(EMPTY, text, r.stack);
  }

  lemma WriteToWhole(c: Config, r: Request)
    requires Whole(c) && Servable(c, r) && r.WriteFile?
    ensures if Damages(c, r) then Lost(Served(c, r)) else Whole(Served(c, r))
  {
    hide PlainTexts, Mirrors, Load, Calls, Loadable;
    if Repairs(r) {
      WriteRepairs(c, r);
    }
  }

  lemma AskLeavesAlone(c: Config, r: Request)
    requires r.Ask?
    ensures Servable(c, r) && Served(c, r) == c && !Damages(c, r)
  {
  }

  lemma WholeStep(c: Config, r: Request)
    requires Whole(c) && Servable(c, r)
    ensures if Damages(c, r) then Lost(Served(c, r)) else Whole(Served(c, r))
  {
    hide Whole, Lost, Damages, Served, Servable;
    match r
    case Insert(mem) => InsertIntoWhole(c, mem);
    case ReadFile(bufferLength) => ReadOfWhole(c, bufferLength);
    case WriteFile(_, _, _) => WriteToWhole(c, r);
    case Ask(_, _, _) => AskLeavesAlone(c, r);
  }

  lemma InsertIntoLost(ss: seq<string>, text: string, s: string)
    requires ss != [] && |text| <= |Join(ss)| && text != Join(ss)
    ensures var t := text + (s + ","); |t| <= |Join(ss + [s])| && t != Join(ss + [s])
  {
    hide Join;
    JoinAppend(ss, s);
    if |text| == |Join(ss)| {
      var i :| 0 <= i < |text| && text[i] != Join(ss)[i];
      assert (text + (s + ","))[i] != Join(ss + [s])[i];
    }
  }

  /** Nothing but an accepted write repairs the mirror. */
  lemma LostStaysLost(c: Config, r: Request)
    requires Lost(c) && Servable(c, r) && !Repairs(r)
    ensures Lost(Served(c, r))
  {
    hide Mirror, Join, Parse, CStr, Admits;
    if r.Insert? {
      var call := CallOf(r.mem);
      MemOfCStr(r.mem);
      AdmitKeepsPlainTexts(c.model, call);
      if Admits(c.model, call) {
        InsertIntoLost(c.model.texts, c.text, call.text);
      }
    }
  }

  lemma RepairsDoNotDamage(c: Config, r: Request)
    requires Repairs(r)
    ensures !Damages(c, r)
  {
  }

  lemma DamagedStep(c: Config, rs: seq<Request>)
    requires rs != []
    ensures var n := |rs| - 1;
      Damaged(c, rs) <==> !Repairs(rs[n]) && (Damages(After(c, rs[..n]), rs[n]) || Damaged(c, rs[..n]))
  {
    hide Damages, Repairs, After;
    var n := |rs| - 1;
    var front := rs[..n];
    assert forall k :: 0 <= k <= n ==> front[..k] == rs[..k];
    if Repairs(rs[n]) {
      RepairsDoNotDamage(After(c, rs[..n]), rs[n]);
    }
    if Damaged(c, rs) {
      var k :| 0 <= k < |rs| && Damages(After(c, rs[..k]), rs[k]) && NoRepair(rs, k + 1);
      if k < n {
        assert Damages(After(c, front[..k]), front[k]) && NoRepair(front, k + 1);
      }
    }
    if Damages(After(c, rs[..n]), rs[n]) {
      assert NoRepair(rs, n + 1);
    }
    if !Repairs(rs[n]) && Damaged(c, front) {
      var k :| 0 <= k < n && Damages(After(c, front[..k]), front[k]) && NoRepair(front, k + 1);
      assert Damages(After(c, rs[..k]), rs[k]) && NoRepair(rs, k + 1);
    }
  }

  lemma {:induction false} MirrorAfter(c: Config, rs: seq<Request>)
    requires Whole(c) && AllServable(c, rs)
    ensures if Damaged(c, rs) then Lost(After(c, rs)) else Whole(After(c, rs))
    decreases |rs|
  {
    hide Whole, Lost, Damages, Served, Servable, Repairs;
    if rs == [] {
    } else {
      var n := |rs| - 1;
      var before := After(c, rs[..n]);
      FrontIsServable(c, rs, n);
      MirrorAfter(c, rs[..n]);
      DamagedStep(c, rs);
      if Repairs(rs[n]) {
        WriteRepairs(before, rs[n]);
      } else if Damaged(c, rs[..n]) {
        LostStaysLost(before, rs[n]);
      } else {
        WholeStep(before, rs[n]);
      }
    }
  }

  /** When the mirror survives: after any run from a whole mirror, the buffer mirrors the list if
      and only if every request that damages it is followed by an accepted write. */
  lemma MirrorSurvivesIff(c: Config, rs: seq<Request>)
    requires Whole(c) && AllServable(c, rs)
    ensures Whole(After(c, rs)) <==> !Damaged(c, rs)
  {
    hide Whole, Lost, Damaged, After, AllServable;
    MirrorAfter(c, rs);
    if Damaged(c, rs) {
      LostIsNotWhole(After(c, rs));
    }
  }

  /** One letter is a path. */
  lemma LetterParses(ch: char)
    requires ch != NUL && ch != FIELD_SEPARATOR
    ensures Terminated(Mem([ch], ""), 0) && CallOf(Mem([ch], "")) == Call([ch], Accepted(Conn([ch], "", NO_PORT)))
  {
    CStrOfMem([ch], "");
    FindIs(Mem([ch], ""), 0, PATH_STOPS, 1);
    assert Mem([ch], "")[..1] == [ch];
  }

  const ONE_RULE := Config(Model([Conn("a", "", NO_PORT)], ["a"]), "a,", 2)

  lemma InsertFirst()
    ensures Servable(Config(EMPTY, "", 0), Insert(Mem("a", ""))) && Served(Config(EMPTY, "", 0), Insert(Mem("a", ""))) == ONE_RULE
    ensures Whole(Config(EMPTY, "", 0))
  {
    hide Parse, CStr, Terminated;
    LetterParses('a');
  }

  lemma InsertSecond(c: Config)
    requires c == ONE_RULE.(text := "a", size := 1)
    ensures var r := Insert(Mem("b", ""));
      && Servable(c, r) && Damages(c, r) && Served(c, r).model.texts == ["a", "b"] && Served(c, r).text == "ab,"
  {
    hide Parse, CStr, Terminated;
    LetterParses('b');
    assert Mirror(["a"]) == "a,";
    assert !ConnectionsAreEqual(Conn("b", "", NO_PORT), Conn("a", "", NO_PORT));
  }

  /** A reader between two strings of `do_whitelist`: the list is [a, b], the text "ab,". */
  lemma ReadBetweenInsertionsExample()
    ensures var start := Config(EMPTY, "", 0);
      var rs := [Insert(Mem("a", "")), ReadFile(4096), Insert(Mem("b", ""))];
      && Whole(start) && AllServable(start, rs) && Damaged(start, rs)
      && After(start, rs).model.texts == ["a", "b"] && After(start, rs).text == "ab,"
  {
    hide Mem, After, Whole, Damages;
    var start := Config(EMPTY, "", 0);
    var rs := [Insert(Mem("a", "")), ReadFile(4096), Insert(Mem("b", ""))];
    InsertFirst();
    StartOfRun(start, rs);
    AfterStep(start, rs, 0);
    assert TrimComma("a,") == "a";
    AfterStep(start, rs, 1);
    InsertSecond(After(start, rs[..2]));
    AfterStep(start, rs, 2);
    assert NoRepair(rs, 3);
  }

  // ---------- serving

  ghost predicate Represents(n: State, c: Config)
    reads n, n.whiteList, n.procfsBuffer, n.repr
  {
    n.ListValid() && n.model == c.model && n.procfsBufferSize == c.size && n.BufferReads(c.text)
  }

  method ServeOne(n: State, r: Request, ghost c: Config) returns (answer: int)
    requires Represents(n, c) && Servable(c, r)
    modifies n, n.whiteList, n.procfsBuffer
    ensures Represents(n, Served(c, r)) && fresh(n.repr - old(n.repr))
    ensures r.Ask? ==> answer == Answer(c.model, r)
  {
    hide Consistent, PlainTexts, Lookup, Mirror, Join, Load, Calls, Loadable, Parse, CStr, Added, Admit, StackEnds, TrimComma;
    match r {
      case Insert(mem) =>
        answer := n.Whitelist(mem, c.text);
      case WriteFile(user, count, stack) =>
        answer := n.ProcfileWrite(user, count, stack);
      case ReadFile(bufferLength) =>
        var out;
        answer, out := n.ProcfileRead(0, bufferLength, c.text);
      case Ask(path, ip, port) =>
        answer := n.IsWhitelisted(path, ip, port);
    }
  }

  /** Over every run the state in memory is the one the run leads to, every lookup is answered
      for the list at its place in the run, and the buffer mirrors the list at the end if and only
      if no request has damaged the mirror since the last accepted write. */
  method Serve(n: State, rs: seq<Request>, ghost c: Config) returns (answers: seq<int>)
    requires Represents(n, c) && AllServable(c, rs)
    modifies n, n.whiteList, n.procfsBuffer
    ensures Represents(n, After(c, rs))
    ensures Whole(c) ==> (n.Valid() <==> !Damaged(c, rs))
    ensures |answers| == |rs|
    ensures forall k :: 0 <= k < |rs| && rs[k].Ask? ==>
      && answers[k] == Answer(After(c, rs[..k]).model, rs[k])
      && answers[k] == if InRules(RuleRun(View(c.model), EventsOf(rs[..k])), rs[k]) then 1 else 0
  {
    hide Answer, Served, Servable, After, Consistent, PlainTexts, Mirror, Join, Damaged, InRules, RuleRun, EventsOf, View;
    StartOfRun(c, rs);
    if Whole(c) {
      MirrorSurvivesIff(c, rs);
    }
    answers := [];
    var i := 0;
    while i < |rs|
      invariant 0 <= i <= |rs| && |answers| == i
      invariant Represents(n, After(c, rs[..i])) && fresh(n.repr - old(n.repr))
      invariant forall k :: 0 <= k < i && rs[k].Ask? ==> answers[k] == Answer(After(c, rs[..k]).model, rs[k])
    {
      AfterStep(c, rs, i);
      var answer := ServeOne(n, rs[i], After(c, rs[..i]));
      answers := answers + [answer];
      i := i + 1;
    }
    forall k | 0 <= k < |rs| && rs[k].Ask?
      ensures answers[k] == if InRules(RuleRun(View(c.model), EventsOf(rs[..k])), rs[k]) then 1 else 0
    {
      AnswerIsMembership(c, rs, k);
    }
  }
}
