/** netlog/src/whitelist.c as a value: the entries in list order, the strings they came from,
    and the set of lookups they answer. */
module WhitelistModel {
  import opened Basics
  import opened CStrings
  import opened Connections
  import opened ConnectionStrings
  import opened ConfigText

  const MAX_WHITELIST_SIZE := 150

  datatype Model = Model(entries: seq<Conn>, texts: seq<string>)

  const EMPTY := Model([], [])

  // ---------- calls

  /** One call of `whitelist`: the string, and what the parser makes of it where it stands. */
  datatype Call = Call(text: string, parsed: Parsed)

  /** The call on a string in memory. */
  function CallOf(mem: string): Call {
    Call(CStr(mem), Parse(mem))
  }

  /** Every outcome of the parser is one of these. */
  predicate Possible(c: Call) {
    c.parsed.Accepted? ==> Stored(c.parsed.conn)
  }

  predicate AllPossible(cs: seq<Call>) {
    forall i :: 0 <= i < |cs| ==> Possible(cs[i])
  }

  lemma CallsArePossible(mem: string)
    ensures Possible(CallOf(mem))
  {
    if Parse(mem).Accepted? {
      ParseStores(mem);
    }
  }

  predicate OverlapsSome(c: Conn, entries: seq<Conn>) {
    exists i :: 0 <= i < |entries| && ConnectionsAreEqual(c, entries[i])
  }

  predicate Admits(m: Model, c: Call) {
    && |m.entries| < MAX_WHITELIST_SIZE
    && c.parsed.Accepted?
    && !OverlapsSome(c.parsed.conn, m.entries)
  }

  function Admit(m: Model, c: Call): Model {
    if Admits(m, c) then Model(m.entries + [c.parsed.conn], m.texts + [c.text]) else m
  }

  function Load(m: Model, cs: seq<Call>): Model
    decreases |cs|
  {
    if cs == [] then m else Load(Admit(m, cs[0]), cs[1..])
  }

  // ---------- the calls of a configuration write

  /** The memory that starts at the segment buffer, after a segment has been copied there: the
      segment, its terminator, and behind it what was there before. */
  function Feed(stack: string, s: string): string {
    if |s| < |stack| then Mem(s, stack[|s| + 1..]) else Mem(s, "")
  }

  /** The calls on the segments, copied one after the other into the same buffer. */
  function OnStack(stack: string, ss: seq<string>): (cs: seq<Call>)
    ensures |cs| == |ss|
    ensures forall i :: 0 <= i < |ss| ==> cs[i].text == ss[i]
    decreases |ss|
  {
    if ss == [] then []
    else [Call(ss[0], Parse(Feed(stack, ss[0])))] + OnStack(Feed(stack, ss[0]), ss[1..])
  }

  /** The memory at the segment buffer when the i-th segment is about to be copied there. */
  function StackAt(stack: string, ss: seq<string>, i: nat): string
    requires i <= |ss|
  {
    if i == 0 then stack else Feed(StackAt(stack, ss, i - 1), ss[i - 1])
  }

  lemma {:induction false} StackAtRest(stack: string, ss: seq<string>, i: nat)
    requires 1 <= i <= |ss|
    ensures StackAt(stack, ss, i) == StackAt(Feed(stack, ss[0]), ss[1..], i - 1)
  {
    hide Feed;
    if i == 1 {
      assert StackAt(stack, ss, 0) == stack;
    } else {
      StackAtRest(stack, ss, i - 1);
    }
  }

  lemma StackAtStart(stack: string, ss: seq<string>)
    ensures StackAt(stack, ss, 0) == stack
  {
  }

  lemma NextCall(stack: string, ss: seq<string>, i: nat)
    requires 1 <= i < |ss|
    ensures OnStack(stack, ss)[i] == OnStack(Feed(stack, ss[0]), ss[1..])[i - 1]
  {
    hide Parse, Feed;
  }

  /** Each call finds its segment in front of what the segments before it have left. */
  lemma {:induction false} CallAt(stack: string, ss: seq<string>, i: nat)
    requires i < |ss|
    ensures OnStack(stack, ss)[i] == Call(ss[i], Parse(Feed(StackAt(stack, ss, i), ss[i])))
    decreases |ss|
  {
    hide Parse, Feed, StackAt;
    if i == 0 {
      StackAtStart(stack, ss);
    } else {
      CallAt(Feed(stack, ss[0]), ss[1..], i - 1);
      StackAtRest(stack, ss, i);
      NextCall(stack, ss, i);
    }
  }

  lemma {:induction false} StackCallsArePossible(stack: string, ss: seq<string>)
    ensures AllPossible(OnStack(stack, ss))
    decreases |ss|
  {
    hide Parse, Stored;
    if ss == [] {
    } else {
      CallsArePossible(Feed(stack, ss[0]));
      StackCallsArePossible(Feed(stack, ss[0]), ss[1..]);
    }
  }

  /** Behind the segment buffer the memory goes on and ends in a NUL. */
  predicate StackEnds(stack: string) {
    |stack| > 512 && stack[|stack| - 1] == NUL
  }

  lemma FeedStaysInside(stack: string, s: string)
    requires StackEnds(stack) && |s| < 512 && NulFree(s)
    ensures StackEnds(Feed(stack, s)) && !Parse(Feed(stack, s)).Overrun?
  {
    hide Parse, CStr;
    CStrOfMem(s, stack[|s| + 1..]);
    ParseStaysInside(Feed(stack, s));
  }

  /** No segment of fewer than 512 characters makes the parser leave the memory. */
  lemma {:induction false} StackCallsStayInside(stack: string, ss: seq<string>, i: nat)
    requires StackEnds(stack) && i < |ss|
    requires forall k :: 0 <= k < |ss| ==> |ss[k]| < 512 && NulFree(ss[k])
    ensures !OnStack(stack, ss)[i].parsed.Overrun?
    decreases |ss|
  {
    hide Parse, Feed, StackEnds, NulFree;
    FeedStaysInside(stack, ss[0]);
    if i == 0 {
    } else {
      StackCallsStayInside(Feed(stack, ss[0]), ss[1..], i - 1);
    }
  }

  // ---------- the invariant

  predicate AllStored(entries: seq<Conn>) {
    forall i :: 0 <= i < |entries| ==> Stored(entries[i])
  }

  predicate PairwiseApart(entries: seq<Conn>) {
    forall i, j :: 0 <= i < j < |entries| ==> !ConnectionsAreEqual(entries[j], entries[i])
  }

  predicate Consistent(m: Model) {
    && |m.entries| == |m.texts| && |m.entries| <= MAX_WHITELIST_SIZE
    && AllStored(m.entries) && PairwiseApart(m.entries)
  }

  lemma AdmitKeepsConsistent(m: Model, c: Call)
    requires Consistent(m) && Possible(c)
    ensures Consistent(Admit(m, c))
  {
    hide Stored, ConnectionsAreEqual;
  }

  lemma {:induction false} LoadKeepsConsistent(m: Model, cs: seq<Call>)
    requires Consistent(m) && AllPossible(cs)
    ensures Consistent(Load(m, cs))
    decreases |cs|
  {
    if cs == [] {
    } else {
      AdmitKeepsConsistent(m, cs[0]);
      LoadKeepsConsistent(Admit(m, cs[0]), cs[1..]);
    }
  }

  /** No two entries of a consistent list overlap, in either order. */
  lemma EntriesAreApart(m: Model, i: nat, j: nat)
    requires Consistent(m) && i < |m.entries| && j < |m.entries| && i != j
    ensures !ConnectionsAreEqual(m.entries[i], m.entries[j])
  {
    if i < j {
      OverlapIsSymmetric(m.entries[i], m.entries[j]);
    }
  }

  /** Safety of the list: no actual connection is matched by two entries. */
  lemma AtMostOneEntryMatches(m: Model, q: Query, i: nat, j: nat)
    requires Consistent(m) && Concrete(q)
    requires i < |m.entries| && j < |m.entries| && Matches(m.entries[i], q) && Matches(m.entries[j], q)
    ensures i == j
  {
    OverlapIsSharedConnection(m.entries[i], m.entries[j]);
    if i != j {
      EntriesAreApart(m, i, j);
    }
  }

  // ---------- room

  function Conns(cs: seq<Call>): seq<Conn>
    requires forall i :: 0 <= i < |cs| ==> cs[i].parsed.Accepted?
  {
    seq(|cs|, i requires 0 <= i < |cs| => cs[i].parsed.conn)
  }

  function Texts(cs: seq<Call>): seq<string> {
    seq(|cs|, i requires 0 <= i < |cs| => cs[i].text)
  }

  /** The list has room for 150 entries: as long as they fit, strings that parse and overlap neither
      each other nor the list are all taken, in order. */
  lemma {:induction false} AllTakenFrom(m: Model, cs: seq<Call>)
    requires |m.entries| + |cs| <= 150 && forall i :: 0 <= i < |cs| ==> cs[i].parsed.Accepted?
    requires forall i, j :: 0 <= i < |cs| && 0 <= j < |m.entries| ==> !ConnectionsAreEqual(cs[i].parsed.conn, m.entries[j])
    requires forall i, j :: 0 <= i < j < |cs| ==> !ConnectionsAreEqual(cs[j].parsed.conn, cs[i].parsed.conn)
    ensures Load(m, cs) == Model(m.entries + Conns(cs), m.texts + Texts(cs))
    decreases |cs|
  {
    hide ConnectionsAreEqual;
    if cs == [] {
      assert m.entries + [] == m.entries && m.texts + [] == m.texts;
    } else {
      assert Admits(m, cs[0]);
      AllTakenFrom(Admit(m, cs[0]), cs[1..]);
      assert Conns(cs) == [cs[0].parsed.conn] + Conns(cs[1..]) && Texts(cs) == [cs[0].text] + Texts(cs[1..]);
    }
  }

  /** And for no more. */
  lemma {:induction false} NoneTakenWhenFull(m: Model, cs: seq<Call>)
    requires |m.entries| >= 150
    ensures Load(m, cs) == m
    decreases |cs|
  {
    if cs == [] {
    } else {
      NoneTakenWhenFull(m, cs[1..]);
    }
  }

  // ---------- lookups

  /** is_whitelisted; `path` is what the kernel knows of the task's executable, if anything. */
  predicate Lookup(m: Model, path: Option<string>, ip: Option<string>, port: int) {
    && path.Some? && 0 < Min(|path.value|, MAX_ABSOLUTE_EXEC_PATH) < MAX_ABSOLUTE_EXEC_PATH
    && exists i :: 0 <= i < |m.entries| && ConnectionMatchesAttributes(m.entries[i], path.value, ip, port)
  }

  ghost function MatchSet(c: Conn): iset<Query> {
    iset q | Matches(c, q)
  }

  predicate MatchedBySome(entries: seq<Conn>, q: Query) {
    exists i :: 0 <= i < |entries| && Matches(entries[i], q)
  }

  ghost function Allowed(entries: seq<Conn>): iset<Query> {
    iset q | MatchedBySome(entries, q)
  }

  /** A lookup answers membership in the union of the match sets. */
  lemma LookupIsMembership(m: Model, path: Option<string>, ip: Option<string>, port: int)
    requires Consistent(m)
    ensures Lookup(m, path, ip, port) <==>
      && path.Some? && ip.Some? && 1 <= |path.value| <= 949
      && Query(path.value, ip.value, port) in Allowed(m.entries)
  {
    if path.Some? {
      forall i | 0 <= i < |m.entries|
        ensures ConnectionMatchesAttributes(m.entries[i], path.value, ip, port) <==>
          ip.Some? && Matches(m.entries[i], Query(path.value, ip.value, port))
      {
        MatchingIsWildcardEquality(m.entries[i], path.value, ip, port);
      }
    }
  }

  // ---------- the list refines a set

  /** The list seen from outside: the lookups it answers and how many strings it has taken. */
  datatype Rules = Rules(ghost allowed: iset<Query>, count: nat)

  ghost function View(m: Model): Rules {
    Rules(Allowed(m.entries), |m.entries|)
  }

  /** No actual connection belongs to both sets. */
  ghost predicate Apart(a: iset<Query>, b: iset<Query>) {
    forall q :: Concrete(q) ==> q !in a || q !in b
  }

  /** `whitelist` on sets: a new rule is taken if there is room and it shares no actual
      connection with the old ones; then its match set is added. */
  ghost function TakeRule(r: Rules, c: Call): Rules {
    match c.parsed
    case Accepted(conn) =>
      if r.count < MAX_WHITELIST_SIZE && Apart(MatchSet(conn), r.allowed)
      then Rules(r.allowed + MatchSet(conn), r.count + 1) else r
    case _ => r
  }

  ghost function TakeRules(r: Rules, cs: seq<Call>): Rules
    decreases |cs|
  {
    if cs == [] then r else TakeRules(TakeRule(r, cs[0]), cs[1..])
  }

  lemma OverlapIsNotApart(c: Conn, m: Model)
    requires Consistent(m) && Stored(c)
    ensures OverlapsSome(c, m.entries) <==> !Apart(MatchSet(c), Allowed(m.entries))
  {
    if OverlapsSome(c, m.entries) {
      var i :| 0 <= i < |m.entries| && ConnectionsAreEqual(c, m.entries[i]);
      OverlapIsSharedConnection(c, m.entries[i]);
      var q :| Concrete(q) && Matches(c, q) && Matches(m.entries[i], q);
      assert q in MatchSet(c) && q in Allowed(m.entries);
    } else if !Apart(MatchSet(c), Allowed(m.entries)) {
      var q :| Concrete(q) && q in MatchSet(c) && q in Allowed(m.entries);
      var i :| 0 <= i < |m.entries| && Matches(m.entries[i], q);
      OverlapIsSharedConnection(c, m.entries[i]);
    }
  }

  lemma AllowedAppend(entries: seq<Conn>, c: Conn)
    ensures Allowed(entries + [c]) == Allowed(entries) + MatchSet(c)
  {
    forall q
      ensures q in Allowed(entries + [c]) <==> q in Allowed(entries) + MatchSet(c)
    {
      if q in Allowed(entries) {
        var i :| 0 <= i < |entries| && Matches(entries[i], q);
        assert (entries + [c])[i] == entries[i];
      } else if q in MatchSet(c) {
        assert (entries + [c])[|entries|] == c;
      }
    }
  }

  /** A call that succeeds adds exactly the new match set, one that fails changes nothing, and
      it succeeds exactly when the set of lookups says so. */
  lemma AdmitRefinesTakeRule(m: Model, c: Call)
    requires Consistent(m) && Possible(c)
    ensures View(Admit(m, c)) == TakeRule(View(m), c)
  {
    hide Stored, Matches, ConnectionsAreEqual, Concrete;
    if c.parsed.Accepted? {
      OverlapIsNotApart(c.parsed.conn, m);
      AllowedAppend(m.entries, c.parsed.conn);
    }
  }

  lemma {:induction false} LoadRefinesTakeRules(m: Model, cs: seq<Call>)
    requires Consistent(m) && AllPossible(cs)
    ensures View(Load(m, cs)) == TakeRules(View(m), cs)
    decreases |cs|
  {
    if cs == [] {
    } else {
      AdmitRefinesTakeRule(m, cs[0]);
      AdmitKeepsConsistent(m, cs[0]);
      LoadRefinesTakeRules(Admit(m, cs[0]), cs[1..]);
    }
  }

  // ---------- whole runs

  datatype Event =
    | Whitelist(mem: string)              // one call of whitelist on a string in memory
    | Clear                               // destroy_whitelist
    | Write(text: string, stack: string)  // an accepted write, and the memory at its segment buffer

  function Step(m: Model, e: Event): Model {
    match e
    case Whitelist(mem) => Admit(m, CallOf(mem))
    case Clear => EMPTY
    case Write(text, stack) => Load(EMPTY, OnStack(stack, Split(text)))
  }

  function Run(m: Model, es: seq<Event>): Model
    decreases |es|
  {
    if es == [] then m else Run(Step(m, es[0]), es[1..])
  }

  ghost function RuleStep(r: Rules, e: Event): Rules {
    match e
    case Whitelist(mem) => TakeRule(r, CallOf(mem))
    case Clear => Rules(iset{}, 0)
    case Write(text, stack) => TakeRules(Rules(iset{}, 0), OnStack(stack, Split(text)))
  }

  ghost function RuleRun(r: Rules, es: seq<Event>): Rules
    decreases |es|
  {
    if es == [] then r else RuleRun(RuleStep(r, es[0]), es[1..])
  }

  lemma StepRefines(m: Model, e: Event)
    requires Consistent(m)
    ensures Consistent(Step(m, e)) && View(Step(m, e)) == RuleStep(View(m), e)
  {
    hide Parse, Stored, Load, TakeRules;
    assert View(EMPTY) == Rules(iset{}, 0);
    match e
    case Whitelist(mem) =>
      CallsArePossible(mem);
      AdmitKeepsConsistent(m, CallOf(mem));
      AdmitRefinesTakeRule(m, CallOf(mem));
    case Clear =>
    case Write(text, stack) =>
      var cs := OnStack(stack, Split(text));
      StackCallsArePossible(stack, Split(text));
      LoadKeepsConsistent(EMPTY, cs);
      LoadRefinesTakeRules(EMPTY, cs);
  }

  /** Over every run, whatever the strings and whatever lies behind them, the list answers for
      the set of rules taken since the last clear, and keeps at most 150 of them. */
  lemma {:induction false} RunRefines(m: Model, es: seq<Event>)
    requires Consistent(m)
    ensures Consistent(Run(m, es)) && |Run(m, es).entries| <= 150
    ensures View(Run(m, es)) == RuleRun(View(m), es)
    decreases |es|
  {
    if es == [] {
    } else {
      StepRefines(m, es[0]);
      RunRefines(Step(m, es[0]), es[1..]);
    }
  }

  lemma {:induction false} RunAppend(m: Model, es: seq<Event>, e: Event)
    ensures Run(m, es + [e]) == Step(Run(m, es), e)
    decreases |es|
  {
    hide Step;
    if es == [] {
      assert ([] + [e])[1..] == [];
    } else {
      RunAppend(Step(m, es[0]), es[1..], e);
      assert (es + [e])[1..] == es[1..] + [e];
    }
  }

  // ---------- reloading

  function Prefix(m: Model, k: nat): Model
    requires k <= |m.entries| && k <= |m.texts|
  {
    Model(m.entries[..k], m.texts[..k])
  }

  /** The calls have the strings of the list. */
  predicate CallsFor(m: Model, cs: seq<Call>) {
    |cs| == |m.texts| && forall i :: 0 <= i < |cs| ==> cs[i].text == m.texts[i]
  }

  /** The parser finds in every string the record that the list holds for it. */
  predicate ParsesAgain(m: Model, cs: seq<Call>) {
    |cs| == |m.entries| && forall i :: 0 <= i < |cs| ==> cs[i].parsed == Accepted(m.entries[i])
  }

  lemma NextIsAdmitted(m: Model, cs: seq<Call>, k: nat)
    requires Consistent(m) && CallsFor(m, cs) && k < |cs| && cs[k].parsed == Accepted(m.entries[k])
    ensures Admit(Prefix(m, k), cs[k]) == Prefix(m, k + 1)
  {
    hide Stored, ConnectionsAreEqual;
    assert m.entries[..k + 1] == m.entries[..k] + [m.entries[k]];
    assert m.texts[..k + 1] == m.texts[..k] + [m.texts[k]];
  }

  lemma {:induction false} RestIsAdmitted(m: Model, cs: seq<Call>, k: nat)
    requires Consistent(m) && CallsFor(m, cs) && ParsesAgain(m, cs) && k <= |cs|
    ensures Load(Prefix(m, k), cs[k..]) == m
    decreases |cs| - k
  {
    if k == |cs| {
      assert m.entries[..k] == m.entries && m.texts[..k] == m.texts;
    } else {
      NextIsAdmitted(m, cs, k);
      RestIsAdmitted(m, cs, k + 1);
      assert cs[k..][1..] == cs[k + 1..];
    }
  }

  /** Loading only appends, at most one entry for each call. */
  lemma {:induction false} LoadAppends(m: Model, cs: seq<Call>)
    ensures m.entries <= Load(m, cs).entries && |Load(m, cs).entries| <= |m.entries| + |cs|
    decreases |cs|
  {
    hide Admits;
    if cs == [] {
    } else {
      LoadAppends(Admit(m, cs[0]), cs[1..]);
    }
  }

  lemma {:induction false} TextsAppend(m: Model, cs: seq<Call>)
    ensures m.texts <= Load(m, cs).texts
    decreases |cs|
  {
    hide Admits;
    if cs == [] {
    } else {
      TextsAppend(Admit(m, cs[0]), cs[1..]);
    }
  }

  lemma {:induction false} RebuiltMeansParsed(m: Model, cs: seq<Call>, k: nat)
    requires |m.entries| == |m.texts| == |cs| && k <= |cs|
    requires Load(Prefix(m, k), cs[k..]) == m
    ensures forall i :: k <= i < |cs| ==> cs[i].parsed == Accepted(m.entries[i])
    decreases |cs| - k
  {
    if k == |cs| {
    } else {
      var p, c := Prefix(m, k), cs[k];
      assert cs[k..][0] == c && cs[k..][1..] == cs[k + 1..];
      LoadAppends(Admit(p, c), cs[k + 1..]);
      assert Admits(p, c);
      assert Admit(p, c).entries[k] == m.entries[k];
      TextsAppend(Admit(p, c), cs[k + 1..]);
      assert Admit(p, c).entries == m.entries[..k + 1] && Admit(p, c).texts == m.texts[..k + 1];
      RebuiltMeansParsed(m, cs, k + 1);
    }
  }

  /** Loading the strings of a consistent list rebuilds it, in the same order, if and only if the
      parser finds the same records again. */
  lemma ReloadRebuildsIff(m: Model, cs: seq<Call>)
    requires Consistent(m) && CallsFor(m, cs)
    ensures Load(EMPTY, cs) == m <==> ParsesAgain(m, cs)
  {
    hide Stored, ConnectionsAreEqual;
    assert Prefix(m, 0) == EMPTY && cs[0..] == cs;
    if ParsesAgain(m, cs) {
      RestIsAdmitted(m, cs, 0);
    }
    if Load(EMPTY, cs) == m {
      RebuiltMeansParsed(m, cs, 0);
    }
  }

  /** The strings of a list that can be told from the configuration text. */
  predicate PlainTexts(m: Model) {
    forall i :: 0 <= i < |m.texts| ==> NulFree(m.texts[i]) && CommaFree(m.texts[i])
  }

  /** A list whose strings close their IP fields, so that they parse alike everywhere. */
  predicate Reloadable(m: Model) {
    && |m.entries| == |m.texts|
    && forall i :: 0 <= i < |m.texts| ==> IpFieldClosed(m.texts[i]) && ParseText(m.texts[i]) == Accepted(m.entries[i])
  }

  /** A string in memory whose IP field is closed. */
  predicate ClosedCall(c: Call) {
    IpFieldClosed(c.text) && c.parsed == ParseText(c.text)
  }

  lemma AdmittedIsAccepted(m: Model, c: Call)
    ensures Admits(m, c) ==> c.parsed.Accepted?
  {
  }

  lemma AdmitKeepsReloadable(m: Model, c: Call)
    requires Reloadable(m) && ClosedCall(c)
    ensures Reloadable(Admit(m, c))
  {
    hide IpFieldClosed, ParseText, Admits;
    AdmittedIsAccepted(m, c);
  }

  lemma {:induction false} LoadKeepsReloadable(m: Model, cs: seq<Call>)
    requires Reloadable(m) && forall i :: 0 <= i < |cs| ==> ClosedCall(cs[i])
    ensures Reloadable(Load(m, cs))
    decreases |cs|
  {
    hide IpFieldClosed, ParseText, Admits;
    if cs == [] {
    } else {
      AdmitKeepsReloadable(m, cs[0]);
      LoadKeepsReloadable(Admit(m, cs[0]), cs[1..]);
    }
  }

  /** Closed strings parse alike whatever is left in the buffer. */
  lemma {:induction false} ClosedCallsOnStack(stack: string, ss: seq<string>)
    requires forall i :: 0 <= i < |ss| ==> NulFree(ss[i]) && IpFieldClosed(ss[i])
    ensures forall i :: 0 <= i < |ss| ==> ClosedCall(OnStack(stack, ss)[i])
    decreases |ss|
  {
    hide Parse, IpFieldClosed;
    if ss == [] {
    } else {
      var s := ss[0];
      ParseIsOfTheString(s, if |s| < |stack| then stack[|s| + 1..] else "");
      ClosedCallsOnStack(Feed(stack, s), ss[1..]);
    }
  }

  /** Configuration round trip, as text: whatever is left in the segment buffer, the joined
      strings split and load back to the list if and only if they parse as before; strings that
      close their IP fields always do. */
  lemma TextRoundTrip(m: Model, stack: string)
    requires Consistent(m) && PlainTexts(m) && m.texts != []
    ensures var cs := OnStack(stack, Split(Join(m.texts)));
      && (Load(EMPTY, cs) == m <==> ParsesAgain(m, cs))
      && (Reloadable(m) ==> ParsesAgain(m, cs))
  {
    hide Parse, IpFieldClosed, ConnectionsAreEqual, Stored;
    SplitOfJoin(m.texts);
    var cs := OnStack(stack, m.texts);
    ReloadRebuildsIff(m, cs);
    if Reloadable(m) {
      ClosedCallsOnStack(stack, m.texts);
    }
  }

  /** What a text loads never needs more room in the mirror than the text and one comma. */
  lemma {:induction false} LoadedMirrorFits(m: Model, t: string, stack: string)
    ensures |Mirror(Load(m, OnStack(stack, Split(t))).texts)| <= |Mirror(m.texts)| + |t| + 1
    decreases |t|
  {
    hide Admits, Mirror, Parse;
    var ss := Split(t);
    var cs := OnStack(stack, ss);
    var n := Find(t, 0, {','});
    assert Load(m, cs) == Load(Admit(m, cs[0]), cs[1..]);
    MirrorAppend(m.texts, ss[0]);
    if n == |t| {
      assert cs[1..] == [];
    } else {
      assert ss[1..] == Split(t[n + 1..]);
      assert cs[1..] == OnStack(Feed(stack, ss[0]), ss[1..]);
      LoadedMirrorFits(Admit(m, cs[0]), t[n + 1..], Feed(stack, ss[0]));
    }
  }

  // ---------- order independence

  /** The list of strings that all parse. */
  function ListOf(ss: seq<string>): Model
    requires forall i :: 0 <= i < |ss| ==> ParseText(ss[i]).Accepted?
  {
    Model(seq(|ss|, i requires 0 <= i < |ss| => ParseText(ss[i]).conn), ss)
  }

  predicate Clean(s: string) {
    NulFree(s) && CommaFree(s) && IpFieldClosed(s)
  }

  /** Strings that can all stand in one list. */
  predicate Compatible(ss: seq<string>) {
    && |ss| <= MAX_WHITELIST_SIZE
    && (forall i :: 0 <= i < |ss| ==> Clean(ss[i]) && ParseText(ss[i]).Accepted?)
    && (forall i, j :: 0 <= i < |ss| && 0 <= j < |ss| && i != j ==>
          !ConnectionsAreEqual(ParseText(ss[i]).conn, ParseText(ss[j]).conn))
  }

  lemma OverlapsItself(s: string)
    requires ParseText(s).Accepted?
    ensures ConnectionsAreEqual(ParseText(s).conn, ParseText(s).conn)
  {
    var c := ParseText(s).conn;
    ParseStores(Mem(s, ""));
    MatchingIsWildcardEquality(c, c.path, Some(c.ip), c.port);
  }

  lemma {:induction false} DistinctMeansOnce(ss: seq<string>, x: string)
    requires forall i, j :: 0 <= i < j < |ss| ==> ss[i] != ss[j]
    ensures multiset(ss)[x] <= 1
  {
    if ss == [] {
    } else {
      DistinctMeansOnce(ss[1..], x);
      assert ss == [ss[0]] + ss[1..];
      if x == ss[0] {
        assert x !in ss[1..];
      }
    }
  }

  lemma TwiceMeansTwo(ss: seq<string>, i: nat, j: nat)
    requires i < j < |ss| && ss[i] == ss[j]
    ensures multiset(ss)[ss[i]] >= 2
  {
    assert ss == ss[..j] + ss[j..];
    assert ss[i] == ss[..j][i] && ss[i] in ss[..j];
    assert ss[j] == ss[j..][0] && ss[j] in ss[j..];
    assert multiset(ss) == multiset(ss[..j]) + multiset(ss[j..]);
  }

  lemma SameLength(ss: seq<string>, tt: seq<string>)
    requires multiset(ss) == multiset(tt)
    ensures |ss| == |tt|
  {
    assert |multiset(ss)| == |ss| && |multiset(tt)| == |tt|;
  }

  lemma PermutationIsCompatible(ss: seq<string>, tt: seq<string>)
    requires Compatible(ss) && multiset(ss) == multiset(tt)
    ensures Compatible(tt)
  {
    hide Parse, ConnectionsAreEqual, Clean;
    SameLength(ss, tt);
    forall i | 0 <= i < |tt|
      ensures tt[i] in ss
    {
      assert tt[i] in multiset(tt);
    }
    forall i, j | 0 <= i < j < |ss|
      ensures ss[i] != ss[j]
    {
      OverlapsItself(ss[i]);
    }
    forall i, j | 0 <= i < |tt| && 0 <= j < |tt| && i != j
      ensures !ConnectionsAreEqual(ParseText(tt[i]).conn, ParseText(tt[j]).conn)
    {
      DistinctMeansOnce(ss, tt[i]);
      if tt[i] == tt[j] {
        TwiceMeansTwo(tt, if i < j then i else j, if i < j then j else i);
      }
      var a :| 0 <= a < |ss| && ss[a] == tt[i];
      var b :| 0 <= b < |ss| && ss[b] == tt[j];
    }
  }

  lemma CompatibleIsConsistent(ss: seq<string>)
    requires Compatible(ss)
    ensures Consistent(ListOf(ss)) && PlainTexts(ListOf(ss)) && Reloadable(ListOf(ss))
  {
    hide Parse, ConnectionsAreEqual, IpFieldClosed, Stored;
    forall i | 0 <= i < |ss|
      ensures Stored(ListOf(ss).entries[i])
    {
      ParseStores(Mem(ss[i], ""));
    }
  }

  lemma SameRules(ss: seq<string>, tt: seq<string>, q: Query)
    requires Compatible(ss) && Compatible(tt) && multiset(ss) == multiset(tt)
    requires q in Allowed(ListOf(ss).entries)
    ensures q in Allowed(ListOf(tt).entries)
  {
    hide Parse, Matches, ConnectionsAreEqual, Clean;
    var i :| 0 <= i < |ss| && Matches(ListOf(ss).entries[i], q);
    assert ss[i] in multiset(tt);
    var j :| 0 <= j < |tt| && tt[j] == ss[i];
    assert ListOf(tt).entries[j] == ListOf(ss).entries[i];
  }

  /** Order independence: compatible strings are all accepted in whatever order they are
      written, and every lookup, wildcard lookups included, gets the same answer. */
  lemma OrderDoesNotMatter(ss: seq<string>, tt: seq<string>, stack: string, other: string)
    requires Compatible(ss) && multiset(ss) == multiset(tt) && ss != []
    ensures tt != []
    ensures var m, n := Load(EMPTY, OnStack(stack, Split(Join(ss)))), Load(EMPTY, OnStack(other, Split(Join(tt))));
      && m.texts == ss && n.texts == tt
      && forall path, ip, port :: Lookup(m, path, ip, port) <==> Lookup(n, path, ip, port)
  {
    hide Parse, Lookup, Compatible;
    SameLength(ss, tt);
    PermutationIsCompatible(ss, tt);
    CompatibleIsConsistent(ss);
    CompatibleIsConsistent(tt);
    var m, n := ListOf(ss), ListOf(tt);
    TextRoundTrip(m, stack);
    TextRoundTrip(n, other);
    forall path, ip, port
      ensures Lookup(m, path, ip, port) <==> Lookup(n, path, ip, port)
    {
      LookupIsMembership(m, path, ip, port);
      LookupIsMembership(n, path, ip, port);
      if path.Some? && ip.Some? {
        var q := Query(path.value, ip.value, port);
        if q in Allowed(m.entries) {
          SameRules(ss, tt, q);
        }
        if q in Allowed(n.entries) {
          SameRules(tt, ss, q);
        }
      }
    }
  }
}
