/** Reading the configuration and writing it back, from strings: when the list comes back, over
    whole runs and for every spelling of its strings, and an input for which it does not. */
module RoundTrip {
  import opened Basics
  import opened CStrings
  import opened InetUtils
  import opened Connections
  import opened Grammar
  import opened ConfigText
  import opened WhitelistModel
  import opened Netlog
  import opened Service

  // ---------- after a run

  /** After any run of strings that close their IP fields, from a list of such strings, in which
      the mirror has not been damaged: what is read can be written back, whatever lies on the
      stack, and list and text are the same again. */
  method RoundTripAfterRun(n: State, rs: seq<Request>, bufferLength: nat, stack: string, ghost c: Config)
    returns (first: string, again: string)
    requires Represents(n, c) && Whole(c) && Reloadable(c.model) && AllServable(c, rs) && !Damaged(c, rs)
    requires forall k :: 0 <= k < |rs| ==> ClosedRequest(rs[k])
    requires var m := After(c, rs).model;
      && m.texts != [] && LastText(m) != "" && |Mirror(m.texts)| < PROCFS_MAX_SIZE
      && (forall i :: 0 <= i < |m.texts| ==> |m.texts[i]| < MAX_NEW_CONNECTION_SIZE)
      && bufferLength >= |Join(m.texts)| + 2
    requires StackEnds(stack)
    modifies n, n.whiteList, n.procfsBuffer
    ensures n.Valid() && n.model == After(c, rs).model
    ensures first == again == Join(n.model.texts) + "\n"
  {
    hide After, AllServable, Damaged, Consistent, PlainTexts, Mirror, Join, Whole, Reloadable, ClosedRequest;
    hide InRules, RuleRun, EventsOf, View, StackEnds, OnStack, Load, ParsesAgain, Answer;
    ClosedRunIsReloadable(c, rs);
    var answers := Serve(n, rs, c);
    first, again := ReadThenWriteBack(n, bufferLength, stack);
  }

  // ---------- for every spelling

  /** The fields of a connection string and the brackets it is written with. */
  datatype Spelling = Spelling(f: Fields, b: Brackets)

  /** The strings of the list, and its records, are those of the spellings. */
  predicate Spells(ps: seq<Spelling>, m: Model) {
    && |ps| == |m.entries| == |m.texts|
    && forall i :: 0 <= i < |ps| ==> SpellsEntry(ps[i], m.texts[i], m.entries[i])
  }

  predicate SpellsEntry(p: Spelling, text: string, c: Conn) {
    Legal(p.f) && Render(p.f, p.b) == text && Denotes(p.f, p.b.ipOpen) == Accepted(c)
  }

  /** The string ends in an IP field that it does not close. */
  predicate EndsOpen(p: Spelling) {
    p.f.ip.Some? && p.f.port.None? && !p.b.ipClose
  }

  /** What lies behind the i-th string and its terminator when it has been copied. */
  function LeftBehind(stack: string, ss: seq<string>, i: nat): string
    requires i < |ss|
  {
    var at := StackAt(stack, ss, i);
    if |ss[i]| < |at| then at[|ss[i]| + 1..] else ""
  }

  /** No string that ends in an open IP field finds the start of a port field behind it. */
  predicate Undisturbed(ps: seq<Spelling>, stack: string, ss: seq<string>)
    requires |ps| == |ss|
  {
    forall i :: 0 <= i < |ps| ==> !(EndsOpen(ps[i]) && DisturbedBy(LeftBehind(stack, ss, i)))
  }

  lemma EntryParsesAgainIff(p: Spelling, stack: string, ss: seq<string>, i: nat, c: Conn)
    requires i < |ss| && SpellsEntry(p, ss[i], c)
    ensures OnStack(stack, ss)[i].parsed == Accepted(c) <==> !(EndsOpen(p) && DisturbedBy(LeftBehind(stack, ss, i)))
  {
    hide Parse, Mem, Render, Legal, StackAt, DisturbedBy, AcceptableIp;
    CallAt(stack, ss, i);
    ParseMeetsGrammar(p.f, p.b, LeftBehind(stack, ss, i));
  }

  lemma ParsesAgainIff(ps: seq<Spelling>, m: Model, stack: string)
    requires Spells(ps, m)
    ensures ParsesAgain(m, OnStack(stack, m.texts)) <==> Undisturbed(ps, stack, m.texts)
  {
    hide SpellsEntry, EndsOpen, DisturbedBy, LeftBehind, Parse, Feed, OnStack;
    forall i | 0 <= i < |ps|
      ensures OnStack(stack, m.texts)[i].parsed == Accepted(m.entries[i]) <==>
        !(EndsOpen(ps[i]) && DisturbedBy(LeftBehind(stack, m.texts, i)))
    {
      EntryParsesAgainIff(ps[i], stack, m.texts, i, m.entries[i]);
    }
  }

  lemma SpellingsAreAsMany(ps: seq<Spelling>, m: Model)
    requires Spells(ps, m)
    ensures |ps| == |m.texts|
  {
  }

  /** The round trip as a condition on strings and memory: a list that holds what the grammar
      denotes comes back if and only if no string that ends in an open IP field finds the start of
      a port field in what the strings before it have left behind it. */
  method WriteBackOfSpellings(n: State, ghost ps: seq<Spelling>, bufferLength: nat, stack: string)
    returns (first: string, again: string)
    requires n.Valid() && n.model.texts != [] && |Mirror(n.model.texts)| < PROCFS_MAX_SIZE && Spells(ps, n.model)
    requires n.BufferHolds(Mirror(n.model.texts)) || LastText(n.model) != ""
    requires forall i :: 0 <= i < |n.model.texts| ==> |n.model.texts[i]| < MAX_NEW_CONNECTION_SIZE
    requires bufferLength >= |Join(n.model.texts)| + 2 && StackEnds(stack)
    modifies n, n.whiteList, n.procfsBuffer
    ensures n.Valid() && first == old(Join(n.model.texts)) + "\n"
    ensures n.model == old(n.model) <==> Undisturbed(ps, stack, old(n.model.texts))
    ensures n.model == old(n.model) ==> again == first
  {
    hide Consistent, PlainTexts, Mirror, Join, Spells, Undisturbed, StackEnds, OnStack, Load, ParsesAgain, Reloadable;
    assert |ps| == |n.model.texts| by {
      SpellingsAreAsMany(ps, n.model);
    }
    ParsesAgainIff(ps, n.model, stack);
    first, again := ReadThenWriteBack(n, bufferLength, stack);
  }

  // ---------- a list that does not come back

  const LONG := "/bin/bbbbbbbbbbbbbbbbbbbb"
  const REFUSED := "|i!aaaaaaaaaaaa|p<22>"
  const OPEN := "/bin/a|i1.2.3.4"

  function JustLong(): Model {
    Model([Conn(LONG, "", NO_PORT)], [LONG])
  }

  function LongAndOpen(port: int): Model {
    Model([Conn(LONG, "", NO_PORT), Conn("/bin/a", "1.2.3.4", port)], [LONG, OPEN])
  }

  lemma LongParses(tail: string)
    ensures Parse(Mem(LONG, tail)) == Accepted(Conn(LONG, "", NO_PORT))
  {
    hide Parse, Mem;
    var f, b := Fields(LONG, None, None), Brackets(false, false, false, false);
    assert Render(f, b) == LONG;
    BracketsAreOptional(f, b, tail);
  }

  lemma RefusedParses(tail: string)
    ensures Parse(Mem(REFUSED, tail)) == Rejected
  {
    hide Parse, Mem;
    var f, b := Fields("", Some("!aaaaaaaaaaaa"), Some("22")), Brackets(false, false, false, true);
    var c := b.(portOpen := true);
    assert Render(f, c) == REFUSED;
    assert !HasColon("!aaaaaaaaaaaa") && !IpCharacter("!aaaaaaaaaaaa"[0]);
    BracketsAreOptional(f, c, tail);
  }

  /** The open string becomes a rule for port 22 behind STALE, and for every port behind a letter
      other than `p`. */
  lemma OpenParses(tail: string)
    ensures STALE <= tail ==> Parse(Mem(OPEN, tail)) == Accepted(Conn("/bin/a", "1.2.3.4", 22))
    ensures tail != "" && tail[0] != 'p' && tail[0] != '|' ==> Parse(Mem(OPEN, tail)) == Accepted(Conn("/bin/a", "1.2.3.4", NO_PORT))
  {
    hide Parse, Mem;
    var f, b := Fields("/bin/a", Some("1.2.3.4"), None), Brackets(false, false, false, false);
    UnclosedIpExample();
    assert !HasColon("1.2.3.4") && !ShowsColon("1.2.3.4", false);
    if STALE <= tail {
      UnclosedIpIsMisread(f, b, tail);
    }
    ParseMeetsGrammar(f, b, tail);
  }

  lemma LongIsFed(stack: string)
    requires StackEnds(stack)
    ensures Parse(Feed(stack, LONG)) == Accepted(Conn(LONG, "", NO_PORT))
    ensures Feed(stack, LONG)[16] == 'b' && |Feed(stack, LONG)| > 26
  {
    hide Parse;
    LongParses(stack[|LONG| + 1..]);
  }

  lemma RefusedIsFed(at: string)
    requires |at| > 26
    ensures Parse(Feed(at, REFUSED)) == Rejected
    ensures |Feed(at, REFUSED)| > 26 && Feed(at, REFUSED)[16..22] == STALE
  {
    hide Parse;
    RefusedParses(at[|REFUSED| + 1..]);
  }

  lemma OpenIsFed(at: string)
    requires |at| > 26
    ensures at[16..22] == STALE ==> Parse(Feed(at, OPEN)) == Accepted(Conn("/bin/a", "1.2.3.4", 22))
    ensures at[16] == 'b' ==> Parse(Feed(at, OPEN)) == Accepted(Conn("/bin/a", "1.2.3.4", NO_PORT))
  {
    hide Parse;
    var tail := at[16..];
    assert tail[..6] == at[16..22];
    OpenParses(tail);
  }

  lemma LoadFirst(m: Model, stack: string, s: string, ss: seq<string>)
    ensures Load(m, OnStack(stack, [s] + ss)) == Load(Admit(m, Call(s, Parse(Feed(stack, s)))), OnStack(Feed(stack, s), ss))
  {
    hide Parse, Feed, Admit;
    assert ([s] + ss)[1..] == ss;
  }

  lemma LoadNone(m: Model, stack: string)
    ensures Load(m, OnStack(stack, [])) == m
  {
  }

  lemma LongAndOpenAdmitted(port: int)
    ensures Admit(EMPTY, Call(LONG, Accepted(Conn(LONG, "", NO_PORT)))) == JustLong()
    ensures Admit(JustLong(), Call(REFUSED, Rejected)) == JustLong()
    ensures Admit(JustLong(), Call(OPEN, Accepted(Conn("/bin/a", "1.2.3.4", port)))) == LongAndOpen(port)
  {
    hide StrnEq;
    assert !StrnEq("/bin/a", LONG, MAX_ABSOLUTE_EXEC_PATH) by {
      StrnEqIsEquality("/bin/a", LONG, MAX_ABSOLUTE_EXEC_PATH);
    }
  }

  /** The write of three strings: the refused one leaves a port field behind the open one. */
  lemma FirstLoad(stack: string)
    requires StackEnds(stack)
    ensures Load(EMPTY, OnStack(stack, [LONG, REFUSED, OPEN])) == LongAndOpen(22)
  {
    hide Load, OnStack, Feed, Parse, Admit, StackEnds, LONG, REFUSED, OPEN;
    var first := Feed(stack, LONG);
    var second := Feed(first, REFUSED);
    LongIsFed(stack);
    RefusedIsFed(first);
    OpenIsFed(second);
    assert [LONG, REFUSED, OPEN] == [LONG] + ([REFUSED] + ([OPEN] + []));
    LoadFirst(EMPTY, stack, LONG, [REFUSED] + ([OPEN] + []));
    LoadFirst(JustLong(), first, REFUSED, [OPEN] + []);
    LoadFirst(JustLong(), second, OPEN, []);
    LoadNone(LongAndOpen(22), Feed(second, OPEN));
    LongAndOpenAdmitted(22);
  }

  /** The write of what is read then: the first string leaves letters behind the open one. */
  lemma SecondLoad(stack: string)
    requires StackEnds(stack)
    ensures Load(EMPTY, OnStack(stack, [LONG, OPEN])) == LongAndOpen(NO_PORT)
  {
    hide Load, OnStack, Feed, Parse, Admit, StackEnds, LONG, OPEN;
    var first := Feed(stack, LONG);
    LongIsFed(stack);
    OpenIsFed(first);
    assert [LONG, OPEN] == [LONG] + ([OPEN] + []);
    LoadFirst(EMPTY, stack, LONG, [OPEN] + []);
    LoadFirst(JustLong(), first, OPEN, []);
    LoadNone(LongAndOpen(NO_PORT), Feed(first, OPEN));
    LongAndOpenAdmitted(NO_PORT);
  }

  lemma JoinOfThree(a: string, b: string, c: string)
    ensures Join([a, b, c]) == a + "," + b + "," + c && Join([a, c]) == a + "," + c
  {
    assert [a, b, c][1..] == [b, c] && [b, c][1..] == [c] && [a, c][1..] == [c];
    assert Join([b, c]) == b + "," + c;
    assert a + "," + (b + "," + c) == a + "," + b + "," + c;
  }

  lemma ExampleTextsAreSegments()
    ensures NulFree(LONG) && CommaFree(LONG) && 1 <= |LONG| < 100
    ensures NulFree(REFUSED) && CommaFree(REFUSED) && 1 <= |REFUSED| < 100
    ensures NulFree(OPEN) && CommaFree(OPEN) && 1 <= |OPEN| < 100
  {
  }

  const WRITTEN := LONG + "," + REFUSED + "," + OPEN

  lemma WrittenIsTaken(stack: string)
    requires StackEnds(stack)
    ensures 1 <= |WRITTEN| < 300 && WrittenText(WRITTEN + "\n", |WRITTEN| + 1) == WRITTEN && Loadable(WRITTEN)
    ensures Load(EMPTY, Calls(WRITTEN, stack)) == LongAndOpen(22)
  {
    hide Join, Load, Loadable, Split, OnStack, StackEnds, WrittenText, LONG, REFUSED, OPEN;
    ExampleTextsAreSegments();
    JoinOfThree(LONG, REFUSED, OPEN);
    FirstLoad(stack);
    JoinIsLoadable([LONG, REFUSED, OPEN]);
  }

  lemma TakenIsShort(m: Model)
    requires m.texts == [LONG, OPEN]
    ensures |Mirror(m.texts)| < 300 && |Join(m.texts)| < 300
    ensures Join(m.texts) == LONG + "," + OPEN && LastText(m) != ""
    ensures forall i :: 0 <= i < |m.texts| ==> |m.texts[i]| < MAX_NEW_CONNECTION_SIZE
  {
    hide Join, Mirror, LONG, REFUSED, OPEN;
    ExampleTextsAreSegments();
    JoinOfThree(LONG, REFUSED, OPEN);
    MirrorIsJoin(m.texts);
  }

  /** Whatever is on the stack: one write takes the open string as a rule for port 22, and writing
      back the very text that is then read takes it as a rule for every port. */
  method UnclosedRoundTripExample(n: State, stack: string, later: string)
    returns (ghost before: Model, first: string, again: string)
    requires n.ListValid() && StackEnds(stack) && StackEnds(later)
    modifies n, n.whiteList, n.procfsBuffer
    ensures before == LongAndOpen(22) && n.model == LongAndOpen(NO_PORT) && n.Valid()
    ensures first == again == LONG + "," + OPEN + "\n"
  {
    hide Consistent, PlainTexts, Mirror, Join, Load, Loadable, Split, OnStack, ParsesAgain, Reloadable, StackEnds, WrittenText;
    hide LONG, OPEN, WRITTEN, Calls, LastText;
    WrittenIsTaken(stack);
    var r := n.ProcfileWrite(WRITTEN + "\n", |WRITTEN| + 1, stack);
    before := n.model;
    TakenIsShort(before);
    SecondLoad(later);
    first, again := ReadThenWriteBack(n, 4096, later);
  }
}
