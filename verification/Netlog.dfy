/** netlog's whitelist in memory: netlog/src/whitelist.c, netlog/src/proc_config.c and the load
    at module insertion in netlog/src/probes.c.  Each operation is atomic. */
module Netlog {
  import opened Basics
  import opened CStrings
  import opened Connections
  import opened ConfigText
  import opened WhitelistModel

  const PROCFS_MAX_SIZE := 4096
  const MAX_NEW_CONNECTION_SIZE := 512
  const WHITELISTED := 1
  const NOT_WHITELISTED := 0
  const WHITELIST_FAIL := -1
  const ENOSPC := 28

  /** A text whose segments fit the segment buffer. */
  predicate Loadable(t: string) {
    NulFree(t) && forall i :: 0 <= i < |Split(t)| ==> |Split(t)[i]| < 512
  }

  /** The text a write of `count` bytes leaves in the buffer: its last byte, the newline, is
      overwritten by the terminator. */
  function WrittenText(user: string, count: nat): string
    requires 1 <= count <= |user|
  {
    CStr(user[..count - 1])
  }

  /** The calls that a text causes when the segment buffer starts at `stack`. */
  function Calls(text: string, stack: string): seq<Call> {
    OnStack(stack, Split(text))
  }

  /** The calls on strings in memory of their own. */
  function CallsOn(mems: seq<string>): (cs: seq<Call>)
    ensures |cs| == |mems|
  {
    seq(|mems|, i requires 0 <= i < |mems| => CallOf(mems[i]))
  }

  /** What a call adds to the buffer. */
  function Added(m: Model, c: Call): string {
    if Admits(m, c) then c.text + "," else ""
  }

  /** The buffer mirrors the list: each accepted string with a comma behind it, or, once the file
      has been read, without the last comma. */
  predicate Mirrors(m: Model, text: string) {
    text == Mirror(m.texts) || (m.texts != [] && text == Join(m.texts))
  }

  function LastText(m: Model): string
    requires m.texts != []
  {
    m.texts[|m.texts| - 1]
  }

  // ---------- about the text

  /** The segment from `start` on ends at the next comma. */
  lemma SplitStep(t: string, start: nat, i: nat)
    requires start <= i <= |t|
    requires forall k :: start <= k < i ==> t[k] != ','
    requires i < |t| ==> t[i] == ','
    ensures Split(t[start..]) == [t[start..i]] + (if i == |t| then [] else Split(t[i + 1..]))
  {
    hide Split, Find;
    var u, n := t[start..], i - start;
    assert forall k :: 0 <= k < n ==> u[k] == t[start + k];
    FindIs(u, 0, {','}, n);
    SplitAtComma(u);
    assert u[..n] == t[start..i];
    if i < |t| {
      assert u[n + 1..] == t[i + 1..];
    }
  }

  lemma StartOfText(text: string, stack: string)
    ensures Mirror(EMPTY.texts) == "" && text[0..] == text
    ensures [] + Calls(text, stack) == Calls(text, stack)
    ensures forall m :: Load(m, []) == m
  {
  }

  lemma TextInMemory(mem: string, text: string)
    requires Terminated(mem, 0) && text == CStr(mem)
    ensures |text| + 1 <= |mem| && mem[..|text| + 1] == text + [NUL]
  {
  }

  lemma SliceOfTemp(mem: string, text: string, start: nat, i: nat)
    requires start <= i <= |text| < |mem| && mem[..|text| + 1] == text + [NUL]
    ensures mem[start..i] == text[start..i]
  {
    assert mem[start..i] == mem[..|text| + 1][start..i];
  }

  lemma WrittenTextIsRead(mem: string, user: string, count: nat)
    requires 1 <= count <= |user| && count <= |mem|
    requires mem[..count - 1] == user[..count - 1] && mem[count - 1] == NUL
    ensures Terminated(mem, 0) && CStr(mem) == WrittenText(user, count)
  {
    var n := Find(user[..count - 1], 0, {NUL});
    assert forall i :: 0 <= i < n ==> mem[i] == mem[..count - 1][i];
    assert n < count - 1 ==> mem[n] == mem[..count - 1][n];
    CStrIs(mem, n);
  }

  lemma WrittenTextIsShort(user: string, count: nat)
    requires 1 <= count <= |user|
    ensures |WrittenText(user, count)| < count
  {
  }

  /** The text ends before the last byte that is written, or before the first NUL. */
  lemma WrittenTextEnds(t: string, last: char, rest: string)
    requires NulFree(t)
    ensures WrittenText(t + [last] + rest, |t| + 1) == t
    ensures forall count :: |t| + 2 <= count <= |t| + 1 + |rest| ==> WrittenText(t + [NUL] + rest, count) == t
  {
    assert (t + [last] + rest)[..|t|] == t;
    FindIs(t, 0, {NUL}, |t|);
    forall count | |t| + 2 <= count <= |t| + 1 + |rest|
      ensures WrittenText(t + [NUL] + rest, count) == t
    {
      var mem := (t + [NUL] + rest)[..count - 1];
      assert mem == Mem(t, rest[..count - 2 - |t|]);
      CStrOfMem(t, rest[..count - 2 - |t|]);
    }
  }

  // ---------- about the mirror

  /** A call appends its string and a comma to the mirror, if it is accepted. */
  lemma MirrorOfAdmit(m: Model, c: Call)
    ensures Mirror(Admit(m, c).texts) == Mirror(m.texts) + Added(m, c)
    ensures |Added(m, c)| <= |c.text| + 1
  {
    hide Admits, Mirror;
    MirrorAppend(m.texts, c.text);
    assert Mirror(m.texts) + (c.text + ",") == Mirror(m.texts) + c.text + ",";
  }

  lemma AdmitKeepsPlainTexts(m: Model, c: Call)
    requires PlainTexts(m) && NulFree(c.text) && CommaFree(c.text)
    ensures PlainTexts(Admit(m, c))
  {
    hide Admits;
  }

  /** The calls from `start` on begin with the one on the segment that ends at `i`. */
  lemma NextCalls(text: string, start: nat, i: nat, at: string)
    requires start <= i <= |text|
    requires forall k :: start <= k < i ==> text[k] != ','
    requires i < |text| ==> text[i] == ','
    ensures var seg := text[start..i];
      Calls(text[start..], at) ==
        [Call(seg, Parse(Feed(at, seg)))] + (if i == |text| then [] else Calls(text[i + 1..], Feed(at, seg)))
  {
    hide Parse, Split, Feed;
    SplitStep(text, start, i);
    var ss := Split(text[start..]);
    assert ss[0] == text[start..i] && ss[1..] == if i == |text| then [] else Split(text[i + 1..]);
  }

  lemma SegmentIsShort(text: string, stack: string, start: nat, i: nat, k: nat)
    requires start <= i <= |text| && Loadable(text)
    requires forall j :: start <= j < i ==> text[j] != ','
    requires k < |Calls(text, stack)| && Calls(text, stack)[k].text == text[start..i]
    ensures var seg := text[start..i]; |seg| < MAX_NEW_CONNECTION_SIZE && NulFree(seg) && CommaFree(seg)
  {
    hide Split, OnStack;
    assert Split(text)[k] == text[start..i];
  }

  lemma LoadNext(m: Model, c: Call, rest: seq<Call>)
    ensures Load(m, [c] + rest) == Load(Admit(m, c), rest)
  {
    hide Admit;
    assert ([c] + rest)[1..] == rest;
  }

  /** One round of the splitter: the segment that ends at `i` is the next one, copied over what
      the segment before it has left in the buffer. */
  lemma NextSegment(m: Model, text: string, stack: string, start: nat, i: nat, calls: seq<Call>, at: string)
    requires start <= i <= |text| && Loadable(text)
    requires forall k :: start <= k < i ==> text[k] != ','
    requires i < |text| ==> text[i] == ','
    requires calls + Calls(text[start..], at) == Calls(text, stack)
    ensures var seg := text[start..i]; var c := Call(seg, Parse(Feed(at, seg)));
      var rest := if i == |text| then [] else Calls(text[i + 1..], Feed(at, seg));
      && |seg| < MAX_NEW_CONNECTION_SIZE && NulFree(seg) && CommaFree(seg)
      && (calls + [c]) + rest == Calls(text, stack)
      && Load(m, Calls(text[start..], at)) == Load(Admit(m, c), rest)
  {
    hide Admit, Parse, Feed, Calls, Load, Loadable;
    NextCalls(text, start, i, at);
    var seg := text[start..i];
    var c := Call(seg, Parse(Feed(at, seg)));
    var rest := if i == |text| then [] else Calls(text[i + 1..], Feed(at, seg));
    assert calls + ([c] + rest) == (calls + [c]) + rest;
    SegmentIsShort(text, stack, start, i, |calls|);
    LoadNext(m, c, rest);
  }

  /** Copying a segment to the front of its memory. */
  lemma FeedIs(at: string, mem: string, seg: string)
    requires |mem| == |at| > |seg|
    requires mem[..|seg|] == seg && mem[|seg|] == NUL && mem[|seg| + 1..] == at[|seg| + 1..]
    ensures mem == Feed(at, seg)
  {
    assert mem == mem[..|seg|] + [mem[|seg|]] + mem[|seg| + 1..];
  }

  /** The call on a segment that has been copied into its buffer. */
  lemma SegmentCall(at: string, seg: string)
    requires StackEnds(at) && |seg| < MAX_NEW_CONNECTION_SIZE && NulFree(seg)
    ensures var mem := Feed(at, seg);
      && StackEnds(mem) && Terminated(mem, 0) && !Parse(mem).Overrun?
      && CallOf(mem) == Call(seg, Parse(mem))
  {
    hide Parse, CStr;
    FeedStaysInside(at, seg);
    CStrOfMem(seg, at[|seg| + 1..]);
  }

  /** Loading never shortens the mirror. */
  lemma {:induction false} LoadLengthensMirror(m: Model, cs: seq<Call>)
    ensures |Mirror(m.texts)| <= |Mirror(Load(m, cs).texts)|
    decreases |cs|
  {
    hide Mirror, Admit;
    if cs == [] {
    } else {
      MirrorOfAdmit(m, cs[0]);
      LoadLengthensMirror(Admit(m, cs[0]), cs[1..]);
    }
  }

  lemma NextParameter(m: Model, todo: seq<string>, i: nat)
    requires i < |todo|
    ensures Load(m, CallsOn(todo[i..])) == Load(Admit(m, CallOf(todo[i])), CallsOn(todo[i + 1..]))
    ensures |Mirror(Admit(m, CallOf(todo[i])).texts)| <= |Mirror(Load(m, CallsOn(todo[i..])).texts)|
  {
    hide Admit, CallOf, Mirror;
    assert todo[i..][1..] == todo[i + 1..];
    assert CallsOn(todo[i..])[1..] == CallsOn(todo[i + 1..]);
    LoadLengthensMirror(Admit(m, CallOf(todo[i])), CallsOn(todo[i + 1..]));
  }

  lemma NoParameter(m: Model)
    ensures Load(m, CallsOn([])) == m
  {
  }

  // ---------- about reading

  lemma JoinedTextFits(m: Model)
    requires m.texts != []
    ensures |Mirror(m.texts)| == |Join(m.texts)| + 1
    ensures LastText(m) != "" ==> Join(m.texts) != ""
  {
    hide Mirror, Join;
    MirrorIsJoin(m.texts);
    JoinEndsWithLast(m.texts);
  }

  lemma EmptyMirror()
    ensures Mirror([]) == "" && PlainTexts(EMPTY)
  {
  }

  lemma SingleJoin(ss: seq<string>)
    requires ss != []
    ensures |ss| == 1 ==> Join(ss) == ss[0]
  {
  }

  /** Trimming a mirror: the first time it costs the last comma; after that it does nothing, or
      destroys the mirror if the last string is empty. */
  lemma TrimKeepsMirrorIff(m: Model, text: string)
    requires PlainTexts(m) && Mirrors(m, text) && text != ""
    ensures m.texts != []
    ensures Mirrors(m, TrimComma(text)) <==> text == Mirror(m.texts) || LastText(m) != ""
    ensures Mirrors(m, TrimComma(text)) ==> TrimComma(text) == Join(m.texts)
    ensures !Mirrors(m, TrimComma(text)) ==> |TrimComma(text)| < |Join(m.texts)|
  {
    hide Mirror, Join;
    EmptyMirror();
    JoinedTextFits(m);
    TrimMirror(m.texts);
    if text != Mirror(m.texts) {
      SingleJoin(m.texts);
      TrimIsStable(m.texts);
    }
  }

  class State {
    var size: nat
    const whiteList: array<Connection?>
    const procfsBuffer: array<char>
    var procfsBufferSize: nat

    // the entries and the strings they came from, and the objects that represent them
    ghost var model: Model
    ghost var repr: set<object>

    ghost predicate EntryValid(i: nat)
      requires i < whiteList.Length && i < |model.entries|
      reads `model, `repr, whiteList, repr
    {
      var c := whiteList[i];
      && c != null && c in repr && c.ip in repr && c.executable in repr
      && c.Valid() && c.Value() == model.entries[i]
    }

    ghost predicate ListValid()
      reads `size, `model, `repr, whiteList, repr
    {
      && whiteList.Length == MAX_WHITELIST_SIZE && procfsBuffer.Length == PROCFS_MAX_SIZE
      && this !in repr && whiteList !in repr && procfsBuffer !in repr
      && size == |model.entries| <= MAX_WHITELIST_SIZE && Consistent(model) && PlainTexts(model)
      && forall i :: 0 <= i < size ==> EntryValid(i)
    }

    /** The buffer is this string, terminated. */
    ghost predicate BufferReads(text: string)
      reads procfsBuffer
    {
      && |text| < procfsBuffer.Length && NulFree(text)
      && procfsBuffer[..|text|] == text && procfsBuffer[|text|] == NUL
    }

    /** And its size field says so. */
    ghost predicate BufferHolds(text: string)
      reads `procfsBufferSize, procfsBuffer
    {
      BufferReads(text) && procfsBufferSize == |text|
    }

    /** The buffer mirrors the list. */
    ghost predicate Valid()
      reads this, whiteList, procfsBuffer, repr
    {
      && ListValid()
      && (BufferHolds(Mirror(model.texts)) || (model.texts != [] && BufferHolds(Join(model.texts))))
    }

    constructor ()
      ensures Valid() && model == EMPTY && BufferHolds("") && fresh(whiteList) && fresh(procfsBuffer) && repr == {}
    {
      size := 0;
      whiteList := new Connection?[MAX_WHITELIST_SIZE](i => null);
      procfsBuffer := new char[PROCFS_MAX_SIZE](i => NUL);
      procfsBufferSize := 0;
      model := EMPTY;
      repr := {};
    }

    // ---------- the text buffer

    method InitializeProcfsBuffer()
      requires procfsBuffer.Length == PROCFS_MAX_SIZE
      modifies this`procfsBufferSize, procfsBuffer
      ensures BufferHolds("")
      ensures forall i :: 0 <= i < procfsBuffer.Length ==> procfsBuffer[i] == NUL
    {
      forall i | 0 <= i < procfsBuffer.Length {
        procfsBuffer[i] := NUL;
      }
      procfsBufferSize := 0;
    }

    /** snprintf of "%s," at the end of the buffer: what does not fit is cut off, but counted. */
    method AddConnectionStringToProcConfig(s: string)
      requires procfsBufferSize < procfsBuffer.Length
      modifies this`procfsBufferSize, procfsBuffer
      ensures var old_size := old(procfsBufferSize); var w := Snprintf(procfsBuffer.Length - old_size, s + ",");
        && procfsBufferSize == old_size + |s| + 1
        && old_size + |w| < procfsBuffer.Length
        && procfsBuffer[..old_size + |w|] == old(procfsBuffer[..procfsBufferSize]) + w
        && procfsBuffer[old_size + |w|] == NUL
    {
      var at := procfsBufferSize;
      ghost var before := procfsBuffer[..at];
      var text := s + ",";
      var n := Min(|text|, procfsBuffer.Length - at - 1);
      forall k | at <= k < at + n {
        procfsBuffer[k] := text[k - at];
      }
      procfsBuffer[at + n] := NUL;
      assert forall k :: 0 <= k < at ==> procfsBuffer[k] == before[k];
      assert forall k :: at <= k < at + n ==> procfsBuffer[k] == text[k - at];
      assert procfsBuffer[..at + n] == before + text[..n];
      procfsBufferSize := procfsBufferSize + |text|;
    }

    /** While there is room for the string, its comma and a terminator, nothing is cut off. */
    method AppendToBuffer(s: string, ghost text: string)
      requires BufferHolds(text) && NulFree(s)
      requires |text| + |s| + 1 < procfsBuffer.Length
      modifies this`procfsBufferSize, procfsBuffer
      ensures BufferHolds(text + (s + ","))
    {
      AddConnectionStringToProcConfig(s);
      assert (s + ",")[..|s| + 1] == s + ",";
    }

    // ---------- the list

    /** `text` is what the buffer holds. */
    method Whitelist(s: string, ghost text: string) returns (r: int)
      requires ListValid() && BufferHolds(text)
      requires Terminated(s, 0) && CommaFree(CStr(s))
      requires |model.entries| < MAX_WHITELIST_SIZE ==> !Parse(s).Overrun?
      requires |text| + |Added(model, CallOf(s))| < PROCFS_MAX_SIZE
      modifies this, whiteList, procfsBuffer
      ensures ListValid() && fresh(repr - old(repr))
      ensures model == Admit(old(model), CallOf(s))
      ensures BufferHolds(text + Added(old(model), CallOf(s)))
      ensures r == if Admits(old(model), CallOf(s)) then 1 else -1
    {
      hide Parse, CommaFree, ConnectionsAreEqual, CStr, Consistent, PlainTexts;
      if size == MAX_WHITELIST_SIZE {
        return WHITELIST_FAIL;
      }
      var c := InitializeConnectionFromString(s);
      if c == null {
        return WHITELIST_FAIL;
      }
      var i := 0;
      while i < size
        invariant 0 <= i <= size
        invariant forall k :: 0 <= k < i ==> !ConnectionsAreEqual(c.Value(), model.entries[k])
      {
        assert EntryValid(i);
        if ConnectionsAreEqual(c.Value(), whiteList[i].Value()) {
          assert ConnectionsAreEqual(CallOf(s).parsed.conn, model.entries[i]);
          return WHITELIST_FAIL;
        }
        i := i + 1;
      }
      assert Admits(model, CallOf(s));
      MemOfCStr(s);
      AppendToBuffer(CStr(s), text);
      Store(c, s);
      r := WHITELISTED;
    }

    /** whitelist.c:56-57 */
    method Store(c: Connection, ghost s: string)
      requires ListValid() && size < MAX_WHITELIST_SIZE && Admits(model, CallOf(s))
      requires NulFree(CStr(s)) && CommaFree(CStr(s))
      requires c.Valid() && Parse(s) == Accepted(c.Value())
      requires c !in repr && c.ip !in repr && c.executable !in repr && c.ip != procfsBuffer && c.executable != procfsBuffer
      modifies this`size, this`model, this`repr, whiteList
      ensures ListValid() && model == Admit(old(model), CallOf(s))
      ensures repr == old(repr) + {c, c.ip, c.executable}
    {
      hide Parse, CStr, ConnectionsAreEqual, Admits, Consistent, PlainTexts;
      CallsArePossible(s);
      AdmitKeepsConsistent(model, CallOf(s));
      AdmitKeepsPlainTexts(model, CallOf(s));
      label before:
      whiteList[size] := c;
      model := Admit(model, CallOf(s));
      repr := repr + {c, c.ip, c.executable};
      size := size + 1;
      forall i | 0 <= i < size
        ensures EntryValid(i)
      {
        if i < size - 1 {
          assert old@before(EntryValid(i));
        }
      }
    }

    /** `exe_from_mm` gives the path, if the task has one; `ip` is NULL for other families. */
    method IsWhitelisted(path: Option<string>, ip: Option<string>, port: int) returns (r: int)
      requires ListValid()
      ensures r == if Lookup(model, path, ip, port) then 1 else 0
    {
      hide ConnectionMatchesAttributes, Consistent;
      if path.None? {
        return NOT_WHITELISTED;
      }
      var pathLength := Min(|path.value|, MAX_ABSOLUTE_EXEC_PATH);
      if pathLength == 0 || pathLength == MAX_ABSOLUTE_EXEC_PATH {
        return NOT_WHITELISTED;
      }
      var i := 0;
      while i < size
        invariant 0 <= i <= size
        invariant forall k :: 0 <= k < i ==> !ConnectionMatchesAttributes(model.entries[k], path.value, ip, port)
      {
        assert EntryValid(i);
        if ConnectionMatchesAttributes(whiteList[i].Value(), path.value, ip, port) {
          return WHITELISTED;
        }
        i := i + 1;
      }
      r := NOT_WHITELISTED;
    }

    /** `freed` records the entries in the order they are freed. */
    method DestroyWhitelist() returns (ghost freed: seq<Connection?>)
      requires ListValid()
      modifies this`size, this`model
      ensures ListValid() && model == EMPTY && size == 0
      ensures freed == whiteList[..old(size)]
    {
      freed := [];
      var i := 0;
      while i < size
        invariant 0 <= i <= size && freed == whiteList[..i]
      {
        freed := freed + [whiteList[i]];
        i := i + 1;
      }
      size := 0;
      model := EMPTY;
    }

    // ---------- rebuilding the list from the buffer

    /** proc_config.c:62-72: copy one segment out of the text into its buffer and whitelist it;
        `behind` is the memory behind that buffer. */
    method TakeSegment(temp: array<char>, segment: array<char>, behind: string, start: nat, length: nat, ghost seg: string)
      requires ListValid() && BufferHolds(Mirror(model.texts))
      requires temp != segment && temp !in repr && segment !in repr && temp != procfsBuffer && segment != procfsBuffer
      requires segment.Length == MAX_NEW_CONNECTION_SIZE && 1 <= length && start + length <= temp.Length
      requires temp[start..start + length - 1] == seg && NulFree(seg) && CommaFree(seg) && |seg| < MAX_NEW_CONNECTION_SIZE
      requires StackEnds(segment[..] + behind)
      requires |Mirror(model.texts)| + length < PROCFS_MAX_SIZE
      modifies this, whiteList, procfsBuffer, segment
      ensures ListValid() && BufferHolds(Mirror(model.texts)) && fresh(repr - old(repr))
      ensures temp !in repr && segment !in repr
      ensures segment[..] + behind == Feed(old(segment[..] + behind), seg) && StackEnds(segment[..] + behind)
      ensures model == Admit(old(model), Call(seg, Parse(segment[..] + behind)))
    {
      hide Parse, Mirror, Admit, Added, Consistent, PlainTexts, CStr, Feed;
      ghost var at := segment[..] + behind;
      forall i | 0 <= i < length {
        segment[i] := temp[start + i];
      }
      segment[length - 1] := NUL;
      ghost var mem := segment[..] + behind;
      assert segment[..length - 1] == temp[start..start + length - 1];
      assert mem[..length - 1] == seg && mem[length..] == at[length..];
      FeedIs(at, mem, seg);
      SegmentCall(at, seg);
      MirrorOfAdmit(model, CallOf(mem));
      var err := Whitelist(segment[..] + behind, Mirror(model.texts));
    }

    /** The list and the buffer are rebuilt from the text in the buffer.  `stack` is the memory
        where the segment buffer is laid out, and behind it; `calls` records the calls of
        `whitelist`. */
    method UpdateWhitelist(stack: string) returns (ghost calls: seq<Call>)
      requires ListValid() && Terminated(procfsBuffer[..], 0) && StackEnds(stack)
      requires |CStr(procfsBuffer[..])| < PROCFS_MAX_SIZE - 1 && Loadable(CStr(procfsBuffer[..]))
      modifies this, whiteList, procfsBuffer
      ensures ListValid() && BufferHolds(Mirror(model.texts)) && fresh(repr - old(repr))
      ensures calls == Calls(old(CStr(procfsBuffer[..])), stack)
      ensures model == Load(EMPTY, calls)
    {
      hide Mirror, Consistent, PlainTexts, Admit, Split, Load, Loadable, Calls;
      ghost var text := CStr(procfsBuffer[..]);
      var temp := new char[PROCFS_MAX_SIZE](i requires 0 <= i < procfsBuffer.Length reads procfsBuffer => procfsBuffer[i]);
      var segment := new char[MAX_NEW_CONNECTION_SIZE](i requires 0 <= i < 512 < |stack| => stack[i]);
      assert temp[..] == procfsBuffer[..];
      assert segment[..] + stack[MAX_NEW_CONNECTION_SIZE..] == stack;
      TextInMemory(temp[..], text);
      InitializeProcfsBuffer();
      ghost var freed := DestroyWhitelist();
      StartOfText(text, stack);
      calls := WhitelistSegments(temp, segment, stack[MAX_NEW_CONNECTION_SIZE..], text);
    }

    /** proc_config.c:52-101: locate the segments and whitelist them one by one. */
    method WhitelistSegments(temp: array<char>, segment: array<char>, behind: string, ghost text: string) returns (ghost calls: seq<Call>)
      requires ListValid() && BufferHolds(Mirror(model.texts)) && model == EMPTY
      requires temp != segment && temp !in repr && segment !in repr && temp != procfsBuffer && segment != procfsBuffer
      requires segment.Length == MAX_NEW_CONNECTION_SIZE && |text| < temp.Length && |text| < PROCFS_MAX_SIZE - 1
      requires temp[..|text| + 1] == text + [NUL] && Loadable(text) && NulFree(text)
      requires StackEnds(segment[..] + behind)
      modifies this, whiteList, procfsBuffer, segment
      ensures ListValid() && BufferHolds(Mirror(model.texts)) && fresh(repr - old(repr))
      ensures calls == Calls(text, old(segment[..] + behind)) && model == Load(EMPTY, calls)
    {
      hide Mirror, Consistent, PlainTexts, Admit, Added, Split, Load, Loadable, Calls, Parse, Feed, StackEnds, CommaFree;
      ghost var stack := segment[..] + behind;
      ghost var all := Calls(text, stack);
      StartOfText(text, stack);
      var start, length, i := 0, 0, 0;
      calls := [];
      while true
        invariant ListValid() && BufferHolds(Mirror(model.texts)) && fresh(repr - old(repr))
        invariant temp !in repr && segment !in repr
        invariant 0 <= start <= i <= |text| && length == i - start
        invariant forall k :: start <= k < i ==> text[k] != ','
        invariant temp[..|text| + 1] == text + [NUL] && StackEnds(segment[..] + behind)
        invariant |Mirror(model.texts)| <= start
        invariant calls + Calls(text[start..], segment[..] + behind) == all
        invariant Load(model, Calls(text[start..], segment[..] + behind)) == Load(EMPTY, all)
        decreases |text| - i
      {
        assert temp[i] == (text + [NUL])[i];
        if temp[i] == ',' || temp[i] == NUL {
          ghost var seg := text[start..i];
          ghost var c := Call(seg, Parse(Feed(segment[..] + behind, seg)));
          NextSegment(model, text, stack, start, i, calls, segment[..] + behind);
          MirrorOfAdmit(model, c);
          length := length + 1;
          SliceOfTemp(temp[..], text, start, i);
          TakeSegment(temp, segment, behind, start, length, seg);
          calls := calls + [c];
          if temp[i] == NUL {
            break;
          }
          start := start + length;
          length := 0;
        } else {
          length := length + 1;
        }
        i := i + 1;
      }
    }

    /** A write that is too long is refused and leaves the list and the text alone, but not the
        size of the text: the mirror is lost until the next accepted write. */
    method ProcfileWrite(user: string, count: nat, stack: string) returns (r: int)
      requires ListValid()
      requires 1 <= count
      requires count < 4096 ==> count <= |user| && Loadable(WrittenText(user, count)) && StackEnds(stack)
      modifies this, whiteList, procfsBuffer
      ensures count >= 4096 ==>
        && r == -28 && ListValid() && model == old(model) && procfsBuffer[..] == old(procfsBuffer[..])
        && procfsBufferSize == count && !Valid()
      ensures count < 4096 ==>
        && r == count && Valid() && BufferHolds(Mirror(model.texts))
        && model == Load(EMPTY, Calls(WrittenText(user, count), stack))
      ensures fresh(repr - old(repr))
    {
      hide Consistent, PlainTexts, Mirror, Join, Load, Calls, Loadable, CStr, StackEnds;
      procfsBufferSize := count;
      if procfsBufferSize >= PROCFS_MAX_SIZE {
        return -ENOSPC;
      }
      forall i | 0 <= i < count {
        procfsBuffer[i] := user[i];
      }
      procfsBuffer[procfsBufferSize - 1] := NUL;
      WrittenTextIsRead(procfsBuffer[..], user, count);
      WrittenTextIsShort(user, count);
      ghost var calls := UpdateWhitelist(stack);
      r := count;
    }

    // ---------- reading

    /** `out` is what `snprintf` leaves in the reader's buffer of `bufferLength` bytes, and `text`
        what the buffer holds.  Reading trims a last comma off the buffer itself: a mirror
        survives that unless it has been trimmed before and its last string is empty. */
    method ProcfileRead(offset: int, bufferLength: nat, ghost text: string) returns (written: nat, out: string)
      requires ListValid() && procfsBufferSize > 0
      requires offset <= 0 && bufferLength >= procfsBufferSize ==> BufferHolds(text)
      modifies this`procfsBufferSize, procfsBuffer
      ensures ListValid()
      ensures offset > 0 || bufferLength < old(procfsBufferSize) ==>
        && written == 0 && out == ""
        && procfsBufferSize == old(procfsBufferSize) && procfsBuffer[..] == old(procfsBuffer[..])
      ensures offset <= 0 && bufferLength >= old(procfsBufferSize) ==>
        && BufferHolds(TrimComma(text)) && written == |TrimComma(text)| + 1
        && out == Snprintf(bufferLength, TrimComma(text) + "\n")
      ensures offset <= 0 && bufferLength >= old(procfsBufferSize) && old(Valid()) ==>
        && model.texts != []
        && (Valid() <==> text == Mirror(model.texts) || LastText(model) != "")
        && (Valid() ==> TrimComma(text) == Join(model.texts))
    {
      hide Consistent, Mirror, Join, PlainTexts;
      if offset > 0 {
        written := 0;
        out := "";
      } else if bufferLength < procfsBufferSize {
        written := 0;
        out := "";
      } else {
        ghost var wasValid := Valid();
        if procfsBuffer[procfsBufferSize - 1] == ',' {
          procfsBufferSize := procfsBufferSize - 1;
          procfsBuffer[procfsBufferSize] := NUL;
        }
        assert procfsBuffer[..procfsBufferSize] == TrimComma(text);
        CStrIs(procfsBuffer[..], procfsBufferSize);
        var line := CStr(procfsBuffer[..]) + "\n";
        written := |line|;
        out := Snprintf(bufferLength, line);
        if wasValid {
          TrimKeepsMirrorIff(model, text);
        }
      }
    }

    // ---------- insmod

    /** do_whitelist: only the first 150 parameters are looked at, each a string in memory. */
    method DoWhitelist(connections: seq<string>)
      requires ListValid() && BufferHolds(Mirror(model.texts))
      requires forall i :: 0 <= i < Min(|connections|, 150) ==>
        var mem := connections[i]; Terminated(mem, 0) && CommaFree(CStr(mem)) && !Parse(mem).Overrun?
      requires |Mirror(Load(model, CallsOn(connections[..Min(|connections|, 150)])).texts)| < PROCFS_MAX_SIZE
      modifies this, whiteList, procfsBuffer
      ensures ListValid() && BufferHolds(Mirror(model.texts)) && fresh(repr - old(repr))
      ensures model == Load(old(model), CallsOn(connections[..Min(|connections|, 150)]))
    {
      hide Mirror, Consistent, PlainTexts, Admit, Added, Load, CStr, Parse, CommaFree, Terminated, CallsOn;
      var n := |connections|;
      if n > MAX_WHITELIST_SIZE {
        n := MAX_WHITELIST_SIZE;
      }
      ghost var todo := connections[..n];
      ghost var all := Load(model, CallsOn(todo));
      assert todo[0..] == todo;
      var i := 0;
      while i < n
        invariant 0 <= i <= n
        invariant ListValid() && BufferHolds(Mirror(model.texts)) && fresh(repr - old(repr))
        invariant Load(model, CallsOn(todo[i..])) == all
      {
        assert todo[i] == connections[i];
        NextParameter(model, todo, i);
        MirrorOfAdmit(model, CallOf(connections[i]));
        var err := Whitelist(connections[i], Mirror(model.texts));
        i := i + 1;
      }
      assert todo[n..] == [];
      NoParameter(model);
    }
  }

  // ---------- round trip

  /** Joined strings, with a newline, come through a write unchanged. */
  lemma JoinIsLoadable(ss: seq<string>)
    requires ss != []
    requires forall i :: 0 <= i < |ss| ==> NulFree(ss[i]) && CommaFree(ss[i]) && |ss[i]| < MAX_NEW_CONNECTION_SIZE
    ensures var text := Join(ss);
      && WrittenText(text + "\n", |text| + 1) == text && Loadable(text) && Split(text) == ss
  {
    hide Split, Join, Mirror, CommaFree;
    var text := Join(ss);
    SplitOfJoin(ss);
    MirrorIsNulFree(ss);
    MirrorIsJoin(ss);
    assert text == Mirror(ss)[..|text|];
    assert (text + "\n")[..|text|] == text;
    FindIs(text, 0, {NUL}, |text|);
  }

  /** And they load as their calls do. */
  lemma JoinedTextIsLoadable(m: Model, stack: string)
    requires Consistent(m) && PlainTexts(m) && m.texts != []
    requires forall i :: 0 <= i < |m.texts| ==> |m.texts[i]| < MAX_NEW_CONNECTION_SIZE
    ensures var text := Join(m.texts);
      && WrittenText(text + "\n", |text| + 1) == text && Loadable(text)
      && Calls(text, stack) == OnStack(stack, m.texts)
      && (Load(EMPTY, Calls(text, stack)) == m <==> ParsesAgain(m, OnStack(stack, m.texts)))
      && (Reloadable(m) ==> ParsesAgain(m, OnStack(stack, m.texts)))
  {
    hide Split, Join, Load, OnStack, Consistent, Reloadable, ParsesAgain, NulFree, CommaFree, Loadable, WrittenText;
    TextRoundTrip(m, stack);
    JoinIsLoadable(m.texts);
  }

  lemma ReloadedMirrorFits(m: Model, stack: string)
    requires m.texts != []
    ensures |Mirror(Load(EMPTY, Calls(Join(m.texts), stack)).texts)| <= |Join(m.texts)| + 1
    ensures var k := Load(EMPTY, Calls(Join(m.texts), stack)); k.texts != [] ==> Mirror(k.texts) != ""
  {
    hide Mirror, Join, Load, OnStack, Split;
    EmptyMirror();
    LoadedMirrorFits(EMPTY, Join(m.texts), stack);
    var k := Load(EMPTY, Calls(Join(m.texts), stack));
    if k.texts != [] {
      JoinedTextFits(k);
    }
  }

  /** Configuration round trip: writing back exactly what a full read returned rebuilds the same
      connections in the same order if and only if every string parses as it did before, which
      closed IP fields guarantee; the next read returns the strings that have been taken.  `stack`
      is the memory at and behind the segment buffer. */
  method ReadThenWriteBack(n: State, bufferLength: nat, stack: string) returns (first: string, again: string)
    requires n.Valid() && n.model.texts != [] && |Mirror(n.model.texts)| < PROCFS_MAX_SIZE
    requires n.BufferHolds(Mirror(n.model.texts)) || LastText(n.model) != ""
    requires forall i :: 0 <= i < |n.model.texts| ==> |n.model.texts[i]| < MAX_NEW_CONNECTION_SIZE
    requires bufferLength >= |Join(n.model.texts)| + 2 && StackEnds(stack)
    modifies n, n.whiteList, n.procfsBuffer
    ensures n.Valid() && first == old(Join(n.model.texts)) + "\n"
    ensures n.model == old(n.model) <==> ParsesAgain(old(n.model), OnStack(stack, old(n.model.texts)))
    ensures Reloadable(old(n.model)) ==> n.model == old(n.model)
    ensures n.model == Load(EMPTY, OnStack(stack, old(n.model.texts)))
    ensures n.model.texts != [] ==> again == Join(n.model.texts) + "\n"
    ensures n.model == old(n.model) ==> again == first
  {
    hide Consistent, PlainTexts, Mirror, Join, Load, Loadable, Calls, OnStack, ParsesAgain, Reloadable, StackEnds, TrimComma;
    ghost var m := n.model;
    JoinedTextFits(m);
    var written;
    written, first := n.ProcfileRead(0, bufferLength, if n.BufferHolds(Mirror(m.texts)) then Mirror(m.texts) else Join(m.texts));
    JoinedTextIsLoadable(m, stack);
    assert first == Join(m.texts) + "\n" && written == |Join(m.texts)| + 1;
    var r := n.ProcfileWrite(first, written, stack);
    ReloadedMirrorFits(m, stack);
    EmptyMirror();
    again := "";
    if n.procfsBufferSize > 0 {
      JoinedTextFits(n.model);
      written, again := n.ProcfileRead(0, bufferLength, Mirror(n.model.texts));
    }
  }

  // ---------- losing the mirror

  const TRAILING := Model([Conn("a", "", NO_PORT), Conn("", "", NO_PORT)], ["a", ""])

  lemma TrailingIsConsistent()
    ensures Consistent(TRAILING) && PlainTexts(TRAILING) && Reloadable(TRAILING)
    ensures Join(TRAILING.texts) == "a," && Mirror(TRAILING.texts) == "a,,"
  {
    assert Find("a", 0, PATH_STOPS) == 1 && Find("", 0, PATH_STOPS) == 0;
    FindIs(Mem("a", ""), 0, PATH_STOPS, 1);
    FindIs(Mem("", ""), 0, PATH_STOPS, 0);
    assert Mem("a", "")[..1] == "a" && Mem("", "")[..0] == "";
    assert ["a", ""][1..] == [""] && [""][1..] == [];
  }

  lemma TrailingIsLoaded(stack: string)
    requires StackEnds(stack)
    ensures WrittenText("a,\n", 3) == "a," && Loadable("a,")
    ensures Load(EMPTY, Calls("a,", stack)) == TRAILING
  {
    hide Consistent, PlainTexts, Reloadable, Join, Mirror, Split, OnStack, ParsesAgain, Load;
    TrailingIsConsistent();
    TextRoundTrip(TRAILING, stack);
    SplitOfJoin(TRAILING.texts);
    FindIs("a,", 0, {NUL}, 2);
    assert "a,\n"[..2] == "a,";
  }

  /** Reading can lose the mirror: the write "a,\n" leaves an empty last string, so that the
      second read trims the comma between the strings. */
  method TrailingCommaExample(n: State, stack: string) returns (first: string, second: string)
    requires n.ListValid() && StackEnds(stack)
    modifies n, n.whiteList, n.procfsBuffer
    ensures n.ListValid() && n.model.texts == ["a", ""]
    ensures first == "a,\n" && second == "a\n" && !n.Valid()
  {
    hide Consistent, PlainTexts, Reloadable, Join, Mirror, Split, OnStack, Load, Loadable, Calls, StackEnds;
    TrailingIsConsistent();
    TrailingIsLoaded(stack);
    var written := n.ProcfileWrite("a,\n", 3, stack);
    written, first := n.ProcfileRead(0, 4096, "a,,");
    written, second := n.ProcfileRead(0, 4096, "a,");
  }
}
