/** the-drip-dry-carbonite/src/task-dump-seq-file.c: the report on the dumped tasks, driven the
    way the kernel's seq_file drives its operations. */
module TaskDumpSeqFile {
  import opened Basics
  import opened TaskDumpLists

  datatype Line = Header | Record(dump: TaskDump)

  /** What one show prints. */
  function ShowAt(dumps: seq<Option<TaskDump>>, v: nat): seq<Line> {
    if dumps == [] then []
    else if v == 0 then [Header]
    else if v <= |dumps| && dumps[v - 1].Some? then [Record(dumps[v - 1].value)]
    else []
  }

  /** What the shows at positions a..b-1 print. */
  function Shows(dumps: seq<Option<TaskDump>>, a: nat, b: nat): seq<Line>
    requires a <= b
    decreases b - a
  {
    if a == b then [] else Shows(dumps, a, b - 1) + ShowAt(dumps, b - 1)
  }

  function Records(dumps: seq<Option<TaskDump>>): seq<Line> {
    if dumps == [] then []
    else Records(dumps[..|dumps| - 1]) +
         if dumps[|dumps| - 1].Some? then [Record(dumps[|dumps| - 1].value)] else []
  }

  /** The report: a header and then every dump that is not NULL, in insertion order. */
  function Report(dumps: seq<Option<TaskDump>>): seq<Line> {
    if dumps == [] then [] else [Header] + Records(dumps)
  }

  lemma {:induction false} ShowsRecords(dumps: seq<Option<TaskDump>>, k: nat, n: nat)
    requires k <= n <= |dumps|
    ensures Shows(dumps, k + 1, n + 1) == Records(dumps[k..n])
    decreases n
  {
    if k == n {
    } else {
      ShowsRecords(dumps, k, n - 1);
      var r := dumps[k..n];
      assert r[..|r| - 1] == dumps[k..n - 1] && r[|r| - 1] == dumps[n - 1];
      assert Shows(dumps, k + 1, n + 1) == Shows(dumps, k + 1, n) + ShowAt(dumps, n);
    }
  }

  /** Behind the last record nothing is printed. */
  lemma BehindTheRecords(dumps: seq<Option<TaskDump>>, a: nat)
    requires a <= |dumps| + 1
    ensures Shows(dumps, a, |dumps| + 3) == Shows(dumps, a, |dumps| + 1)
  {
    var n := |dumps|;
    assert Shows(dumps, a, n + 3) == Shows(dumps, a, n + 2) + ShowAt(dumps, n + 2);
    assert Shows(dumps, a, n + 2) == Shows(dumps, a, n + 1) + ShowAt(dumps, n + 1);
  }

  lemma {:induction false} ShowsConcat(dumps: seq<Option<TaskDump>>, a: nat, b: nat, c: nat)
    requires a <= b <= c
    ensures Shows(dumps, a, b) + Shows(dumps, b, c) == Shows(dumps, a, c)
    decreases c
  {
    if b == c {
    } else {
      ShowsConcat(dumps, a, b, c - 1);
    }
  }

  /** From position n + 1 on everything has been printed. */
  lemma LateShows(dumps: seq<Option<TaskDump>>, k: nat)
    requires |dumps| + 1 <= k <= |dumps| + 3
    ensures Shows(dumps, 0, k) == Shows(dumps, 0, |dumps| + 3)
  {
    BehindTheRecords(dumps, 0);
    if k == |dumps| + 2 {
      assert ShowAt(dumps, |dumps| + 1) == [];
    }
  }

  lemma NothingShown(dumps: seq<Option<TaskDump>>)
    ensures Shows(dumps, 0, 0) == []
  {
  }

  lemma FirstShow(dumps: seq<Option<TaskDump>>)
    ensures Shows(dumps, 0, 1) == if dumps == [] then [] else [Header]
    ensures dumps == [] ==> Records(dumps) == []
  {
    assert Shows(dumps, 0, 0) == [];
  }

  /** The shows of a whole pass print the report. */
  lemma ShowsReport(dumps: seq<Option<TaskDump>>)
    ensures Shows(dumps, 0, |dumps| + 3) == Report(dumps)
  {
    hide ShowAt, Records, Shows;
    var n := |dumps|;
    BehindTheRecords(dumps, 0);
    ShowsConcat(dumps, 0, 1, n + 1);
    ShowsRecords(dumps, 0, n);
    assert dumps[0..n] == dumps;
    FirstShow(dumps);
    if dumps == [] {
      assert Shows(dumps, 1, n + 1) == [];
    }
  }

  /** A read that resumes behind the header prints exactly the records from there on. */
  lemma RemainingRecords(dumps: seq<Option<TaskDump>>, from: nat)
    requires 1 <= from <= |dumps|
    ensures Shows(dumps, from, |dumps| + 3) == Records(dumps[from - 1..])
  {
    hide ShowAt, Records;
    BehindTheRecords(dumps, from);
    ShowsRecords(dumps, from - 1, |dumps|);
    assert dumps[from - 1..|dumps|] == dumps[from - 1..];
  }

  // ---------- what the report is

  /** The dumps before the i-th that are not NULL. */
  function Present(dumps: seq<Option<TaskDump>>, i: nat): set<nat>
    requires i <= |dumps|
  {
    set j: nat | j < i && dumps[j].Some?
  }

  lemma OneMorePresent(dumps: seq<Option<TaskDump>>, i: nat)
    requires i < |dumps|
    ensures Present(dumps, 0) == {}
    ensures Present(dumps, i + 1) == Present(dumps, i) + if dumps[i].Some? then {i} else {}
    ensures |Present(dumps, i + 1)| == |Present(dumps, i)| + if dumps[i].Some? then 1 else 0
  {
  }

  lemma {:induction false} RecordsCount(dumps: seq<Option<TaskDump>>, n: nat)
    requires n <= |dumps|
    ensures |Records(dumps[..n])| == |Present(dumps, n)|
  {
    if n == 0 {
      assert Present(dumps, 0) == {};
    } else {
      assert dumps[..n][..n - 1] == dumps[..n - 1];
      RecordsCount(dumps, n - 1);
      OneMorePresent(dumps, n - 1);
    }
  }

  lemma {:induction false} RecordsGrow(dumps: seq<Option<TaskDump>>, i: nat, n: nat)
    requires i <= n <= |dumps|
    ensures Records(dumps[..i]) <= Records(dumps[..n])
  {
    if i == n {
    } else {
      assert dumps[..n][..n - 1] == dumps[..n - 1];
      RecordsGrow(dumps, i, n - 1);
    }
  }

  /** The report of a list that is not empty is the header and, for every dump that is not NULL, its
      record at the place that the dumps before it give; and nothing else. */
  lemma ReportByPosition(dumps: seq<Option<TaskDump>>, i: nat)
    requires i < |dumps|
    ensures |Report(dumps)| == 1 + |Present(dumps, |dumps|)| && Report(dumps)[0] == Header
    ensures var n := 1 + |Present(dumps, i)|;
      dumps[i].Some? ==> n < |Report(dumps)| && Report(dumps)[n] == Record(dumps[i].value)
  {
    hide Present;
    assert dumps[..|dumps|] == dumps;
    RecordsCount(dumps, |dumps|);
    if dumps[i].Some? {
      RecordsCount(dumps, i);
      RecordsGrow(dumps, i + 1, |dumps|);
      assert dumps[..i + 1][..i] == dumps[..i];
    }
  }

  class SeqFile {
    const list: TaskDumpList

    constructor (list: TaskDumpList)
      ensures this.list == list
    {
      this.list := list;
    }

    /** task_dump_seq_start: the position to show, or NULL, which also rewinds the file. */
    method Start(pos: nat) returns (v: Option<nat>, newPos: nat)
      requires list.Valid()
      ensures if 0 < pos && pos > |list.Contents()| then v == None && newPos == 0 else v == Some(pos) && newPos == pos
    {
      if pos == 0 {
        return Some(pos), pos;
      }
      var n := list.GetSize();
      if pos > n {
        return None, 0;
      }
      return Some(pos), pos;
    }

    /** task_dump_seq_next */
    method Next(v: nat, pos: nat) returns (next: Option<nat>, newPos: nat)
      requires list.Valid()
      ensures if pos > |list.Contents()| + 1 then next == None && newPos == pos else next == Some(v + 1) && newPos == v + 1
    {
      var n := list.GetSize();
      if pos > n + 1 {
        return None, pos;
      }
      return Some(v + 1), v + 1;
    }

    /** task_dump_seq_show */
    method Show(v: nat) returns (lines: seq<Line>)
      requires list.Valid()
      ensures lines == ShowAt(list.Contents(), v)
    {
      var n := list.GetSize();
      if n == 0 {
        return [];
      }
      if v == 0 {
        return [Header];
      }
      var dump := list.GetTaskDump(v - 1);
      if dump.Some? {
        return [Record(dump.value)];
      }
      lines := [];
    }

    /** One read of the file from `from` on.  The reader takes at most `room` shows and leaves
        the position for the next read. */
    method Pass(from: nat, room: nat) returns (out: seq<Line>, shows: nat, pos: nat)
      requires list.Valid() && room > 0
      ensures var dumps := list.Contents(); var n := |dumps|;
        if from > n && from > 0 then out == [] && shows == 0 && pos == 0
        else
          && shows == Min(room, n + 3 - from)
          && out == Shows(dumps, from, from + shows)
          && pos == Min(from + shows, n + 2)
    {
      hide ShowAt;
      ghost var dumps := list.Contents();
      ghost var last := |dumps| + 2;
      var v;
      v, pos := Start(from);
      out := [];
      shows := 0;
      if v.None? {
        return;
      }
      while v.Some? && shows < room
        invariant shows <= room && from + shows <= last + 1
        invariant v == if from + shows <= last then Some(from + shows) else None
        invariant pos == Min(from + shows, last)
        invariant out == Shows(dumps, from, from + shows)
        decreases room - shows
      {
        var lines := Show(v.value);
        out := out + lines;
        shows := shows + 1;
        v, pos := Next(v.value, pos);
      }
    }
  }

  /** A whole pass prints the report and ends after n + 3 shows. */
  method WholePass(file: SeqFile, room: nat) returns (out: seq<Line>, shows: nat)
    requires file.list.Valid() && room > |file.list.Contents()| + 3
    ensures out == Report(file.list.Contents()) && shows == |file.list.Contents()| + 3
  {
    var pos;
    out, shows, pos := file.Pass(0, room);
    ShowsReport(file.list.Contents());
  }

  /** Reading to the end in pieces: the file is read again and again, each read resumed where the
      one before it stopped and cut off after its own number of shows, until one shows nothing.
      The pieces make up the report, wherever the cuts are; n + 2 reads are always enough, and with
      fewer what has been read is what the shows so far print. */
  method ReadAll(file: SeqFile, rooms: seq<nat>) returns (out: seq<Line>, done: bool, pos: nat)
    requires file.list.Valid() && forall i :: 0 <= i < |rooms| ==> rooms[i] > 0
    ensures done ==> out == Report(file.list.Contents()) && pos == 0
    ensures !done ==> pos <= |file.list.Contents()| + 2 && out == Shows(file.list.Contents(), 0, pos)
    ensures |rooms| >= |file.list.Contents()| + 2 ==> done
  {
    hide ShowAt, Shows, Report;
    ghost var dumps := file.list.Contents();
    ghost var n := |dumps|;
    NothingShown(dumps);
    out, done, pos := [], false, 0;
    var k := 0;
    while k < |rooms|
      invariant 0 <= k <= |rooms| && k <= n + 1 && k <= pos <= n + 2
      invariant out == Shows(dumps, 0, pos)
    {
      var from := pos;
      var lines, shows;
      lines, shows, pos := file.Pass(from, rooms[k]);
      if shows == 0 {
        LateShows(dumps, from);
        ShowsReport(dumps);
        return out, true, pos;
      }
      ShowsConcat(dumps, 0, from, from + shows);
      if from + shows > n + 2 {
        LateShows(dumps, n + 2);
      }
      out := out + lines;
      k := k + 1;
    }
  }
}
