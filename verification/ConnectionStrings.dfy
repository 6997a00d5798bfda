/** Connection strings as values: a string whose IP field, if any, is closed by `>` or `|`
    parses alike in every memory it may stand in. */
module ConnectionStrings {
  import opened CStrings
  import opened InetUtils
  import opened PortNumber
  import opened Connections

  /** The field behind the path is not an IP field that runs into the terminator. */
  predicate IpFieldClosed(s: string) {
    var n := Find(s, 0, PATH_STOPS);
    n + 1 < |s| && s[n + 1] == 'i' ==> IpEnd(s, n + 1) < |s|
  }

  /** The parse of a string that stands alone. */
  function ParseText(s: string): Parsed {
    Parse(Mem(s, ""))
  }

  lemma SkipInString(s: string, tail: string, at: nat, ch: char)
    requires at <= |s| && ch != NUL
    ensures SkipIf(Mem(s, tail), at, ch) == SkipIf(s, at, ch)
  {
  }

  lemma MemIsLonger(s: string, tail: string)
    ensures |Mem(s, tail)| == |s| + 1 + |tail|
  {
  }

  lemma SliceInString(s: string, tail: string, i: nat, j: nat)
    requires i <= j <= |s|
    ensures Mem(s, tail)[i..j] == s[i..j]
  {
  }

  /** The port field of a NUL-free string ends within it. */
  lemma ParsePortInString(path: string, ip: string, s: string, tail: string, at: nat)
    requires at <= |s|
    ensures ParsePort(path, ip, Mem(s, tail), at) == ParsePort(path, ip, Mem(s, ""), at)
    ensures !ParsePort(path, ip, Mem(s, tail), at).Overrun?
  {
    hide Find, SkipIf, AcceptedPort;
    SkipInString(s, tail, at, FIELD_SEPARATOR);
    SkipInString(s, "", at, FIELD_SEPARATOR);
    var p := SkipIf(s, at, FIELD_SEPARATOR);
    if p < |s| && s[p] == 'p' {
      SkipInString(s, tail, p + 1, '<');
      SkipInString(s, "", p + 1, '<');
      var first := SkipIf(s, p + 1, '<');
      FindInString(s, tail, first, FIELD_STOPS);
      FindInString(s, "", first, FIELD_STOPS);
      SliceInString(s, tail, first, Find(s, first, FIELD_STOPS));
      SliceInString(s, "", first, Find(s, first, FIELD_STOPS));
    }
  }

  lemma IpInString(s: string, tail: string, at: nat)
    requires NulFree(s) && at < |s|
    ensures IpFirst(Mem(s, tail), at) == IpFirst(s, at)
    ensures IpEnd(Mem(s, tail), at) == IpEnd(s, at)
    ensures IpIsV6(Mem(s, tail), at) == ColonInWindow(s[at..])
  {
    hide Find, ColonInWindow, Mem;
    assert at < |Mem(s, tail)| by {
      MemIsLonger(s, tail);
    }
    SkipInString(s, tail, at + 1, '<');
    FindInString(s, tail, IpFirst(s, at), FIELD_STOPS);
    FindIs(s, at, {NUL}, |s|);
    FindInString(s, tail, at, {NUL});
    SliceInString(s, tail, at, |s|);
    assert CStrAt(Mem(s, tail), at) == s[at..|s|] == s[at..];
  }

  /** The parse does not depend on what lies behind the string, and stays inside it. */
  lemma ParseIsOfTheString(s: string, tail: string)
    requires NulFree(s) && IpFieldClosed(s)
    ensures Parse(Mem(s, tail)) == ParseText(s)
    ensures !Parse(Mem(s, tail)).Overrun?
  {
    hide Find, ParsePort, ValidIpText, ColonInWindow;
    FindInString(s, tail, 0, PATH_STOPS);
    FindInString(s, "", 0, PATH_STOPS);
    var n := Find(s, 0, PATH_STOPS);
    SliceInString(s, tail, 0, n);
    SliceInString(s, "", 0, n);
    SkipInString(s, tail, n, FIELD_SEPARATOR);
    SkipInString(s, "", n, FIELD_SEPARATOR);
    var at := SkipIf(s, n, FIELD_SEPARATOR);
    if at < |s| && s[at] == 'i' {
      assert at == n + 1;
      IpInString(s, tail, at);
      IpInString(s, "", at);
      var first, last := IpFirst(s, at), IpEnd(s, at);
      SliceInString(s, tail, first, last);
      SliceInString(s, "", first, last);
      var ip := IpValue(Mem(s, ""), at);
      assert IpValue(Mem(s, tail), at) == ip;
      ParsePortInString(s[..n], ip, s, tail, last + 1);
    } else {
      ParsePortInString(s[..n], "", s, tail, at);
    }
  }

  lemma NulStops(mem: string, from: nat, stops: set<char>, end: nat)
    requires from <= end < |mem| && mem[end] == NUL && NUL in stops
    ensures Find(mem, from, stops) <= end
  {
  }

  lemma ParsePortStaysInside(path: string, ip: string, mem: string, at: nat)
    requires at < |mem| && mem[|mem| - 1] == NUL
    ensures !ParsePort(path, ip, mem, at).Overrun?
  {
    hide AcceptedPort;
    var p := SkipIf(mem, at, FIELD_SEPARATOR);
    if mem[p] == 'p' {
      NulStops(mem, SkipIf(mem, p + 1, '<'), FIELD_STOPS, |mem| - 1);
    }
  }

  /** If the memory goes on behind the string and ends in a NUL, the parser stays inside it,
      whatever the string. */
  lemma ParseStaysInside(mem: string)
    requires Terminated(mem, 0) && |CStr(mem)| + 1 < |mem| && mem[|mem| - 1] == NUL
    ensures !Parse(mem).Overrun?
  {
    hide ValidIpText, ColonInWindow, AcceptedPort;
    var end := Find(mem, 0, {NUL});
    var n := Find(mem, 0, PATH_STOPS);
    NulStops(mem, 0, PATH_STOPS, end);
    var at := SkipIf(mem, n, FIELD_SEPARATOR);
    if n < MAX_ABSOLUTE_EXEC_PATH {
      if mem[at] == 'i' {
        NulStops(mem, IpFirst(mem, at), FIELD_STOPS, end);
        ParsePortStaysInside(mem[..n], IpValue(mem, at), mem, IpEnd(mem, at) + 1);
      } else {
        ParsePortStaysInside(mem[..n], "", mem, at);
      }
    }
  }
}
