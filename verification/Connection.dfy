/** netlog/src/connection.c: the record of a whitelisted connection, the parser that fills it
    from a connection string, and wildcard matching. */
module Connections {
  import opened Basics
  import opened CStrings
  import opened InetUtils
  import opened PortNumber

  const MAX_ABSOLUTE_EXEC_PATH := 950
  const NO_PORT := -1
  const FIELD_SEPARATOR: char := '|'

  /** What the fields of a record denote; an empty `ip` and NO_PORT are wildcards. */
  datatype Conn = Conn(path: string, ip: string, port: int)

  /** The records a parser run can leave behind. */
  predicate Stored(c: Conn) {
    && NulFree(c.path) && |c.path| < MAX_ABSOLUTE_EXEC_PATH
    && NulFree(c.ip) && |c.ip| <= INET6_ADDRSTRLEN + 1
    && (c.port == NO_PORT || ValidPortNumber(c.port))
  }

  // ---------- what the parser computes

  /** `Overrun`: the parser read past the end of the memory it was given. */
  datatype Parsed = Accepted(conn: Conn) | Rejected | Overrun

  const PATH_STOPS: set<char> := {FIELD_SEPARATOR, NUL}
  const FIELD_STOPS: set<char> := {'>', FIELD_SEPARATOR, NUL}

  /** Step over one character, if it is `ch`. */
  function SkipIf(s: string, at: nat, ch: char): (n: nat)
    requires at <= |s|
    ensures at <= n <= |s| && n <= at + 1
  {
    if at < |s| && s[at] == ch then at + 1 else at
  }

  function Parse(s: string): Parsed {
    var n := Find(s, 0, PATH_STOPS);
    if n >= MAX_ABSOLUTE_EXEC_PATH then Rejected
    else if n == |s| then Overrun
    else ParseIp(s[..n], s, SkipIf(s, n, FIELD_SEPARATOR))
  }

  /** From the pointer behind the path on. */
  function ParseIp(path: string, s: string, at: nat): Parsed
    requires at <= |s|
  {
    if at == |s| then Overrun
    else if s[at] != 'i' then ParsePort(path, "", s, at)
    else if !IpFits(s, at) then Rejected
    else if IpEnd(s, at) == |s| then Overrun
    else if !ValidIpText(IpValue(s, at)) then Rejected
    // whatever ended the field is stepped over, even the terminator
    else ParsePort(path, IpValue(s, at), s, IpEnd(s, at) + 1)
  }

  function IpFirst(s: string, at: nat): (n: nat)
    requires at < |s|
    ensures at < n <= |s|
  {
    SkipIf(s, at + 1, '<')
  }

  function IpEnd(s: string, at: nat): (n: nat)
    requires at < |s|
    ensures IpFirst(s, at) <= n <= |s|
  {
    Find(s, IpFirst(s, at), FIELD_STOPS)
  }

  predicate IpIsV6(s: string, at: nat)
    requires at < |s|
  {
    ColonInWindow(CStrAt(s, at))
  }

  predicate IpFits(s: string, at: nat)
    requires at < |s|
  {
    (if IpIsV6(s, at) then 1 else 0) + (IpEnd(s, at) - IpFirst(s, at)) < INET6_ADDRSTRLEN + 1
  }

  function IpValue(s: string, at: nat): string
    requires at < |s|
  {
    var raw := s[IpFirst(s, at)..IpEnd(s, at)];
    if IpIsV6(s, at) then "[" + raw + "]" else raw
  }

  /** From the pointer behind the IP field on. */
  function ParsePort(path: string, ip: string, s: string, at: nat): Parsed
    requires at <= |s|
  {
    var p := SkipIf(s, at, FIELD_SEPARATOR);
    if p == |s| then Overrun
    else if s[p] != 'p' then Accepted(Conn(path, ip, NO_PORT))
    else
      var first := SkipIf(s, p + 1, '<');
      var last := Find(s, first, FIELD_STOPS);
      if last == |s| then Overrun
      else
        match AcceptedPort(s[first..last])
        case Some(port) => Accepted(Conn(path, ip, port))
        case None => Rejected
  }

  lemma IpValueIsNulFree(s: string, at: nat)
    requires at < |s|
    ensures NulFree(IpValue(s, at))
  {
    assert NulFree(s[IpFirst(s, at)..IpEnd(s, at)]);
  }

  /** Parser bounds: whatever the input, an accepted record fits its two buffers with their
      terminators, so the bounded comparisons below see whole strings. */
  lemma ParseStores(s: string)
    requires Parse(s).Accepted?
    ensures Stored(Parse(s).conn)
  {
    var n := Find(s, 0, PATH_STOPS);
    var at := SkipIf(s, n, FIELD_SEPARATOR);
    assert NulFree(s[..n]);
    if s[at] == 'i' {
      IpValueIsNulFree(s, at);
    }
  }

  lemma NulAhead(s: string, at: nat, ch: nat)
    requires Terminated(s, at) && at <= ch <= Find(s, at, {NUL})
    ensures Terminated(s, ch)
  {
    FindIs(s, ch, {NUL}, Find(s, at, {NUL}));
  }

  lemma StopsAhead(s: string, at: nat, stops: set<char>)
    requires Terminated(s, at) && NUL in stops
    ensures Find(s, at, stops) <= Find(s, at, {NUL})
  {
    var n := Find(s, at, {NUL});
    assert s[n] == NUL;
  }

  /** The first two steps of the parser on a terminated string. */
  lemma PathField(s: string)
    requires Terminated(s, 0)
    ensures var n := Find(s, 0, PATH_STOPS); var at := SkipIf(s, n, FIELD_SEPARATOR);
      && n < |s| && at < |s| && Terminated(s, at)
      && (n >= MAX_ABSOLUTE_EXEC_PATH ==> Parse(s) == Rejected)
      && (n < MAX_ABSOLUTE_EXEC_PATH && s[at] != 'i' ==> Parse(s) == ParsePort(s[..n], "", s, at))
      && (n < MAX_ABSOLUTE_EXEC_PATH && s[at] == 'i' && IpEnd(s, at) < |s| ==>
            Parse(s) == if IpFits(s, at) && ValidIpText(IpValue(s, at))
                        then ParsePort(s[..n], IpValue(s, at), s, IpEnd(s, at) + 1) else Rejected)
  {
    hide ParsePort, Find;
    StopsAhead(s, 0, PATH_STOPS);
    NulAhead(s, 0, SkipIf(s, Find(s, 0, PATH_STOPS), FIELD_SEPARATOR));
  }

  // ---------- the record and the parser

  class Connection {
    var port: int
    const ip: array<char>
    const executable: array<char>

    /** initialize_connection */
    constructor ()
      ensures fresh(ip) && fresh(executable) && ip != executable
      ensures ip.Length == INET6_ADDRSTRLEN + 2 && executable.Length == MAX_ABSOLUTE_EXEC_PATH + 1
      ensures forall i :: 0 <= i < ip.Length ==> ip[i] == NUL
      ensures forall i :: 0 <= i < executable.Length ==> executable[i] == NUL
      ensures port == NO_PORT
    {
      executable := new char[MAX_ABSOLUTE_EXEC_PATH + 1](i => NUL);
      ip := new char[INET6_ADDRSTRLEN + 2](i => NUL);
      port := NO_PORT;
    }

    function Value(): Conn
      reads this, ip, executable
    {
      Conn(CStr(executable[..]), CStr(ip[..]), port)
    }

    ghost predicate Valid()
      reads this, ip, executable
    {
      && ip != executable
      && ip.Length == INET6_ADDRSTRLEN + 2 && executable.Length == MAX_ABSOLUTE_EXEC_PATH + 1
      && Terminated(ip[..], 0) && Terminated(executable[..], 0)
      && Stored(Value())
    }

    /** connection.c:67-86; `ch` is the position of the character that ended the path. */
    method CopyPath(s: string) returns (ch: nat, ok: bool)
      requires Terminated(s, 0) && executable.Length == MAX_ABSOLUTE_EXEC_PATH + 1
      modifies executable
      ensures ok <==> Find(s, 0, PATH_STOPS) < MAX_ABSOLUTE_EXEC_PATH
      ensures ok ==> ch == Find(s, 0, PATH_STOPS) < |s|
      ensures ok ==> Terminated(executable[..], 0) && CStr(executable[..]) == s[..ch]
    {
      StopsAhead(s, 0, PATH_STOPS);
      var i := 0;
      ch := 0;
      while s[ch] != FIELD_SEPARATOR && s[ch] != NUL
        invariant i == ch < MAX_ABSOLUTE_EXEC_PATH && ch <= Find(s, 0, PATH_STOPS)
        invariant executable[..i] == s[..i]
        decreases |s| - ch
      {
        executable[i] := s[ch];
        ch := ch + 1;
        i := i + 1;
        if i >= MAX_ABSOLUTE_EXEC_PATH {
          return ch, false;
        }
      }
      executable[i] := NUL;
      assert executable[..i] == s[..i];
      CStrIs(executable[..], i);
      ok := true;
    }

    /** connection.c:97-156; `s[at]` is the `i` of the field. */
    method CopyIp(s: string, at: nat) returns (ch: nat, ok: bool)
      requires at < |s| && s[at] == 'i' && Terminated(s, at)
      requires ip.Length == INET6_ADDRSTRLEN + 2
      modifies ip
      ensures IpEnd(s, at) < |s|
      ensures ok <==> IpFits(s, at) && ValidIpText(IpValue(s, at))
      ensures ok ==> ch == IpEnd(s, at) + 1
      ensures ok ==> Terminated(ip[..], 0) && CStr(ip[..]) == IpValue(s, at)
    {
      var ipv6 := LooksLikeIpv6(s, at);
      ch := at + 1;
      NulAhead(s, at, ch);
      if s[ch] == '<' {
        ch := ch + 1;
        NulAhead(s, at, ch);
      }
      StopsAhead(s, ch, FIELD_STOPS);
      ch, ok := CopyText(s, ch, ipv6);
      if ok {
        assert CStr(ip[..]) == IpValue(s, at);
        ch := ch + 1;
        ok := LooksLikeValidIp(ip[..]);
      }
    }

    /** connection.c:116-148: the text up to its stop, in brackets if it is IPv6. */
    method CopyText(s: string, first: nat, ipv6: bool) returns (ch: nat, ok: bool)
      requires first <= |s| && Find(s, first, FIELD_STOPS) < |s|
      requires ip.Length == INET6_ADDRSTRLEN + 2
      modifies ip
      ensures var last := Find(s, first, FIELD_STOPS);
        && (ok <==> (if ipv6 then 1 else 0) + (last - first) < INET6_ADDRSTRLEN + 1)
        && (ok ==> ch == last && Terminated(ip[..], 0))
        && (ok ==> CStr(ip[..]) == if ipv6 then "[" + s[first..last] + "]" else s[first..last])
    {
      var i := 0;
      if ipv6 {
        ip[0] := '[';
        i := i + 1;
      }
      ghost var off := i;
      ch, i, ok := CopyUntilStop(s, first, i);
      if ok {
        ghost var raw := s[first..ch];
        assert NulFree(raw);
        assert ip[..i] == ip[..off] + raw;
        if ipv6 {
          ip[i] := ']';
          i := i + 1;
          assert ip[..i] == "[" + raw + "]";
        }
        Terminate(i);
      }
    }

    /** connection.c:126-138 */
    method CopyUntilStop(s: string, first: nat, i0: nat) returns (ch: nat, i: nat, ok: bool)
      requires ip.Length == INET6_ADDRSTRLEN + 2 && i0 <= 1
      requires first <= |s| && Find(s, first, FIELD_STOPS) < |s|
      modifies ip
      ensures var last := Find(s, first, FIELD_STOPS);
        && (ok <==> i0 + (last - first) < INET6_ADDRSTRLEN + 1)
        && (ok ==> ch == last && i == i0 + (last - first) && ip[i0..i] == s[first..last])
      ensures ip[..i0] == old(ip[..i0])
    {
      i := i0;
      ch := first;
      while s[ch] != '>' && s[ch] != NUL && s[ch] != FIELD_SEPARATOR
        invariant first <= ch <= Find(s, first, FIELD_STOPS) && i == i0 + (ch - first) < INET6_ADDRSTRLEN + 1
        invariant forall k :: first <= k < ch ==> ip[i0 + (k - first)] == s[k]
        invariant ip[..i0] == old(ip[..i0])
        decreases |s| - ch
      {
        ip[i] := s[ch];
        ch := ch + 1;
        i := i + 1;
        if i >= INET6_ADDRSTRLEN + 1 {
          return ch, i, false;
        }
      }
      ok := true;
    }

    /** connection.c:148 */
    method Terminate(i: nat)
      requires i < ip.Length && NulFree(ip[..i])
      modifies ip
      ensures Terminated(ip[..], 0) && CStr(ip[..]) == old(ip[..i])
    {
      ip[i] := NUL;
      assert ip[..i] == old(ip[..i]);
      CStrIs(ip[..], i);
    }

    /** connection.c:185-188 */
    method EndOfNumber(s: string, numberStart: nat) returns (ch: nat)
      requires numberStart <= |s| && Find(s, numberStart, FIELD_STOPS) < |s|
      ensures ch == Find(s, numberStart, FIELD_STOPS)
    {
      ch := numberStart;
      while s[ch] != '>' && s[ch] != NUL && s[ch] != FIELD_SEPARATOR
        invariant numberStart <= ch <= Find(s, numberStart, FIELD_STOPS)
        decreases |s| - ch
      {
        ch := ch + 1;
      }
    }

    /** connection.c:158-204: what follows the path and the IP field. */
    method TakePort(s: string, at: nat, ghost path: string, ghost address: string) returns (ok: bool)
      requires at <= |s| && !ParsePort(path, address, s, at).Overrun?
      requires port == NO_PORT
      modifies this`port
      ensures ParsePort(path, address, s, at) == if ok then Accepted(Conn(path, address, port)) else Rejected
    {
      hide Find, Decimal, Wrap32;
      var ch := at;
      if s[ch] == FIELD_SEPARATOR {
        ch := ch + 1;
      }
      ok := true;
      if s[ch] == 'p' {
        ch := ch + 1;
        if s[ch] == '<' {
          ch := ch + 1;
        }
        var numberStart := ch;
        ch := EndOfNumber(s, numberStart);
        port := ReadPort(s, numberStart, ch);
        ok := ValidPortNumber(port);
      }
    }
  }

  /** initialize_connection_from_string.  The caller owes a terminated string on which the
      step over the end of the IP field does not lead out of its memory. */
  method InitializeConnectionFromString(s: string) returns (c: Connection?)
    requires Terminated(s, 0) && !Parse(s).Overrun?
    ensures c == null <==> Parse(s).Rejected?
    ensures c != null ==> fresh(c) && fresh(c.ip) && fresh(c.executable) && c.Valid()
    ensures c != null ==> Parse(s) == Accepted(c.Value())
  {
    hide Parse, ParseIp, ParsePort, Find, IpValue, ValidIpText;
    var conn := new Connection();
    CStrIs(conn.ip[..], 0);
    var ch, ok := conn.CopyPath(s);
    PathField(s);
    if !ok {
      return null;
    }
    ghost var path := s[..ch];
    if s[ch] == FIELD_SEPARATOR {
      ch := ch + 1;
    }
    if s[ch] == 'i' {
      ch, ok := conn.CopyIp(s, ch);
      if !ok {
        return null;
      }
    }
    ghost var address := CStr(conn.ip[..]);
    assert Parse(s) == ParsePort(path, address, s, ch);
    ok := conn.TakePort(s, ch, path, address);
    if !ok {
      return null;
    }
    assert conn.Value() == Conn(path, address, conn.port);
    ParseStores(s);
    c := conn;
  }

  // ---------- matching

  /** connection_matches_attributes; `ip` is NULL for sockets of other families. */
  predicate ConnectionMatchesAttributes(c: Conn, path: string, ip: Option<string>, port: int) {
    && ip.Some?
    && StrnEq(c.path, path, MAX_ABSOLUTE_EXEC_PATH)
    && (c.ip != "" && ip.value != "" ==> StrnEq(c.ip, ip.value, INET6_ADDRSTRLEN + 2))
    && (c.port != NO_PORT && port != NO_PORT ==> c.port == port)
  }

  predicate ConnectionsAreEqual(c: Conn, d: Conn) {
    ConnectionMatchesAttributes(c, d.path, Some(d.ip), d.port)
  }

  /** What a lookup asks for. */
  datatype Query = Query(path: string, ip: string, port: int)

  /** Wildcard matching on whole strings. */
  predicate Matches(c: Conn, q: Query) {
    && c.path == q.path
    && (c.ip == "" || q.ip == "" || c.ip == q.ip)
    && (c.port == NO_PORT || q.port == NO_PORT || c.port == q.port)
  }

  /** The bounded comparisons decide equality of whole strings. */
  lemma MatchingIsWildcardEquality(c: Conn, path: string, ip: Option<string>, port: int)
    requires Stored(c)
    ensures ConnectionMatchesAttributes(c, path, ip, port) <==>
      ip.Some? && Matches(c, Query(path, ip.value, port))
  {
    if ip.Some? {
      StrnEqIsEquality(c.path, path, MAX_ABSOLUTE_EXEC_PATH);
      StrnEqIsEquality(c.ip, ip.value, INET6_ADDRSTRLEN + 2);
    }
  }

  /** A query about an actual connection: its address and port are known. */
  predicate Concrete(q: Query) {
    q.ip != "" && 0 <= q.port < 65536
  }

  /** The overlap test of the whitelist is exact: two records are "equal" if and only if some
      actual connection is matched by both. */
  lemma OverlapIsSharedConnection(c: Conn, d: Conn)
    requires Stored(c) && Stored(d)
    ensures ConnectionsAreEqual(c, d) <==> exists q :: Concrete(q) && Matches(c, q) && Matches(d, q)
  {
    MatchingIsWildcardEquality(c, d.path, Some(d.ip), d.port);
    if ConnectionsAreEqual(c, d) {
      var ip := if c.ip != "" then c.ip else if d.ip != "" then d.ip else "0.0.0.0";
      var port := if c.port != NO_PORT then c.port else if d.port != NO_PORT then d.port else 0;
      var q := Query(c.path, ip, port);
      assert Concrete(q) && Matches(c, q) && Matches(d, q);
    }
  }

  lemma OverlapIsSymmetric(c: Conn, d: Conn)
    requires Stored(c) && Stored(d)
    ensures ConnectionsAreEqual(c, d) <==> ConnectionsAreEqual(d, c)
  {
    OverlapIsSharedConnection(c, d);
    OverlapIsSharedConnection(d, c);
  }

  /** Overlap is not transitive: the wildcard record overlaps both others. */
  lemma OverlapIsNotTransitive(path: string)
    requires NulFree(path) && |path| < MAX_ABSOLUTE_EXEC_PATH
    ensures var b := Conn(path, "", NO_PORT); var c, d := Conn(path, "", 22), Conn(path, "", 80);
      ConnectionsAreEqual(c, b) && ConnectionsAreEqual(b, d) && !ConnectionsAreEqual(c, d)
  {
    StrnEqIsEquality(path, path, MAX_ABSOLUTE_EXEC_PATH);
  }
}
