/** The strings an administrator writes against the strings the probes look up: parsing a
    printed address and port gives a record that matches that address and port only. */
module AddressMatching {
  import opened Basics
  import opened CStrings
  import opened InetUtils
  import opened PortNumber
  import opened AddressText
  import opened Connections
  import opened Grammar

  lemma PlainTextIsLegal(a: SocketAddress, open: bool)
    requires WellFormedAddress(a) && !a.OtherFamily?
    ensures LegalIp(PlainText(a)) && AcceptableIp(PlainText(a), open)
    ensures Some(StoredIp(Some(PlainText(a)), open)) == PrintAddress(a)
  {
    PrintersDoNotTruncate(a);
    match a
    case Inet(o) =>
      DottedQuadShape(o);
    case Inet6(g) =>
      HexGroupsShape(g);
      assert PlainText(a)[4] == ':';
  }

  lemma PrintedIsShort(a: SocketAddress)
    requires WellFormedAddress(a) && !a.OtherFamily?
    ensures 0 < |PrintAddress(a).value| < INET6_ADDRSTRLEN + 2
  {
    PrintersDoNotTruncate(a);
    match a
    case Inet(o) =>
      DottedQuadShape(o);
    case Inet6(g) =>
      HexGroupsShape(g);
  }

  // ---------- rules

  /** What an administrator means: a program, and perhaps an address and a port. */
  datatype Rule = Rule(path: string, address: Option<SocketAddress>, port: Option<nat>)

  predicate Sensible(r: Rule) {
    && LegalPath(r.path) && |r.path| <= 949
    && (r.address.Some? ==> WellFormedAddress(r.address.value) && !r.address.value.OtherFamily?)
    && (r.port.Some? ==> 1 <= r.port.value <= 65535)
  }

  /** The fields are written for the rule: the address and the port in their usual form. */
  ghost predicate WrittenFor(f: Fields, r: Rule) {
    && f.path == r.path
    && f.ip.Some? == r.address.Some? && (f.ip.Some? ==> WritesAddress(f.ip.value, r.address.value))
    && f.port.Some? == r.port.Some? && (f.port.Some? ==> Writes(f.port.value, r.port.value))
  }

  /** The record of a rule. */
  function RecordOf(r: Rule): Conn
    requires Sensible(r)
  {
    Conn(r.path,
         if r.address.None? then "" else PrintAddress(r.address.value).value,
         if r.port.None? then NO_PORT else r.port.value)
  }

  predicate Applies(r: Rule, path: string, b: SocketAddress, q: int) {
    && path == r.path && !b.OtherFamily?
    && (r.address.None? || r.address.value == b)
    && (r.port.None? || r.port.value == q || q == -1)
  }

  lemma PrintedAreSome(a: SocketAddress)
    requires WellFormedAddress(a) && !a.OtherFamily?
    ensures PrintAddress(a).Some?
  {
  }

  lemma PrintedAlike(a: SocketAddress, b: SocketAddress)
    requires WellFormedAddress(a) && WellFormedAddress(b) && !a.OtherFamily? && !b.OtherFamily?
    ensures StrnEq(PrintAddress(a).value, PrintAddress(b).value, INET6_ADDRSTRLEN + 2) <==> a == b
    ensures PrintAddress(a).value != "" && PrintAddress(b).value != ""
  {
    hide StrnEq, PrintAddress;
    PrintedAreSome(a);
    PrintedAreSome(b);
    PrintedIsShort(a);
    PrintedIsShort(b);
    StrnEqIsEquality(PrintAddress(a).value, PrintAddress(b).value, INET6_ADDRSTRLEN + 2);
    if PrintAddress(a) == PrintAddress(b) {
      PrintAddressInjective(a, b);
    }
  }

  lemma RecordMatches(r: Rule, path: string, b: SocketAddress, q: int)
    requires Sensible(r) && WellFormedAddress(b)
    ensures ConnectionMatchesAttributes(RecordOf(r), path, PrintAddress(b), q) <==> Applies(r, path, b, q)
  {
    hide WellFormedAddress, LegalPath;
    StrnEqIsEquality(r.path, path, MAX_ABSOLUTE_EXEC_PATH);
    if !b.OtherFamily? {
      PrintedIsShort(b);
      if r.address.Some? {
        PrintedAlike(r.address.value, b);
      }
    } else {
      assert PrintAddress(b) == None;
    }
  }

  lemma NoStoredIp(open: bool)
    ensures StoredIp(None, open) == ""
  {
  }

  lemma RuleIsDenoted(f: Fields, r: Rule, open: bool)
    requires Sensible(r) && WrittenFor(f, r)
    ensures Legal(f) && Denotes(f, open) == Accepted(RecordOf(r))
  {
    hide LegalIp, LegalPath, AcceptableIp, PlainText, PrintAddress, StoredIp, WritesAddress, Decimal, WellFormedAddress;
    if r.address.Some? {
      PlainTextWrites(r.address.value, f.ip.value);
      PlainTextIsLegal(r.address.value, open);
    }
    assert f.ip.None? ==> StoredIp(f.ip, open) == "" by {
      NoStoredIp(open);
    }
  }

  /** Write, parse, match: whatever brackets are written and whatever lies behind it, the string for
      a rule applies to the sockets of that program that are connected to that address and port, as
      far as the rule gives them, and to no others. */
  lemma RuleMatchesItsSocketsOnly(f: Fields, r: Rule, br: Brackets, tail: string, path: string, b: SocketAddress, q: int)
    requires Sensible(r) && WrittenFor(f, r) && WellFormedAddress(b)
    requires r.address.None? || r.port.Some? || br.ipClose
    ensures Parse(Mem(Render(f, br), tail)) == Accepted(RecordOf(r))
    ensures ConnectionMatchesAttributes(RecordOf(r), path, PrintAddress(b), q) <==> Applies(r, path, b, q)
  {
    hide Parse, Legal, Denotes, WellFormedAddress, PrintAddress, ConnectionMatchesAttributes, Render, Mem, RecordOf, Applies;
    RuleIsDenoted(f, r, br.ipOpen);
    BracketsAreOptional(f, br, tail);
    RecordMatches(r, path, b, q);
  }
}
