/** The connection strings that netlog/src/connection.c documents, "/path|i<ip>|p<port>" with
    optional fields and optional brackets, and what the parser makes of them. */
module Grammar {
  import opened Basics
  import opened CStrings
  import opened InetUtils
  import opened PortNumber
  import opened Connections

  datatype Fields = Fields(path: string, ip: Option<string>, port: Option<string>)

  /** Which of the brackets, supported "just for visual reasons", are written. */
  datatype Brackets = Brackets(ipOpen: bool, ipClose: bool, portOpen: bool, portClose: bool)

  function Opt(b: bool, s: string): string {
    if b then s else ""
  }

  function IpField(f: Fields, b: Brackets): string {
    match f.ip
    case None => ""
    case Some(ip) => "|i" + Opt(b.ipOpen, "<") + ip + Opt(b.ipClose, ">")
  }

  function PortField(f: Fields, b: Brackets): string {
    match f.port
    case None => ""
    case Some(port) => "|p" + Opt(b.portOpen, "<") + port + Opt(b.portClose, ">")
  }

  function Render(f: Fields, b: Brackets): string {
    f.path + IpField(f, b) + PortField(f, b)
  }

  predicate LegalPath(path: string) {
    forall i :: 0 <= i < |path| ==> path[i] !in PATH_STOPS
  }

  predicate HasColon(ip: string) {
    exists i :: 0 <= i < |ip| && ip[i] == ':'
  }

  /** Texts without delimiters. */
  predicate LegalIp(ip: string) {
    forall i :: 0 <= i < |ip| ==> ip[i] !in FIELD_STOPS && ip[i] != '<'
  }

  predicate Legal(f: Fields) {
    && LegalPath(f.path)
    && (f.ip.Some? ==> LegalIp(f.ip.value))
    && (f.port.Some? ==> AllDigits(f.port.value))
  }

  /** An address is IPv6 if it shows a colon early enough: an opening bracket costs one place. */
  predicate ShowsColon(ip: string, open: bool) {
    exists i :: 0 <= i < Min(|ip|, if open then 46 else 47) && ip[i] == ':'
  }

  /** The address as the printers write it: IPv6 in square brackets. */
  function StoredIp(ip: Option<string>, open: bool): string {
    match ip
    case None => ""
    case Some(t) => if ShowsColon(t, open) then "[" + t + "]" else t
  }

  predicate V6Text(ip: string) {
    forall i :: 0 <= i < |ip| ==> Ipv6Character(ip[i])
  }

  /** The addresses that are taken: only the first 16 characters of an IPv4 text count. */
  predicate AcceptableIp(ip: string, open: bool) {
    if ShowsColon(ip, open) then |ip| <= 47 && V6Text(ip)
    else
      && |ip| <= 48
      && if HasColon(ip) then V6Text(ip) else forall i :: 0 <= i < Min(|ip|, 16) ==> IpCharacter(ip[i])
  }

  predicate Acceptable(f: Fields, open: bool) {
    |f.path| <= 949 && (f.ip.Some? ==> AcceptableIp(f.ip.value, open))
  }

  /** What the grammar says a string means, when its address has an opening bracket or not. */
  function Denotes(f: Fields, open: bool): Parsed {
    if !Acceptable(f, open) then Rejected
    else
      match f.port
      case None => Accepted(Conn(f.path, StoredIp(f.ip, open), NO_PORT))
      case Some(t) =>
        match AcceptedPort(t)
        case Some(port) => Accepted(Conn(f.path, StoredIp(f.ip, open), port))
        case None => Rejected
  }

  /** The first colon is the 47th character, in a text that is an address otherwise. */
  predicate LateColon(ip: string) {
    && 47 <= |ip| <= 48 && V6Text(ip) && ip[46] == ':'
    && forall i :: 0 <= i < 46 ==> ip[i] != ':'
  }

  lemma ColonsShown(ip: string)
    ensures ShowsColon(ip, true) ==> ShowsColon(ip, false)
    ensures ShowsColon(ip, false) && !ShowsColon(ip, true) <==>
      |ip| >= 47 && ip[46] == ':' && forall i :: 0 <= i < 46 ==> ip[i] != ':'
    ensures ShowsColon(ip, false) ==> HasColon(ip)
  {
    if ShowsColon(ip, false) && !ShowsColon(ip, true) {
      var i :| 0 <= i < Min(|ip|, 47) && ip[i] == ':';
      assert i == 46;
    }
  }

  lemma DenotedDiffer(f: Fields)
    ensures Denotes(f, true) != Denotes(f, false) <==>
      && f.ip.Some? && LateColon(f.ip.value)
      && |f.path| <= 949 && (f.port.Some? ==> AcceptedPort(f.port.value).Some?)
  {
    hide AcceptedPort;
    if f.ip.Some? {
      var ip := f.ip.value;
      ColonsShown(ip);
      if LateColon(ip) {
        assert |StoredIp(f.ip, true)| != |StoredIp(f.ip, false)|;
      }
    }
  }

  // ---------- where the pieces of a rendered string lie

  predicate ReadsAt(s: string, p: nat, t: string) {
    p + |t| <= |s| && forall i :: p <= i < p + |t| ==> s[i] == t[i - p]
  }

  lemma ReadsInside(s: string, p: nat, t: string, q: nat, u: string)
    requires ReadsAt(s, p, t) && ReadsAt(t, q, u)
    ensures ReadsAt(s, p + q, u)
  {
  }

  /** A rendered string in memory: path, IP field, port field, terminator. */
  lemma Layout(f: Fields, b: Brackets, tail: string)
    ensures var s := Mem(Render(f, b), tail); var e := |f.path| + |IpField(f, b)|;
      && ReadsAt(s, 0, f.path)
      && ReadsAt(s, |f.path|, IpField(f, b))
      && ReadsAt(s, e, PortField(f, b))
      && e + |PortField(f, b)| == |Render(f, b)| && ReadsAt(s, |Render(f, b)|, [NUL])
      && (f.port.None? ==> PortField(f, b) == "")
  {
  }

  lemma IpFieldLayout(f: Fields, b: Brackets, ip: string)
    requires f.ip == Some(ip)
    ensures var t := IpField(f, b); var d := 2 + |Opt(b.ipOpen, "<")|;
      && ReadsAt(t, 0, "|i") && ReadsAt(t, 2, Opt(b.ipOpen, "<")) && ReadsAt(t, d, ip)
      && d + |ip| + |Opt(b.ipClose, ">")| == |t| && ReadsAt(t, d + |ip|, Opt(b.ipClose, ">"))
  {
  }

  lemma PortFieldLayout(f: Fields, b: Brackets, port: string)
    requires f.port == Some(port)
    ensures var t := PortField(f, b); var d := 2 + |Opt(b.portOpen, "<")|;
      && ReadsAt(t, 0, "|p") && ReadsAt(t, 2, Opt(b.portOpen, "<")) && ReadsAt(t, d, port)
      && d + |port| + |Opt(b.portClose, ">")| == |t| && ReadsAt(t, d + |port|, Opt(b.portClose, ">"))
  {
  }

  /** A field's text at `s[first..]`, behind its letter at `s[at]` and an optional `<`, ended by
      one of the stops. */
  predicate FieldAt(s: string, at: nat, first: nat, text: string) {
    && first + |text| < |s| && ReadsAt(s, first, text)
    && (first == at + 1 || (first == at + 2 && s[at + 1] == '<'))
    && s[first + |text|] in FIELD_STOPS
    && forall i :: 0 <= i < |text| ==> text[i] !in FIELD_STOPS && text[i] != '<'
  }

  lemma FieldIsScanned(s: string, at: nat, first: nat, text: string)
    requires FieldAt(s, at, first, text)
    ensures SkipIf(s, at + 1, '<') == first
    ensures Find(s, first, FIELD_STOPS) == first + |text|
    ensures s[first..first + |text|] == text
  {
    if first == at + 1 {
      assert s[first] == if text == "" then s[first + |text|] else text[0];
    }
    assert forall i :: first <= i < first + |text| ==> s[i] == text[i - first];
    FindIs(s, first, FIELD_STOPS, first + |text|);
  }

  lemma FieldReads(s: string, at: nat, first: nat, text: string)
    requires FieldAt(s, at, first, text)
    ensures first + |text| < |s| && forall k :: 0 <= k < |text| ==> s[first + k] == text[k]
  {
  }

  lemma IpFieldAt(f: Fields, b: Brackets, tail: string, ip: string)
    requires Legal(f) && f.ip == Some(ip)
    ensures var s := Mem(Render(f, b), tail); var at := |f.path| + 1; var first := at + 1 + |Opt(b.ipOpen, "<")|;
      && FieldAt(s, at, first, ip)
      && s[at - 1] == FIELD_SEPARATOR && s[at] == 'i'
      && s[first + |ip|] == (if b.ipClose then '>' else if f.port.Some? then FIELD_SEPARATOR else NUL)
      && first + |ip| + |Opt(b.ipClose, ">")| == |f.path| + |IpField(f, b)|
  {
    hide Render, IpField, PortField, Mem, LegalPath;
    var s, t, n := Mem(Render(f, b), tail), IpField(f, b), |f.path|;
    var o, c := Opt(b.ipOpen, "<"), Opt(b.ipClose, ">");
    Layout(f, b, tail);
    IpFieldLayout(f, b, ip);
    ReadsInside(s, n, t, 0, "|i");
    ReadsInside(s, n, t, 2, o);
    ReadsInside(s, n, t, 2 + |o|, ip);
    ReadsInside(s, n, t, 2 + |o| + |ip|, c);
    assert s[n] == "|i"[0] && s[n + 1] == "|i"[1];
    assert b.ipOpen ==> s[n + 2] == '<';
    if f.port.Some? {
      PortFieldLayout(f, b, f.port.value);
      ReadsInside(s, n + |t|, PortField(f, b), 0, "|p");
      assert s[n + |t|] == "|p"[0];
    } else {
      assert s[n + |t|] == [NUL][0];
    }
    assert b.ipClose ==> s[n + 2 + |o| + |ip|] == ">"[0];
  }

  lemma PortFieldAt(f: Fields, b: Brackets, tail: string, port: string)
    requires Legal(f) && f.port == Some(port)
    ensures var s := Mem(Render(f, b), tail); var at := |f.path| + |IpField(f, b)| + 1;
      && at < |s| && FieldAt(s, at, at + 1 + |Opt(b.portOpen, "<")|, port)
      && s[at - 1] == FIELD_SEPARATOR && s[at] == 'p'
  {
    hide Render, IpField, PortField, Mem, LegalPath;
    var s, t, n := Mem(Render(f, b), tail), PortField(f, b), |f.path| + |IpField(f, b)|;
    var o, c := Opt(b.portOpen, "<"), Opt(b.portClose, ">");
    Layout(f, b, tail);
    PortFieldLayout(f, b, port);
    ReadsInside(s, n, t, 0, "|p");
    ReadsInside(s, n, t, 2, o);
    ReadsInside(s, n, t, 2 + |o|, port);
    ReadsInside(s, n, t, 2 + |o| + |port|, c);
    assert s[n] == "|p"[0] && s[n + 1] == "|p"[1];
    assert b.portOpen ==> s[n + 2] == '<';
    assert s[|Render(f, b)|] == [NUL][0];
    assert b.portClose ==> s[n + 2 + |o| + |port|] == ">"[0];
  }

  // ---------- what the parser makes of the pieces

  lemma PathEnds(f: Fields, b: Brackets, tail: string)
    requires Legal(f)
    ensures var s := Mem(Render(f, b), tail);
      Find(s, 0, PATH_STOPS) == |f.path| && |f.path| < |s| && s[..|f.path|] == f.path
  {
    var s, n := Mem(Render(f, b), tail), |f.path|;
    Layout(f, b, tail);
    if f.ip.Some? {
      IpFieldAt(f, b, tail, f.ip.value);
    } else if f.port.Some? {
      PortFieldAt(f, b, tail, f.port.value);
    } else {
      assert s[n] == [NUL][0];
    }
    assert forall i :: 0 <= i < n ==> s[i] == f.path[i - 0];
    FindIs(s, 0, PATH_STOPS, n);
  }

  /** A rendered string has no NUL, and colons in its address only. */
  lemma Characters(f: Fields, b: Brackets, ip: string)
    requires Legal(f) && f.ip == Some(ip)
    ensures NulFree(f.path) && NulFree(IpField(f, b)) && NulFree(PortField(f, b))
    ensures forall i :: 0 <= i < |PortField(f, b)| ==> PortField(f, b)[i] != ':'
    ensures ':' !in Opt(b.ipOpen, "<") && ':' !in Opt(b.ipClose, ">")
  {
    assert NulFree(ip);
    if f.port.Some? {
      assert NulFree(f.port.value) && ':' !in f.port.value;
      assert ':' !in PortField(f, b);
    }
  }

  lemma WindowSees(text: string, d: nat, ip: string, open: bool)
    requires d == (if open then 2 else 1) && d + |ip| <= |text|
    requires forall k :: 0 <= k < |ip| ==> text[d + k] == ip[k]
    requires forall k :: 0 <= k < |text| && !(d <= k < d + |ip|) ==> text[k] != ':'
    ensures ColonInWindow(text) <==> ShowsColon(ip, open)
  {
    if ShowsColon(ip, open) {
      var i :| 0 <= i < Min(|ip|, if open then 46 else 47) && ip[i] == ':';
      assert text[d + i] == ':';
    }
    if ColonInWindow(text) {
      var i :| 0 <= i < Min(|text|, INET6_ADDRSTRLEN) && text[i] == ':';
      assert text[d + (i - d)] == ip[i - d];
    }
  }

  lemma RenderedIsNulFree(f: Fields, b: Brackets, tail: string, ip: string)
    requires Legal(f) && f.ip == Some(ip)
    ensures var s := Mem(Render(f, b), tail); var end := |Render(f, b)|;
      |f.path| + 1 <= end < |s| && |f.path| + |IpField(f, b)| <= end && s[end] == NUL && forall i :: 0 <= i < end ==> s[i] != NUL
  {
    Characters(f, b, ip);
    var s := Mem(Render(f, b), tail);
    assert NulFree(Render(f, b));
    assert forall i :: 0 <= i < |Render(f, b)| ==> s[i] == Render(f, b)[i];
  }

  lemma IpFieldColons(f: Fields, b: Brackets, ip: string, k: nat)
    requires f.ip == Some(ip) && k < |IpField(f, b)|
    requires var first := 2 + |Opt(b.ipOpen, "<")|; !(first <= k < first + |ip|)
    ensures IpField(f, b)[k] != ':'
  {
    var o, c := Opt(b.ipOpen, "<"), Opt(b.ipClose, ">");
    assert IpField(f, b) == (("|i" + o) + ip) + c;
  }

  lemma NoColonElsewhere(f: Fields, b: Brackets, tail: string, ip: string, i: nat)
    requires Legal(f) && f.ip == Some(ip) && |f.path| < i < |Render(f, b)|
    requires var first := |f.path| + 2 + |Opt(b.ipOpen, "<")|; !(first <= i < first + |ip|)
    ensures Mem(Render(f, b), tail)[i] != ':'
  {
    var s, n := Mem(Render(f, b), tail), |f.path|;
    Layout(f, b, tail);
    Characters(f, b, ip);
    var t := IpField(f, b);
    if i < n + |t| {
      assert s[i] == t[i - n];
      IpFieldColons(f, b, ip, i - n);
    } else {
      assert s[i] == PortField(f, b)[i - (n + |t|)];
    }
  }

  /** The 48-character window that looks for a colon sees the colons of the address only. */
  lemma ColonIsSeen(f: Fields, b: Brackets, tail: string, ip: string)
    requires Legal(f) && f.ip == Some(ip)
    ensures var s := Mem(Render(f, b), tail);
      |f.path| + 1 < |s| && (IpIsV6(s, |f.path| + 1) <==> ShowsColon(ip, b.ipOpen))
  {
    hide LegalIp, Render, Mem, ShowsColon, ColonInWindow, IpField, Find, ReadsAt;
    var s, at, end := Mem(Render(f, b), tail), |f.path| + 1, |Render(f, b)|;
    var d := 1 + |Opt(b.ipOpen, "<")|;
    IpFieldAt(f, b, tail, ip);
    RenderedIsNulFree(f, b, tail, ip);
    FindIs(s, at, {NUL}, end);
    var text := CStrAt(s, at);
    assert text == s[at..end];
    forall k | 0 <= k < |text| && !(d <= k < d + |ip|)
      ensures text[k] != ':'
    {
      NoColonElsewhere(f, b, tail, ip, at + k);
    }
    FieldReads(s, at, at + d, ip);
    WindowSees(text, d, ip, b.ipOpen);
  }

  lemma BracketedIsV6(ip: string, t: string)
    requires t == "[" + ip + "]"
    ensures (forall i :: 0 <= i < |t| ==> Ipv6Character(t[i])) <==> V6Text(ip)
  {
    assert t[0] == '[' && t[|ip| + 1] == ']';
    assert forall k :: 0 <= k < |ip| ==> ip[k] == t[k + 1];
    assert forall k :: 1 <= k <= |ip| ==> t[k] == ip[k - 1];
  }

  /** The two checks of the parser on the stored text decide whether the address is taken. */
  lemma StoredIpIsChecked(ip: string, open: bool)
    ensures (if ShowsColon(ip, open) then 1 else 0) + |ip| < INET6_ADDRSTRLEN + 1 && ValidIpText(StoredIp(Some(ip), open)) <==>
      AcceptableIp(ip, open)
  {
    var t := StoredIp(Some(ip), open);
    ColonsShown(ip);
    if ShowsColon(ip, open) {
      var i :| 0 <= i < Min(|ip|, if open then 46 else 47) && ip[i] == ':';
      assert t[i + 1] == ':';
      if |ip| <= 47 {
        BracketedIsV6(ip, t);
      }
    } else if |ip| <= 48 {
      assert ColonInWindow(t) <==> HasColon(ip);
    }
  }

  lemma IpFieldIsCopied(f: Fields, b: Brackets, tail: string, ip: string)
    requires Legal(f) && f.ip == Some(ip)
    ensures var s := Mem(Render(f, b), tail); var at := |f.path| + 1;
      && at < |s| && s[at - 1] == FIELD_SEPARATOR && s[at] == 'i'
      && IpEnd(s, at) == at + 1 + |Opt(b.ipOpen, "<")| + |ip| < |s|
      && IpValue(s, at) == StoredIp(f.ip, b.ipOpen)
      && (IpFits(s, at) <==> (if ShowsColon(ip, b.ipOpen) then 1 else 0) + |ip| < INET6_ADDRSTRLEN + 1)
  {
    hide Render, Mem, IpIsV6, Find, Legal, LegalIp, ShowsColon, ReadsAt, Opt;
    var s, at := Mem(Render(f, b), tail), |f.path| + 1;
    IpFieldAt(f, b, tail, ip);
    FieldIsScanned(s, at, at + 1 + |Opt(b.ipOpen, "<")|, ip);
    ColonIsSeen(f, b, tail, ip);
  }

  lemma IpFieldParses(f: Fields, b: Brackets, tail: string, ip: string)
    requires Legal(f) && f.ip == Some(ip)
    ensures var s := Mem(Render(f, b), tail); var at := |f.path| + 1;
      && at < |s| && s[at - 1] == FIELD_SEPARATOR && s[at] == 'i'
      && IpEnd(s, at) == at + 1 + |Opt(b.ipOpen, "<")| + |ip| < |s|
      && IpValue(s, at) == StoredIp(f.ip, b.ipOpen)
      && (IpFits(s, at) && ValidIpText(IpValue(s, at)) <==> AcceptableIp(ip, b.ipOpen))
  {
    hide Render, Mem, ValidIpText, AcceptableIp, IpFits, IpValue, IpEnd, StoredIp, ShowsColon;
    IpFieldIsCopied(f, b, tail, ip);
    StoredIpIsChecked(ip, b.ipOpen);
  }

  lemma PortFieldParses(path: string, ip: string, s: string, at: nat, p: nat, first: nat, port: string)
    requires at <= p < |s| && s[p] == 'p' && (at == p || (at + 1 == p && s[at] == FIELD_SEPARATOR))
    requires FieldAt(s, p, first, port)
    ensures ParsePort(path, ip, s, at) ==
      match AcceptedPort(port)
      case Some(n) => Accepted(Conn(path, ip, n))
      case None => Rejected
  {
    hide AcceptedPort;
    FieldIsScanned(s, p, first, port);
  }

  /** The two steps of the parser up to the port field. */
  lemma ParseReachesPort(f: Fields, b: Brackets, tail: string)
    requires Legal(f)
    ensures var s := Mem(Render(f, b), tail); var e := |f.path| + |IpField(f, b)|;
      if !Acceptable(f, b.ipOpen) then Parse(s) == Rejected
      else
        match f.ip
        case None => Parse(s) == ParseIp(f.path, s, SkipIf(s, e, FIELD_SEPARATOR))
        case Some(_) => var at := if b.ipClose then e else e + 1;
          at <= |s| && Parse(s) == ParsePort(f.path, StoredIp(f.ip, b.ipOpen), s, at)
  {
    hide ParsePort, IpValue, IpFits, ValidIpText, StoredIp, AcceptableIp, Render, Mem, Find, IpEnd, ReadsAt;
    var s := Mem(Render(f, b), tail);
    PathEnds(f, b, tail);
    if f.ip.Some? {
      IpFieldAt(f, b, tail, f.ip.value);
      IpFieldParses(f, b, tail, f.ip.value);
    }
  }

  lemma NoPortFieldParses(path: string, ip: string, s: string, at: nat)
    requires at < |s| && s[at] == NUL
    ensures ParsePort(path, ip, s, at) == Accepted(Conn(path, ip, NO_PORT))
  {
  }

  /** The parser behind the path and the IP field. */
  lemma EndsWithPort(f: Fields, b: Brackets, tail: string, at: nat)
    requires Legal(f) && Acceptable(f, b.ipOpen)
    requires var s := Mem(Render(f, b), tail); var e := |f.path| + |IpField(f, b)|;
      && e <= |s|
      && at == if f.ip.None? then SkipIf(s, e, FIELD_SEPARATOR) else if b.ipClose then e else e + 1
    requires f.ip.None? || b.ipClose || f.port.Some?
    ensures var s := Mem(Render(f, b), tail);
      at < |s| && (f.ip.None? ==> s[at] != 'i') && ParsePort(f.path, StoredIp(f.ip, b.ipOpen), s, at) == Denotes(f, b.ipOpen)
  {
    hide ParsePort, AcceptedPort, Acceptable, Render, StoredIp, IpField, Mem, LegalIp;
    var s, e := Mem(Render(f, b), tail), |f.path| + |IpField(f, b)|;
    if f.port.Some? {
      PortFieldAt(f, b, tail, f.port.value);
      PortFieldParses(f.path, StoredIp(f.ip, b.ipOpen), s, at, e + 1, e + 2 + |Opt(b.portOpen, "<")|, f.port.value);
    } else {
      Layout(f, b, tail);
      assert PortField(f, b) == "";
      assert s[e] == [NUL][0];
      NoPortFieldParses(f.path, StoredIp(f.ip, b.ipOpen), s, at);
    }
  }

  /** Optional brackets: whichever brackets are written, and whatever lies behind the string,
      the parser finds exactly the fields the grammar denotes, or refuses the string when a field
      is not acceptable, provided the IP field is closed by `>` or followed by a port field.
      Closing brackets and the port's opening one make no difference at all; for the opening one
      of the address see BracketsMatterIff. */
  lemma BracketsAreOptional(f: Fields, b: Brackets, tail: string)
    requires Legal(f)
    requires f.ip.None? || b.ipClose || f.port.Some?
    ensures Parse(Mem(Render(f, b), tail)) == Denotes(f, b.ipOpen)
  {
    hide ParsePort, AcceptedPort, Acceptable, Legal, Render, IpField;
    ParseReachesPort(f, b, tail);
    if Acceptable(f, b.ipOpen) {
      var s, e := Mem(Render(f, b), tail), |f.path| + |IpField(f, b)|;
      var at := if f.ip.None? then SkipIf(s, e, FIELD_SEPARATOR) else if b.ipClose then e else e + 1;
      EndsWithPort(f, b, tail, at);
    }
  }

  /** Which strings of the grammar are taken, from their characters: the path has at most 949, an
      address with a colon among its first 47 characters (46 behind an opening bracket) has at most
      47, all of them letters, digits, colons or square brackets; one without has at most 48, and
      they are of that kind if there is a colon further on, while otherwise only the first 16
      matter, which have to be digits or dots. */
  lemma AcceptedIff(f: Fields, b: Brackets, tail: string)
    requires Legal(f) && (f.ip.None? || b.ipClose || f.port.Some?)
    ensures Parse(Mem(Render(f, b), tail)).Accepted? <==>
      && |f.path| <= 949
      && (f.port.Some? ==> 1 <= Wrap32(Decimal(f.port.value)) <= 65535)
      && (f.ip.Some? ==>
            var ip := f.ip.value;
            var early := exists i :: 0 <= i < |ip| && i < (if b.ipOpen then 46 else 47) && ip[i] == ':';
            && |ip| <= (if early then 47 else 48)
            && if exists i :: 0 <= i < |ip| && ip[i] == ':' then
                 forall i :: 0 <= i < |ip| ==>
                   'a' <= ip[i] <= 'z' || 'A' <= ip[i] <= 'Z' || '0' <= ip[i] <= '9' || ip[i] == ':' || ip[i] == '[' || ip[i] == ']'
               else
                 forall i :: 0 <= i < |ip| && i < 16 ==> '0' <= ip[i] <= '9' || ip[i] == '.')
  {
    hide Parse, Render, Mem, Legal, LegalIp, StoredIp, Wrap32, Decimal;
    BracketsAreOptional(f, b, tail);
    if f.ip.Some? {
      ColonsShown(f.ip.value);
    }
  }

  lemma LocalhostIsRefused(tail: string)
    ensures Render(Fields("/bin/a", Some("localhost"), None), Brackets(true, true, false, false)) == "/bin/a|i<localhost>"
    ensures Parse(Mem("/bin/a|i<localhost>", tail)) == Rejected
  {
    hide Parse, Mem;
    var f, b := Fields("/bin/a", Some("localhost"), None), Brackets(true, true, false, false);
    assert f.ip.value[0] == 'l';
    AcceptedIff(f, b, tail);
    BracketsAreOptional(f, b, tail);
  }

  /** Brackets cannot always be ignored: two spellings of the same fields, each with its IP field
      closed or followed by a port, parse differently if and only if one of them opens its address
      with a bracket and the other does not, the first colon of the address is its 47th character,
      and the string is acceptable otherwise. */
  lemma BracketsMatterIff(f: Fields, b: Brackets, b': Brackets, tail: string, tail': string)
    requires Legal(f)
    requires f.ip.None? || f.port.Some? || (b.ipClose && b'.ipClose)
    ensures Parse(Mem(Render(f, b), tail)) != Parse(Mem(Render(f, b'), tail')) <==>
      && b.ipOpen != b'.ipOpen && f.ip.Some? && LateColon(f.ip.value)
      && |f.path| <= 949 && (f.port.Some? ==> AcceptedPort(f.port.value).Some?)
  {
    hide Parse, Render, Mem, Legal, Denotes, LateColon, AcceptedPort;
    BracketsAreOptional(f, b, tail);
    BracketsAreOptional(f, b', tail');
    DenotedDiffer(f);
  }

  /** 46 digits and a colon: stored in square brackets if the `<` is missing, bare otherwise. */
  lemma LateColonExample(path: string, tail: string)
    requires LegalPath(path) && |path| <= 949
    ensures var ip := seq(46, _ => '1') + ":"; var f := Fields(path, Some(ip), None);
      && Parse(Mem(Render(f, Brackets(false, true, false, false)), tail)) == Accepted(Conn(path, "[" + ip + "]", NO_PORT))
      && Parse(Mem(Render(f, Brackets(true, true, false, false)), tail)) == Accepted(Conn(path, ip, NO_PORT))
  {
    hide Parse, Render, Mem;
    var ip := seq(46, _ => '1') + ":";
    var f := Fields(path, Some(ip), None);
    assert ip[46] == ':';
    ColonsShown(ip);
    BracketsAreOptional(f, Brackets(false, true, false, false), tail);
    BracketsAreOptional(f, Brackets(true, true, false, false), tail);
  }

  lemma SkipShift(front: string, tail: string, at: nat, ch: char)
    requires at <= |tail|
    ensures SkipIf(front + tail, |front| + at, ch) == |front| + SkipIf(tail, at, ch)
  {
    assert at < |tail| ==> (front + tail)[|front| + at] == tail[at];
  }

  lemma FindShift(front: string, tail: string, at: nat, stops: set<char>)
    requires at <= |tail|
    ensures Find(front + tail, |front| + at, stops) == |front| + Find(tail, at, stops)
  {
    FindIs(front + tail, |front| + at, stops, |front| + Find(tail, at, stops));
  }

  lemma ParsePortShift(path: string, ip: string, front: string, tail: string)
    ensures ParsePort(path, ip, front + tail, |front|) == ParsePort(path, ip, tail, 0)
  {
    hide Find, AcceptedPort, SkipIf;
    var s, k := front + tail, |front|;
    SkipShift(front, tail, 0, FIELD_SEPARATOR);
    var p := SkipIf(tail, 0, FIELD_SEPARATOR);
    assert p < |tail| ==> s[k + p] == tail[p];
    if p < |tail| && tail[p] == 'p' {
      SkipShift(front, tail, p + 1, '<');
      var first := SkipIf(tail, p + 1, '<');
      FindShift(front, tail, first, FIELD_STOPS);
      var last := Find(tail, first, FIELD_STOPS);
      assert s[k + first..k + last] == tail[first..last];
    }
  }

  /** An IP field that is neither closed nor followed by a port: the parser steps over the
      terminator and takes what lies behind the string for the rest of it. */
  lemma UnclosedIpReadsOn(f: Fields, b: Brackets, tail: string)
    requires Legal(f) && Acceptable(f, b.ipOpen) && f.ip.Some? && f.port.None? && !b.ipClose
    ensures Parse(Mem(Render(f, b), tail)) == ParsePort(f.path, StoredIp(f.ip, b.ipOpen), tail, 0)
  {
    hide ParsePort, Acceptable, Legal, StoredIp, IpField;
    ParseReachesPort(f, b, tail);
    var front := Render(f, b) + [NUL];
    assert PortField(f, b) == "" && |front| == |f.path| + |IpField(f, b)| + 1;
    ParsePortShift(f.path, StoredIp(f.ip, b.ipOpen), front, tail);
  }

  /** What lies behind the string starts with a port field, or ends before that can be told. */
  predicate DisturbedBy(tail: string) {
    var p := SkipIf(tail, 0, FIELD_SEPARATOR);
    p == |tail| || tail[p] == 'p'
  }

  /** For every legal string, every choice of brackets and every surrounding memory: the parse
      is the one the grammar denotes unless an acceptable IP field ends the string unclosed and
      the bytes behind the string disturb it. */
  lemma ParseMeetsGrammar(f: Fields, b: Brackets, tail: string)
    requires Legal(f)
    ensures Parse(Mem(Render(f, b), tail)) == Denotes(f, b.ipOpen) <==>
      !(f.ip.Some? && f.port.None? && !b.ipClose && Acceptable(f, b.ipOpen) && DisturbedBy(tail))
  {
    hide Acceptable;
    if f.ip.None? || b.ipClose || f.port.Some? {
      BracketsAreOptional(f, b, tail);
    } else if !Acceptable(f, b.ipOpen) {
      ParseReachesPort(f, b, tail);
    } else {
      UnclosedIpReadsOn(f, b, tail);
      var r := ParsePort(f.path, StoredIp(f.ip, b.ipOpen), tail, 0);
      assert r.Accepted? && DisturbedBy(tail) ==> ValidPortNumber(r.conn.port);
    }
  }

  const STALE := "p<22>\0"

  lemma PortTwentyTwo()
    ensures AcceptedPort("22") == Some(22)
  {
    DecimalAppend("", '2', "2");
    DecimalAppend("2", '2', "22");
  }

  lemma StaleIsPort(path: string, ip: string, tail: string)
    requires STALE <= tail
    ensures ParsePort(path, ip, tail, 0) == Accepted(Conn(path, ip, 22))
  {
    hide AcceptedPort, ParsePort, Find;
    PortTwentyTwo();
    assert forall i :: 0 <= i < 6 ==> tail[i] == STALE[i];
    assert FieldAt(tail, 0, 2, "22");
    PortFieldParses(path, ip, tail, 0, 0, 2, "22");
  }

  /** Left-overs of an earlier string: with them behind it, every acceptable string that ends in
      an unclosed IP field becomes a rule for port 22 only. */
  lemma UnclosedIpIsMisread(f: Fields, b: Brackets, tail: string)
    requires Legal(f) && Acceptable(f, b.ipOpen) && f.ip.Some? && f.port.None? && !b.ipClose
    requires STALE <= tail
    ensures Parse(Mem(Render(f, b), tail)) == Accepted(Conn(f.path, StoredIp(f.ip, b.ipOpen), 22)) != Denotes(f, b.ipOpen)
  {
    hide Parse, ParsePort, StoredIp, Render, Mem, Legal, Acceptable, AcceptedPort;
    UnclosedIpReadsOn(f, b, tail);
    StaleIsPort(f.path, StoredIp(f.ip, b.ipOpen), tail);
  }

  lemma UnclosedIpExample()
    ensures var f := Fields("/bin/a", Some("1.2.3.4"), None); var b := Brackets(false, false, false, false);
      && Render(f, b) == "/bin/a|i1.2.3.4"
      && Denotes(f, false) == Accepted(Conn("/bin/a", "1.2.3.4", NO_PORT))
      && Parse(Mem("/bin/a|i1.2.3.4", STALE)) == Accepted(Conn("/bin/a", "1.2.3.4", 22))
  {
    hide Parse;
    var f := Fields("/bin/a", Some("1.2.3.4"), None);
    assert !HasColon("1.2.3.4") && !ShowsColon("1.2.3.4", false);
    UnclosedIpIsMisread(f, Brackets(false, false, false, false), STALE);
  }
}
