/** netlog/src/inet_utils.c: what an address looks like as text, and how the probes print one. */
module InetUtils {
  import opened Basics
  import opened CStrings

  const INET6_ADDRSTRLEN := 48
  const INET_ADDRSTRLEN := 16

  // ---------- recognising addresses

  predicate IpCharacter(ch: char) {
    ch == '.' || '0' <= ch <= '9'
  }

  predicate Ipv6Character(ch: char) {
    ch == ':' || ch == '[' || ch == ']' || '0' <= ch <= '9' || 'A' <= ch <= 'Z' || 'a' <= ch <= 'z'
  }

  predicate ValidPortNumber(port: int) {
    port > 0 && port < 65536
  }

  /** Only a colon within the first 48 characters makes a text an IPv6 address. */
  predicate ColonInWindow(ip: string) {
    exists i :: 0 <= i < Min(|ip|, INET6_ADDRSTRLEN) && ip[i] == ':'
  }

  /** The texts that pass the character check: 50 characters of an IPv6 text are looked at,
      but only 16 of an IPv4 text. */
  predicate ValidIpText(ip: string) {
    if ColonInWindow(ip) then
      forall i :: 0 <= i < Min(|ip|, INET6_ADDRSTRLEN + 2) ==> Ipv6Character(ip[i])
    else
      forall i :: 0 <= i < Min(|ip|, INET_ADDRSTRLEN) ==> IpCharacter(ip[i])
  }

  method LooksLikeIpv6(s: string, at: nat) returns (r: bool)
    requires Terminated(s, at)
    ensures r == ColonInWindow(CStrAt(s, at))
  {
    ghost var text := CStrAt(s, at);
    var i := 0;
    while i < INET6_ADDRSTRLEN && s[at + i] != NUL
      invariant 0 <= i <= INET6_ADDRSTRLEN && i <= |text|
      invariant forall k :: 0 <= k < i ==> text[k] != ':'
    {
      assert i < |text|;
      if s[at + i] == ':' {
        assert text[i] == ':';
        return true;
      }
      i := i + 1;
    }
    return false;
  }

  method LooksLikeValidIp(ip: string) returns (r: bool)
    requires Terminated(ip, 0)
    ensures r == ValidIpText(CStr(ip))
  {
    ghost var text := CStr(ip);
    assert CStrAt(ip, 0) == text;
    var v6 := LooksLikeIpv6(ip, 0);
    var i := 0;
    if v6 {
      while i < INET6_ADDRSTRLEN + 2 && ip[i] != NUL
        invariant 0 <= i <= INET6_ADDRSTRLEN + 2 && i <= |text|
        invariant forall k :: 0 <= k < i ==> Ipv6Character(text[k])
      {
        assert i < |text|;
        if !Ipv6Character(ip[i]) {
          assert !Ipv6Character(text[i]);
          return false;
        }
        i := i + 1;
      }
      return true;
    } else {
      while i < INET_ADDRSTRLEN && ip[i] != NUL
        invariant 0 <= i <= INET_ADDRSTRLEN && i <= |text|
        invariant forall k :: 0 <= k < i ==> IpCharacter(text[k])
      {
        assert i < |text|;
        if !IpCharacter(ip[i]) {
          assert !IpCharacter(text[i]);
          return false;
        }
        i := i + 1;
      }
      return true;
    }
  }

  // ---------- numbers as text

  function Digit(d: nat): char
    requires d < 10
  {
    '0' + d as char
  }

  predicate IsDigit(ch: char) {
    '0' <= ch <= '9'
  }

  /** `%u` */
  function Dec(n: nat): (s: string)
    ensures s != "" && forall i :: 0 <= i < |s| ==> IsDigit(s[i])
  {
    if n < 10 then [Digit(n)] else Dec(n / 10) + [Digit(n % 10)]
  }

  function HexDigit(d: nat): (ch: char)
    requires d < 16
    ensures '0' <= ch <= '9' || 'a' <= ch <= 'f'
  {
    if d < 10 then '0' + d as char else 'a' + (d - 10) as char
  }

  /** `%04x` */
  function Hex4(w: nat): (s: string)
    requires w < 0x10000
    ensures |s| == 4
  {
    [HexDigit(w / 16 / 16 / 16), HexDigit(w / 16 / 16 % 16), HexDigit(w / 16 % 16), HexDigit(w % 16)]
  }

  lemma HexDigitInjective(c: nat, d: nat, x: char, y: char)
    requires c < 16 && d < 16 && x == HexDigit(c) && y == HexDigit(d) && x == y
    ensures c == d
  {
  }

  lemma Hex4Injective(v: nat, w: nat)
    requires v < 0x10000 && w < 0x10000
    requires Hex4(v) == Hex4(w)
    ensures v == w
  {
    var a, b := Hex4(v), Hex4(w);
    HexDigitInjective(v / 16 / 16 / 16, w / 16 / 16 / 16, a[0], b[0]);
    HexDigitInjective(v / 16 / 16 % 16, w / 16 / 16 % 16, a[1], b[1]);
    HexDigitInjective(v / 16 % 16, w / 16 % 16, a[2], b[2]);
    HexDigitInjective(v % 16, w % 16, a[3], b[3]);
  }

  lemma {:induction false} DecInjective(m: nat, n: nat)
    requires Dec(m) == Dec(n)
    ensures m == n
  {
    var s, t := Dec(m), Dec(n);
    assert s[|s| - 1] == t[|t| - 1];
    if m < 10 || n < 10 {
    } else {
      assert s[..|s| - 1] == Dec(m / 10) && t[..|t| - 1] == Dec(n / 10);
      DecInjective(m / 10, n / 10);
    }
  }

  lemma {:induction false} DecLength(n: nat, k: nat)
    requires n < Pow10(k)
    ensures |Dec(n)| <= if k == 0 then 1 else k
  {
    if n < 10 || k == 0 {
    } else {
      DecLength(n / 10, k - 1);
    }
  }

  function Pow10(k: nat): (p: nat)
    ensures p >= 1
  {
    if k == 0 then 1 else 10 * Pow10(k - 1)
  }

  // ---------- printing addresses

  datatype SocketAddress = Inet(octets: seq<nat>) | Inet6(groups: seq<nat>) | OtherFamily

  predicate WellFormedAddress(a: SocketAddress) {
    match a
    case Inet(o) => |o| == 4 && forall i :: 0 <= i < 4 ==> o[i] < 256
    case Inet6(g) => |g| == 8 && forall i :: 0 <= i < 8 ==> g[i] < 0x10000
    case OtherFamily => true
  }

  function DottedQuad(o: seq<nat>): string
    requires |o| == 4
  {
    Dec(o[0]) + "." + (Dec(o[1]) + "." + (Dec(o[2]) + "." + Dec(o[3])))
  }

  function HexGroups(g: seq<nat>): string
    requires g != [] && forall i :: 0 <= i < |g| ==> g[i] < 0x10000
  {
    if |g| == 1 then Hex4(g[0]) else Hex4(g[0]) + ":" + HexGroups(g[1..])
  }

  /** The address as an administrator writes it, without the brackets. */
  function PlainText(a: SocketAddress): string
    requires WellFormedAddress(a) && !a.OtherFamily?
  {
    match a
    case Inet(o) => DottedQuad(o)
    case Inet6(g) => HexGroups(g)
  }

  /** get_destination_ip_sk, get_source_ip_sk and get_ip: the text left in the static buffer,
      or NULL for a family that is neither IPv4 nor IPv6. */
  function PrintAddress(a: SocketAddress): Option<string>
    requires WellFormedAddress(a)
  {
    match a
    case Inet(o) => Some(Snprintf(INET_ADDRSTRLEN, DottedQuad(o)))
    case Inet6(g) => Some(Snprintf(INET6_ADDRSTRLEN + 2, "[" + HexGroups(g) + "]"))
    case OtherFamily => None
  }

  lemma DottedQuadShape(o: seq<nat>)
    requires |o| == 4 && forall i :: 0 <= i < 4 ==> o[i] < 256
    ensures 1 <= |DottedQuad(o)| <= 15
    ensures forall i :: 0 <= i < |DottedQuad(o)| ==> IpCharacter(DottedQuad(o)[i])
    ensures IsDigit(DottedQuad(o)[0])
  {
    assert Pow10(3) == 1000 by {
      assert Pow10(1) == 10 && Pow10(2) == 100;
    }
    DecLength(o[0], 3);
    DecLength(o[1], 3);
    DecLength(o[2], 3);
    DecLength(o[3], 3);
  }

  lemma {:induction false} HexGroupsShape(g: seq<nat>)
    requires g != [] && forall i :: 0 <= i < |g| ==> g[i] < 0x10000
    ensures |HexGroups(g)| == 5 * |g| - 1
    ensures |g| > 1 ==> HexGroups(g)[4] == ':'
    ensures forall i :: 0 <= i < |HexGroups(g)| ==>
      var ch := HexGroups(g)[i]; ch == ':' || '0' <= ch <= '9' || 'a' <= ch <= 'f'
  {
    if |g| == 1 {
    } else {
      HexGroupsShape(g[1..]);
    }
  }

  /** No printer truncates: 16 and 50 bytes are enough for every address. */
  lemma PrintersDoNotTruncate(a: SocketAddress)
    requires WellFormedAddress(a) && !a.OtherFamily?
    ensures PrintAddress(a) == Some(if a.Inet? then PlainText(a) else "[" + PlainText(a) + "]")
  {
    match a
    case Inet(o) =>
      DottedQuadShape(o);
      assert DottedQuad(o)[..|DottedQuad(o)|] == DottedQuad(o);
    case Inet6(g) =>
      HexGroupsShape(g);
      var text := "[" + HexGroups(g) + "]";
      assert |text| == 41 && text[..41] == text;
  }

  /** A separator cuts a text at one place only. */
  lemma CutIsUnique(x: string, r: string, y: string, t: string, sep: char)
    requires sep !in x && sep !in y
    requires x + [sep] + r == y + [sep] + t
    ensures x == y && r == t
  {
    var m := x + [sep] + r;
    assert m[|x|] == sep && m[|y|] == sep;
    assert |x| == |y|;
    assert x == m[..|x|] && y == m[..|y|];
    assert r == m[|x| + 1..] && t == m[|y| + 1..];
  }

  lemma DottedQuadInjective(o: seq<nat>, p: seq<nat>)
    requires |o| == 4 && |p| == 4
    requires DottedQuad(o) == DottedQuad(p)
    ensures o == p
  {
    CutIsUnique(Dec(o[0]), Dec(o[1]) + "." + (Dec(o[2]) + "." + Dec(o[3])),
                Dec(p[0]), Dec(p[1]) + "." + (Dec(p[2]) + "." + Dec(p[3])), '.');
    CutIsUnique(Dec(o[1]), Dec(o[2]) + "." + Dec(o[3]), Dec(p[1]), Dec(p[2]) + "." + Dec(p[3]), '.');
    CutIsUnique(Dec(o[2]), Dec(o[3]), Dec(p[2]), Dec(p[3]), '.');
    DecInjective(o[0], p[0]);
    DecInjective(o[1], p[1]);
    DecInjective(o[2], p[2]);
    DecInjective(o[3], p[3]);
  }

  lemma {:induction false} HexGroupsInjective(g: seq<nat>, h: seq<nat>)
    requires |g| == |h| > 0
    requires forall i :: 0 <= i < |g| ==> g[i] < 0x10000 && h[i] < 0x10000
    requires HexGroups(g) == HexGroups(h)
    ensures g == h
  {
    assert HexGroups(g)[..4] == Hex4(g[0]) && HexGroups(h)[..4] == Hex4(h[0]);
    Hex4Injective(g[0], h[0]);
    if |g| == 1 {
    } else {
      assert HexGroups(g)[5..] == HexGroups(g[1..]) && HexGroups(h)[5..] == HexGroups(h[1..]);
      HexGroupsInjective(g[1..], h[1..]);
    }
    assert g == [g[0]] + g[1..] && h == [h[0]] + h[1..];
  }

  /** Two addresses print alike only if they are the same address of the same family. */
  lemma PrintAddressInjective(a: SocketAddress, b: SocketAddress)
    requires WellFormedAddress(a) && WellFormedAddress(b)
    requires PrintAddress(a) == PrintAddress(b)
    ensures a == b
  {
    if !a.OtherFamily? && !b.OtherFamily? {
      PrintersDoNotTruncate(a);
      PrintersDoNotTruncate(b);
      var s, t := PrintAddress(a).value, PrintAddress(b).value;
      match (a, b) {
        case (Inet(o), Inet(p)) =>
          DottedQuadInjective(o, p);
        case (Inet6(g), Inet6(h)) =>
          assert s[1..|s| - 1] == HexGroups(g) && t[1..|t| - 1] == HexGroups(h);
          HexGroupsInjective(g, h);
        case (Inet(o), Inet6(_)) =>
          DottedQuadShape(o);
        case (Inet6(_), Inet(p)) =>
          DottedQuadShape(p);
      }
    }
  }

  const ANY_IPV4 := "0.0.0.0"
  /** "[0000:0000:0000:0000:0000:0000:0000:0000]" */
  const ANY_IPV6 := "[" + ZeroGroups(8) + "]"

  function ZeroGroups(k: nat): (s: string)
    requires k > 0
    ensures |s| == 5 * k - 1
  {
    if k == 1 then "0000" else "0000:" + ZeroGroups(k - 1)
  }

  predicate AnyIpAddress(ip: Option<string>) {
    ip.Some? && (StrnEq(ip.value, ANY_IPV4, INET_ADDRSTRLEN) || StrnEq(ip.value, ANY_IPV6, INET6_ADDRSTRLEN + 2))
  }

  lemma {:induction false} ZeroGroupsPrinted(g: seq<nat>)
    requires g != [] && forall i :: 0 <= i < |g| ==> g[i] == 0
    ensures HexGroups(g) == ZeroGroups(|g|)
  {
    assert Hex4(0) == "0000";
    if |g| == 1 {
    } else {
      ZeroGroupsPrinted(g[1..]);
      assert "0000" + ":" == "0000:";
    }
  }

  lemma AnyTextsAreShort()
    ensures |ANY_IPV4| < INET_ADDRSTRLEN && |ANY_IPV6| < INET6_ADDRSTRLEN + 2
  {
  }

  lemma AnyAddressTexts()
    ensures PrintAddress(Inet([0, 0, 0, 0])) == Some(ANY_IPV4)
    ensures PrintAddress(Inet6([0, 0, 0, 0, 0, 0, 0, 0])) == Some(ANY_IPV6)
  {
    ZeroGroupsPrinted([0, 0, 0, 0, 0, 0, 0, 0]);
    PrintersDoNotTruncate(Inet6([0, 0, 0, 0, 0, 0, 0, 0]));
    assert Dec(0) == "0";
    var o := [0, 0, 0, 0];
    assert DottedQuad(o) == ANY_IPV4;
    PrintersDoNotTruncate(Inet(o));
  }

  lemma {:induction false} StrnEqSymmetric(p: string, q: string, n: nat)
    ensures StrnEq(p, q, n) <==> StrnEq(q, p, n)
  {
    if n == 0 || p == "" || q == "" {
    } else {
      StrnEqSymmetric(p[1..], q[1..], n - 1);
    }
  }

  lemma StrnEqIsEqualityWith(ip: Option<string>, text: string, n: nat)
    requires |text| < n
    ensures ip.Some? ==> (StrnEq(ip.value, text, n) <==> ip.value == text)
  {
    if ip.Some? {
      StrnEqIsEquality(text, ip.value, n);
      StrnEqSymmetric(text, ip.value, n);
    }
  }

  /** The printed text is recognised as "any address" for the two unspecified addresses only. */
  lemma AnyIpAddressIsUnspecified(a: SocketAddress)
    requires WellFormedAddress(a)
    ensures AnyIpAddress(PrintAddress(a)) <==>
      a == Inet([0, 0, 0, 0]) || a == Inet6([0, 0, 0, 0, 0, 0, 0, 0])
  {
    hide PrintAddress, StrnEq, ZeroGroups, ANY_IPV4, ANY_IPV6;
    AnyAddressTexts();
    AnyTextsAreShort();
    StrnEqIsEqualityWith(PrintAddress(a), ANY_IPV4, INET_ADDRSTRLEN);
    StrnEqIsEqualityWith(PrintAddress(a), ANY_IPV6, INET6_ADDRSTRLEN + 2);
    if PrintAddress(a) == Some(ANY_IPV4) {
      PrintAddressInjective(a, Inet([0, 0, 0, 0]));
    } else if PrintAddress(a) == Some(ANY_IPV6) {
      PrintAddressInjective(a, Inet6([0, 0, 0, 0, 0, 0, 0, 0]));
    }
  }
}
