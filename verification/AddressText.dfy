/** What the printed addresses say, read back from their characters: four decimal numbers with dots
    between them, or eight words of four hexadecimal digits with colons between them. */
module AddressText {
  import opened Basics
  import opened CStrings
  import opened InetUtils
  import opened PortNumber

  // ---------- decimal numbers

  /** The usual way to write a number: digits, and no zero in front. */
  predicate Writes(t: string, v: int) {
    && t != "" && (forall i :: 0 <= i < |t| ==> '0' <= t[i] <= '9')
    && (t[0] == '0' ==> |t| == 1) && Decimal(t) == v
  }

  lemma {:induction false} DecWrites(n: nat)
    ensures Writes(Dec(n), n)
    ensures n > 0 ==> Dec(n)[0] != '0'
  {
    DecimalOfDec(n);
    if n < 10 {
    } else {
      DecWrites(n / 10);
    }
  }

  lemma {:induction false} PositiveFromFront(t: string)
    requires t != "" && t[0] != '0' && forall i :: 0 <= i < |t| ==> '0' <= t[i] <= '9'
    ensures Decimal(t) >= 1
  {
    if |t| == 1 {
      assert t[..0] == "" && Decimal("") == 0;
    } else {
      PositiveFromFront(t[..|t| - 1]);
    }
  }

  lemma DecOfDigits(x: nat, w: nat)
    requires w < 10
    ensures Dec(w) == [Digit(w)] && (x >= 1 ==> Dec(10 * x + w) == Dec(x) + [Digit(w)])
  {
    assert (10 * x + w) / 10 == x && (10 * x + w) % 10 == w;
  }

  lemma DecimalUnfolds(t: string)
    ensures Decimal("") == 0
    ensures t != "" ==> Decimal(t) == 10 * Decimal(t[..|t| - 1]) + Weight(t[|t| - 1])
  {
  }

  lemma DigitOfWeight(ch: char)
    requires '0' <= ch <= '9'
    ensures 0 <= Weight(ch) < 10 && Digit(Weight(ch)) == ch
  {
  }

  /** There is one way to write a number. */
  lemma {:induction false} WritesOnce(t: string, v: int)
    requires Writes(t, v)
    ensures v >= 0 && t == Dec(v)
  {
    hide Decimal, Dec, Digit, Weight;
    var u, ch := t[..|t| - 1], t[|t| - 1];
    DecimalUnfolds(t);
    DigitOfWeight(ch);
    assert t == u + [ch];
    if |t| == 1 {
      assert u == "";
      DecOfDigits(0, Weight(ch));
    } else {
      PositiveFromFront(u);
      WritesOnce(u, Decimal(u));
      DecOfDigits(Decimal(u), Weight(ch));
    }
  }

  /** Four numbers with dots between them. */
  ghost predicate ReadsAsIpv4(t: string, o: seq<nat>)
    requires |o| == 4
  {
    exists a, b, c, d ::
      Writes(a, o[0]) && Writes(b, o[1]) && Writes(c, o[2]) && Writes(d, o[3]) && t == a + "." + b + "." + c + "." + d
  }

  lemma ReadsBy(a: string, b: string, c: string, d: string, o: seq<nat>)
    requires |o| == 4 && Writes(a, o[0]) && Writes(b, o[1]) && Writes(c, o[2]) && Writes(d, o[3])
    ensures ReadsAsIpv4(a + "." + b + "." + c + "." + d, o)
  {
  }

  lemma DotsAssociate(a: string, b: string, c: string, d: string)
    ensures a + "." + (b + "." + (c + "." + d)) == a + "." + b + "." + c + "." + d
  {
  }

  lemma DottedQuadReads(t: string, o: seq<nat>)
    requires |o| == 4
    ensures t == DottedQuad(o) <==> ReadsAsIpv4(t, o)
  {
    hide Writes, Dec;
    DotsAssociate(Dec(o[0]), Dec(o[1]), Dec(o[2]), Dec(o[3]));
    DecWrites(o[0]);
    DecWrites(o[1]);
    DecWrites(o[2]);
    DecWrites(o[3]);
    if ReadsAsIpv4(t, o) {
      var a, b, c, d :|
        Writes(a, o[0]) && Writes(b, o[1]) && Writes(c, o[2]) && Writes(d, o[3]) && t == a + "." + b + "." + c + "." + d;
      WritesOnce(a, o[0]);
      WritesOnce(b, o[1]);
      WritesOnce(c, o[2]);
      WritesOnce(d, o[3]);
    }
  }

  // ---------- hexadecimal words

  function HexWeight(ch: char): int {
    if '0' <= ch <= '9' then ch as int - '0' as int
    else if 'a' <= ch <= 'f' then ch as int - 'a' as int + 10
    else -1
  }

  /** Four lower-case digits and their value. */
  predicate WritesHex(t: string, w: int) {
    && |t| == 4 && (forall i :: 0 <= i < 4 ==> 0 <= HexWeight(t[i]))
    && 4096 * HexWeight(t[0]) + 256 * HexWeight(t[1]) + 16 * HexWeight(t[2]) + HexWeight(t[3]) == w
  }

  lemma HexDigitWeighs(d: nat, ch: char)
    requires d < 16
    ensures ch == HexDigit(d) <==> HexWeight(ch) == d
  {
  }

  lemma HexPlaces(w: nat)
    requires w < 0x10000
    ensures 4096 * (w / 16 / 16 / 16) + 256 * (w / 16 / 16 % 16) + 16 * (w / 16 % 16) + w % 16 == w
  {
  }

  lemma HexPlacesUnique(w: nat, a: nat, b: nat, c: nat, d: nat)
    requires a < 16 && b < 16 && c < 16 && d < 16 && 4096 * a + 256 * b + 16 * c + d == w
    ensures w / 16 / 16 / 16 == a && w / 16 / 16 % 16 == b && w / 16 % 16 == c && w % 16 == d
  {
    assert w / 16 == 256 * a + 16 * b + c;
    assert w / 16 / 16 == 16 * a + b;
  }

  lemma HexWeightBelow(t: string)
    ensures forall i :: 0 <= i < |t| ==> HexWeight(t[i]) < 16
  {
  }

  lemma Hex4Writes(t: string, w: nat)
    requires w < 0x10000
    ensures t == Hex4(w) <==> WritesHex(t, w)
  {
    hide HexDigit, HexWeight;
    var h := Hex4(w);
    HexPlaces(w);
    HexDigitWeighs(w / 16 / 16 / 16, h[0]);
    HexDigitWeighs(w / 16 / 16 % 16, h[1]);
    HexDigitWeighs(w / 16 % 16, h[2]);
    HexDigitWeighs(w % 16, h[3]);
    if WritesHex(t, w) {
      HexWeightBelow(t);
      HexPlacesUnique(w, HexWeight(t[0]), HexWeight(t[1]), HexWeight(t[2]), HexWeight(t[3]));
      HexDigitWeighs(w / 16 / 16 / 16, t[0]);
      HexDigitWeighs(w / 16 / 16 % 16, t[1]);
      HexDigitWeighs(w / 16 % 16, t[2]);
      HexDigitWeighs(w % 16, t[3]);
      assert t == [t[0], t[1], t[2], t[3]];
    }
  }

  /** The k-th word of a text whose words take five characters each. */
  predicate WordAt(t: string, g: seq<nat>, k: nat)
    requires |t| == 5 * |g| - 1 && k < |g|
  {
    WritesHex(t[5 * k..5 * k + 4], g[k])
  }

  predicate ColonAt(t: string, g: seq<nat>, k: nat)
    requires |t| == 5 * |g| - 1 && k + 1 < |g|
  {
    t[5 * k + 4] == ':'
  }

  /** Words of four digits with colons between them. */
  predicate ReadsAsWords(t: string, g: seq<nat>) {
    && |t| == 5 * |g| - 1
    && (forall k :: 0 <= k < |g| ==> WordAt(t, g, k))
    && (forall k :: 0 <= k < |g| - 1 ==> ColonAt(t, g, k))
  }

  lemma NextWord(t: string, g: seq<nat>, k: nat)
    requires |g| > 1 && |t| == 5 * |g| - 1 && k < |g| - 1
    ensures WordAt(t[5..], g[1..], k) <==> WordAt(t, g, k + 1)
    ensures k < |g| - 2 ==> (ColonAt(t[5..], g[1..], k) <==> ColonAt(t, g, k + 1))
  {
    hide WritesHex;
    assert t[5..][5 * k..5 * k + 4] == t[5 * (k + 1)..5 * (k + 1) + 4];
    if k < |g| - 2 {
      assert t[5..][5 * k + 4] == t[5 * (k + 1) + 4];
    }
  }

  lemma RestOfWords(t: string, g: seq<nat>)
    requires |g| > 1 && |t| == 5 * |g| - 1
    ensures ReadsAsWords(t, g) <==> WordAt(t, g, 0) && ColonAt(t, g, 0) && ReadsAsWords(t[5..], g[1..])
  {
    hide WordAt, ColonAt;
    forall k: nat | k < |g| - 1
      ensures WordAt(t[5..], g[1..], k) <==> WordAt(t, g, k + 1)
      ensures k < |g| - 2 ==> (ColonAt(t[5..], g[1..], k) <==> ColonAt(t, g, k + 1))
    {
      NextWord(t, g, k);
    }
    if WordAt(t, g, 0) && ColonAt(t, g, 0) && ReadsAsWords(t[5..], g[1..]) {
      forall k | 0 <= k < |g|
        ensures WordAt(t, g, k)
      {
        assert k > 0 ==> WordAt(t[5..], g[1..], k - 1);
      }
      forall k | 0 <= k < |g| - 1
        ensures ColonAt(t, g, k)
      {
        assert k > 0 ==> ColonAt(t[5..], g[1..], k - 1);
      }
    }
  }

  lemma WordsFirst(t: string, g: seq<nat>)
    requires |g| > 1 && |t| == 5 * |g| - 1
    ensures ReadsAsWords(t, g) <==> WritesHex(t[..4], g[0]) && t[4] == ':' && ReadsAsWords(t[5..], g[1..])
  {
    var u, h := t[5..], g[1..];
    assert (WordAt(t, g, 0) <==> WritesHex(t[..4], g[0])) && (ColonAt(t, g, 0) <==> t[4] == ':');
    RestOfWords(t, g);
  }

  lemma {:induction false} HexGroupsRead(t: string, g: seq<nat>)
    requires g != [] && forall i :: 0 <= i < |g| ==> g[i] < 0x10000
    ensures t == HexGroups(g) <==> ReadsAsWords(t, g)
    decreases |g|
  {
    hide WritesHex, Hex4;
    HexGroupsShape(g);
    if |t| == 5 * |g| - 1 {
      Hex4Writes(t[..4], g[0]);
      if |g| == 1 {
        assert t[..4] == t && (WordAt(t, g, 0) <==> WritesHex(t, g[0]));
      } else {
        WordsFirst(t, g);
        HexGroupsRead(t[5..], g[1..]);
        assert t == t[..4] + [t[4]] + t[5..];
        assert HexGroups(g) == Hex4(g[0]) + [':'] + HexGroups(g[1..]);
      }
    }
  }

  // ---------- the printers

  predicate ReadsAsIpv6(t: string, g: seq<nat>) {
    |t| >= 2 && t[0] == '[' && t[|t| - 1] == ']' && ReadsAsWords(t[1..|t| - 1], g)
  }

  lemma BracketsRead(t: string, u: string)
    ensures t == "[" + u + "]" <==> |t| >= 2 && t[0] == '[' && t[|t| - 1] == ']' && t[1..|t| - 1] == u
  {
    if |t| >= 2 {
      assert t == [t[0]] + t[1..|t| - 1] + [t[|t| - 1]];
    }
  }

  /** The printers write the address and nothing else: an IPv4 text is the four octets in order, in
      decimal with dots between them, an IPv6 text the eight words in order, in four lower-case
      hexadecimal digits with colons between them and square brackets around them. */
  lemma PrintedReads(a: SocketAddress, t: string)
    requires WellFormedAddress(a)
    ensures PrintAddress(a) == Some(t) <==>
      match a
      case Inet(o) => ReadsAsIpv4(t, o)
      case Inet6(g) => ReadsAsIpv6(t, g)
      case OtherFamily => false
  {
    hide DottedQuad, HexGroups, ReadsAsIpv4, ReadsAsWords, Snprintf;
    match a
    case Inet(o) =>
      PrintersDoNotTruncate(a);
      DottedQuadReads(t, o);
    case Inet6(g) =>
      PrintersDoNotTruncate(a);
      BracketsRead(t, HexGroups(g));
      if |t| >= 2 {
        HexGroupsRead(t[1..|t| - 1], g);
      }
    case OtherFamily =>
  }

  lemma SmallNumbers()
    ensures Writes("10", 10) && Writes("0", 0) && Writes("1", 1)
  {
    DecimalAppend("", '1', "1");
    DecimalAppend("1", '0', "10");
    DecimalAppend("", '0', "0");
  }

  lemma Ipv4Example()
    ensures PrintAddress(Inet([10, 0, 0, 1])) == Some("10.0.0.1")
  {
    hide Writes, PrintAddress;
    SmallNumbers();
    var o: seq<nat> := [10, 0, 0, 1];
    var a, b, c, d := "10", "0", "0", "1";
    assert a + "." + b + "." + c + "." + d == "10.0.0.1";
    ReadsBy(a, b, c, d, o);
    PrintedReads(Inet(o), "10.0.0.1");
  }

  /** A text for an address, as an administrator writes it. */
  ghost predicate WritesAddress(t: string, a: SocketAddress) {
    match a
    case Inet(o) => |o| == 4 && ReadsAsIpv4(t, o)
    case Inet6(g) => ReadsAsWords(t, g)
    case OtherFamily => false
  }

  lemma PlainTextWrites(a: SocketAddress, t: string)
    requires WellFormedAddress(a) && !a.OtherFamily?
    ensures WritesAddress(t, a) <==> t == PlainText(a)
  {
    hide DottedQuad, HexGroups, ReadsAsIpv4, ReadsAsWords;
    match a
    case Inet(o) => DottedQuadReads(t, o);
    case Inet6(g) => HexGroupsRead(t, g);
  }
}
