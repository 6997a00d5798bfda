/** The port field of a connection string: netlog/src/connection.c reads it from its last
    character to its first, in 32-bit arithmetic. */
module PortNumber {
  import opened Basics
  import opened InetUtils

  const TWO31 := 0x8000_0000
  const TWO32 := 0x1_0000_0000

  /** Two's complement wrap-around of an `int`. */
  function Wrap32(x: int): int {
    (x + TWO31) % TWO32 - TWO31
  }

  predicate FitsInt(x: int) {
    -TWO31 <= x < TWO31
  }

  /** `ch - '0'`, with `char` signed. */
  function Weight(ch: char): int {
    if ch as int < 128 then ch as int - 48 else ch as int - 256 - 48
  }

  predicate AllDigits(t: string) {
    forall i :: 0 <= i < |t| ==> IsDigit(t[i])
  }

  /** The number a text denotes, read from left to right. */
  function Decimal(t: string): int {
    if t == "" then 0 else 10 * Decimal(t[..|t| - 1]) + Weight(t[|t| - 1])
  }

  lemma WrapMultiple(x: int, k: int)
    ensures Wrap32(x + k * TWO32) == Wrap32(x)
  {
    assert (x + TWO31 + k * TWO32) % TWO32 == (x + TWO31) % TWO32;
  }

  lemma WrapIsCongruent(x: int) returns (k: int)
    ensures Wrap32(x) == x + k * TWO32
  {
    k := -((x + TWO31) / TWO32);
  }

  /** Wrapping every intermediate result gives the wrapped exact result. */
  lemma WrapStep(p: int, d: int, b: int)
    ensures Wrap32(Wrap32(p) + Wrap32(d * Wrap32(b))) == Wrap32(p + d * b)
  {
    var kp := WrapIsCongruent(p);
    var kb := WrapIsCongruent(b);
    var kd := WrapIsCongruent(d * Wrap32(b));
    assert d * (b + kb * TWO32) == d * b + (d * kb) * TWO32;
    WrapMultiple(p + d * b, kp + d * kb + kd);
  }

  lemma WrapBase(b: int)
    ensures Wrap32(Wrap32(b) * 10) == Wrap32(10 * b)
  {
    var k := WrapIsCongruent(b);
    WrapMultiple(10 * b, 10 * k);
  }

  lemma DecimalAppend(t: string, ch: char, u: string)
    requires u == t + [ch]
    ensures Decimal(u) == 10 * Decimal(t) + Weight(ch)
  {
    assert u[..|t|] == t;
  }

  lemma PlaceValue(d: int, k: nat)
    ensures 10 * (d * Pow10(k)) == d * Pow10(k + 1)
  {
  }

  /** Taking the digit before a text into account adds it at the text's place value. */
  lemma {:induction false} DecimalPrepend(ch: char, t: string)
    ensures Decimal([ch] + t) == Weight(ch) * Pow10(|t|) + Decimal(t)
  {
    if t == "" {
      assert [ch] + t == [ch] && ([ch] + t)[..0] == "";
    } else {
      var u, w, s := t[..|t| - 1], Weight(t[|t| - 1]), [ch] + t;
      assert s[..|s| - 1] == [ch] + u;
      DecimalPrepend(ch, u);
      DecimalAppend([ch] + u, t[|t| - 1], s);
      DecimalAppend(u, t[|t| - 1], t);
      PlaceValue(Weight(ch), |u|);
    }
  }

  lemma {:induction false} DecimalOfDigits(t: string)
    requires AllDigits(t)
    ensures 0 <= Decimal(t) < Pow10(|t|)
  {
    if t == "" {
    } else {
      DecimalOfDigits(t[..|t| - 1]);
    }
  }

  lemma {:induction false} DecimalOfDec(n: nat)
    ensures Decimal(Dec(n)) == n
  {
    var s := Dec(n);
    if n >= 10 {
      DecimalOfDec(n / 10);
      assert s[..|s| - 1] == Dec(n / 10);
    } else {
      assert s[..0] == "";
      assert Decimal(s[..0]) == 0;
    }
  }

  /** The loop at connection.c:191-198: `port` after reading all of `s[first..last]`, from its
      last character to its first. */
  method ReadPort(s: string, first: nat, last: nat) returns (port: int)
    requires first <= last <= |s|
    ensures port == Wrap32(Decimal(s[first..last]))
  {
    var base := 1;
    var ch: int := last - 1;
    port := 0;
    while ch >= first
      invariant first - 1 <= ch < last
      invariant port == Wrap32(Decimal(s[ch + 1..last]))
      invariant base == Wrap32(Pow10(last - 1 - ch))
    {
      ghost var t := s[ch + 1..last];
      assert s[ch..last] == [s[ch]] + t;
      DecimalPrepend(s[ch], t);
      WrapStep(Decimal(t), Weight(s[ch]), Pow10(|t|));
      WrapBase(Pow10(|t|));
      port := Wrap32(port + Wrap32(Weight(s[ch]) * base));
      base := Wrap32(base * 10);
      ch := ch - 1;
    }
  }

  lemma {:induction false} Pow10Monotone(j: nat, k: nat)
    requires j <= k
    ensures Pow10(j) <= Pow10(k)
  {
    if j == k {
    } else {
      Pow10Monotone(j, k - 1);
    }
  }

  /** Up to nine digits, neither `port` nor the last `base` ever leaves a 32-bit int. */
  lemma {:induction false} NineDigitsDoNotWrap(t: string, k: nat)
    requires AllDigits(t) && |t| <= 9 && k <= |t|
    ensures FitsInt(Decimal(t[k..])) && Wrap32(Decimal(t[k..])) == Decimal(t[k..])
    ensures FitsInt(Pow10(|t| - k)) && Wrap32(Pow10(|t| - k)) == Pow10(|t| - k)
  {
    DecimalOfDigits(t[k..]);
    Pow10Monotone(|t| - k, 9);
    assert Pow10(9) == 1_000_000_000 by {
      assert Pow10(3) == 1000 && Pow10(6) == 1000 * Pow10(3) && Pow10(9) == 1000 * Pow10(6);
    }
  }

  /** The port number taken from a digit text, if the field is accepted. */
  function AcceptedPort(t: string): Option<int> {
    var port := Wrap32(Decimal(t));
    if ValidPortNumber(port) then Some(port) else None
  }

  /** A value that 32-bit arithmetic folds onto a legal port. */
  predicate FoldsOntoPort(v: int) {
    v >= TWO32 && 1 <= v % TWO32 <= 65535
  }

  /** For digit texts of any length: the field is accepted exactly when the value is a port
      number, unless the value folds onto one; and then, and only then, is it misread. */
  lemma PortAcceptance(t: string)
    requires AllDigits(t)
    ensures !FoldsOntoPort(Decimal(t)) <==>
      AcceptedPort(t) == (if 1 <= Decimal(t) <= 65535 then Some(Decimal(t)) else None)
    ensures FoldsOntoPort(Decimal(t)) <==> AcceptedPort(t).Some? && Decimal(t) > 65535
    ensures |t| <= 9 ==> !FoldsOntoPort(Decimal(t))
  {
    DecimalOfDigits(t);
    if |t| <= 9 {
      NineDigitsDoNotWrap(t, 0);
      assert t[0..] == t;
    }
  }

  /** 2^32 + 22 is taken for the port 22. */
  lemma TenDigitsCanFold()
    ensures AllDigits("4294967318") && AcceptedPort("4294967318") == Some(22)
  {
    DecimalAppend("", '4', "4");
    DecimalAppend("4", '2', "42");
    DecimalAppend("42", '9', "429");
    DecimalAppend("429", '4', "4294");
    DecimalAppend("4294", '9', "42949");
    DecimalAppend("42949", '6', "429496");
    DecimalAppend("429496", '7', "4294967");
    DecimalAppend("4294967", '3', "42949673");
    DecimalAppend("42949673", '1', "429496731");
    DecimalAppend("429496731", '8', "4294967318");
  }

  /** Other characters count as well, by their distance from '0', and a `char` is signed: one
      character is a port from '1' to 127, so that "A" is port 17, and none above. */
  lemma OneCharacterPort(ch: char)
    requires ch as int < 256
    ensures AcceptedPort([ch]) == if 49 <= ch as int < 128 then Some(ch as int - 48) else None
    ensures AcceptedPort("A") == Some(17)
  {
    DecimalAppend("", ch, [ch]);
    DecimalAppend("", 'A', "A");
  }
}
