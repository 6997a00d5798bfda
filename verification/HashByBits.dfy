/** The hash once more, from bits and plain arithmetic: what each exclusive or, shift and sum of
    the-drip-dry-carbonite/src/super-fast-hash.c means, with the amounts written out. */
module HashByBits {
  import opened Words
  import opened FastHash

  // ---------- operations

  /** Exclusive or, bit by bit. */
  predicate IsXor(a: nat, b: nat, r: word) {
    forall i :: 0 <= i < 32 ==> Bit(r, i) == (Bit(a, i) + Bit(b, i)) % 2
  }

  /** `a + b` in 32 bits. */
  function Sum(a: int, b: int): word {
    (a + b) % 0x1_0000_0000
  }

  /** `a << k` in 32 bits, where `factor` is the k-th power of 2. */
  function Times(a: nat, factor: nat): word {
    a * factor % 0x1_0000_0000
  }

  lemma XorWordIsXor(a: word, b: word)
    ensures IsXor(a, b, XorWord(a, b)) && IsXor(b, a, XorWord(a, b))
  {
    hide Bit, Xor;
    forall i | 0 <= i < 32
      ensures Bit(XorWord(a, b), i) == (Bit(a, i) + Bit(b, i)) % 2
    {
      XorBit(a, b, i);
    }
  }

  /** There is one exclusive or. */
  lemma IsXorOnce(a: nat, b: nat, r: word, s: word)
    requires IsXor(a, b, r) && IsXor(a, b, s)
    ensures r == s
  {
    hide Bit;
    WordsEqual(r, s);
  }

  lemma Powers()
    ensures Pow2(1) == 2 && Pow2(3) == 8 && Pow2(4) == 16 && Pow2(5) == 32 && Pow2(6) == 64
    ensures Pow2(10) == 1024 && Pow2(11) == 2048 && Pow2(16) == 65536
    ensures Pow2(17) == 131072 && Pow2(18) == 262144 && Pow2(25) == 33554432
  {
    assert Pow2(8) == 256;
    assert Pow2(14) == 16384;
    assert Pow2(21) == 2097152;
  }

  // ---------- the steps of the hash

  /** super-fast-hash.c:29-33, on the two halfwords of a block. */
  ghost predicate Mixes(h: word, lo: nat, hi: nat, r: word) {
    exists tmp: word, mixed: word :: MixesBy(h, lo, hi, tmp, mixed) && r == Sum(mixed, mixed / 2048)
  }

  predicate MixesBy(h: word, lo: nat, hi: nat, tmp: word, mixed: word) {
    IsXor(Times(hi, 2048), Sum(h, lo), tmp) && IsXor(Times(Sum(h, lo), 65536), tmp, mixed)
  }

  lemma BlockMixes(h: word, lo: word, hi: word, r: word)
    ensures Mixes(h, lo, hi, r) <==> r == Block(h, lo, hi)
  {
    hide XorWord, IsXor;
    Powers();
    var t := Add(h, lo);
    var tmp := XorWord(Shl(hi, 11), t);
    var mixed := XorWord(Shl(t, 16), tmp);
    XorWordIsXor(Shl(hi, 11), t);
    XorWordIsXor(Shl(t, 16), tmp);
    assert MixesBy(h, lo, hi, tmp, mixed);
    if Mixes(h, lo, hi, r) {
      var u: word, v: word :| MixesBy(h, lo, hi, u, v) && r == Sum(v, v / 2048);
      IsXorOnce(Times(hi, 2048), Sum(h, lo), tmp, u);
      IsXorOnce(Times(Sum(h, lo), 65536), tmp, mixed, v);
    }
  }

  /** The word that a signed `char` becomes. */
  function Signed(b: byte): nat {
    if b < 128 then b else 0xFFFF_FF00 + b
  }

  /** super-fast-hash.c:36-48: with three bytes left over. */
  ghost predicate EndsThree(h: word, lo: nat, b: byte, r: word) {
    exists x: word, y: word :: EndsThreeBy(Sum(h, lo), b, x, y) && r == Sum(y, y / 2048)
  }

  predicate EndsThreeBy(a: word, b: byte, x: word, y: word) {
    IsXor(a, Times(a, 65536), x) && IsXor(x, Times(Signed(b), 262144), y)
  }

  /** With two bytes left over, or with one: the shifts are by k and l. */
  ghost predicate EndsShort(a: word, left: nat, right: nat, r: word)
    requires right > 0
  {
    exists x: word :: IsXor(a, Times(a, left), x) && r == Sum(x, x / right)
  }

  lemma ShlIsTimes(a: word, k: nat)
    ensures Shl(a, k) == Times(a, Pow2(k))
  {
  }

  lemma AddShiftIsSum(x: word, l: nat)
    ensures AddShift(x, l) == Sum(x, x / Pow2(l))
  {
  }

  lemma ShortIs(a: word, k: nat, l: nat, r: word)
    ensures EndsShort(a, Pow2(k), Pow2(l), r) <==> r == AddShift(XorShift(a, k), l)
  {
    hide XorWord, IsXor, Pow2, Shl, Shr, Times, Sum, Add;
    var x := XorShift(a, k);
    ShlIsTimes(a, k);
    AddShiftIsSum(x, l);
    XorWordIsXor(a, Shl(a, k));
    assert IsXor(a, Times(a, Pow2(k)), x);
    if EndsShort(a, Pow2(k), Pow2(l), r) {
      var u: word :| IsXor(a, Times(a, Pow2(k)), u) && r == Sum(u, u / Pow2(l));
      IsXorOnce(a, Times(a, Pow2(k)), x, u);
    }
  }

  lemma ThreeIs(h: word, lo: word, b: byte, r: word)
    ensures EndsThree(h, lo, b, r) <==>
      r == AddShift(XorWord(Shl(SignExtend(b), 18), XorShift(Add(h, lo), 16)), 11)
  {
    hide XorWord, IsXor;
    Powers();
    var a := Add(h, lo);
    var x := XorShift(a, 16);
    var y := XorWord(Shl(SignExtend(b), 18), x);
    XorWordIsXor(a, Shl(a, 16));
    XorWordIsXor(Shl(SignExtend(b), 18), x);
    assert EndsThreeBy(Sum(h, lo), b, x, y);
    if EndsThree(h, lo, b, r) {
      var u: word, v: word :| EndsThreeBy(Sum(h, lo), b, u, v) && r == Sum(v, v / 2048);
      IsXorOnce(a, Times(a, 65536), x, u);
      IsXorOnce(x, Times(Signed(b), 262144), y, v);
    }
  }

  /** The two bytes at `at`, the lower one first. */
  function Pair(d: seq<byte>, at: nat): nat
    requires at + 1 < |d|
  {
    var low: nat, high: nat := d[at], d[at + 1];
    low + 256 * high
  }

  ghost predicate Ends(h: word, d: seq<byte>, at: nat, r: word)
    requires at <= |d| < at + 4
  {
    match |d| - at
    case 3 => EndsThree(h, Pair(d, at), d[at + 2], r)
    case 2 => EndsShort(Sum(h, Pair(d, at)), 2048, 131072, r)
    case 1 => EndsShort(Sum(h, Signed(d[at])), 1024, 2, r)
    case _ => r == h
  }

  lemma TailEnds(h: word, d: seq<byte>, at: nat, r: word)
    requires at <= |d| < at + 4
    ensures Ends(h, d, at, r) <==> r == Tail(h, d, at)
  {
    hide EndsThree, EndsShort, AddShift, XorShift, XorWord;
    Powers();
    match |d| - at
    case 3 => ThreeIs(h, Get16(d, at), d[at + 2], r);
    case 2 => ShortIs(Add(h, Get16(d, at)), 11, 17, r);
    case 1 => ShortIs(Add(h, SignExtend(d[at])), 10, 1, r);
    case _ =>
  }

  /** super-fast-hash.c:51-56 */
  ghost predicate Forces(h: word, r: word) {
    exists x: word, y: word :: EndsShort(h, 8, 32, x) && EndsShort(x, 16, 131072, y) && EndsShort(y, 33554432, 64, r)
  }

  lemma AvalancheForces(h: word, r: word)
    ensures Forces(h, r) <==> r == Avalanche(h)
  {
    hide EndsShort, AddShift, XorShift;
    Powers();
    var x := AddShift(XorShift(h, 3), 5);
    var y := AddShift(XorShift(x, 4), 17);
    ShortIs(h, 3, 5, x);
    ShortIs(x, 4, 17, y);
    ShortIs(y, 25, 6, r);
    if Forces(h, r) {
      var u: word, v: word :| EndsShort(h, 8, 32, u) && EndsShort(u, 16, 131072, v) && EndsShort(v, 33554432, 64, r);
      ShortIs(h, 3, 5, u);
      ShortIs(x, 4, 17, v);
    }
  }

  // ---------- the whole hash

  /** The states of the loop: the length, and one more for each block of four bytes. */
  ghost predicate Loops(d: seq<byte>, hs: seq<word>) {
    && |hs| == |d| / 4 + 1 && hs[0] == |d|
    && forall i :: 0 <= i < |d| / 4 ==> LoopsAt(d, hs, i)
  }

  ghost predicate LoopsAt(d: seq<byte>, hs: seq<word>, i: nat)
    requires 4 * i + 3 < |d| && i + 1 < |hs|
  {
    Mixes(hs[i], Pair(d, 4 * i), Pair(d, 4 * i + 2), hs[i + 1])
  }

  ghost predicate IsHash(d: seq<byte>, r: word) {
    if d == [] then r == 0
    else exists hs: seq<word>, e: word :: Loops(d, hs) && Ends(hs[|d| / 4], d, 4 * (|d| / 4), e) && Forces(e, r)
  }

  lemma NextBlocks(d: seq<byte>, i: nat, r: word)
    requires 4 * i + 3 < |d| < M32
    ensures Mixes(Blocks(|d|, d, 0, i), Pair(d, 4 * i), Pair(d, 4 * i + 2), r) <==> r == Blocks(|d|, d, 0, i + 1)
  {
    hide Block, Mixes;
    BlocksSplit(|d|, d, 0, i, i + 1);
    var h := Blocks(|d|, d, 0, i);
    assert Blocks(h, d, 4 * i, 1) == Block(h, Get16(d, 4 * i), Get16(d, 4 * i + 2));
    BlockMixes(h, Get16(d, 4 * i), Get16(d, 4 * i + 2), r);
  }

  lemma {:induction false} LoopIsBlocks(d: seq<byte>, hs: seq<word>, i: nat)
    requires |d| < M32 && Loops(d, hs) && i <= |d| / 4
    ensures hs[i] == Blocks(|d|, d, 0, i)
  {
    hide Mixes, Block;
    if i == 0 {
    } else {
      LoopIsBlocks(d, hs, i - 1);
      assert LoopsAt(d, hs, i - 1);
      NextBlocks(d, i - 1, hs[i]);
    }
  }

  lemma NoBlocks(d: seq<byte>)
    requires |d| < M32
    ensures Blocks(|d|, d, 0, 0) == |d|
  {
  }

  lemma BlocksLoop(d: seq<byte>) returns (hs: seq<word>)
    requires |d| < M32
    ensures Loops(d, hs) && hs[|d| / 4] == Blocks(|d|, d, 0, |d| / 4)
  {
    hide Mixes, Block, Blocks;
    hs := seq(|d| / 4 + 1, i requires 0 <= i <= |d| / 4 => Blocks(|d|, d, 0, i));
    assert hs[0] == |d| by {
      NoBlocks(d);
    }
    forall i | 0 <= i < |d| / 4
      ensures LoopsAt(d, hs, i)
    {
      NextBlocks(d, i, hs[i + 1]);
    }
  }

  /** For every input of every length, SuperFastHash is what its exclusive ors, shifts and sums say
      bit by bit, and nothing else. */
  lemma HashIsByBits(d: seq<byte>, r: word)
    requires |d| < M32
    ensures IsHash(d, r) <==> r == Hash(d)
  {
    hide Blocks, Tail, Avalanche, Ends, Forces, LoopsAt;
    if d != [] {
      var n := |d| / 4;
      var hs := BlocksLoop(d);
      var e := Tail(hs[n], d, 4 * n);
      TailEnds(hs[n], d, 4 * n, e);
      AvalancheForces(e, r);
      if IsHash(d, r) {
        var gs: seq<word>, f: word :| Loops(d, gs) && Ends(gs[n], d, 4 * n, f) && Forces(f, r);
        LoopIsBlocks(d, gs, n);
        TailEnds(gs[n], d, 4 * n, f);
      }
    }
  }
}
