/** Unsigned 32-bit words as naturals: shifts, exclusive or, and how many words each mixing
    step of the hash can merge. */
module Words {

  const M32: nat := 0x1_0000_0000

  type word = n: nat | n < 0x1_0000_0000

  function Pow2(k: nat): (p: nat)
    ensures p >= 1
  {
    if k == 0 then 1 else 2 * Pow2(k - 1)
  }

  /** Bit `i` of `n`. */
  function Bit(n: nat, i: nat): (b: nat)
    ensures b < 2
  {
    if i == 0 then n % 2 else Bit(n / 2, i - 1)
  }

  function Xor(a: nat, b: nat): nat
    decreases a + b
  {
    if a == 0 && b == 0 then 0 else (a + b) % 2 + 2 * Xor(a / 2, b / 2)
  }

  function Add(a: word, b: word): word {
    (a + b) % M32
  }

  function Shl(h: word, k: nat): word {
    (h * Pow2(k)) % M32
  }

  lemma MulMonotone(a: nat, b: nat, c: nat)
    requires a <= b
    ensures a * c <= b * c
  {
  }

  lemma DivBounds(n: nat, d: nat)
    requires d > 0
    ensures 0 <= n / d <= n
  {
    assert n == d * (n / d) + n % d;
    if n / d > n {
      MulMonotone(1, d, n / d);
    }
  }

  function Shr(h: word, k: nat): (r: word)
    ensures r <= h
  {
    DivBounds(h, Pow2(k));
    h / Pow2(k)
  }

  // ---------- bits

  lemma LowAndHigh(low: nat, high: nat)
    requires low < 2
    ensures (low + 2 * high) / 2 == high && (low + 2 * high) % 2 == low
  {
  }

  lemma Parity(a: nat, b: nat)
    ensures (a + b) % 2 == (a % 2 + b % 2) % 2
  {
  }

  lemma XorHalves(a: nat, b: nat)
    ensures Xor(a, b) / 2 == Xor(a / 2, b / 2)
    ensures Xor(a, b) % 2 == (a % 2 + b % 2) % 2
  {
    LowAndHigh((a + b) % 2, Xor(a / 2, b / 2));
    Parity(a, b);
  }

  lemma {:induction false} XorBit(a: nat, b: nat, i: nat)
    ensures Bit(Xor(a, b), i) == (Bit(a, i) + Bit(b, i)) % 2
    decreases i
  {
    hide Xor;
    XorHalves(a, b);
    if i == 0 {
    } else {
      XorBit(a / 2, b / 2, i - 1);
    }
  }

  lemma {:induction false} XorBound(a: nat, b: nat, w: nat)
    requires a < Pow2(w) && b < Pow2(w)
    ensures Xor(a, b) < Pow2(w)
    decreases w
  {
    if w == 0 {
    } else {
      XorBound(a / 2, b / 2, w - 1);
    }
  }

  lemma {:induction false} BitsDetermine(a: nat, b: nat, w: nat)
    requires a < Pow2(w) && b < Pow2(w)
    requires forall i :: 0 <= i < w ==> Bit(a, i) == Bit(b, i)
    ensures a == b
  {
    if w == 0 {
    } else {
      forall i | 0 <= i < w - 1
        ensures Bit(a / 2, i) == Bit(b / 2, i)
      {
        assert Bit(a, i + 1) == Bit(a / 2, i) && Bit(b, i + 1) == Bit(b / 2, i);
      }
      BitsDetermine(a / 2, b / 2, w - 1);
      assert Bit(a, 0) == Bit(b, 0);
    }
  }

  lemma {:induction false} BitOfProduct(n: nat, k: nat, i: nat)
    ensures Bit(n * Pow2(k), i) == if i < k then 0 else Bit(n, i - k)
    decreases k
  {
    if k > 0 {
      var m := n * Pow2(k - 1);
      assert n * Pow2(k) == 2 * m;
      if i > 0 {
        BitOfProduct(n, k - 1, i - 1);
      }
    } else {
      assert n * Pow2(0) == n;
    }
  }

  lemma ModUnique(n: nat, m: nat, q: nat, r: nat)
    requires m > 0 && n == m * q + r && r < m
    ensures n / m == q && n % m == r
  {
    var q', r' := n / m, n % m;
    assert n == m * q' + r';
    if q < q' {
      MulMonotone(q + 1, q', m);
    } else if q' < q {
      MulMonotone(q' + 1, q, m);
    }
  }

  lemma HalveMod(n: nat, m: nat)
    requires m > 0
    ensures n % (2 * m) % 2 == n % 2 && n % (2 * m) / 2 == n / 2 % m
  {
    var q, r := n / (2 * m), n % (2 * m);
    assert n == 2 * (m * q) + r by {
      assert (2 * m) * q == 2 * (m * q);
    }
    assert n / 2 == m * q + r / 2;
    ModUnique(n / 2, m, q, r / 2);
  }

  lemma {:induction false} BitOfMod(n: nat, w: nat, i: nat)
    requires i < w
    ensures Bit(n % Pow2(w), i) == Bit(n, i)
    decreases i
  {
    HalveMod(n, Pow2(w - 1));
    if i == 0 {
    } else {
      BitOfMod(n / 2, w - 1, i - 1);
    }
  }

  lemma Pow2Of32()
    ensures Pow2(32) == M32
  {
    assert Pow2(8) == 256;
    assert Pow2(16) == 65536;
    assert Pow2(24) == 16777216;
  }

  lemma BitOfShl(h: word, k: nat, i: nat)
    requires i < 32
    ensures Bit(Shl(h, k), i) == if i < k then 0 else Bit(h, i - k)
  {
    Pow2Of32();
    BitOfMod(h * Pow2(k), 32, i);
    BitOfProduct(h, k, i);
  }

  lemma WordsEqual(a: word, b: word)
    requires forall i :: 0 <= i < 32 ==> Bit(a, i) == Bit(b, i)
    ensures a == b
  {
    Pow2Of32();
    BitsDetermine(a, b, 32);
  }

  // ---------- steps that merge nothing

  function XorWord(a: word, b: word): (r: word) {
    Pow2Of32();
    XorBound(a, b, 32);
    Xor(a, b)
  }

  lemma AddInjective(a: word, b: word, c: word)
    requires Add(a, c) == Add(b, c)
    ensures a == b
  {
  }

  lemma XorInjective(x: word, a: word, b: word)
    requires XorWord(x, a) == XorWord(x, b)
    ensures a == b
  {
    forall i | 0 <= i < 32
      ensures Bit(a, i) == Bit(b, i)
    {
      XorBit(x, a, i);
      XorBit(x, b, i);
    }
    WordsEqual(a, b);
  }

  /** A word is determined by its exclusive or with its own left shift, lowest bit first. */
  lemma {:induction false} ShiftedBitsDetermine(a: word, b: word, k: nat, i: nat)
    requires k >= 1 && i < 32
    requires forall j :: 0 <= j < 32 ==> (Bit(a, j) + Bit(Shl(a, k), j)) % 2 == (Bit(b, j) + Bit(Shl(b, k), j)) % 2
    ensures Bit(a, i) == Bit(b, i)
    decreases i
  {
    hide Bit, Shl;
    BitOfShl(a, k, i);
    BitOfShl(b, k, i);
    if i < k {
    } else {
      ShiftedBitsDetermine(a, b, k, i - k);
    }
  }

  /** h ^= h << k */
  function XorShift(h: word, k: nat): word {
    XorWord(h, Shl(h, k))
  }

  lemma XorShiftInjective(a: word, b: word, k: nat)
    requires k >= 1 && XorShift(a, k) == XorShift(b, k)
    ensures a == b
  {
    forall j | 0 <= j < 32
      ensures (Bit(a, j) + Bit(Shl(a, k), j)) % 2 == (Bit(b, j) + Bit(Shl(b, k), j)) % 2
    {
      XorBit(a, Shl(a, k), j);
      XorBit(b, Shl(b, k), j);
    }
    forall i | 0 <= i < 32
      ensures Bit(a, i) == Bit(b, i)
    {
      ShiftedBitsDetermine(a, b, k, i);
    }
    WordsEqual(a, b);
  }

  /** The main loop's tmp = t ^ h; h = (h << 16) ^ tmp. */
  function Fold(h: word, t: word): word {
    XorWord(Shl(h, 16), XorWord(t, h))
  }

  lemma FoldBit(h: word, t: word, j: nat)
    ensures Bit(Fold(h, t), j) == (Bit(Shl(h, 16), j) + Bit(t, j) + Bit(h, j)) % 2
  {
    hide Bit, Shl, Xor;
    XorBit(t, h, j);
    XorBit(Shl(h, 16), XorWord(t, h), j);
  }

  lemma FoldInjective(a: word, b: word, t: word)
    requires Fold(a, t) == Fold(b, t)
    ensures a == b
  {
    hide Bit, Shl, Fold;
    forall j | 0 <= j < 32
      ensures (Bit(a, j) + Bit(Shl(a, 16), j)) % 2 == (Bit(b, j) + Bit(Shl(b, 16), j)) % 2
    {
      FoldBit(a, t, j);
      FoldBit(b, t, j);
    }
    forall i | 0 <= i < 32
      ensures Bit(a, i) == Bit(b, i)
    {
      ShiftedBitsDetermine(a, b, 16, i);
    }
    WordsEqual(a, b);
  }

  lemma Shl11(v: nat)
    requires v < 0x10000
    ensures Shl(v, 11) == 2048 * v
  {
    assert Pow2(11) == 2048 by {
      assert Pow2(5) == 32;
    }
  }

  lemma {:induction false} XorCommutes(a: nat, b: nat)
    ensures Xor(a, b) == Xor(b, a)
    decreases a + b
  {
    if a == 0 && b == 0 {
    } else {
      XorCommutes(a / 2, b / 2);
    }
  }

  lemma FoldInjectiveInData(h: word, v: nat, w: nat)
    requires v < 0x10000 && w < 0x10000
    requires Fold(h, Shl(v, 11)) == Fold(h, Shl(w, 11))
    ensures v == w
  {
    hide Bit, Shl, Xor;
    XorInjective(Shl(h, 16), XorWord(Shl(v, 11), h), XorWord(Shl(w, 11), h));
    XorCommutes(Shl(v, 11), h);
    XorCommutes(Shl(w, 11), h);
    XorInjective(h, Shl(v, 11), Shl(w, 11));
    Shl11(v);
    Shl11(w);
  }

  lemma XorWordCommutes(a: word, b: word)
    ensures XorWord(a, b) == XorWord(b, a)
  {
    XorCommutes(a, b);
  }

  // ---------- steps that merge at most two words

  /** h += h >> k */
  function AddShift(h: word, k: nat): word {
    Add(h, Shr(h, k))
  }

  predicate Carries(h: word, k: nat) {
    h + Shr(h, k) >= M32
  }

  lemma DivMonotone(a: nat, b: nat, d: nat)
    requires d > 0 && a <= b
    ensures a / d <= b / d
  {
    assert a == d * (a / d) + a % d && b == d * (b / d) + b % d;
    if a / d > b / d {
      MulMonotone(b / d + 1, a / d, d);
    }
  }

  lemma ShrMonotone(a: word, b: word, k: nat)
    requires a <= b
    ensures Shr(a, k) <= Shr(b, k)
  {
    DivMonotone(a, b, Pow2(k));
  }

  /** Two words that the step merges differ in the carry. */
  lemma AddShiftMergesTwo(a: word, b: word, k: nat)
    requires AddShift(a, k) == AddShift(b, k) && Carries(a, k) == Carries(b, k)
    ensures a == b
  {
    hide Shr;
    if a < b {
      ShrMonotone(a, b, k);
    } else {
      ShrMonotone(b, a, k);
    }
  }

  // ---------- counting

  function Image(xs: set<word>, f: word -> word): set<word> {
    set x | x in xs :: f(x)
  }

  lemma {:induction false} InjectiveImage(xs: set<word>, f: word -> word)
    requires forall a, b :: a in xs && b in xs && f(a) == f(b) ==> a == b
    ensures |Image(xs, f)| == |xs|
    decreases |xs|
  {
    if xs == {} {
    } else {
      var x :| x in xs;
      var rest := xs - {x};
      InjectiveImage(rest, f);
      assert Image(xs, f) == Image(rest, f) + {f(x)};
      assert f(x) !in Image(rest, f);
    }
  }

  lemma SubsetCard(a: set<word>, b: set<word>)
    requires a <= b
    ensures |a| <= |b|
  {
    assert b == a + (b - a);
  }

  /** Two words merged by `f` differ in `c`: `f` merges at most two words. */
  lemma TwoToOneImage(xs: set<word>, f: word -> word, c: word -> bool)
    requires forall a, b :: a in xs && b in xs && f(a) == f(b) && c(a) == c(b) ==> a == b
    ensures |xs| <= 2 * |Image(xs, f)|
  {
    var high := set x | x in xs && c(x);
    var low := set x | x in xs && !c(x);
    assert xs == high + low && high !! low;
    InjectiveImage(high, f);
    InjectiveImage(low, f);
    SubsetCard(Image(high, f), Image(xs, f));
    SubsetCard(Image(low, f), Image(xs, f));
  }

  lemma AddShiftImage(xs: set<word>, k: nat)
    ensures |xs| <= 2 * |Image(xs, (h: word) => AddShift(h, k))|
  {
    hide AddShift, Carries, Image;
    forall a, b | AddShift(a, k) == AddShift(b, k) && Carries(a, k) == Carries(b, k)
      ensures a == b
    {
      AddShiftMergesTwo(a, b, k);
    }
    TwoToOneImage(xs, (h: word) => AddShift(h, k), (h: word) => Carries(h, k));
  }
}
