/** the-drip-dry-carbonite/src/super-fast-hash.c: the hash of the system call table, and how
    many tables can share one. */
module FastHash {
  import opened Words

  type byte = n: nat | n < 256

  // ---------- the hash

  /** get16bits, in its unsigned little-endian form. */
  function Get16(d: seq<byte>, at: nat): word
    requires at + 1 < |d|
  {
    var high: nat := d[at + 1];
    256 * high + d[at]
  }

  /** A `char` as an unsigned word: `char` is signed. */
  function SignExtend(b: byte): word {
    if b < 128 then b else M32 - 256 + b
  }

  /** One round of the main loop on the two halfwords of a block. */
  function Block(h: word, lo: word, hi: word): word {
    AddShift(Fold(Add(h, lo), Shl(hi, 11)), 11)
  }

  /** `n` rounds from `at` on. */
  function Blocks(h: word, d: seq<byte>, at: nat, n: nat): word
    requires at + 4 * n <= |d|
    decreases n
  {
    if n == 0 then h else Blocks(Block(h, Get16(d, at), Get16(d, at + 2)), d, at + 4, n - 1)
  }

  /** The up to three bytes behind the last block. */
  function Tail(h: word, d: seq<byte>, at: nat): word
    requires at <= |d| < at + 4
  {
    match |d| - at
    case 3 => AddShift(XorWord(Shl(SignExtend(d[at + 2]), 18), XorShift(Add(h, Get16(d, at)), 16)), 11)
    case 2 => AddShift(XorShift(Add(h, Get16(d, at)), 11), 17)
    case 1 => AddShift(XorShift(Add(h, SignExtend(d[at])), 10), 1)
    case _ => h
  }

  function Avalanche(h: word): word {
    AddShift(XorShift(AddShift(XorShift(AddShift(XorShift(h, 3), 5), 4), 17), 25), 6)
  }

  /** What the hash makes of a loop state with `n` blocks and the tail still to come. */
  function Finish(h: word, d: seq<byte>, at: nat, n: nat): word
    requires at + 4 * n <= |d| < at + 4 * n + 4
  {
    Avalanche(Tail(Blocks(h, d, at, n), d, at + 4 * n))
  }

  function Hash(d: seq<byte>): word
    requires |d| < M32
  {
    if d == [] then 0 else Finish(|d|, d, 0, |d| / 4)
  }

  method SuperFastHash(data: seq<byte>) returns (hash: word)
    requires |data| < M32
    ensures hash == Hash(data)
  {
    hide Block, Add, XorWord, Shl, Shr;
    hash := |data|;
    var len: nat := |data|;
    if len == 0 {
      return 0;
    }
    var rem := len % 4;
    len := len / 4;
    var p := 0;
    while len > 0
      invariant p + 4 * len + rem == |data| && rem < 4
      invariant Blocks(hash, data, p, len) == Blocks(|data|, data, 0, |data| / 4)
    {
      var next := Round(hash, data, p);
      assert Blocks(hash, data, p, len) == Blocks(next, data, p + 4, len - 1);
      hash := next;
      p := p + 4;
      len := len - 1;
    }
    assert p == 4 * (|data| / 4);
    assert hash == Blocks(|data|, data, 0, |data| / 4);
    match rem {
      case 3 =>
        hash := Add(hash, Get16(data, p));
        hash := XorWord(hash, Shl(hash, 16));
        XorWordCommutes(hash, Shl(SignExtend(data[p + 2]), 18));
        hash := XorWord(hash, Shl(SignExtend(data[p + 2]), 18));
        hash := Add(hash, Shr(hash, 11));
      case 2 =>
        hash := Add(hash, Get16(data, p));
        hash := XorWord(hash, Shl(hash, 11));
        hash := Add(hash, Shr(hash, 17));
      case 1 =>
        hash := Add(hash, SignExtend(data[p]));
        hash := XorWord(hash, Shl(hash, 10));
        hash := Add(hash, Shr(hash, 1));
      case _ =>
    }
    hash := Force(hash);
  }

  /** super-fast-hash.c:29-33 */
  method Round(h: word, data: seq<byte>, p: nat) returns (hash: word)
    requires p + 4 <= |data|
    ensures hash == Block(h, Get16(data, p), Get16(data, p + 2))
  {
    hide XorWord, Shl, Shr;
    hash := Add(h, Get16(data, p));
    var tmp := XorWord(Shl(Get16(data, p + 2), 11), hash);
    hash := XorWord(Shl(hash, 16), tmp);
    hash := Add(hash, Shr(hash, 11));
  }

  /** super-fast-hash.c:51-56 */
  method Force(h: word) returns (hash: word)
    ensures hash == Avalanche(h)
  {
    hide XorWord, Shl, Shr, Add;
    hash := XorWord(h, Shl(h, 3));
    hash := Add(hash, Shr(hash, 5));
    hash := XorWord(hash, Shl(hash, 4));
    hash := Add(hash, Shr(hash, 17));
    hash := XorWord(hash, Shl(hash, 25));
    hash := Add(hash, Shr(hash, 6));
  }

  // ---------- how many loop states share a hash

  /** A step that merges nothing followed by one that merges at most two. */
  lemma StepImage(xs: set<word>, f: word -> word, k: nat)
    requires forall a, b :: a in xs && b in xs && f(a) == f(b) ==> a == b
    ensures |xs| <= 2 * |Image(Image(xs, f), (h: word) => AddShift(h, k))|
  {
    hide Image;
    InjectiveImage(xs, f);
    AddShiftImage(Image(xs, f), k);
  }

  lemma XorShiftAddShiftImage(xs: set<word>, j: nat, k: nat) returns (ys: set<word>)
    requires j >= 1
    ensures forall y :: y in ys ==> exists x :: x in xs && y == AddShift(XorShift(x, j), k)
    ensures |xs| <= 2 * |ys|
  {
    hide AddShift, XorShift;
    var f := (h: word) => XorShift(h, j);
    forall a, b | f(a) == f(b)
      ensures a == b
    {
      XorShiftInjective(a, b, j);
    }
    StepImage(xs, f, k);
    ys := Image(Image(xs, f), (h: word) => AddShift(h, k));
  }

  lemma OneImage(xs: set<word>, y: word)
    requires forall x :: x in xs ==> x == y
    ensures |xs| <= 1
  {
    SubsetCard(xs, {y});
  }

  /** At most eight words have the same avalanche. */
  lemma AvalancheBound(xs: set<word>, y: word)
    requires forall h :: h in xs ==> Avalanche(h) == y
    ensures |xs| <= 8
  {
    hide AddShift, XorShift;
    var us := XorShiftAddShiftImage(xs, 3, 5);
    var vs := XorShiftAddShiftImage(us, 4, 17);
    var zs := XorShiftAddShiftImage(vs, 25, 6);
    forall c | c in zs
      ensures c == y
    {
      var b :| b in vs && c == AddShift(XorShift(b, 25), 6);
      var a :| a in us && b == AddShift(XorShift(a, 4), 17);
      var x :| x in xs && a == AddShift(XorShift(x, 3), 5);
      assert Avalanche(x) == y;
    }
    OneImage(zs, y);
  }

  lemma BeforeShiftInjective(a: word, b: word, d: seq<byte>, at: nat)
    requires at < |d| < at + 4 && BeforeShift(a, d, at) == BeforeShift(b, d, at)
    ensures a == b
  {
    hide XorShift, XorWord, Add, Get16, SignExtend, Shl;
    match |d| - at {
      case 3 =>
        var lo := Get16(d, at);
        XorInjective(Shl(SignExtend(d[at + 2]), 18), XorShift(Add(a, lo), 16), XorShift(Add(b, lo), 16));
        XorShiftInjective(Add(a, lo), Add(b, lo), 16);
        AddInjective(a, b, lo);
      case 2 =>
        XorShiftInjective(Add(a, Get16(d, at)), Add(b, Get16(d, at)), 11);
        AddInjective(a, b, Get16(d, at));
      case _ =>
        XorShiftInjective(Add(a, SignExtend(d[at])), Add(b, SignExtend(d[at])), 10);
        AddInjective(a, b, SignExtend(d[at]));
    }
  }

  /** A tail of one to three bytes merges at most two states. */
  lemma TailBound(xs: set<word>, d: seq<byte>, at: nat, y: word)
    requires at <= |d| < at + 4
    requires forall h :: h in xs ==> Avalanche(Tail(h, d, at)) == y
    ensures |xs| <= if at == |d| then 8 else 16
  {
    hide AddShift, XorShift, Avalanche, XorWord, Add, Get16, SignExtend, Shl;
    if at == |d| {
      AvalancheBound(xs, y);
    } else {
      var k := match |d| - at case 3 => 11 case 2 => 17 case _ => 1;
      var f := (h: word) => BeforeShift(h, d, at);
      forall a, b | f(a) == f(b)
        ensures a == b
      {
        BeforeShiftInjective(a, b, d, at);
      }
      StepImage(xs, f, k);
      var ys := Image(Image(xs, f), (h: word) => AddShift(h, k));
      forall z | z in ys
        ensures Avalanche(z) == y
      {
        var x :| x in xs && z == AddShift(f(x), k);
        assert Tail(x, d, at) == z;
      }
      AvalancheBound(ys, y);
    }
  }

  /** The tail up to its last addition. */
  function BeforeShift(h: word, d: seq<byte>, at: nat): word
    requires at < |d| < at + 4
  {
    match |d| - at
    case 3 => XorWord(Shl(SignExtend(d[at + 2]), 18), XorShift(Add(h, Get16(d, at)), 16))
    case 2 => XorShift(Add(h, Get16(d, at)), 11)
    case _ => XorShift(Add(h, SignExtend(d[at])), 10)
  }

  /** Preimage bound: with `n` fixed blocks to come, at most 2^(n+3) loop states lead to one
      hash; one factor of two more if bytes are left behind the last block. */
  lemma {:induction false} PreimageBound(xs: set<word>, d: seq<byte>, at: nat, n: nat, y: word)
    requires at + 4 * n <= |d| < at + 4 * n + 4
    requires forall h :: h in xs ==> Finish(h, d, at, n) == y
    ensures |xs| <= Pow2(n + 3) * (if at + 4 * n == |d| then 1 else 2)
    decreases n
  {
    hide AddShift, Avalanche, Tail, Get16, Fold, Add, Shl;
    if n == 0 {
      assert Pow2(3) == 8;
      TailBound(xs, d, at, y);
    } else {
      var lo, hi := Get16(d, at), Get16(d, at + 2);
      var f := (h: word) => Fold(Add(h, lo), Shl(hi, 11));
      forall a, b | f(a) == f(b)
        ensures a == b
      {
        FoldInjective(Add(a, lo), Add(b, lo), Shl(hi, 11));
        AddInjective(a, b, lo);
      }
      StepImage(xs, f, 11);
      var ys := Image(Image(xs, f), (h: word) => AddShift(h, 11));
      forall z | z in ys
        ensures Finish(z, d, at + 4, n - 1) == y
      {
        var x :| x in xs && z == AddShift(f(x), 11);
        assert z == Block(x, lo, hi);
        assert Finish(x, d, at, n) == y;
      }
      PreimageBound(ys, d, at + 4, n - 1, y);
    }
  }

  // ---------- how many values of one halfword share a hash

  /** The data with the halfword at `p` replaced. */
  function SetHalf(d: seq<byte>, p: nat, w: nat): (r: seq<byte>)
    requires p + 2 <= |d| && w < 0x10000
    ensures |r| == |d|
  {
    d[p := w % 256][p + 1 := w / 256]
  }

  lemma Get16OfSetHalf(d: seq<byte>, p: nat, w: nat)
    requires p + 2 <= |d| && w < 0x10000
    ensures Get16(SetHalf(d, p, w), p) == w
  {
  }

  lemma {:induction false} BlocksAgree(h: word, d: seq<byte>, e: seq<byte>, at: nat, n: nat)
    requires |d| == |e| && at + 4 * n <= |d|
    requires forall i :: at <= i < at + 4 * n ==> d[i] == e[i]
    ensures Blocks(h, d, at, n) == Blocks(h, e, at, n)
    decreases n
  {
    hide Block;
    if n == 0 {
    } else {
      BlocksAgree(Block(h, Get16(d, at), Get16(d, at + 2)), d, e, at + 4, n - 1);
    }
  }

  lemma {:induction false} BlocksSplit(h: word, d: seq<byte>, at: nat, j: nat, n: nat)
    requires j <= n && at + 4 * n <= |d|
    ensures Blocks(h, d, at, n) == Blocks(Blocks(h, d, at, j), d, at + 4 * j, n - j)
    decreases j
  {
    hide Block, Get16;
    if j == 0 {
    } else {
      BlocksSplit(Block(h, Get16(d, at), Get16(d, at + 2)), d, at + 4, j - 1, n - 1);
    }
  }

  lemma FinishAgrees(h: word, d: seq<byte>, e: seq<byte>, at: nat, n: nat)
    requires |d| == |e| && at + 4 * n <= |d| < at + 4 * n + 4
    requires forall i :: at <= i < |d| ==> d[i] == e[i]
    ensures Finish(h, d, at, n) == Finish(h, e, at, n)
  {
    hide Blocks, Avalanche, AddShift, XorShift, XorWord, SignExtend, Shl, Add;
    BlocksAgree(h, d, e, at, n);
  }

  /** The hash goes through the round that reads the halfword at `p`, in block `b`. */
  lemma HashThroughBlock(d: seq<byte>, b: nat)
    requires 4 * b + 4 <= |d| < M32
    ensures var h := Blocks(|d|, d, 0, b);
      Hash(d) == Finish(Block(h, Get16(d, 4 * b), Get16(d, 4 * b + 2)), d, 4 * b + 4, |d| / 4 - b - 1)
  {
    hide Block, Avalanche, Tail, Get16;
    BlocksSplit(|d|, d, 0, b, |d| / 4);
  }

  /** The state before the addition that ends the round, as a function of the halfword. */
  function HalfState(h: word, d: seq<byte>, p: nat, w: word): word
    requires p % 4 == 0 || p % 4 == 2
    requires p - p % 4 + 4 <= |d|
  {
    if p % 4 == 0 then Fold(Add(h, w), Shl(Get16(d, p + 2), 11))
    else Fold(Add(h, Get16(d, p - 2)), Shl(w, 11))
  }

  lemma AddCommutes(a: word, b: word)
    ensures Add(a, b) == Add(b, a)
  {
  }

  lemma HalfStateInjective(h: word, d: seq<byte>, p: nat, v: word, w: word)
    requires (p % 4 == 0 || p % 4 == 2) && p - p % 4 + 4 <= |d| && v < 0x10000 && w < 0x10000
    requires HalfState(h, d, p, v) == HalfState(h, d, p, w)
    ensures v == w
  {
    hide Fold, Shl, Get16;
    if p % 4 == 0 {
      FoldInjective(Add(h, v), Add(h, w), Shl(Get16(d, p + 2), 11));
      AddCommutes(h, v);
      AddCommutes(h, w);
      AddInjective(v, w, h);
    } else {
      FoldInjectiveInData(Add(h, Get16(d, p - 2)), v, w);
    }
  }

  lemma SetHalfFrame(d: seq<byte>, p: nat, w: nat)
    requires p + 2 <= |d| && w < 0x10000
    ensures forall i :: 0 <= i < |d| && i != p && i != p + 1 ==> SetHalf(d, p, w)[i] == d[i]
  {
  }

  lemma BlockOfSetHalf(h: word, d: seq<byte>, p: nat, b: nat, w: nat)
    requires (p == 4 * b || p == 4 * b + 2) && 4 * b + 4 <= |d| && w < 0x10000
    ensures var e := SetHalf(d, p, w);
      Block(h, Get16(e, 4 * b), Get16(e, 4 * b + 2)) == AddShift(HalfState(h, d, p, w), 11)
  {
    hide Fold, Shl, Add, AddShift;
    Get16OfSetHalf(d, p, w);
    var e := SetHalf(d, p, w);
    if p == 4 * b {
      assert Get16(e, p + 2) == Get16(d, p + 2);
    } else {
      assert Get16(e, p - 2) == Get16(d, p - 2);
    }
  }

  lemma HashOfSetHalf(d: seq<byte>, p: nat, w: nat)
    requires (p % 4 == 0 || p % 4 == 2) && p - p % 4 + 4 <= |d| < M32 && w < 0x10000
    ensures var b := p / 4; var h := Blocks(|d|, d, 0, b);
      Hash(SetHalf(d, p, w)) == Finish(AddShift(HalfState(h, d, p, w), 11), d, 4 * b + 4, |d| / 4 - b - 1)
  {
    hide Fold, Shl, Add, AddShift, Finish, Hash, Block, HalfState, SetHalf, Get16, Blocks;
    var b, e := p / 4, SetHalf(d, p, w);
    assert p == 4 * b + p % 4;
    SetHalfFrame(d, p, w);
    HashThroughBlock(e, b);
    BlocksAgree(|d|, d, e, 0, b);
    var h := Blocks(|d|, d, 0, b);
    BlockOfSetHalf(h, d, p, b, w);
    FinishAgrees(AddShift(HalfState(h, d, p, w), 11), e, d, 4 * b + 4, |d| / 4 - b - 1);
  }

  /** Of the 65536 values of one halfword, at most 2^(m+4) share a hash when m blocks follow its
      block; one factor of two more if bytes are left behind the last block. */
  lemma HalfwordCollisions(d: seq<byte>, p: nat, ws: set<word>, y: word)
    requires (p % 4 == 0 || p % 4 == 2) && p - p % 4 + 4 <= |d| < M32
    requires forall w :: w in ws ==> w < 0x10000 && Hash(SetHalf(d, p, w)) == y
    ensures |ws| <= Pow2(|d| / 4 - p / 4 - 1 + 4) * (if |d| % 4 == 0 then 1 else 2)
  {
    hide Hash, Finish, Fold, Shl, Add, AddShift, HalfState, SetHalf;
    var b, m := p / 4, |d| / 4 - p / 4 - 1;
    var h := Blocks(|d|, d, 0, b);
    var f := (w: word) => HalfState(h, d, p, w);
    forall v, w | v in ws && w in ws && f(v) == f(w)
      ensures v == w
    {
      HalfStateInjective(h, d, p, v, w);
    }
    StepImage(ws, f, 11);
    var ys := Image(Image(ws, f), (s: word) => AddShift(s, 11));
    forall z | z in ys
      ensures Finish(z, d, 4 * b + 4, m) == y
    {
      var w :| w in ws && z == AddShift(f(w), 11);
      HashOfSetHalf(d, p, w);
    }
    PreimageBound(ys, d, 4 * b + 4, m, y);
    assert Pow2(m + 4) == 2 * Pow2(m + 3);
  }

  /** At most 16 of the 65536 values of the last halfword share a hash. */
  lemma LastHalfwordCollisions(d: seq<byte>, ws: set<word>, y: word)
    requires 4 <= |d| < M32 && |d| % 4 == 0
    requires forall w :: w in ws ==> w < 0x10000 && Hash(SetHalf(d, |d| - 2, w)) == y
    ensures |ws| <= 16
  {
    hide Hash, SetHalf;
    HalfwordCollisions(d, |d| - 2, ws, y);
    assert Pow2(4) == 16;
  }
}
