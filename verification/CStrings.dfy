/** C strings as the kernel code sees them.  A `char` stands for one byte.  A pointer into
    memory is modelled by the bytes from that pointer on (`mem`); the string it denotes is
    what precedes the first NUL. */
module CStrings {
  import opened Basics

  const NUL: char := '\0'

  predicate NulFree(s: string) {
    NUL !in s
  }

  /** Position of the first character of `stops` from `from` on, or the end of `s`. */
  function Find(s: string, from: nat, stops: set<char>): (n: nat)
    requires from <= |s|
    ensures from <= n <= |s|
    ensures forall i :: from <= i < n ==> s[i] !in stops
    ensures n < |s| ==> s[n] in stops
    decreases |s| - from
  {
    if from == |s| || s[from] in stops then from else Find(s, from + 1, stops)
  }

  lemma FindIs(s: string, from: nat, stops: set<char>, n: nat)
    requires from <= n <= |s|
    requires forall i :: from <= i < n ==> s[i] !in stops
    requires n < |s| ==> s[n] in stops
    ensures Find(s, from, stops) == n
  {
    var f := Find(s, from, stops);
    if f < |s| && n < |s| {
      assert s[f] in stops && s[n] in stops;
    }
  }

  /** The pointer `at` is inside its memory and a NUL lies ahead of it. */
  predicate Terminated(mem: string, at: nat) {
    at <= |mem| && Find(mem, at, {NUL}) < |mem|
  }

  /** The string that starts at the pointer `at`. */
  function CStrAt(mem: string, at: nat): string
    requires at <= |mem|
  {
    mem[at..Find(mem, at, {NUL})]
  }

  function CStr(mem: string): string {
    mem[..Find(mem, 0, {NUL})]
  }

  lemma CStrIs(mem: string, n: nat)
    requires n < |mem| && mem[n] == NUL
    requires forall i :: 0 <= i < n ==> mem[i] != NUL
    ensures Terminated(mem, 0) && CStr(mem) == mem[..n] && NulFree(mem[..n])
  {
    FindIs(mem, 0, {NUL}, n);
  }

  /** A string followed by its terminator and by whatever lies behind it. */
  function Mem(s: string, tail: string): string {
    s + [NUL] + tail
  }

  lemma CStrOfMem(s: string, tail: string)
    requires NulFree(s)
    ensures Terminated(Mem(s, tail), 0) && CStr(Mem(s, tail)) == s
  {
    CStrIs(Mem(s, tail), |s|);
  }

  /** Terminated memory is its string, the terminator and the bytes behind it. */
  lemma MemOfCStr(mem: string)
    requires Terminated(mem, 0)
    ensures |CStr(mem)| < |mem| && NulFree(CStr(mem))
    ensures mem == Mem(CStr(mem), mem[|CStr(mem)| + 1..])
  {
  }

  /** A scan that stops at NUL does not depend on what lies behind the string. */
  lemma FindInString(s: string, tail: string, from: nat, stops: set<char>)
    requires NUL in stops && from <= |s|
    ensures Find(Mem(s, tail), from, stops) == Find(s, from, stops)
  {
    FindIs(Mem(s, tail), from, stops, Find(s, from, stops));
  }

  /** `strncmp(p, q, n) == 0`; both strings end in a NUL that takes part in the comparison. */
  predicate StrnEq(p: string, q: string, n: nat) {
    if n == 0 then true
    else if p == "" || q == "" then p == q
    else p[0] == q[0] && StrnEq(p[1..], q[1..], n - 1)
  }

  /** A bounded comparison decides equality as soon as one side is shorter than the bound. */
  lemma {:induction false} StrnEqIsEquality(p: string, q: string, n: nat)
    requires |p| < n
    ensures StrnEq(p, q, n) <==> p == q
  {
    if p == "" || q == "" {
    } else {
      StrnEqIsEquality(p[1..], q[1..], n - 1);
      assert p == [p[0]] + p[1..] && q == [q[0]] + q[1..];
    }
  }

  /** What `snprintf` leaves in a buffer of `size` bytes, without the terminator. */
  function Snprintf(size: nat, text: string): (r: string)
    ensures r <= text && (|r| == |text| || |r| + 1 == size || size == 0 == |r|)
    ensures |r| < size || size == 0
  {
    if size == 0 then "" else text[..Min(|text|, size - 1)]
  }
}
