/** The comma-separated text of netlog/src/proc_config.c. */
module ConfigText {
  import opened CStrings

  predicate CommaFree(s: string) {
    ',' !in s
  }

  /** The comma-separated segments of a text, in order. */
  function Split(t: string): (ss: seq<string>)
    ensures ss != []
    decreases |t|
  {
    var n := Find(t, 0, {','});
    if n == |t| then [t] else [t[..n]] + Split(t[n + 1..])
  }

  function Join(ss: seq<string>): string
    requires ss != []
  {
    if |ss| == 1 then ss[0] else ss[0] + "," + Join(ss[1..])
  }

  /** The text the buffer should hold: every string followed by a comma. */
  function Mirror(ss: seq<string>): string {
    if ss == [] then "" else ss[0] + "," + Mirror(ss[1..])
  }

  function TrimComma(t: string): string {
    if t != "" && t[|t| - 1] == ',' then t[..|t| - 1] else t
  }

  /** The first segment ends at the first comma. */
  lemma SplitAtComma(u: string)
    ensures var n := Find(u, 0, {','}); Split(u) == [u[..n]] + (if n == |u| then [] else Split(u[n + 1..]))
  {
    var n := Find(u, 0, {','});
    if n == |u| {
      assert u[..n] == u;
    }
  }

  lemma {:induction false} JoinOfSplit(t: string)
    ensures Join(Split(t)) == t
    decreases |t|
  {
    var n := Find(t, 0, {','});
    if n == |t| {
      assert Split(t) == [t];
    } else {
      JoinOfSplit(t[n + 1..]);
      assert Split(t)[1..] == Split(t[n + 1..]);
      assert t == t[..n] + "," + t[n + 1..];
    }
  }

  lemma {:induction false} SplitOfJoin(ss: seq<string>)
    requires ss != [] && forall i :: 0 <= i < |ss| ==> CommaFree(ss[i])
    ensures Split(Join(ss)) == ss
  {
    hide Split, Find;
    var t := Join(ss);
    SplitAtComma(t);
    if |ss| == 1 {
      FindIs(t, 0, {','}, |t|);
      assert t[..|t|] == t;
    } else {
      var n := |ss[0]|;
      assert forall i :: 0 <= i < n ==> t[i] == ss[0][i];
      assert t[n] == ',';
      FindIs(t, 0, {','}, n);
      assert t[..n] == ss[0] && t[n + 1..] == Join(ss[1..]);
      SplitOfJoin(ss[1..]);
    }
  }

  /** Segments have no commas, and no NUL if the text has none. */
  lemma {:induction false} SegmentsAreClean(t: string)
    requires NulFree(t)
    ensures forall i :: 0 <= i < |Split(t)| ==> CommaFree(Split(t)[i]) && NulFree(Split(t)[i])
    decreases |t|
  {
    var n := Find(t, 0, {','});
    assert CommaFree(t[..n]) && NulFree(t[..n]);
    if n == |t| {
      assert Split(t) == [t];
    } else {
      SegmentsAreClean(t[n + 1..]);
    }
  }

  lemma {:induction false} MirrorAppend(ss: seq<string>, s: string)
    ensures Mirror(ss + [s]) == Mirror(ss) + s + ","
  {
    if ss == [] {
      assert ([] + [s])[1..] == [];
    } else {
      MirrorAppend(ss[1..], s);
      assert (ss + [s])[1..] == ss[1..] + [s];
    }
  }

  lemma {:induction false} MirrorIsJoin(ss: seq<string>)
    requires ss != []
    ensures Mirror(ss) == Join(ss) + ","
  {
    if |ss| == 1 {
      assert Mirror(ss[1..]) == "";
    } else {
      MirrorIsJoin(ss[1..]);
    }
  }

  lemma TrimMirror(ss: seq<string>)
    requires ss != []
    ensures TrimComma(Mirror(ss)) == Join(ss)
  {
    MirrorIsJoin(ss);
  }

  lemma {:induction false} MirrorIsNulFree(ss: seq<string>)
    requires forall i :: 0 <= i < |ss| ==> NulFree(ss[i])
    ensures NulFree(Mirror(ss))
  {
    if ss == [] {
    } else {
      MirrorIsNulFree(ss[1..]);
    }
  }

  lemma {:induction false} JoinEndsWithLast(ss: seq<string>)
    requires ss != []
    ensures var t, last := Join(ss), ss[|ss| - 1];
      && |last| <= |t| && t[|t| - |last|..] == last
      && (|ss| > 1 ==> |last| < |t| && t[|t| - |last| - 1] == ',')
  {
    if |ss| == 1 {
    } else {
      JoinEndsWithLast(ss[1..]);
    }
  }

  /** A second read trims nothing further, unless the last string is empty. */
  lemma TrimIsStable(ss: seq<string>)
    requires |ss| > 1 || (|ss| == 1 && ss[0] != "")
    requires forall i :: 0 <= i < |ss| ==> CommaFree(ss[i])
    ensures TrimComma(Join(ss)) == Join(ss) <==> ss[|ss| - 1] != ""
  {
    JoinEndsWithLast(ss);
    var t, last := Join(ss), ss[|ss| - 1];
    if last != "" {
      assert t[|t| - |last|..][|last| - 1] == t[|t| - 1];
    }
  }
}
