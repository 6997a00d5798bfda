/** the-drip-dry-carbonite/src/my-kallsyms.c: the symbol that follows the system call table. */
module Kallsyms {

  class SymbolSearch {
    var targetAddress: nat
    var returnNextSymbol: bool

    constructor ()
      ensures targetAddress == 0 && !returnNextSymbol
    {
      targetAddress := 0;
      returnNextSymbol := false;
    }

    /** find_next: the callback; `stop` ends the iteration. */
    method FindNext(target: nat, address: nat) returns (stop: bool)
      modifies this
      ensures stop <==> target != address && old(returnNextSymbol)
      ensures returnNextSymbol == (old(returnNextSymbol) || target == address)
      ensures targetAddress == if stop then address else old(targetAddress)
    {
      if target == address {
        returnNextSymbol := true;
        return false;
      }
      if returnNextSymbol {
        targetAddress := address;
        return true;
      }
      stop := false;
    }

    /** find_next_symbol, over the symbols in the order the kernel walks them. */
    method FindNextSymbol(symbols: seq<nat>, target: nat) returns (next: nat)
      modifies this
      ensures next == NextSymbol(symbols, target, false)
    {
      targetAddress := 0;
      returnNextSymbol := false;
      var i := 0;
      while i < |symbols|
        invariant 0 <= i <= |symbols| && targetAddress == 0
        invariant NextSymbol(symbols[i..], target, returnNextSymbol) == NextSymbol(symbols, target, false)
      {
        assert symbols[i..][1..] == symbols[i + 1..];
        var stop := FindNext(target, symbols[i]);
        if stop {
          break;
        }
        i := i + 1;
      }
      next := targetAddress;
    }
  }

  /** The first address behind the target that differs from it, or 0. */
  function NextSymbol(symbols: seq<nat>, target: nat, found: bool): nat {
    if symbols == [] then 0
    else if symbols[0] == target then NextSymbol(symbols[1..], target, true)
    else if found then symbols[0]
    else NextSymbol(symbols[1..], target, false)
  }

  predicate Ascending(symbols: seq<nat>) {
    forall i, j :: 0 <= i < j < |symbols| ==> symbols[i] <= symbols[j]
  }

  predicate LeastAbove(symbols: seq<nat>, target: nat, a: nat) {
    a in symbols && a > target && forall b :: b in symbols && b > target ==> a <= b
  }

  predicate NoneAbove(symbols: seq<nat>, target: nat) {
    forall b :: b in symbols ==> b <= target
  }

  lemma {:induction false} NextSymbolFrom(symbols: seq<nat>, target: nat, found: bool)
    requires Ascending(symbols)
    requires if found then forall b :: b in symbols ==> target <= b else target in symbols
    ensures var a := NextSymbol(symbols, target, found);
      if NoneAbove(symbols, target) then a == 0 else LeastAbove(symbols, target, a)
  {
    if symbols == [] {
    } else {
      var rest := symbols[1..];
      assert forall b :: b in symbols <==> b == symbols[0] || b in rest;
      assert forall b :: b in rest ==> symbols[0] <= b;
      if symbols[0] == target {
        NextSymbolFrom(rest, target, true);
      } else if !found {
        assert target in rest;
        NextSymbolFrom(rest, target, false);
      } else {
        assert symbols[0] in symbols;
      }
    }
  }

  /** Over symbols in ascending order, duplicates allowed, the search finds the least address
      strictly above the target, or 0 if there is none. */
  lemma NextSymbolIsLeastAbove(symbols: seq<nat>, target: nat)
    requires Ascending(symbols) && target in symbols
    ensures var a := NextSymbol(symbols, target, false);
      if NoneAbove(symbols, target) then a == 0 else LeastAbove(symbols, target, a)
  {
    NextSymbolFrom(symbols, target, false);
  }
}
