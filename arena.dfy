/** The kernel-item arena: one flat buffer split into a fixed region per
    symbol, sized by counting each symbol's occurrences in the rule items. */
module KernelArena {
  import opened Grammars

  /** Occurrences of symbol `s` among the first `n` items. */
  function SymbolCount(g: Grammar, s: int, n: nat): nat
    requires n <= |g.ritem|
  {
    if n == 0 then 0 else SymbolCount(g, s, n - 1) + if g.ritem[n - 1] == s then 1 else 0
  }

  /** Items among the first `n` that hold a symbol rather than an end of rule. */
  function SymbolItems(g: Grammar, n: nat): nat
    requires n <= |g.ritem|
  {
    if n == 0 then 0 else SymbolItems(g, n - 1) + if g.ritem[n - 1] >= 0 then 1 else 0
  }

  /** Items among the first `n` whose symbol is below `m`. */
  function ItemsBelow(g: Grammar, m: int, n: nat): nat
    requires n <= |g.ritem|
  {
    if n == 0 then 0 else ItemsBelow(g, m, n - 1) + if 0 <= g.ritem[n - 1] < m then 1 else 0
  }

  lemma {:induction false} SymbolCountMonotone(g: Grammar, s: int, m: nat, n: nat)
    requires m <= n <= |g.ritem|
    ensures SymbolCount(g, s, m) <= SymbolCount(g, s, n)
    decreases n
  {
    if m < n {
      SymbolCountMonotone(g, s, m, n - 1);
    }
  }

  /** The start of symbol `s`'s region: the counts of all smaller symbols. */
  function Base(g: Grammar, s: nat): nat
    requires |g.ritem| == g.nitems
  {
    if s == 0 then 0 else Base(g, s - 1) + SymbolCount(g, s - 1, g.nitems)
  }

  lemma {:induction false} ItemsBelowStep(g: Grammar, m: nat, n: nat)
    requires n <= |g.ritem|
    ensures ItemsBelow(g, m + 1, n) == ItemsBelow(g, m, n) + SymbolCount(g, m, n)
  {
    if n > 0 {
      ItemsBelowStep(g, m, n - 1);
    }
  }

  /** The regions of symbols below `m` exactly cover the items whose symbol
      is below `m`. */
  lemma {:induction false} BaseCovers(g: Grammar, m: nat)
    requires |g.ritem| == g.nitems
    ensures Base(g, m) == ItemsBelow(g, m, g.nitems)
  {
    if m == 0 {
      ItemsBelowZero(g, g.nitems);
    } else {
      BaseCovers(g, m - 1);
      ItemsBelowStep(g, m - 1, g.nitems);
    }
  }

  lemma {:induction false} ItemsBelowZero(g: Grammar, n: nat)
    requires n <= |g.ritem|
    ensures ItemsBelow(g, 0, n) == 0
  {
    if n > 0 {
      ItemsBelowZero(g, n - 1);
    }
  }

  lemma {:induction false} ItemsBelowAll(g: Grammar, n: nat)
    requires WellFormed(g) && n <= g.nitems
    ensures ItemsBelow(g, g.nsyms, n) == SymbolItems(g, n)
  {
    if n > 0 {
      ItemsBelowAll(g, n - 1);
    }
  }

  /** Regions are laid out in symbol order without gaps, so a region ends no
      later than the next symbol's region begins. */
  lemma {:induction false} BaseMonotone(g: Grammar, s: nat, t: nat)
    requires |g.ritem| == g.nitems && s < t
    ensures Base(g, s) + SymbolCount(g, s, g.nitems) <= Base(g, t)
    decreases t
  {
    if s + 1 < t {
      BaseMonotone(g, s, t - 1);
    }
  }

  /** The facts about the region layout that the arena setup promises. */
  lemma RegionsDisjoint(g: Grammar)
    requires WellFormed(g)
    ensures Base(g, g.nsyms) == SymbolItems(g, g.nitems)
    ensures forall s, t :: 0 <= s < t < g.nsyms ==>
              Base(g, s) + SymbolCount(g, s, g.nitems) <= Base(g, t)
    ensures forall s :: 0 <= s < g.nsyms ==>
              Base(g, s) + SymbolCount(g, s, g.nitems) <= SymbolItems(g, g.nitems)
  {
    BaseCovers(g, g.nsyms);
    ItemsBelowAll(g, g.nitems);
    forall s, t | 0 <= s < t <= g.nsyms
      ensures Base(g, s) + SymbolCount(g, s, g.nitems) <= Base(g, t)
    {
      BaseMonotone(g, s, t);
    }
  }

  /** The arena setup inline in `compute_lr0`: count each symbol's
      occurrences, then take the prefix sums as region bases.  The regions
      are disjoint and lie inside the buffer of `kernelItemsCount` entries. */
  method AllocateKernelArena(g: Grammar) returns (kernelBase: seq<int>, kernelItemsCount: nat)
    requires WellFormed(g)
    ensures |kernelBase| == g.nsyms
    ensures forall s :: 0 <= s < g.nsyms ==> kernelBase[s] == Base(g, s)
    ensures kernelItemsCount == SymbolItems(g, g.nitems)
    ensures forall s, t :: 0 <= s < t < g.nsyms ==>
              kernelBase[s] + SymbolCount(g, s, g.nitems) <= kernelBase[t]
    ensures forall s :: 0 <= s < g.nsyms ==>
              0 <= kernelBase[s] && kernelBase[s] + SymbolCount(g, s, g.nitems) <= kernelItemsCount
  {
    var symbolCount;
    symbolCount, kernelItemsCount := CountSymbols(g);
    var bases := new int[g.nsyms](_ => 0);
    var count := 0;
    var i := 0;
    while i < g.nsyms
      invariant 0 <= i <= g.nsyms
      invariant count == Base(g, i)
      invariant forall s {:trigger bases[s]} :: 0 <= s < i ==> bases[s] == Base(g, s)
    {
      bases[i] := count;
      count := count + symbolCount[i];
      i := i + 1;
    }
    kernelBase := bases[..];
    RegionsDisjoint(g);
  }

  /** The counting pass: one sweep over the items tallies each symbol and
      the number of symbol items. */
  method CountSymbols(g: Grammar) returns (symbolCount: seq<int>, kernelItemsCount: nat)
    requires WellFormed(g)
    ensures |symbolCount| == g.nsyms
    ensures forall s :: 0 <= s < g.nsyms ==> symbolCount[s] == SymbolCount(g, s, g.nitems)
    ensures kernelItemsCount == SymbolItems(g, g.nitems)
  {
    kernelItemsCount := 0;
    var counts := new int[g.nsyms](_ => 0);
    var i := 0;
    while i < g.nitems
      invariant 0 <= i <= g.nitems
      invariant kernelItemsCount == SymbolItems(g, i)
      invariant forall s :: 0 <= s < g.nsyms ==> counts[s] == SymbolCount(g, s, i)
    {
      var symbol := g.ritem[i];
      if symbol >= 0 {
        kernelItemsCount := kernelItemsCount + 1;
        counts[symbol] := counts[symbol] + 1;
      }
      i := i + 1;
    }
    symbolCount := counts[..];
  }
}
